/**
 * The four naming-template renderers: the directory and the file mask of a
 * standard (season/episode) episode and of a daily (year/month/day) one.
 * Each takes the directory or file-name half of `root + "\" + template` and
 * runs a fixed list of `Replace` calls over it, in the order the program does.
 */
module Naming {
  import opened Text
  import opened Numbers
  import opened Template
  import Settings
  import Sanitizer

  predicate IsSeparator(c: char) {
    c == '\\' || c == '/'
  }

  predicate NoSeparator(s: string) {
    forall i :: 0 <= i < |s| ==> !IsSeparator(s[i])
  }

  /** The position of the last directory separator, or -1 when there is none. */
  function LastSeparator(p: string): (r: int)
    ensures -1 <= r < |p|
    ensures r >= 0 ==> IsSeparator(p[r])
    ensures forall i :: r < i < |p| ==> !IsSeparator(p[i])
    decreases |p|
  {
    if |p| == 0 then -1
    else if IsSeparator(p[|p| - 1]) then |p| - 1
    else LastSeparator(p[..|p| - 1])
  }

  /** `Path.GetDirectoryName`: the text before the last separator. */
  function DirectoryName(p: string): string {
    var k := LastSeparator(p);
    if k < 0 then "" else p[..k]
  }

  /** `Path.GetFileName`: the text after the last separator. */
  function FileName(p: string): string {
    p[LastSeparator(p) + 1..]
  }

  /** The standard tokens in the order the directory renderer replaces them, after `.%ext`. */
  function StandardDirTokens(): seq<string> { ["%sn", "%s.n", "%s_n", "%0s", "%s", "%0e", "%e"] }
  /** The standard tokens in the order the mask renderer replaces them, after `.%ext`. */
  function StandardMaskTokens(): seq<string> { ["%en", "%e.n", "%e_n", "%sn", "%s.n", "%s_n", "%0s", "%s", "%0e", "%e"] }
  /** The daily tokens in the order the directory renderer replaces them, after `.%ext`. */
  function DailyDirTokens(): seq<string> { ["%t", "%.t", "%_t", "%y", "%0m", "%m", "%0d", "%d"] }
  /** The daily tokens in the order the mask renderer replaces them, after `.%ext`. */
  function DailyMaskTokens(): seq<string> { ["%desc", "%.desc", "%_desc", "%t", "%.t", "%_t", "%y", "%0m", "%m", "%0d", "%d"] }

  /** The three spellings of a show name: as cleaned, with spaces as dots, with spaces as underscores. */
  function NameForms(name: string): seq<string> {
    [name, ReplaceChar(name, ' ', '.'), ReplaceChar(name, ' ', '_')]
  }

  /** What `%0s`, `%s`, `%0e`, `%e` become. */
  function SeasonEpisodeForms(season: int, episode: int): seq<string> {
    [Pad2(season), IntToString(season), Pad2(episode), IntToString(episode)]
  }

  /** What `%y`, `%0m`, `%m`, `%0d`, `%d` become. */
  function DateForms(year: int, month: int, day: int): seq<string> {
    [IntToString(year), Pad2(month), IntToString(month), Pad2(day), IntToString(day)]
  }

  /** The six name and description tokens of a mask all become `*`. */
  function SixStars(): seq<string> { ["*", "*", "*", "*", "*", "*"] }

  function StandardDirValues(name: string, season: int, episode: int): seq<string> {
    NameForms(name) + SeasonEpisodeForms(season, episode)
  }

  function StandardMaskValues(season: int, episode: int): seq<string> {
    SixStars() + SeasonEpisodeForms(season, episode)
  }

  function DailyDirValues(name: string, year: int, month: int, day: int): seq<string> {
    NameForms(name) + DateForms(year, month, day)
  }

  function DailyMaskValues(year: int, month: int, day: int): seq<string> {
    SixStars() + DateForms(year, month, day)
  }

  /** GetEpisodeDir(showName, seasonNumber, episodeNumber). */
  function EpisodeDir(cfg: Settings.Config, showName: string, season: int, episode: int): string {
    var name := Sanitizer.Sanitize(cfg.sabReplaceChars, showName);
    var path := Replace(DirectoryName(cfg.tvRoot + "\\" + cfg.tvTemplate), ".%ext", "");
    Run(path, StandardDirTokens(), StandardDirValues(name, season, episode))
  }

  /** GetEpisodeFileMask(seasonNumber, episodeNumber). */
  function EpisodeFileMask(cfg: Settings.Config, season: int, episode: int): string {
    var fileName := Replace(FileName(cfg.tvRoot + "\\" + cfg.tvTemplate), ".%ext", "");
    Run(fileName, StandardMaskTokens(), StandardMaskValues(season, episode))
  }

  /** GetEpisodeDir(showName, year, month, day). */
  function DailyEpisodeDir(cfg: Settings.Config, showName: string, year: int, month: int, day: int): string {
    var name := Sanitizer.Sanitize(cfg.sabReplaceChars, showName);
    var path := Replace(DirectoryName(cfg.tvRoot + "\\" + cfg.tvDailyTemplate), ".%ext", "");
    Run(path, DailyDirTokens(), DailyDirValues(name, year, month, day))
  }

  /** GetEpisodeFileMask(year, month, day): here `.%ext` becomes `*` instead of vanishing. */
  function DailyEpisodeFileMask(cfg: Settings.Config, year: int, month: int, day: int): string {
    var fileMask := Replace(FileName(cfg.tvRoot + "\\" + cfg.tvDailyTemplate), ".%ext", "*");
    Run(fileMask, DailyMaskTokens(), DailyMaskValues(year, month, day))
  }

  // ---------------------------------------------------------------------------

  /** No token of the table is replaced before a longer one that it begins: `%sn`, `%s.n` and
      `%s_n` come before `%s`. */
  lemma StandardDirWellOrdered()
    ensures WellOrdered(StandardDirTokens())
  {
    assert OrderedFrom(StandardDirTokens(), 6);
    assert OrderedFrom(StandardDirTokens(), 5);
    assert OrderedFrom(StandardDirTokens(), 4);
    assert OrderedFrom(StandardDirTokens(), 3);
    assert OrderedFrom(StandardDirTokens(), 2);
    assert OrderedFrom(StandardDirTokens(), 1);
    assert OrderedFrom(StandardDirTokens(), 0);
    OrderedWellOrdered(StandardDirTokens());
  }

  /** No token of the table is replaced before a longer one that it begins: `%en`, `%e.n` and
      `%e_n` come before `%e`, and `%sn`, `%s.n` and `%s_n` before `%s`. */
  lemma StandardMaskWellOrdered()
    ensures WellOrdered(StandardMaskTokens())
  {
    assert OrderedFrom(StandardMaskTokens(), 9);
    assert OrderedFrom(StandardMaskTokens(), 8);
    assert OrderedFrom(StandardMaskTokens(), 7);
    assert OrderedFrom(StandardMaskTokens(), 6);
    assert OrderedFrom(StandardMaskTokens(), 5);
    assert OrderedFrom(StandardMaskTokens(), 4);
    assert OrderedFrom(StandardMaskTokens(), 3);
    assert OrderedFrom(StandardMaskTokens(), 2);
    assert OrderedFrom(StandardMaskTokens(), 1);
    assert OrderedFrom(StandardMaskTokens(), 0);
    OrderedWellOrdered(StandardMaskTokens());
  }

  /** No token of the daily directory table begins another one. */
  lemma DailyDirWellOrdered()
    ensures WellOrdered(DailyDirTokens())
  {
    assert OrderedFrom(DailyDirTokens(), 7);
    assert OrderedFrom(DailyDirTokens(), 6);
    assert OrderedFrom(DailyDirTokens(), 5);
    assert OrderedFrom(DailyDirTokens(), 4);
    assert OrderedFrom(DailyDirTokens(), 3);
    assert OrderedFrom(DailyDirTokens(), 2);
    assert OrderedFrom(DailyDirTokens(), 1);
    assert OrderedFrom(DailyDirTokens(), 0);
    OrderedWellOrdered(DailyDirTokens());
  }

  /** No token of the table is replaced before a longer one that it begins: `%desc` comes before `%d`. */
  lemma DailyMaskOrderedTail()
    ensures OrderedFrom(DailyMaskTokens(), 5)
  {
    assert OrderedFrom(DailyMaskTokens(), 10);
    assert OrderedFrom(DailyMaskTokens(), 9);
    assert OrderedFrom(DailyMaskTokens(), 8);
    assert OrderedFrom(DailyMaskTokens(), 7);
    assert OrderedFrom(DailyMaskTokens(), 6);
    assert OrderedFrom(DailyMaskTokens(), 5);
  }

  lemma DailyMaskWellOrdered()
    ensures WellOrdered(DailyMaskTokens())
  {
    DailyMaskOrderedTail();
    assert OrderedFrom(DailyMaskTokens(), 4);
    assert OrderedFrom(DailyMaskTokens(), 3);
    assert OrderedFrom(DailyMaskTokens(), 2);
    assert OrderedFrom(DailyMaskTokens(), 1);
    assert OrderedFrom(DailyMaskTokens(), 0);
    OrderedWellOrdered(DailyMaskTokens());
  }

  // ---------------------------------------------------------------------------
  // Paths

  lemma {:induction false} LastSeparatorConcat(a: string, b: string)
    ensures LastSeparator(a + b) == if LastSeparator(b) >= 0 then |a| + LastSeparator(b) else LastSeparator(a)
    decreases |b|
  {
    if |b| == 0 {
      assert a + b == a;
    } else {
      assert (a + b)[..|a + b| - 1] == a + b[..|b| - 1];
      LastSeparatorConcat(a, b[..|b| - 1]);
    }
  }

  /** With a separator present, the path is its directory name, the separator and its file name. */
  lemma PathSplit(p: string)
    requires LastSeparator(p) >= 0
    ensures p == DirectoryName(p) + [p[LastSeparator(p)]] + FileName(p)
    ensures NoSeparator(FileName(p))
  {
    var k := LastSeparator(p);
    assert p == p[..k] + [p[k]] + p[k + 1..];
  }

  /** The separator written after the root is the last one when `t` has none. */
  lemma RootSeparator(root: string)
    ensures LastSeparator(root + "\\") == |root|
  {
    var a := root + "\\";
    assert a[|a| - 1] == '\\';
  }

  /** Where the last separator of `root + "\" + t` is. */
  lemma JoinSeparator(root: string, t: string)
    ensures LastSeparator(root + "\\" + t) ==
      if LastSeparator(t) >= 0 then |root| + 1 + LastSeparator(t) else |root|
  {
    RootSeparator(root);
    LastSeparatorConcat(root + "\\", t);
  }

  /** The file name of `root + "\" + t` is the file name of `t`, whatever the root. */
  lemma FileNameOfJoin(root: string, t: string)
    ensures FileName(root + "\\" + t) == FileName(t)
  {
    var a := root + "\\";
    JoinSeparator(root, t);
    var j := LastSeparator(t) + 1;
    assert (a + t)[|a| + j..] == t[j..];
  }

  /** The directory name of `root + "\" + t` is the root followed by the directory part of `t`. */
  lemma DirectoryNameOfJoin(root: string, t: string)
    ensures DirectoryName(root + "\\" + t) ==
      if LastSeparator(t) < 0 then root else root + "\\" + DirectoryName(t)
  {
    var a := root + "\\";
    JoinSeparator(root, t);
    if LastSeparator(t) >= 0 {
      var k := LastSeparator(t);
      assert (a + t)[..|a| + k] == a + t[..k];
    } else {
      assert (a + t)[..|root|] == root;
    }
  }

  // ---------------------------------------------------------------------------
  // The renderers as single left-to-right expansions

  /** A string in which no `.` is directly followed by `%` holds no `.%ext`. */
  predicate NoDotPercent(s: string)
    decreases |s|
  {
    |s| < 2 || (!(s[0] == '.' && s[1] == '%') && NoDotPercent(s[1..]))
  }

  lemma {:induction false} NoDotPercentConcat(a: string, b: string)
    requires NoDotPercent(a) && NoDotPercent(b)
    requires |a| > 0 && |b| > 0 ==> a[|a| - 1] != '.' || b[0] != '%'
    ensures NoDotPercent(a + b)
    decreases |a|
  {
    if |a| == 0 {
      assert a + b == b;
    } else {
      assert (a + b)[1..] == a[1..] + b;
      NoDotPercentConcat(a[1..], b);
    }
  }

  /** Text lacking either `.` or `%` cannot hold `.%`. */
  lemma {:induction false} NoDotPercentOfMissing(s: string)
    requires '.' !in s || '%' !in s
    ensures NoDotPercent(s)
    decreases |s|
  {
    if |s| >= 2 {
      NoDotPercentOfMissing(s[1..]);
    }
  }

  /** Without `.%` the extension step changes nothing. */
  lemma {:induction false} ExtensionAbsent(s: string, rep: string)
    requires NoDotPercent(s)
    ensures Replace(s, ".%ext", rep) == s
    decreases |s|
  {
    if |s| >= |".%ext"| {
      assert s[..5][..2] == s[..2];
      assert s[..5] != ".%ext";
      ExtensionAbsent(s[1..], rep);
      assert [s[0]] + s[1..] == s;
    }
  }

  /** A final `.%ext` after text without a `.` is the only place the extension step acts. */
  lemma ExtensionAtEnd(a: string, rep: string)
    requires '.' !in a
    ensures Replace(a + ".%ext", ".%ext", rep) == a + rep
  {
    ReplaceFreePrefix(a, ".%ext", ".%ext", rep);
    ReplaceHead(".%ext", "", rep);
    assert ".%ext" + "" == ".%ext";
    assert Replace("", ".%ext", rep) == "";
  }

  lemma ValuesPlainConcat(a: seq<string>, b: seq<string>)
    requires ValuesPlain(a) && ValuesPlain(b)
    ensures ValuesPlain(a + b)
  {
    forall k | 0 <= k < |a + b|
      ensures '%' !in (a + b)[k]
    {
      if k >= |a| {
        assert (a + b)[k] == b[k - |a|];
      }
    }
  }

  lemma NameFormsPlain(name: string)
    requires '%' !in name
    ensures ValuesPlain(NameForms(name))
  {
    ReplaceCharPreserves(name, ' ', '.', '%');
    ReplaceCharPreserves(name, ' ', '_', '%');
  }

  lemma SanitizedFormsPlain(showName: string, replace: bool)
    requires '%' !in showName
    ensures ValuesPlain(NameForms(Sanitizer.Sanitize(replace, showName)))
  {
    Sanitizer.SanitizeNoNewChars(replace, showName, '%');
    NameFormsPlain(Sanitizer.Sanitize(replace, showName));
  }

  lemma SeasonEpisodeFormsPlain(season: int, episode: int)
    ensures ValuesPlain(SeasonEpisodeForms(season, episode))
  {
    PercentNotInNumbers(season);
    PercentNotInNumbers(episode);
  }

  lemma DateFormsPlain(year: int, month: int, day: int)
    ensures ValuesPlain(DateForms(year, month, day))
  {
    PercentNotInNumbers(year);
    PercentNotInNumbers(month);
    PercentNotInNumbers(day);
  }

  lemma StandardDirValuesPlain(replace: bool, showName: string, season: int, episode: int)
    requires '%' !in showName
    ensures ValuesPlain(StandardDirValues(Sanitizer.Sanitize(replace, showName), season, episode))
  {
    SanitizedFormsPlain(showName, replace);
    SeasonEpisodeFormsPlain(season, episode);
    ValuesPlainConcat(NameForms(Sanitizer.Sanitize(replace, showName)), SeasonEpisodeForms(season, episode));
  }

  lemma StandardMaskValuesPlain(season: int, episode: int)
    ensures ValuesPlain(StandardMaskValues(season, episode))
  {
    SeasonEpisodeFormsPlain(season, episode);
    ValuesPlainConcat(SixStars(), SeasonEpisodeForms(season, episode));
  }

  lemma DailyDirValuesPlain(replace: bool, showName: string, year: int, month: int, day: int)
    requires '%' !in showName
    ensures ValuesPlain(DailyDirValues(Sanitizer.Sanitize(replace, showName), year, month, day))
  {
    SanitizedFormsPlain(showName, replace);
    DateFormsPlain(year, month, day);
    ValuesPlainConcat(NameForms(Sanitizer.Sanitize(replace, showName)), DateForms(year, month, day));
  }

  lemma DailyMaskValuesPlain(year: int, month: int, day: int)
    ensures ValuesPlain(DailyMaskValues(year, month, day))
  {
    DateFormsPlain(year, month, day);
    ValuesPlainConcat(SixStars(), DateForms(year, month, day));
  }

  /** For a show name without `%` and a directory template read as tokens and `%`-free literals,
      the chain of replacements is the single left-to-right expansion of the template. */
  lemma EpisodeDirExpands(cfg: Settings.Config, showName: string, season: int, episode: int, ps: seq<Piece>)
    requires '%' !in showName
    requires Replace(DirectoryName(cfg.tvRoot + "\\" + cfg.tvTemplate), ".%ext", "") == Flatten(ps, StandardDirTokens())
    requires Unambiguous(ps, StandardDirTokens(),
                         StandardDirValues(Sanitizer.Sanitize(cfg.sabReplaceChars, showName), season, episode))
    ensures EpisodeDir(cfg, showName, season, episode) ==
            Expand(ps, StandardDirValues(Sanitizer.Sanitize(cfg.sabReplaceChars, showName), season, episode))
  {
    StandardDirWellOrdered();
    StandardDirValuesPlain(cfg.sabReplaceChars, showName, season, episode);
    RunExpands(ps, StandardDirTokens(),
               StandardDirValues(Sanitizer.Sanitize(cfg.sabReplaceChars, showName), season, episode));
  }

  /** The same for the standard file mask, whose name tokens all become `*`. */
  lemma EpisodeFileMaskExpands(cfg: Settings.Config, season: int, episode: int, ps: seq<Piece>)
    requires Replace(FileName(cfg.tvTemplate), ".%ext", "") == Flatten(ps, StandardMaskTokens())
    requires Unambiguous(ps, StandardMaskTokens(), StandardMaskValues(season, episode))
    ensures EpisodeFileMask(cfg, season, episode) == Expand(ps, StandardMaskValues(season, episode))
  {
    FileNameOfJoin(cfg.tvRoot, cfg.tvTemplate);
    StandardMaskWellOrdered();
    StandardMaskValuesPlain(season, episode);
    RunExpands(ps, StandardMaskTokens(), StandardMaskValues(season, episode));
  }

  lemma DailyEpisodeDirExpands(cfg: Settings.Config, showName: string, year: int, month: int, day: int, ps: seq<Piece>)
    requires '%' !in showName
    requires Replace(DirectoryName(cfg.tvRoot + "\\" + cfg.tvDailyTemplate), ".%ext", "") == Flatten(ps, DailyDirTokens())
    requires Unambiguous(ps, DailyDirTokens(),
                         DailyDirValues(Sanitizer.Sanitize(cfg.sabReplaceChars, showName), year, month, day))
    ensures DailyEpisodeDir(cfg, showName, year, month, day) ==
            Expand(ps, DailyDirValues(Sanitizer.Sanitize(cfg.sabReplaceChars, showName), year, month, day))
  {
    DailyDirWellOrdered();
    DailyDirValuesPlain(cfg.sabReplaceChars, showName, year, month, day);
    RunExpands(ps, DailyDirTokens(),
               DailyDirValues(Sanitizer.Sanitize(cfg.sabReplaceChars, showName), year, month, day));
  }

  /** The same for the daily file mask, where `.%ext` has already become `*`. */
  lemma DailyEpisodeFileMaskExpands(cfg: Settings.Config, year: int, month: int, day: int, ps: seq<Piece>)
    requires Replace(FileName(cfg.tvDailyTemplate), ".%ext", "*") == Flatten(ps, DailyMaskTokens())
    requires Unambiguous(ps, DailyMaskTokens(), DailyMaskValues(year, month, day))
    ensures DailyEpisodeFileMask(cfg, year, month, day) == Expand(ps, DailyMaskValues(year, month, day))
  {
    FileNameOfJoin(cfg.tvRoot, cfg.tvDailyTemplate);
    DailyMaskWellOrdered();
    DailyMaskValuesPlain(year, month, day);
    RunExpands(ps, DailyMaskTokens(), DailyMaskValues(year, month, day));
  }

  // ---------------------------------------------------------------------------
  // What the masks depend on

  /** The standard mask depends on the template's file-name part, the season and the
      episode only: not on the root, the directory part or any show name. */
  lemma EpisodeFileMaskDependsOnFileName(c1: Settings.Config, c2: Settings.Config, season: int, episode: int)
    requires FileName(c1.tvTemplate) == FileName(c2.tvTemplate)
    ensures EpisodeFileMask(c1, season, episode) == EpisodeFileMask(c2, season, episode)
  {
    FileNameOfJoin(c1.tvRoot, c1.tvTemplate);
    FileNameOfJoin(c2.tvRoot, c2.tvTemplate);
  }

  lemma DailyEpisodeFileMaskDependsOnFileName(c1: Settings.Config, c2: Settings.Config, year: int, month: int, day: int)
    requires FileName(c1.tvDailyTemplate) == FileName(c2.tvDailyTemplate)
    ensures DailyEpisodeFileMask(c1, year, month, day) == DailyEpisodeFileMask(c2, year, month, day)
  {
    FileNameOfJoin(c1.tvRoot, c1.tvDailyTemplate);
    FileNameOfJoin(c2.tvRoot, c2.tvDailyTemplate);
  }
}
