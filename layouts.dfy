/**
 * Worked templates: what the renderers make of the layouts the program is
 * usually configured with. Each example cuts its template into pieces, proves
 * the pieces unambiguous for the renderer's table, and reads the result off
 * the single left-to-right expansion.
 */
module Layouts {
  import opened Text
  import opened Numbers
  import opened Template
  import opened Naming
  import Settings
  import Sanitizer

  // ---------------------------------------------------------------------------
  // The tables and value lists, with the facts the examples use

  lemma DirTable() returns (pats: seq<string>)
    ensures pats == StandardDirTokens()
    ensures |pats| == 7 && pats[0] == "%sn" && pats[3] == "%0s"
    ensures NoneExtendsFrom(pats, 0, '\\', 0) && WellOrdered(pats)
  {
    pats := StandardDirTokens();
    StandardDirWellOrdered();
  }

  lemma MaskTable() returns (pats: seq<string>)
    ensures pats == StandardMaskTokens()
    ensures |pats| == 10 && pats[3] == "%sn" && pats[6] == "%0s" && pats[8] == "%0e"
    ensures NoneExtendsFrom(pats, 6, 'x', 0) && NoneExtendsFrom(pats, 3, ' ', 0)
    ensures WellOrdered(pats)
  {
    pats := StandardMaskTokens();
    assert NoneExtendsFrom(StandardMaskTokens(), 6, 'x', 0);
    assert NoneExtendsFrom(StandardMaskTokens(), 3, ' ', 0);
    StandardMaskWellOrdered();
  }

  lemma DailyDirTable() returns (pats: seq<string>)
    ensures pats == DailyDirTokens()
    ensures |pats| == 8 && pats[7] == "%d"
    ensures NoneExtendsFrom(pats, 7, 'e', 0) && WellOrdered(pats)
  {
    pats := DailyDirTokens();
    assert NoneExtendsFrom(DailyDirTokens(), 7, 'e', 0);
    DailyDirWellOrdered();
  }

  lemma DailyMaskTable() returns (pats: seq<string>)
    ensures pats == DailyMaskTokens()
    ensures |pats| == 11 && pats[3] == "%t" && pats[6] == "%y" && pats[7] == "%0m" && pats[9] == "%0d"
    ensures NoneExtendsFrom(pats, 9, '*', 0) && NoneExtendsFrom(pats, 7, '-', 0)
    ensures NoneExtendsFrom(pats, 6, '-', 0) && NoneExtendsFrom(pats, 3, ' ', 0)
    ensures WellOrdered(pats)
  {
    pats := DailyMaskTokens();
    assert NoneExtendsFrom(DailyMaskTokens(), 9, '*', 0);
    assert NoneExtendsFrom(DailyMaskTokens(), 7, '-', 0);
    assert NoneExtendsFrom(DailyMaskTokens(), 6, '-', 0);
    assert NoneExtendsFrom(DailyMaskTokens(), 3, ' ', 0);
    DailyMaskWellOrdered();
  }

  lemma DirValues(replace: bool, showName: string, season: int, episode: int) returns (v: seq<string>)
    requires '%' !in showName
    ensures v == StandardDirValues(Sanitizer.Sanitize(replace, showName), season, episode)
    ensures |v| == 7 && ValuesPlain(v)
    ensures v[0] == Sanitizer.Sanitize(replace, showName) && v[3] == Pad2(season)
  {
    var name := Sanitizer.Sanitize(replace, showName);
    v := StandardDirValues(name, season, episode);
    SanitizedFormsPlain(showName, replace);
    SeasonEpisodeFormsPlain(season, episode);
    ValuesPlainConcat(NameForms(name), SeasonEpisodeForms(season, episode));
  }

  lemma MaskValues(season: int, episode: int) returns (v: seq<string>)
    ensures v == StandardMaskValues(season, episode)
    ensures |v| == 10 && ValuesPlain(v)
    ensures v[3] == "*" && v[6] == Pad2(season) && v[8] == Pad2(episode)
  {
    v := StandardMaskValues(season, episode);
    SeasonEpisodeFormsPlain(season, episode);
    ValuesPlainConcat(SixStars(), SeasonEpisodeForms(season, episode));
  }

  lemma DailyValues(replace: bool, showName: string, year: int, month: int, day: int) returns (v: seq<string>)
    requires '%' !in showName
    ensures v == DailyDirValues(Sanitizer.Sanitize(replace, showName), year, month, day)
    ensures |v| == 8 && ValuesPlain(v) && v[7] == IntToString(day)
  {
    var name := Sanitizer.Sanitize(replace, showName);
    v := DailyDirValues(name, year, month, day);
    SanitizedFormsPlain(showName, replace);
    DateFormsPlain(year, month, day);
    ValuesPlainConcat(NameForms(name), DateForms(year, month, day));
  }

  lemma DailyMaskValuesAt(year: int, month: int, day: int) returns (v: seq<string>)
    ensures v == DailyMaskValues(year, month, day)
    ensures |v| == 11 && ValuesPlain(v)
    ensures v[3] == "*" && v[6] == IntToString(year) && v[7] == Pad2(month) && v[9] == Pad2(day)
  {
    v := DailyMaskValues(year, month, day);
    DailyMaskValuesPlain(year, month, day);
  }

  /** A directory template under the root: the root's join and the extension step leave
      `root\` in front of the directory part. */
  lemma DirectoryPart(root: string, template: string, dir: string, file: string)
    requires '%' !in root && '.' !in dir && |dir| > 0 && NoSeparator(file)
    requires template == dir + "\\" + file
    ensures Replace(DirectoryName(root + "\\" + template), ".%ext", "") == (root + "\\") + dir
  {
    var front := root + "\\";
    assert root + "\\" + template == (front + dir) + "\\" + file;
    DirectoryNameOfJoin(front + dir, file);
    NoDotPercentOfMissing(front);
    NoDotPercentOfMissing(dir);
    NoDotPercentConcat(front, dir);
    ExtensionAbsent(front + dir, "");
  }

  // ---------------------------------------------------------------------------
  // `%sn\Season %0s\...`

  lemma SeasonFolderPieces(pats: seq<string>, v: seq<string>) returns (ps: seq<Piece>)
    requires |pats| == |v| == 7 && NoneExtendsFrom(pats, 0, '\\', 0)
    ensures Flatten(ps, pats) == (pats[0] + "\\Season ") + pats[3]
    ensures Unambiguous(ps, pats, v)
    ensures Expand(ps, v) == (v[0] + "\\Season ") + v[3]
  {
    var last := [Tok(3)];
    TokLast(3, pats, v);
    TokLitText(0, "\\Season ", last, pats, v);
    TokLitUnambiguous(0, "\\Season ", last, pats, v);
    ps := [Tok(0), Lit("\\Season ")] + last;
  }

  lemma SeasonFolderRun(front: string, path: string, pats: seq<string>, v: seq<string>)
    requires '%' !in front && path == front + "%sn\\Season %0s"
    requires |pats| == |v| == 7 && pats[0] == "%sn" && pats[3] == "%0s" && NoneExtendsFrom(pats, 0, '\\', 0)
    requires WellOrdered(pats) && ValuesPlain(v)
    ensures Run(path, pats, v) == front + v[0] + "\\Season " + v[3]
  {
    var rest := SeasonFolderPieces(pats, v);
    assert ("%sn" + "\\Season ") + "%0s" == "%sn\\Season %0s";
    LitCons(front, rest, pats, v);
    RunExpands([Lit(front)] + rest, pats, v);
  }

  /** The usual layout `%sn\Season %0s\...`: a folder per show, one per season, the
      season zero-padded (season 3 gives `Season 03`). */
  lemma SeasonFolderLayout(cfg: Settings.Config, showName: string, season: int, episode: int, file: string)
    requires '%' !in cfg.tvRoot && '%' !in showName && NoSeparator(file)
    requires cfg.tvTemplate == "%sn\\Season %0s\\" + file
    ensures EpisodeDir(cfg, showName, season, episode) ==
            cfg.tvRoot + "\\" + Sanitizer.Sanitize(cfg.sabReplaceChars, showName) + "\\Season " + Pad2(season)
  {
    assert cfg.tvTemplate == "%sn\\Season %0s" + "\\" + file;
    DirectoryPart(cfg.tvRoot, cfg.tvTemplate, "%sn\\Season %0s", file);
    var pats := DirTable();
    var v := DirValues(cfg.sabReplaceChars, showName, season, episode);
    SeasonFolderRun(cfg.tvRoot + "\\", Replace(DirectoryName(cfg.tvRoot + "\\" + cfg.tvTemplate), ".%ext", ""), pats, v);
  }

  // ---------------------------------------------------------------------------
  // `%desc\...` in a daily directory template

  lemma DescriptionPieces(pats: seq<string>, v: seq<string>) returns (ps: seq<Piece>)
    requires |pats| == |v| == 8 && NoneExtendsFrom(pats, 7, 'e', 0)
    ensures Flatten(ps, pats) == pats[7] + "esc"
    ensures Unambiguous(ps, pats, v)
    ensures Expand(ps, v) == v[7] + "esc"
  {
    TokLitText(7, "esc", [], pats, v);
    TokLitUnambiguous(7, "esc", [], pats, v);
    ps := [Tok(7), Lit("esc")] + [];
  }

  lemma DescriptionRun(front: string, path: string, pats: seq<string>, v: seq<string>)
    requires '%' !in front && path == front + "%desc"
    requires |pats| == |v| == 8 && pats[7] == "%d" && NoneExtendsFrom(pats, 7, 'e', 0)
    requires WellOrdered(pats) && ValuesPlain(v)
    ensures Run(path, pats, v) == front + v[7] + "esc"
  {
    var rest := DescriptionPieces(pats, v);
    assert "%d" + "esc" == "%desc";
    LitCons(front, rest, pats, v);
    RunExpands([Lit(front)] + rest, pats, v);
  }

  /** The daily directory renderer has no `%desc` step, so `%d` rewrites `%desc` into the
      day followed by `esc`. */
  lemma DailyDirDescription(cfg: Settings.Config, showName: string, year: int, month: int, day: int, file: string)
    requires '%' !in cfg.tvRoot && '%' !in showName && NoSeparator(file)
    requires cfg.tvDailyTemplate == "%desc\\" + file
    ensures DailyEpisodeDir(cfg, showName, year, month, day) == cfg.tvRoot + "\\" + IntToString(day) + "esc"
  {
    assert cfg.tvDailyTemplate == "%desc" + "\\" + file;
    DirectoryPart(cfg.tvRoot, cfg.tvDailyTemplate, "%desc", file);
    var pats := DailyDirTable();
    var v := DailyValues(cfg.sabReplaceChars, showName, year, month, day);
    DescriptionRun(cfg.tvRoot + "\\", Replace(DirectoryName(cfg.tvRoot + "\\" + cfg.tvDailyTemplate), ".%ext", ""), pats, v);
  }

  // ---------------------------------------------------------------------------
  // `%sn - %0sx%0e.%ext` as a mask

  lemma StandardMaskTail(pats: seq<string>, v: seq<string>) returns (ps: seq<Piece>)
    requires |pats| == |v| == 10 && NoneExtendsFrom(pats, 6, 'x', 0)
    ensures Flatten(ps, pats) == (pats[6] + "x") + pats[8]
    ensures Unambiguous(ps, pats, v)
    ensures Expand(ps, v) == (v[6] + "x") + v[8]
  {
    var last := [Tok(8)];
    TokLast(8, pats, v);
    TokLitText(6, "x", last, pats, v);
    TokLitUnambiguous(6, "x", last, pats, v);
    ps := [Tok(6), Lit("x")] + last;
  }

  lemma StandardMaskPieces(pats: seq<string>, v: seq<string>) returns (ps: seq<Piece>)
    requires |pats| == |v| == 10
    requires NoneExtendsFrom(pats, 6, 'x', 0) && NoneExtendsFrom(pats, 3, ' ', 0)
    ensures Flatten(ps, pats) == (pats[3] + " - ") + ((pats[6] + "x") + pats[8])
    ensures Unambiguous(ps, pats, v)
    ensures Expand(ps, v) == (v[3] + " - ") + ((v[6] + "x") + v[8])
  {
    var tail := StandardMaskTail(pats, v);
    TokLitText(3, " - ", tail, pats, v);
    TokLitUnambiguous(3, " - ", tail, pats, v);
    ps := [Tok(3), Lit(" - ")] + tail;
  }

  /** The template text is the table's tokens with the literal text between them; kept apart
      so that the string-literal reasoning does not meet the expansion's definitions. */
  lemma StandardMaskSpelling()
    ensures ("%sn" + " - ") + (("%0s" + "x") + "%0e") == "%sn - %0sx%0e"
  {
  }

  lemma StandardMaskRun(path: string, pats: seq<string>, v: seq<string>)
    requires path == "%sn - %0sx%0e"
    requires |pats| == |v| == 10 && pats[3] == "%sn" && pats[6] == "%0s" && pats[8] == "%0e"
    requires NoneExtendsFrom(pats, 6, 'x', 0) && NoneExtendsFrom(pats, 3, ' ', 0)
    requires WellOrdered(pats) && ValuesPlain(v)
    ensures Run(path, pats, v) == (v[3] + " - ") + ((v[6] + "x") + v[8])
  {
    var ps := StandardMaskPieces(pats, v);
    StandardMaskSpelling();
    RunExpands(ps, pats, v);
  }

  /** Regrouping the mask text, apart from the expansion's definitions. */
  lemma MaskShape(a: string, b: string)
    ensures ("*" + " - ") + ((a + "x") + b) == "* - " + a + "x" + b
  {
    assert "*" + " - " == "* - ";
  }

  lemma StandardMaskPath(cfg: Settings.Config)
    requires FileName(cfg.tvTemplate) == "%sn - %0sx%0e.%ext"
    ensures Replace(FileName(cfg.tvRoot + "\\" + cfg.tvTemplate), ".%ext", "") == "%sn - %0sx%0e"
  {
    FileNameOfJoin(cfg.tvRoot, cfg.tvTemplate);
    assert FileName(cfg.tvTemplate) == "%sn - %0sx%0e" + ".%ext";
    ExtensionAtEnd("%sn - %0sx%0e", "");
  }

  lemma StandardMaskResult(path: string, season: int, episode: int)
    requires path == "%sn - %0sx%0e"
    ensures Run(path, StandardMaskTokens(), StandardMaskValues(season, episode)) ==
            "* - " + Pad2(season) + "x" + Pad2(episode)
  {
    var pats := MaskTable();
    var v := MaskValues(season, episode);
    StandardMaskRun(path, pats, v);
    MaskShape(Pad2(season), Pad2(episode));
  }

  /** `%sn - %0sx%0e.%ext` as a mask: the show name becomes `*`, the numbers are padded and
      the extension vanishes (season 3, episode 12 give `* - 03x12`). */
  lemma StandardMaskLayout(cfg: Settings.Config, season: int, episode: int)
    requires FileName(cfg.tvTemplate) == "%sn - %0sx%0e.%ext"
    ensures EpisodeFileMask(cfg, season, episode) == "* - " + Pad2(season) + "x" + Pad2(episode)
  {
    StandardMaskPath(cfg);
    StandardMaskResult(Replace(FileName(cfg.tvRoot + "\\" + cfg.tvTemplate), ".%ext", ""), season, episode);
  }

  // ---------------------------------------------------------------------------
  // `%t - %y-%0m-%0d.%ext` as a daily mask

  lemma DailyMaskEnd(pats: seq<string>, v: seq<string>) returns (ps: seq<Piece>)
    requires |pats| == |v| == 11 && NoneExtendsFrom(pats, 9, '*', 0)
    ensures Flatten(ps, pats) == pats[9] + "*"
    ensures Unambiguous(ps, pats, v)
    ensures Expand(ps, v) == v[9] + "*"
  {
    TokLitText(9, "*", [], pats, v);
    TokLitUnambiguous(9, "*", [], pats, v);
    ps := [Tok(9), Lit("*")] + [];
  }

  lemma DailyMaskTail(pats: seq<string>, v: seq<string>) returns (ps: seq<Piece>)
    requires |pats| == |v| == 11
    requires NoneExtendsFrom(pats, 9, '*', 0) && NoneExtendsFrom(pats, 7, '-', 0)
    ensures Flatten(ps, pats) == (pats[7] + "-") + (pats[9] + "*")
    ensures Unambiguous(ps, pats, v)
    ensures Expand(ps, v) == (v[7] + "-") + (v[9] + "*")
  {
    var end := DailyMaskEnd(pats, v);
    TokLitText(7, "-", end, pats, v);
    TokLitUnambiguous(7, "-", end, pats, v);
    ps := [Tok(7), Lit("-")] + end;
  }

  lemma DailyMaskMiddle(pats: seq<string>, v: seq<string>) returns (ps: seq<Piece>)
    requires |pats| == |v| == 11
    requires NoneExtendsFrom(pats, 9, '*', 0) && NoneExtendsFrom(pats, 7, '-', 0) && NoneExtendsFrom(pats, 6, '-', 0)
    ensures Flatten(ps, pats) == (pats[6] + "-") + ((pats[7] + "-") + (pats[9] + "*"))
    ensures Unambiguous(ps, pats, v)
    ensures Expand(ps, v) == (v[6] + "-") + ((v[7] + "-") + (v[9] + "*"))
  {
    var tail := DailyMaskTail(pats, v);
    TokLitText(6, "-", tail, pats, v);
    TokLitUnambiguous(6, "-", tail, pats, v);
    ps := [Tok(6), Lit("-")] + tail;
  }

  lemma DailyMaskPieces(pats: seq<string>, v: seq<string>) returns (ps: seq<Piece>)
    requires |pats| == |v| == 11
    requires NoneExtendsFrom(pats, 9, '*', 0) && NoneExtendsFrom(pats, 7, '-', 0)
    requires NoneExtendsFrom(pats, 6, '-', 0) && NoneExtendsFrom(pats, 3, ' ', 0)
    ensures Flatten(ps, pats) == (pats[3] + " - ") + ((pats[6] + "-") + ((pats[7] + "-") + (pats[9] + "*")))
    ensures Unambiguous(ps, pats, v)
    ensures Expand(ps, v) == (v[3] + " - ") + ((v[6] + "-") + ((v[7] + "-") + (v[9] + "*")))
  {
    var middle := DailyMaskMiddle(pats, v);
    TokLitText(3, " - ", middle, pats, v);
    TokLitUnambiguous(3, " - ", middle, pats, v);
    ps := [Tok(3), Lit(" - ")] + middle;
  }

  /** The template text is the table's tokens with the literal text between them. */
  lemma DailyMaskSpelling()
    ensures ("%t" + " - ") + (("%y" + "-") + (("%0m" + "-") + ("%0d" + "*"))) == "%t - %y-%0m-%0d*"
  {
  }

  lemma DailyMaskRun(path: string, pats: seq<string>, v: seq<string>)
    requires path == "%t - %y-%0m-%0d*"
    requires |pats| == |v| == 11 && pats[3] == "%t" && pats[6] == "%y" && pats[7] == "%0m" && pats[9] == "%0d"
    requires NoneExtendsFrom(pats, 9, '*', 0) && NoneExtendsFrom(pats, 7, '-', 0)
    requires NoneExtendsFrom(pats, 6, '-', 0) && NoneExtendsFrom(pats, 3, ' ', 0)
    requires WellOrdered(pats) && ValuesPlain(v)
    ensures Run(path, pats, v) == (v[3] + " - ") + ((v[6] + "-") + ((v[7] + "-") + (v[9] + "*")))
  {
    var ps := DailyMaskPieces(pats, v);
    DailyMaskSpelling();
    RunExpands(ps, pats, v);
  }

  /** Regrouping the daily mask text, apart from the expansion's definitions. */
  lemma DailyShape(a: string, b: string, c: string)
    ensures ("*" + " - ") + ((a + "-") + ((b + "-") + (c + "*"))) == "* - " + a + "-" + b + "-" + c + "*"
  {
    assert "*" + " - " == "* - ";
  }

  lemma DailyMaskPath(cfg: Settings.Config)
    requires FileName(cfg.tvDailyTemplate) == "%t - %y-%0m-%0d.%ext"
    ensures Replace(FileName(cfg.tvRoot + "\\" + cfg.tvDailyTemplate), ".%ext", "*") == "%t - %y-%0m-%0d*"
  {
    FileNameOfJoin(cfg.tvRoot, cfg.tvDailyTemplate);
    assert FileName(cfg.tvDailyTemplate) == "%t - %y-%0m-%0d" + ".%ext";
    ExtensionAtEnd("%t - %y-%0m-%0d", "*");
    assert "%t - %y-%0m-%0d" + "*" == "%t - %y-%0m-%0d*";
  }

  lemma DailyMaskResult(path: string, year: int, month: int, day: int)
    requires path == "%t - %y-%0m-%0d*"
    ensures Run(path, DailyMaskTokens(), DailyMaskValues(year, month, day)) ==
            "* - " + IntToString(year) + "-" + Pad2(month) + "-" + Pad2(day) + "*"
  {
    var pats := DailyMaskTable();
    var v := DailyMaskValuesAt(year, month, day);
    DailyMaskRun(path, pats, v);
    DailyShape(IntToString(year), Pad2(month), Pad2(day));
  }

  /** `%t - %y-%0m-%0d.%ext` as a daily mask: the title becomes `*`, and so does the extension. */
  lemma DailyMaskLayout(cfg: Settings.Config, year: int, month: int, day: int)
    requires FileName(cfg.tvDailyTemplate) == "%t - %y-%0m-%0d.%ext"
    ensures DailyEpisodeFileMask(cfg, year, month, day) ==
            "* - " + IntToString(year) + "-" + Pad2(month) + "-" + Pad2(day) + "*"
  {
    DailyMaskPath(cfg);
    DailyMaskResult(Replace(FileName(cfg.tvRoot + "\\" + cfg.tvDailyTemplate), ".%ext", "*"), year, month, day);
  }
}
