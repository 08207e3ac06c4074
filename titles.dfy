/**
 * How IsEpisodeWanted reads a report title: cut to size, split at `-`, and
 * dispatched on the number of segments to a season/episode reading, a daily
 * (year/month/day) reading, or a rejection.
 */
module Titles {
  import opened Wrappers
  import opened Text
  import opened Numbers

  /** Titles longer than this are cut before they are read. */
  const MAX_TITLE: nat := 80
  /** The length a cut title keeps (one less than the limit). */
  const CUT_TITLE: nat := 79

  /** What a title says once it is read. */
  datatype Title =
    | Episode(show: string, season: int, episode: int)
    | DailyEpisode(show: string, year: int, month: int, day: int)
      /** the season/episode part holds no `x`, so the program's index into its split throws */
    | MissingX
      /** the segment count or layout is not one the program handles */
    | Unsupported

  /** The title as the rest of the decision sees it: over 80 characters, only its first 79. */
  function Truncate(title: string): (r: string)
    ensures IsPrefix(r, title)
    ensures |r| <= MAX_TITLE
    ensures |title| <= MAX_TITLE ==> r == title
    ensures |title| > MAX_TITLE ==> |r| == CUT_TITLE
  {
    if |title| > MAX_TITLE then title[..CUT_TITLE] else title
  }

  /** The `NxM` part: the pieces before and after the first `x`, each read with
      `Int32.TryParse` (0 when unreadable). `None` when the part holds no `x`. */
  function SeasonEpisode(part: string): Option<(int, int)> {
    var pieces := Split(part, 'x');
    if |pieces| < 2 then None
    else Some((TryParseInt32(pieces[0]), TryParseInt32(pieces[1])))
  }

  function StandardFrom(show: string, part: string): Title {
    match SeasonEpisode(part)
    case None => MissingX
    case Some((s, e)) => Episode(show, s, e)
  }

  /** The reading of an already cut title, by its `-`-separated segments. */
  function Classify(t: string): Title {
    var segs := Split(t, '-');
    if |segs| == 3 then StandardFrom(Trim(segs[0]), Trim(segs[1]))
    else if |segs| == 4 then
      if 'x' in segs[1] then StandardFrom(Trim(segs[0]), Trim(segs[1]))
      else if 'x' in segs[2] then StandardFrom(Trim(segs[0]) + Trim(segs[1]), Trim(segs[2]))
      else Unsupported
    else if |segs| == 5 then
      DailyEpisode(Trim(segs[0]), TryParseInt32(segs[1]), TryParseInt32(segs[2]), TryParseInt32(segs[3]))
    else Unsupported
  }

  /** How IsEpisodeWanted reads a report title. */
  function ParseTitle(title: string): Title {
    Classify(Truncate(title))
  }

  // ---------------------------------------------------------------------------
  // Cutting

  /** Cutting is done once: a cut title is short enough to be left alone. */
  lemma TruncateIdempotent(title: string)
    ensures Truncate(Truncate(title)) == Truncate(title)
  {
  }

  /** Only the first 79 characters of a long title matter to the reading. */
  lemma ParseLongTitle(title: string, extra: string)
    requires |title| > MAX_TITLE
    ensures ParseTitle(title + extra) == ParseTitle(title)
  {
    assert (title + extra)[..CUT_TITLE] == title[..CUT_TITLE];
  }

  // ---------------------------------------------------------------------------
  // Segments

  lemma SplitThree(a: string, b: string, c: string)
    requires '-' !in a && '-' !in b && '-' !in c
    ensures Split(a + "-" + b + "-" + c, '-') == [a, b, c]
  {
    SplitNoSeparator(c, '-');
    SplitAfter(b, c, '-');
    assert a + "-" + b + "-" + c == a + ['-'] + (b + ['-'] + c);
    SplitAfter(a, b + ['-'] + c, '-');
  }

  lemma SplitFour(a: string, b: string, c: string, d: string)
    requires '-' !in a && '-' !in b && '-' !in c && '-' !in d
    ensures Split(a + "-" + b + "-" + c + "-" + d, '-') == [a, b, c, d]
  {
    var tail := b + "-" + c + "-" + d;
    SplitThree(b, c, d);
    assert a + "-" + b + "-" + c + "-" + d == a + ['-'] + tail by {
      assert a + "-" + b == a + ['-'] + b;
    }
    SplitAfter(a, tail, '-');
  }

  lemma SplitFive(a: string, b: string, c: string, d: string, e: string)
    requires '-' !in a && '-' !in b && '-' !in c && '-' !in d && '-' !in e
    ensures Split(a + "-" + b + "-" + c + "-" + d + "-" + e, '-') == [a, b, c, d, e]
  {
    var tail := b + "-" + c + "-" + d + "-" + e;
    SplitFour(b, c, d, e);
    assert a + "-" + b + "-" + c + "-" + d + "-" + e == a + ['-'] + tail by {
      assert a + "-" + b == a + ['-'] + b;
    }
    SplitAfter(a, tail, '-');
  }

  /** A three-segment title `show-NxM-rest` names the trimmed show, season N and episode M. */
  lemma ParseThreeSegments(show: string, part: string, rest: string)
    requires '-' !in show && '-' !in part && '-' !in rest
    requires |show + "-" + part + "-" + rest| <= MAX_TITLE
    ensures ParseTitle(show + "-" + part + "-" + rest) == StandardFrom(Trim(show), Trim(part))
  {
    SplitThree(show, part, rest);
  }

  /** Four segments with the `x` in the second: the first segment is the show. */
  lemma ParseFourSegmentsEarly(show: string, part: string, c: string, d: string)
    requires '-' !in show && '-' !in part && '-' !in c && '-' !in d
    requires |show + "-" + part + "-" + c + "-" + d| <= MAX_TITLE
    requires 'x' in part
    ensures ParseTitle(show + "-" + part + "-" + c + "-" + d) == StandardFrom(Trim(show), Trim(part))
  {
    SplitFour(show, part, c, d);
  }

  /** Four segments with the `x` only in the third: the show is the first two segments,
      each trimmed, glued together with no separator (`Show-Name-1x02-Group` gives `ShowName`). */
  lemma ParseFourSegmentsLate(a: string, b: string, part: string, d: string)
    requires '-' !in a && '-' !in b && '-' !in part && '-' !in d
    requires |a + "-" + b + "-" + part + "-" + d| <= MAX_TITLE
    requires 'x' !in b && 'x' in part
    ensures ParseTitle(a + "-" + b + "-" + part + "-" + d) == StandardFrom(Trim(a) + Trim(b), Trim(part))
  {
    SplitFour(a, b, part, d);
  }

  /** A five-segment title is a daily episode: segments two to four are year, month and day. */
  lemma ParseFiveSegments(show: string, y: string, m: string, d: string, rest: string)
    requires '-' !in show && '-' !in y && '-' !in m && '-' !in d && '-' !in rest
    requires |show + "-" + y + "-" + m + "-" + d + "-" + rest| <= MAX_TITLE
    ensures ParseTitle(show + "-" + y + "-" + m + "-" + d + "-" + rest) ==
            DailyEpisode(Trim(show), TryParseInt32(y), TryParseInt32(m), TryParseInt32(d))
  {
    SplitFive(show, y, m, d, rest);
  }

  /** Which reading a cut title gets, by its segments. */
  lemma ClassifyShape(t: string)
    ensures var segs := Split(t, '-');
      && (Classify(t).DailyEpisode? <==> |segs| == 5)
      && (Classify(t).MissingX? <==> |segs| == 3 && 'x' !in segs[1])
      && (Classify(t).Unsupported? <==>
            (|segs| != 3 && |segs| != 4 && |segs| != 5) ||
            (|segs| == 4 && 'x' !in segs[1] && 'x' !in segs[2]))
  {
    var segs := Split(t, '-');
    if |segs| == 3 {
      SeasonEpisodeNone(Trim(segs[1]));
      if 'x' in segs[1] {
        TrimKeeps(segs[1], WHITESPACE, 'x');
      } else {
        TrimSubset(segs[1], WHITESPACE, 'x');
      }
    } else if |segs| == 4 {
      if 'x' in segs[1] {
        TrimKeeps(segs[1], WHITESPACE, 'x');
        SeasonEpisodeNone(Trim(segs[1]));
      } else if 'x' in segs[2] {
        TrimKeeps(segs[2], WHITESPACE, 'x');
        SeasonEpisodeNone(Trim(segs[2]));
      }
    }
  }

  /** The program's exception path is taken exactly when the part holds no `x`. */
  lemma SeasonEpisodeNone(part: string)
    ensures SeasonEpisode(part).None? <==> 'x' !in part
  {
    if 'x' in part {
      SplitAtLeastTwo(part, 'x');
    } else {
      SplitNoSeparator(part, 'x');
    }
  }

  /** A part `NxM` with a single `x` reads as the two numbers around it. */
  lemma SeasonEpisodeOf(a: string, b: string)
    requires 'x' !in a && 'x' !in b
    ensures SeasonEpisode(a + "x" + b) == Some((TryParseInt32(a), TryParseInt32(b)))
  {
    SplitNoSeparator(b, 'x');
    SplitAfter(a, b, 'x');
  }

  /** Formatting a season and an episode as `NNxMM` and reading it back gives them back. */
  lemma SeasonEpisodeRoundTrip(season: int, episode: int)
    requires INT32_MIN <= season <= INT32_MAX && INT32_MIN <= episode <= INT32_MAX
    ensures SeasonEpisode(Pad2(season) + "x" + Pad2(episode)) == Some((season, episode))
  {
    PadNoX(season);
    PadNoX(episode);
    SeasonEpisodeOf(Pad2(season), Pad2(episode));
    ParsePad2(season);
    ParsePad2(episode);
  }

  /** A title written as the standard layout names it, `show-NNxMM-rest`, reads back as that
      show, season and episode. A negative number would bring its own `-` and change the
      segment count, hence the lower bounds. */
  lemma StandardRoundTrip(show: string, season: int, episode: int, rest: string)
    requires '-' !in show && '-' !in rest
    requires 0 <= season <= INT32_MAX && 0 <= episode <= INT32_MAX
    requires |show + "-" + (Pad2(season) + "x" + Pad2(episode)) + "-" + rest| <= MAX_TITLE
    ensures ParseTitle(show + "-" + (Pad2(season) + "x" + Pad2(episode)) + "-" + rest) == Episode(Trim(show), season, episode)
  {
    var part := Pad2(season) + "x" + Pad2(episode);
    assert '-' !in part;
    ParseThreeSegments(show, part, rest);
    TrimVisible(part);
    SeasonEpisodeRoundTrip(season, episode);
  }

  /** A daily title written `show-YYYY-MM-DD-rest` reads back as that show and date. */
  lemma DailyRoundTrip(show: string, year: int, month: int, day: int, rest: string)
    requires '-' !in show && '-' !in rest
    requires 0 <= year <= INT32_MAX && 0 <= month <= INT32_MAX && 0 <= day <= INT32_MAX
    requires |show + "-" + IntToString(year) + "-" + Pad2(month) + "-" + Pad2(day) + "-" + rest| <= MAX_TITLE
    ensures ParseTitle(show + "-" + IntToString(year) + "-" + Pad2(month) + "-" + Pad2(day) + "-" + rest) ==
            DailyEpisode(Trim(show), year, month, day)
  {
    ParseFiveSegments(show, IntToString(year), Pad2(month), Pad2(day), rest);
    ParseIntToString(year);
    ParsePad2(month);
    ParsePad2(day);
  }

  lemma PadNoX(n: int)
    ensures 'x' !in Pad2(n)
  {
  }

  // ---------------------------------------------------------------------------
  // Worked titles

  /** `1x02` reads as season 1, episode 2. */
  lemma ExamplePart(part: string)
    requires part == "1" + "x" + "02"
    ensures SeasonEpisode(Trim(part)) == Some((1, 2))
  {
    TrimVisible(part);
    SeasonEpisodeOf("1", "02");
    ParseIntToString(1);
    ParsePad2(2);
    assert IntToString(1) == "1" && Pad2(2) == "02";
  }

  /** `Show Name-1x02-Group`: show `Show Name`, season 1, episode 2. */
  lemma ExampleStandard(title: string)
    requires title == "Show Name" + "-" + ("1" + "x" + "02") + "-" + "Group"
    ensures ParseTitle(title) == Episode("Show Name", 1, 2)
  {
    ParseThreeSegments("Show Name", "1" + "x" + "02", "Group");
    TrimVisible("Show Name");
    ExamplePart("1" + "x" + "02");
  }

  /** `Sx02`: the unreadable season reads as 0 instead of stopping the decision. */
  lemma ExampleNonNumericPart(part: string)
    requires part == "S" + "x" + "02"
    ensures SeasonEpisode(Trim(part)) == Some((0, 2))
  {
    TrimVisible(part);
    SeasonEpisodeOf("S", "02");
    TryParseNonNumeric("S", 0);
    assert TryParseInt32("02") == 2 by {
      ParsePad2(2);
      assert Pad2(2) == "02";
    }
  }

  /** `Show-Sx02-Group` is season 0, episode 2. */
  lemma ExampleNonNumeric(title: string)
    requires title == "Show" + "-" + ("S" + "x" + "02") + "-" + "Group"
    ensures ParseTitle(title) == Episode("Show", 0, 2)
  {
    ParseThreeSegments("Show", "S" + "x" + "02", "Group");
    TrimVisible("Show");
    ExampleNonNumericPart("S" + "x" + "02");
  }

  /** A title with a season/episode part lacking `x` is rejected by the program's exception path. */
  lemma ExampleMissingX(title: string)
    requires title == "Show" + "-" + "102" + "-" + "Group"
    ensures ParseTitle(title) == MissingX
  {
    ParseThreeSegments("Show", "102", "Group");
    TrimVisible("102");
    SeasonEpisodeNone("102");
  }

  /** `Show.Name-2021-03-15-HDTV-x264` has six segments, not five, so it is not read as a
      daily title: only titles of exactly five segments are. */
  lemma ExampleSixSegments(title: string)
    requires title == "Show.Name" + "-" + ("2021" + "-" + "03" + "-" + "15" + "-" + "HDTV" + "-" + "x264")
    ensures ParseTitle(title) == Unsupported
  {
    var tail := "2021" + "-" + "03" + "-" + "15" + "-" + "HDTV" + "-" + "x264";
    SplitFive("2021", "03", "15", "HDTV", "x264");
    assert title == "Show.Name" + ['-'] + tail;
    SplitAfter("Show.Name", tail, '-');
  }
}
