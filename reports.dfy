/**
 * GetReports: reads the feed list, downloads every feed and collects its items
 * into a dictionary from report id to title. Passworded items are skipped, the
 * id is the first run of 7 to 10 digits in the item's link path, and an item
 * whose id or title is already collected is dropped. Downloading is an oracle
 * from feed URL to the feed's items; a URL it does not answer is a failed
 * download, and like a link without an id it ends the whole run (None).
 * The dictionary is a sequence in insertion order, the order in which the
 * program later enumerates it.
 */
module Reports {
  import opened Wrappers
  import opened Text
  import opened Numbers

  /** An RSS item: its title and the path of its link. */
  datatype Item = Item(title: string, linkPath: string)

  /** A collected report: a dictionary entry from id to title. */
  datatype Report = Report(id: int, title: string)

  const PASSWORDED: string := "(Passworded)"
  const MIN_ID_DIGITS: nat := 7
  const MAX_ID_DIGITS: nat := 10

  // ---------------------------------------------------------------------------
  // The feed list

  /** The URL on a feed-list line: the part after the first `|` when there is one
      (the part before it is only a name for the log), else the whole line. */
  function FeedUrl(line: string): string {
    var parts := Split(line, '|');
    if |parts| > 1 then parts[1] else parts[0]
  }

  /** A line without `|` is a bare URL. */
  lemma FeedUrlPlain(line: string)
    requires '|' !in line
    ensures FeedUrl(line) == line
  {
    SplitNoSeparator(line, '|');
  }

  /** On a line `name|url|...` the URL is the second field, whatever follows it. */
  lemma FeedUrlNamed(name: string, url: string, rest: string)
    requires '|' !in name && '|' !in url
    ensures FeedUrl(name + "|" + url) == url
    ensures FeedUrl(name + "|" + url + "|" + rest) == url
  {
    assert FeedUrl(name + "|" + url) == url by {
      assert name + "|" + url == name + ['|'] + url;
      SplitAfter(name, url, '|');
      SplitNoSeparator(url, '|');
    }
    assert FeedUrl(name + "|" + url + "|" + rest) == url by {
      var tail := url + ['|'] + rest;
      assert name + "|" + url + "|" + rest == name + ['|'] + tail;
      SplitAfter(name, tail, '|');
      SplitAfter(url, rest, '|');
      assert Split(name + ['|'] + tail, '|')[1] == url;
    }
  }

  // ---------------------------------------------------------------------------
  // The report id: the regular expression \d{7,10}

  function Min(a: nat, b: nat): nat {
    if a <= b then a else b
  }

  /** The leftmost match of `\d{7,10}` in `s`, as its start and length. The
      expression is tried at each position from the left; at a position where at
      least seven digits follow it matches greedily, up to ten. */
  function IdMatch(s: string): (m: Option<(nat, nat)>)
    ensures m.Some? ==>
      && m.value.0 + m.value.1 <= |s|
      && DigitRun(s[m.value.0..]) >= MIN_ID_DIGITS
      && m.value.1 == Min(DigitRun(s[m.value.0..]), MAX_ID_DIGITS)
      && forall j :: 0 <= j < m.value.0 ==> DigitRun(s[j..]) < MIN_ID_DIGITS
    ensures m.None? ==> forall j :: 0 <= j < |s| ==> DigitRun(s[j..]) < MIN_ID_DIGITS
    decreases |s|
  {
    if |s| == 0 then None
    else if DigitRun(s) >= MIN_ID_DIGITS then Some((0, Min(DigitRun(s), MAX_ID_DIGITS)))
    else
      var rest := IdMatch(s[1..]);
      assert forall j :: 1 <= j <= |s| ==> s[1..][j - 1..] == s[j..];
      match rest
      case None => None
      case Some((i, n)) => Some((i + 1, n))
  }

  /** The digits of the match are all digits, so `Convert.ToInt64` reads them. */
  lemma MatchDigits(s: string, i: nat, n: nat)
    requires i <= |s| && n <= DigitRun(s[i..])
    ensures i + n <= |s| && AllDigits(s[i..i + n])
  {
    DigitRunDigits(s[i..]);
    assert s[i..i + n] == s[i..][..DigitRun(s[i..])][..n];
  }

  /** `Convert.ToInt64(Regex.Match(path, @"\d{7,10}").Value)`: the id read from a
      link path, None where there is no match (the conversion of the empty
      match throws). */
  function MatchId(path: string): Option<int> {
    match IdMatch(path)
    case None => None
    case Some((i, n)) =>
      MatchDigits(path, i, n);
      Some(DigitsValue(path[i..i + n]))
  }

  /** In a digit-free prefix, 7 to 10 digits and anything not starting with a digit, the
      match is those digits. */
  lemma {:induction false} IdMatchOf(pre: string, digits: string, post: string)
    requires forall k :: 0 <= k < |pre| ==> !IsDigit(pre[k])
    requires MIN_ID_DIGITS <= |digits| <= MAX_ID_DIGITS && AllDigits(digits)
    requires |post| > 0 ==> !IsDigit(post[0])
    ensures IdMatch(pre + digits + post) == Some((|pre|, |digits|))
    decreases |pre|
  {
    var s := pre + digits + post;
    if |pre| == 0 {
      assert s == digits + post;
      DigitRunOf(digits, post);
    } else {
      assert s[1..] == pre[1..] + digits + post;
      assert !IsDigit(s[0]);
      IdMatchOf(pre[1..], digits, post);
    }
  }

  /** A path made of a digit-free prefix, 7 to 10 digits and anything not starting with a
      digit has for id the value of those digits. */
  lemma MatchIdOf(pre: string, digits: string, post: string)
    requires forall k :: 0 <= k < |pre| ==> !IsDigit(pre[k])
    requires MIN_ID_DIGITS <= |digits| <= MAX_ID_DIGITS && AllDigits(digits)
    requires |post| > 0 ==> !IsDigit(post[0])
    ensures MatchId(pre + digits + post) == Some(DigitsValue(digits))
  {
    IdMatchOf(pre, digits, post);
    var s := pre + digits + post;
    assert s[|pre|..|pre| + |digits|] == digits;
  }

  /** The digit run of a string of digits followed by a non-digit is exactly those digits. */
  lemma {:induction false} DigitRunOf(digits: string, post: string)
    requires AllDigits(digits)
    requires |post| > 0 ==> !IsDigit(post[0])
    ensures DigitRun(digits + post) == |digits|
    decreases |digits|
  {
    if |digits| > 0 {
      assert (digits + post)[1..] == digits[1..] + post;
      DigitRunOf(digits[1..], post);
    } else {
      assert digits + post == post;
    }
  }

  function Pow10(n: nat): nat {
    if n == 0 then 1 else 10 * Pow10(n - 1)
  }

  /** A value of `n` digits is below 10^n. */
  lemma {:induction false} DigitsValueBound(s: string)
    requires AllDigits(s)
    ensures DigitsValue(s) < Pow10(|s|)
    decreases |s|
  {
    if |s| > 0 {
      DigitsValueBound(s[..|s| - 1]);
    }
  }

  /** Every id fits the program's 64-bit key: it is below 10^10. */
  lemma MatchIdBound(path: string)
    requires MatchId(path).Some?
    ensures 0 <= MatchId(path).value < Pow10(MAX_ID_DIGITS)
  {
    var (i, n) := IdMatch(path).value;
    MatchDigits(path, i, n);
    var digits := path[i..i + n];
    assert MatchId(path) == Some(DigitsValue(digits));
    assert |digits| == n <= MAX_ID_DIGITS;
    DigitsValueBound(digits);
    PowMonotone(n, MAX_ID_DIGITS);
  }

  lemma {:induction false} PowMonotone(a: nat, b: nat)
    requires a <= b
    ensures Pow10(a) <= Pow10(b)
    decreases b
  {
    if a < b {
      PowMonotone(a, b - 1);
    }
  }

  // ---------------------------------------------------------------------------
  // Collecting

  /** A title the program skips: it ends with `(Passworded)`, in any case. */
  predicate Passworded(title: string) {
    EndsWithIgnoreCase(title, PASSWORDED)
  }

  /** `ContainsKey`. */
  predicate HasId(reports: seq<Report>, id: int) {
    exists k :: 0 <= k < |reports| && reports[k].id == id
  }

  /** `ContainsValue`. */
  predicate HasTitle(reports: seq<Report>, title: string) {
    exists k :: 0 <= k < |reports| && reports[k].title == title
  }

  /** One item: skipped when passworded, fatal without an id, added unless its id or
      title is already there. */
  function Step(reports: seq<Report>, item: Item): Option<seq<Report>> {
    if Passworded(item.title) then Some(reports)
    else match MatchId(item.linkPath)
      case None => None
      case Some(id) =>
        if HasId(reports, id) || HasTitle(reports, item.title) then Some(reports)
        else Some(reports + [Report(id, item.title)])
  }

  /** The items of one feed, in order, onto what is collected so far. */
  function Collect(reports: seq<Report>, items: seq<Item>): Option<seq<Report>>
    decreases |items|
  {
    if |items| == 0 then Some(reports)
    else match Step(reports, items[0])
      case None => None
      case Some(next) => Collect(next, items[1..])
  }

  /** The feeds of the remaining feed-list lines, in order. */
  function Gather(reports: seq<Report>, lines: seq<string>, feeds: map<string, seq<Item>>): Option<seq<Report>>
    decreases |lines|
  {
    if |lines| == 0 then Some(reports)
    else
      var url := FeedUrl(lines[0]);
      if url !in feeds then None
      else match Collect(reports, feeds[url])
        case None => None
        case Some(next) => Gather(next, lines[1..], feeds)
  }

  /** GetReports' result. */
  function Reports(lines: seq<string>, feeds: map<string, seq<Item>>): Option<seq<Report>> {
    Gather([], lines, feeds)
  }

  /** GetReports (Program.cs): one pass over the feed-list lines, and for each one over
      the items of its feed, adding to the dictionary as it goes. */
  method GetReports(lines: seq<string>, feeds: map<string, seq<Item>>) returns (r: Option<seq<Report>>)
    ensures r == Reports(lines, feeds)
  {
    var reports: seq<Report> := [];
    var i := 0;
    while i < |lines|
      invariant 0 <= i <= |lines|
      invariant Reports(lines, feeds) == Gather(reports, lines[i..], feeds)
    {
      assert lines[i..][1..] == lines[i + 1..];
      var parts := Split(lines[i], '|');
      var url := parts[0];
      if |parts| > 1 {
        url := parts[1];
      }
      if url !in feeds {
        return None;
      }
      var items := feeds[url];
      ghost var start := reports;
      var j := 0;
      while j < |items|
        invariant 0 <= j <= |items|
        invariant Collect(start, items) == Collect(reports, items[j..])
      {
        assert items[j..][1..] == items[j + 1..];
        var item := items[j];
        if !EndsWithIgnoreCase(item.title, PASSWORDED) {
          var id := MatchId(item.linkPath);
          if id.None? {
            return None;
          }
          if !HasId(reports, id.value) && !HasTitle(reports, item.title) {
            reports := reports + [Report(id.value, item.title)];
          }
        }
        j := j + 1;
      }
      i := i + 1;
    }
    return Some(reports);
  }

  // ---------------------------------------------------------------------------
  // What the collected dictionary satisfies

  /** No id and no title occurs twice. */
  predicate Distinct(reports: seq<Report>) {
    forall a, b :: 0 <= a < b < |reports| ==> reports[a].id != reports[b].id && reports[a].title != reports[b].title
  }

  /** No title is passworded. */
  predicate Clean(reports: seq<Report>) {
    forall k :: 0 <= k < |reports| ==> !Passworded(reports[k].title)
  }

  /** Report `r` comes from one of `items`: its title, and the id in the item's link. */
  predicate FromItems(r: Report, items: seq<Item>) {
    exists j :: 0 <= j < |items| && items[j].title == r.title && MatchId(items[j].linkPath) == Some(r.id) && !Passworded(r.title)
  }

  /** Item `item` is represented: its id or its title is collected. */
  predicate Represented(item: Item, reports: seq<Report>) {
    MatchId(item.linkPath).Some? && (HasId(reports, MatchId(item.linkPath).value) || HasTitle(reports, item.title))
  }

  /** Collecting keeps what is there, keeps ids and titles distinct and leaves out the
      passworded. */
  lemma {:induction false} CollectKeeps(reports: seq<Report>, items: seq<Item>, r: seq<Report>)
    requires Collect(reports, items) == Some(r)
    ensures |reports| <= |r| && r[..|reports|] == reports
    ensures Distinct(reports) ==> Distinct(r)
    ensures Clean(reports) ==> Clean(r)
    decreases |items|
  {
    if |items| > 0 {
      var next := Step(reports, items[0]).value;
      if Distinct(reports) {
        StepDistinct(reports, items[0]);
      }
      CollectKeeps(next, items[1..], r);
      assert r[..|reports|] == next[..|next|][..|reports|];
    }
  }

  /** Every entry collecting adds comes from one of the items. */
  lemma {:induction false} CollectSound(reports: seq<Report>, items: seq<Item>, r: seq<Report>)
    requires Collect(reports, items) == Some(r)
    ensures forall k :: |reports| <= k < |r| ==> FromItems(r[k], items)
    decreases |items|
  {
    if |items| > 0 {
      var next := Step(reports, items[0]).value;
      CollectSound(next, items[1..], r);
      CollectKeeps(next, items[1..], r);
      forall k | |reports| <= k < |r|
        ensures FromItems(r[k], items)
      {
        if k < |next| {
          assert r[k] == next[k] == Report(MatchId(items[0].linkPath).value, items[0].title);
        } else {
          var j :| 0 <= j < |items[1..]| && items[1..][j].title == r[k].title && MatchId(items[1..][j].linkPath) == Some(r[k].id) && !Passworded(r[k].title);
          assert items[j + 1] == items[1..][j];
        }
      }
    }
  }

  /** Every item that is not passworded is represented once collecting succeeds. */
  lemma {:induction false} CollectComplete(reports: seq<Report>, items: seq<Item>, r: seq<Report>)
    requires Collect(reports, items) == Some(r)
    ensures forall j :: 0 <= j < |items| && !Passworded(items[j].title) ==> Represented(items[j], r)
    decreases |items|
  {
    if |items| > 0 {
      var next := Step(reports, items[0]).value;
      CollectComplete(next, items[1..], r);
      forall j | 0 <= j < |items| && !Passworded(items[j].title)
        ensures Represented(items[j], r)
      {
        if j == 0 {
          StepRepresents(reports, items[0]);
          CollectKeeps(next, items[1..], r);
          RepresentedGrows(items[0], next, r);
        } else {
          assert items[j] == items[1..][j - 1];
        }
      }
    }
  }

  /** An item that survives its step is represented right after it. */
  lemma StepRepresents(reports: seq<Report>, item: Item)
    requires !Passworded(item.title) && Step(reports, item).Some?
    ensures Represented(item, Step(reports, item).value)
  {
    var next := Step(reports, item).value;
    var id := MatchId(item.linkPath).value;
    if !(HasId(reports, id) || HasTitle(reports, item.title)) {
      assert next[|reports|].id == id;
    }
  }

  /** What is represented stays represented as entries are added after it. */
  lemma RepresentedGrows(item: Item, reports: seq<Report>, r: seq<Report>)
    requires Represented(item, reports) && |reports| <= |r| && r[..|reports|] == reports
    ensures Represented(item, r)
  {
    var id := MatchId(item.linkPath).value;
    if HasId(reports, id) {
      var k :| 0 <= k < |reports| && reports[k].id == id;
      assert r[k] == reports[k];
    } else {
      var k :| 0 <= k < |reports| && reports[k].title == item.title;
      assert r[k] == reports[k];
    }
  }

  /** A step never breaks distinctness: it adds only an id and a title not yet there. */
  lemma StepDistinct(reports: seq<Report>, item: Item)
    requires Distinct(reports) && Step(reports, item).Some?
    ensures Distinct(Step(reports, item).value)
  {
  }

  /** Collecting fails exactly when some item that is not passworded has no id. */
  lemma {:induction false} CollectFails(reports: seq<Report>, items: seq<Item>)
    ensures Collect(reports, items).None? <==>
      exists j :: 0 <= j < |items| && !Passworded(items[j].title) && MatchId(items[j].linkPath).None?
    decreases |items|
  {
    if |items| > 0 {
      match Step(reports, items[0])
      case None =>
      case Some(next) =>
        CollectFails(next, items[1..]);
        if exists j :: 0 <= j < |items| && !Passworded(items[j].title) && MatchId(items[j].linkPath).None? {
          var j :| 0 <= j < |items| && !Passworded(items[j].title) && MatchId(items[j].linkPath).None?;
          assert j > 0;
          assert items[1..][j - 1] == items[j];
        }
        if exists j :: 0 <= j < |items[1..]| && !Passworded(items[1..][j].title) && MatchId(items[1..][j].linkPath).None? {
          var j :| 0 <= j < |items[1..]| && !Passworded(items[1..][j].title) && MatchId(items[1..][j].linkPath).None?;
          assert items[j + 1] == items[1..][j];
        }
    }
  }

  // ---------------------------------------------------------------------------
  // All the feeds at once

  /** The items of every feed on the list, in order; None when a feed is not answered. */
  function FeedItems(lines: seq<string>, feeds: map<string, seq<Item>>): Option<seq<Item>>
    decreases |lines|
  {
    if |lines| == 0 then Some([])
    else
      var url := FeedUrl(lines[0]);
      if url !in feeds then None
      else match FeedItems(lines[1..], feeds)
        case None => None
        case Some(rest) => Some(feeds[url] + rest)
  }

  /** Collecting two lists of items one after the other is collecting their concatenation. */
  lemma {:induction false} CollectAppend(reports: seq<Report>, a: seq<Item>, b: seq<Item>)
    ensures Collect(reports, a + b) == match Collect(reports, a)
      case None => None
      case Some(next) => Collect(next, b)
    decreases |a|
  {
    if |a| == 0 {
      assert a + b == b;
    } else {
      assert (a + b)[0] == a[0];
      assert (a + b)[1..] == a[1..] + b;
      match Step(reports, a[0])
      case None =>
      case Some(next) => CollectAppend(next, a[1..], b);
    }
  }

  /** Feed by feed is the same as all the items in one go: the run fails when a feed is
      not answered or when an item has no id, and otherwise collects every item. */
  lemma {:induction false} GatherFlat(reports: seq<Report>, lines: seq<string>, feeds: map<string, seq<Item>>)
    ensures Gather(reports, lines, feeds) == match FeedItems(lines, feeds)
      case None => None
      case Some(items) => Collect(reports, items)
    decreases |lines|
  {
    if |lines| > 0 {
      var url := FeedUrl(lines[0]);
      if url in feeds {
        GatherFlat'(reports, lines, feeds, url);
      }
    }
  }

  lemma {:induction false} GatherFlat'(reports: seq<Report>, lines: seq<string>, feeds: map<string, seq<Item>>, url: string)
    requires |lines| > 0 && url == FeedUrl(lines[0]) && url in feeds
    ensures Gather(reports, lines, feeds) == match FeedItems(lines, feeds)
      case None => None
      case Some(items) => Collect(reports, items)
    decreases |lines|, 0
  {
    match FeedItems(lines[1..], feeds) {
      case None =>
        if Collect(reports, feeds[url]).Some? {
          GatherFlat(Collect(reports, feeds[url]).value, lines[1..], feeds);
        }
      case Some(rest) =>
        CollectAppend(reports, feeds[url], rest);
        if Collect(reports, feeds[url]).Some? {
          GatherFlat(Collect(reports, feeds[url]).value, lines[1..], feeds);
        }
    }
  }

  /** What GetReports returns: a dictionary with no id and no title twice and no
      passworded title, whose every entry is an item's title under the id in that item's
      link, and in which every other item of every feed is represented by its id or title. */
  lemma ReportsFacts(lines: seq<string>, feeds: map<string, seq<Item>>, r: seq<Report>)
    requires Reports(lines, feeds) == Some(r)
    ensures FeedItems(lines, feeds).Some?
    ensures Distinct(r) && Clean(r)
    ensures forall k :: 0 <= k < |r| ==> FromItems(r[k], FeedItems(lines, feeds).value)
    ensures forall j :: 0 <= j < |FeedItems(lines, feeds).value| && !Passworded(FeedItems(lines, feeds).value[j].title) ==>
      Represented(FeedItems(lines, feeds).value[j], r)
  {
    GatherFlat([], lines, feeds);
    CollectKeeps([], FeedItems(lines, feeds).value, r);
    CollectSound([], FeedItems(lines, feeds).value, r);
    CollectComplete([], FeedItems(lines, feeds).value, r);
  }

  /** The run ends in GetReports exactly when a feed is not answered or one of the
      items it collects has no id. */
  lemma ReportsFail(lines: seq<string>, feeds: map<string, seq<Item>>)
    ensures Reports(lines, feeds).None? <==>
      || FeedItems(lines, feeds).None?
      || exists j :: 0 <= j < |FeedItems(lines, feeds).value| && !Passworded(FeedItems(lines, feeds).value[j].title)
                     && MatchId(FeedItems(lines, feeds).value[j].linkPath).None?
  {
    GatherFlat([], lines, feeds);
    if FeedItems(lines, feeds).Some? {
      CollectFails([], FeedItems(lines, feeds).value);
    }
  }

  /** An id or title collected from an earlier feed is never replaced by a later one. */
  lemma EarlierKept(lines: seq<string>, more: seq<string>, feeds: map<string, seq<Item>>)
    requires Reports(lines, feeds).Some? && Reports(lines + more, feeds).Some?
    ensures var r := Reports(lines, feeds).value; var r' := Reports(lines + more, feeds).value;
      |r| <= |r'| && r'[..|r|] == r
  {
    GatherSplit([], lines, more, feeds);
    var r := Reports(lines, feeds).value;
    GatherFlat(r, more, feeds);
    CollectKeeps(r, FeedItems(more, feeds).value, Reports(lines + more, feeds).value);
  }

  /** The remaining lines of a longer list continue from where the shorter one stops. */
  lemma {:induction false} GatherSplit(reports: seq<Report>, lines: seq<string>, more: seq<string>, feeds: map<string, seq<Item>>)
    requires Gather(reports, lines, feeds).Some?
    ensures Gather(reports, lines + more, feeds) == Gather(Gather(reports, lines, feeds).value, more, feeds)
    decreases |lines|
  {
    if |lines| == 0 {
      assert lines + more == more;
    } else {
      assert (lines + more)[0] == lines[0];
      assert (lines + more)[1..] == lines[1..] + more;
      var next := Collect(reports, feeds[FeedUrl(lines[0])]).value;
      GatherSplit(next, lines[1..], more, feeds);
    }
  }
}
