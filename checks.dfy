/**
 * The five checks IsEpisodeWanted runs on a parsed title: is the show watched,
 * is the episode already on disk, is its season ignored, is it already in the
 * SABnzbd queue, and was its NZB already archived. The folder listing, the
 * file globbing, the queue download and the archive probe are oracles.
 */
module Checks {
  import opened Wrappers
  import opened Text
  import opened Numbers
  import Settings
  import Sanitizer

  // ---------------------------------------------------------------------------
  // IsShowWanted

  /** Some watched folder's name equals the cleaned show name, ignoring case. */
  predicate Watched(cfg: Settings.Config, showName: string) {
    exists i :: 0 <= i < |cfg.wantedShowNames| &&
      EqualsIgnoreCase(cfg.wantedShowNames[i], Sanitizer.Sanitize(cfg.sabReplaceChars, showName))
  }

  /** IsShowWanted (Program.cs): scans the folders under the TV root for the cleaned name. */
  method IsShowWanted(cfg: Settings.Config, showName: string) returns (wanted: bool)
    ensures wanted == Watched(cfg, showName)
  {
    var names := cfg.wantedShowNames;
    for i := 0 to |names|
      invariant forall j :: 0 <= j < i ==>
        !EqualsIgnoreCase(names[j], Sanitizer.Sanitize(cfg.sabReplaceChars, showName))
    {
      var cleaned := Sanitizer.CleanString(cfg, showName);
      if EqualsIgnoreCase(names[i], cleaned) {
        return true;
      }
    }
    return false;
  }

  /** Two names that clean to the same text up to case are watched alike. */
  lemma WatchedIgnoresCase(cfg: Settings.Config, a: string, b: string)
    requires EqualsIgnoreCase(Sanitizer.Sanitize(cfg.sabReplaceChars, a), Sanitizer.Sanitize(cfg.sabReplaceChars, b))
    ensures Watched(cfg, a) == Watched(cfg, b)
  {
  }

  /** Cleaning the name first changes nothing: the check cleans it anyway. */
  lemma WatchedCleaned(cfg: Settings.Config, showName: string)
    ensures Watched(cfg, Sanitizer.Sanitize(cfg.sabReplaceChars, showName)) == Watched(cfg, showName)
  {
    Sanitizer.SanitizeIdempotent(cfg.sabReplaceChars, showName);
  }

  // ---------------------------------------------------------------------------
  // IsOnDisk

  /** What the file system answers: which folders exist, and which (folder, pattern)
      pairs the glob finds at least one file for. */
  datatype Disk = Disk(folders: set<string>, matches: set<(string, string)>)

  /** The folder exists and the mask followed by some video extension finds a file in it. */
  predicate OnDisk(disk: Disk, exts: seq<string>, dir: string, mask: string) {
    dir in disk.folders && exists i :: 0 <= i < |exts| && (dir, mask + exts[i]) in disk.matches
  }

  /** IsOnDisk (Program.cs): a missing folder answers no; otherwise each extension is tried in turn. */
  method IsOnDisk(cfg: Settings.Config, disk: Disk, dir: string, mask: string) returns (found: bool)
    ensures found == OnDisk(disk, cfg.videoExt, dir, mask)
  {
    if dir !in disk.folders {
      return false;
    }
    var exts := cfg.videoExt;
    for i := 0 to |exts|
      invariant forall j :: 0 <= j < i ==> (dir, mask + exts[j]) !in disk.matches
    {
      if (dir, mask + exts[i]) in disk.matches {
        return true;
      }
    }
    return false;
  }

  /** The order of the extensions does not matter to the answer, only which ones are listed. */
  lemma OnDiskExtensionSet(disk: Disk, e1: seq<string>, e2: seq<string>, dir: string, mask: string)
    requires forall x :: x in e1 <==> x in e2
    ensures OnDisk(disk, e1, dir, mask) == OnDisk(disk, e2, dir, mask)
  {
    if OnDisk(disk, e1, dir, mask) {
      var i :| 0 <= i < |e1| && (dir, mask + e1[i]) in disk.matches;
      assert e1[i] in e2;
    }
    if OnDisk(disk, e2, dir, mask) {
      var i :| 0 <= i < |e2| && (dir, mask + e2[i]) in disk.matches;
      assert e2[i] in e1;
    }
  }

  // ---------------------------------------------------------------------------
  // IsSeasonIgnored

  /** One `Show=N` entry of the ignore list: seasons up to N of the show are ignored. */
  datatype IgnoreEntry = IgnoreEntry(name: string, upTo: int)

  /** An entry as the program reads it: the text before the first `=`, and the text after
      it up to any next `=` read by `Convert.ToInt32`. `None` where that throws: no `=`,
      or no readable 32-bit number. */
  function ParseEntry(entry: string): Option<IgnoreEntry> {
    var pieces := Split(entry, '=');
    if |pieces| < 2 then None
    else match ParseInt32(pieces[1])
      case None => None
      case Some(n) => Some(IgnoreEntry(pieces[0], n))
  }

  /** The ignore list's entries: the setting with `;` and blanks trimmed from both ends, split at `;`. */
  function IgnoreEntries(setting: string): seq<string> {
    Split(TrimSet(setting, {';', ' '}), ';')
  }

  /** The entry names the show exactly (case-sensitive, untrimmed) and covers the season. */
  predicate Ignores(e: IgnoreEntry, showName: string, season: int) {
    e.name == showName && season <= e.upTo
  }

  /** The scan of the entries in order: `Some(true)` at the first entry that ignores the
      season, `None` at an unreadable entry reached before that. */
  function IgnoreScan(entries: seq<string>, showName: string, season: int): Option<bool>
    decreases |entries|
  {
    if |entries| == 0 then Some(false)
    else match ParseEntry(entries[0])
      case None => None
      case Some(e) => if Ignores(e, showName, season) then Some(true) else IgnoreScan(entries[1..], showName, season)
  }

  /** IsSeasonIgnored's answer, `None` where it throws: the list is only read when the show
      name occurs in it as a substring. */
  function IgnoreVerdict(setting: string, showName: string, season: int): Option<bool> {
    if !Occurs(showName, setting) then Some(false)
    else IgnoreScan(IgnoreEntries(setting), showName, season)
  }

  /** IsSeasonIgnored (Program.cs): the substring pre-check, then the scan with early return. */
  method IsSeasonIgnored(cfg: Settings.Config, showName: string, season: int) returns (r: Option<bool>)
    ensures r == IgnoreVerdict(cfg.ignoreSeasons, showName, season)
  {
    if !Occurs(showName, cfg.ignoreSeasons) {
      return Some(false);
    }
    var entries := IgnoreEntries(cfg.ignoreSeasons);
    for i := 0 to |entries|
      invariant IgnoreScan(entries, showName, season) == IgnoreScan(entries[i..], showName, season)
    {
      ScanStep(entries, i, showName, season);
      var pieces := Split(entries[i], '=');
      if |pieces| < 2 {
        return None;
      }
      var n := ParseInt32(pieces[1]);
      if n.None? {
        return None;
      }
      if pieces[0] == showName && season <= n.value {
        return Some(true);
      }
    }
    assert entries[|entries|..] == [];
    return Some(false);
  }

  /** One step of the scan: what it says from entry `i` on, given how entry `i` reads. */
  lemma ScanStep(entries: seq<string>, i: nat, showName: string, season: int)
    requires i < |entries|
    ensures IgnoreScan(entries[i..], showName, season) ==
      match ParseEntry(entries[i])
      case None => None
      case Some(e) => if Ignores(e, showName, season) then Some(true) else IgnoreScan(entries[i + 1..], showName, season)
  {
    assert entries[i..][1..] == entries[i + 1..];
  }

  predicate AllEntriesRead(entries: seq<string>) {
    forall i :: 0 <= i < |entries| ==> ParseEntry(entries[i]).Some?
  }

  /** With every entry readable, the scan says whether some entry ignores the season. */
  lemma {:induction false} IgnoreScanReadable(entries: seq<string>, showName: string, season: int)
    requires AllEntriesRead(entries)
    ensures IgnoreScan(entries, showName, season) ==
            Some(exists i :: 0 <= i < |entries| && Ignores(ParseEntry(entries[i]).value, showName, season))
    decreases |entries|
  {
    if |entries| > 0 {
      var tail := entries[1..];
      assert forall i :: 0 <= i < |tail| ==> tail[i] == entries[i + 1];
      IgnoreScanReadable(tail, showName, season);
      if !Ignores(ParseEntry(entries[0]).value, showName, season) {
        if exists i :: 0 <= i < |entries| && Ignores(ParseEntry(entries[i]).value, showName, season) {
          var i :| 0 <= i < |entries| && Ignores(ParseEntry(entries[i]).value, showName, season);
          assert tail[i - 1] == entries[i];
        }
      }
    }
  }

  /** The name of a readable entry occurs in the setting it came from. */
  lemma EntryNameOccurs(setting: string, i: nat)
    requires i < |IgnoreEntries(setting)| && ParseEntry(IgnoreEntries(setting)[i]).Some?
    ensures Occurs(ParseEntry(IgnoreEntries(setting)[i]).value.name, setting)
  {
    var trimmed := TrimSet(setting, {';', ' '});
    var entry := IgnoreEntries(setting)[i];
    var name := ParseEntry(entry).value.name;
    SplitFirstIsPrefix(entry, '=');
    OccursRefl(name);
    OccursInPrefix(name, name, entry);
    SplitPiecesOccur(trimmed, ';', i);
    OccursTrans(name, entry, trimmed);
    TrimOccurs(setting, {';', ' '});
    OccursTrans(name, trimmed, setting);
  }

  /** When every entry is readable the substring pre-check never changes the answer, and the
      answer is whether some entry names the show exactly and covers the season. */
  lemma IgnoreVerdictReadable(setting: string, showName: string, season: int)
    requires AllEntriesRead(IgnoreEntries(setting))
    ensures IgnoreVerdict(setting, showName, season) == IgnoreScan(IgnoreEntries(setting), showName, season)
    ensures IgnoreVerdict(setting, showName, season) ==
            Some(exists i :: 0 <= i < |IgnoreEntries(setting)| &&
                   Ignores(ParseEntry(IgnoreEntries(setting)[i]).value, showName, season))
  {
    var entries := IgnoreEntries(setting);
    IgnoreScanReadable(entries, showName, season);
    if !Occurs(showName, setting) {
      forall i | 0 <= i < |entries|
        ensures !Ignores(ParseEntry(entries[i]).value, showName, season)
      {
        EntryNameOccurs(setting, i);
      }
    }
  }

  // ---------------------------------------------------------------------------
  // IsInQueue

  /** A queue slot: its whole inner text, and the text of its first `filename` element
      (`None` when it has none). */
  datatype Slot = Slot(text: string, fileName: Option<string>)

  /** The name SABnzbd shows for a report it is still fetching. */
  function FetchName(reportId: int): string {
    "fetching msgid " + IntToString(reportId) + " from www.newzbin.com"
  }

  /** The scan ends at this slot without a match: an empty slot means an empty queue, and a
      slot without a file name makes the lookup throw, which the check turns into no. */
  predicate Stops(slot: Slot) {
    slot.text == "" || slot.fileName.None?
  }

  /** The slot's file name, lower-cased, is the cleaned title up to case or the fetch name. */
  predicate SlotMatches(slot: Slot, title: string, reportId: int, replace: bool)
    requires slot.fileName.Some?
  {
    var f := Lower(slot.fileName.value);
    Lower(f) == Lower(Sanitizer.Sanitize(replace, title)) || f == FetchName(reportId)
  }

  function QueueScan(slots: seq<Slot>, title: string, reportId: int, replace: bool): bool
    decreases |slots|
  {
    if |slots| == 0 || Stops(slots[0]) then false
    else SlotMatches(slots[0], title, reportId, replace) || QueueScan(slots[1..], title, reportId, replace)
  }

  /** IsInQueue's answer; `None` stands for a queue that could not be fetched, an error
      reply or a reply without a queue, all of which answer no. */
  function InQueue(queue: Option<seq<Slot>>, title: string, reportId: int, replace: bool): bool {
    queue.Some? && QueueScan(queue.value, title, reportId, replace)
  }

  /** IsInQueue (Program.cs): the slot loop with its early returns. */
  method IsInQueue(cfg: Settings.Config, queue: Option<seq<Slot>>, title: string, reportId: int)
    returns (found: bool)
    ensures found == InQueue(queue, title, reportId, cfg.sabReplaceChars)
  {
    if queue.None? {
      return false;
    }
    var slots := queue.value;
    var fetchName := FetchName(reportId);
    for i := 0 to |slots|
      invariant QueueScan(slots, title, reportId, cfg.sabReplaceChars) ==
                QueueScan(slots[i..], title, reportId, cfg.sabReplaceChars)
    {
      assert slots[i..][1..] == slots[i + 1..];
      var slot := slots[i];
      if slot.text == "" {
        return false;
      }
      if slot.fileName.None? {
        return false;
      }
      var fileName := Lower(slot.fileName.value);
      var cleaned := Sanitizer.CleanString(cfg, title);
      if Lower(fileName) == Lower(cleaned) || fileName == fetchName {
        return true;
      }
    }
    assert slots[|slots|..] == [];
    return false;
  }

  /** No slot before `k` ends the scan or matches. */
  predicate Reached(slots: seq<Slot>, k: nat, title: string, reportId: int, replace: bool)
    requires k <= |slots|
  {
    forall j :: 0 <= j < k ==> !Stops(slots[j]) && !SlotMatches(slots[j], title, reportId, replace)
  }

  /** Slot `k` is reached and matches. */
  predicate HitAt(slots: seq<Slot>, k: nat, title: string, reportId: int, replace: bool) {
    k < |slots| && Reached(slots, k, title, reportId, replace) &&
    !Stops(slots[k]) && SlotMatches(slots[k], title, reportId, replace)
  }

  lemma HitAtShift(slots: seq<Slot>, k: nat, title: string, reportId: int, replace: bool)
    requires |slots| > 0
    ensures HitAt(slots, k + 1, title, reportId, replace) <==>
      !Stops(slots[0]) && !SlotMatches(slots[0], title, reportId, replace) && HitAt(slots[1..], k, title, reportId, replace)
  {
    var tail := slots[1..];
    if HitAt(slots, k + 1, title, reportId, replace) {
      forall j | 0 <= j < k
        ensures !Stops(tail[j]) && !SlotMatches(tail[j], title, reportId, replace)
      {
        assert tail[j] == slots[j + 1];
      }
    }
    if !Stops(slots[0]) && !SlotMatches(slots[0], title, reportId, replace) && HitAt(tail, k, title, reportId, replace) {
      forall j | 0 <= j < k + 1
        ensures !Stops(slots[j]) && !SlotMatches(slots[j], title, reportId, replace)
      {
        if j > 0 {
          assert slots[j] == tail[j - 1];
        }
      }
    }
  }

  /** The queue holds the report exactly when some slot matches before any slot ends the scan. */
  lemma {:induction false} QueueScanMatch(slots: seq<Slot>, title: string, reportId: int, replace: bool)
    ensures QueueScan(slots, title, reportId, replace) <==> exists k: nat :: HitAt(slots, k, title, reportId, replace)
    decreases |slots|
  {
    if |slots| == 0 {
    } else if Stops(slots[0]) {
      forall k: nat ensures !HitAt(slots, k, title, reportId, replace) {
        if 0 < k < |slots| {
          assert !(!Stops(slots[0]));
        }
      }
    } else if SlotMatches(slots[0], title, reportId, replace) {
      assert HitAt(slots, 0, title, reportId, replace);
    } else {
      var tail := slots[1..];
      QueueScanMatch(tail, title, reportId, replace);
      if QueueScan(slots, title, reportId, replace) {
        var k: nat :| HitAt(tail, k, title, reportId, replace);
        HitAtShift(slots, k, title, reportId, replace);
      }
      if exists k: nat :: HitAt(slots, k, title, reportId, replace) {
        var k: nat :| HitAt(slots, k, title, reportId, replace);
        assert k != 0;
        HitAtShift(slots, k - 1, title, reportId, replace);
      }
    }
  }

  /** A slot that ends the scan hides every later slot: what follows it is never read. */
  lemma {:induction false} QueueScanStops(slots: seq<Slot>, later: seq<Slot>, title: string, reportId: int, replace: bool)
    requires |slots| > 0 && Stops(slots[|slots| - 1]) && Reached(slots, |slots| - 1, title, reportId, replace)
    ensures !QueueScan(slots + later, title, reportId, replace)
    decreases |slots|
  {
    var all := slots + later;
    if |slots| > 1 {
      assert all[1..] == slots[1..] + later;
      assert forall j :: 0 <= j < |slots| - 2 ==> slots[1..][j] == slots[j + 1];
      QueueScanStops(slots[1..], later, title, reportId, replace);
    }
  }

  // ---------------------------------------------------------------------------
  // InNzbArchive

  const NZB_SUFFIX: string := ".nzb.gz"

  /** The archived file's name: the title without trailing dots, then cleaned. */
  function ArchiveName(replace: bool, title: string): string {
    Sanitizer.Sanitize(replace, TrimEndSet(title, {'.'}))
  }

  /** InNzbArchive (Program.cs): whether `nzbDir\name.nzb.gz` exists, the probe an oracle set. */
  predicate InNzbArchive(cfg: Settings.Config, archive: set<string>, title: string) {
    cfg.nzbDir + "\\" + ArchiveName(cfg.sabReplaceChars, title) + NZB_SUFFIX in archive
  }

  /** Trailing dots of the title never reach the archive name. */
  lemma ArchiveNameTrailingDot(replace: bool, title: string)
    ensures ArchiveName(replace, title + ".") == ArchiveName(replace, title)
  {
    var t := title + ".";
    assert t[..|t| - 1] == title;
  }

  /** The archive name holds no character a file name may not. */
  lemma ArchiveNameClean(replace: bool, title: string)
    ensures forall i :: 0 <= i < |ArchiveName(replace, title)| ==> !Sanitizer.IsBad(ArchiveName(replace, title)[i])
  {
    Sanitizer.SanitizeNoBad(replace, TrimEndSet(title, {'.'}));
  }
}
