/**
 * IsEpisodeWanted: reads a report title and runs the checks in the program's
 * order, stopping at the first one that rejects the report. The answer is a
 * Decision naming the reason; the program's boolean is `Decision == Wanted`.
 */
module Decisions {
  import opened Wrappers
  import opened Text
  import opened Titles
  import opened Checks
  import Settings
  import Naming

  /** The outside world as the checks see it during one call of IsEpisodeWanted. */
  datatype World = World(disk: Disk, queue: Option<seq<Slot>>, archive: set<string>)

  datatype Decision =
      /** the title's segment layout is not one the program reads */
    | UnsupportedTitle
      /** the season/episode part has no `x`: the program's exception handler answers no */
    | MalformedTitle
    | NotWatched
    | OnDiskAlready
    | SeasonIgnored
      /** an ignore-list entry reached before a match could not be read: the handler answers no */
    | MalformedIgnoreList
    | InQueueAlready
    | ArchivedAlready
    | Wanted

  /** The checks, in the program's order. */
  datatype Check = ShowCheck | DiskCheck | SeasonCheck | QueueCheck | ArchiveCheck

  /** Where the disk check looks: the episode's folder and the file mask inside it. */
  datatype Target = Target(dir: string, mask: string)

  /** The folder and mask the renderers give for a season/episode or daily title. */
  function Locate(cfg: Settings.Config, parsed: Title): Target {
    match parsed
    case Episode(show, s, e) => Target(Naming.EpisodeDir(cfg, show, s, e), Naming.EpisodeFileMask(cfg, s, e))
    case DailyEpisode(show, y, m, d) => Target(Naming.DailyEpisodeDir(cfg, show, y, m, d), Naming.DailyEpisodeFileMask(cfg, y, m, d))
    case _ => Target("", "")
  }

  /** The last two checks, on the cut title. */
  function Remaining(cfg: Settings.Config, w: World, title: string, reportId: int): Decision {
    if InQueue(w.queue, title, reportId, cfg.sabReplaceChars) then InQueueAlready
    else if InNzbArchive(cfg, w.archive, title) then ArchivedAlready
    else Wanted
  }

  /** The checks after the disk check: the season check for a season/episode title, then the
      last two. */
  function AfterDisk(cfg: Settings.Config, w: World, t: string, reportId: int, parsed: Title): Decision {
    if parsed.Episode? then
      match IgnoreVerdict(cfg.ignoreSeasons, parsed.show, parsed.season)
      case None => MalformedIgnoreList
      case Some(true) => SeasonIgnored
      case Some(false) => Remaining(cfg, w, t, reportId)
    else Remaining(cfg, w, t, reportId)
  }

  /** The chain on a parsed, cut title `t`, the disk check looking at `target`. */
  function Judge(cfg: Settings.Config, w: World, t: string, reportId: int, parsed: Title, target: Target): Decision {
    if parsed.Unsupported? then UnsupportedTitle
    else if parsed.MissingX? then MalformedTitle
    else if !Watched(cfg, parsed.show) then NotWatched
    else if OnDisk(w.disk, cfg.videoExt, target.dir, target.mask) then OnDiskAlready
    else AfterDisk(cfg, w, t, reportId, parsed)
  }

  /** IsEpisodeWanted's verdict on a report. */
  function Decide(cfg: Settings.Config, w: World, title: string, reportId: int): Decision {
    var t := Truncate(title);
    Judge(cfg, w, t, reportId, Classify(t), Locate(cfg, Classify(t)))
  }

  /** The checks a report goes through, in order, before its verdict is known. */
  function Consulted(d: Decision, daily: bool): seq<Check> {
    match d
    case UnsupportedTitle => []
    case MalformedTitle => []
    case NotWatched => [ShowCheck]
    case OnDiskAlready => [ShowCheck, DiskCheck]
    case SeasonIgnored => [ShowCheck, DiskCheck, SeasonCheck]
    case MalformedIgnoreList => [ShowCheck, DiskCheck, SeasonCheck]
    case InQueueAlready => (if daily then [ShowCheck, DiskCheck] else [ShowCheck, DiskCheck, SeasonCheck]) + [QueueCheck]
    case ArchivedAlready | Wanted =>
      (if daily then [ShowCheck, DiskCheck] else [ShowCheck, DiskCheck, SeasonCheck]) + [QueueCheck, ArchiveCheck]
  }

  /** Every check `kind` of title can go through, in order. */
  function Chain(daily: bool): seq<Check> {
    if daily then [ShowCheck, DiskCheck, QueueCheck, ArchiveCheck]
    else [ShowCheck, DiskCheck, SeasonCheck, QueueCheck, ArchiveCheck]
  }

  /** IsEpisodeWanted (Program.cs): reads the title, then calls the checks one by one and
      returns at the first that rejects. `consulted` lists the checks it called. */
  method IsEpisodeWanted(cfg: Settings.Config, w: World, title: string, reportId: int)
    returns (wanted: bool, consulted: seq<Check>)
    ensures wanted <==> Decide(cfg, w, title, reportId) == Wanted
    ensures consulted == Consulted(Decide(cfg, w, title, reportId), ParseTitle(title).DailyEpisode?)
  {
    var t := Truncate(title);
    var parsed := Classify(t);
    if parsed.Unsupported? || parsed.MissingX? {
      return false, [];
    }
    wanted, consulted := RunChecks(cfg, w, t, reportId, parsed, Locate(cfg, parsed));
  }

  /** The checks of IsEpisodeWanted once the title is read and its folder and mask rendered. */
  method RunChecks(cfg: Settings.Config, w: World, t: string, reportId: int, parsed: Title, target: Target)
    returns (wanted: bool, consulted: seq<Check>)
    requires parsed.Episode? || parsed.DailyEpisode?
    ensures wanted <==> Judge(cfg, w, t, reportId, parsed, target) == Wanted
    ensures consulted == Consulted(Judge(cfg, w, t, reportId, parsed, target), parsed.DailyEpisode?)
  {
    var show := parsed.show;
    consulted := [ShowCheck];
    var watched := IsShowWanted(cfg, show);
    if !watched {
      assert Judge(cfg, w, t, reportId, parsed, target) == NotWatched;
      return false, consulted;
    }
    consulted := consulted + [DiskCheck];
    var onDisk := IsOnDisk(cfg, w.disk, target.dir, target.mask);
    if onDisk {
      assert Judge(cfg, w, t, reportId, parsed, target) == OnDiskAlready;
      return false, consulted;
    }
    assert Judge(cfg, w, t, reportId, parsed, target) == AfterDisk(cfg, w, t, reportId, parsed);
    var rest;
    wanted, rest := LaterChecks(cfg, w, t, reportId, parsed);
    consulted := consulted + rest;
  }

  /** The season, queue and archive checks of IsEpisodeWanted. */
  method LaterChecks(cfg: Settings.Config, w: World, t: string, reportId: int, parsed: Title)
    returns (wanted: bool, consulted: seq<Check>)
    requires parsed.Episode? || parsed.DailyEpisode?
    ensures wanted <==> AfterDisk(cfg, w, t, reportId, parsed) == Wanted
    ensures [ShowCheck, DiskCheck] + consulted == Consulted(AfterDisk(cfg, w, t, reportId, parsed), parsed.DailyEpisode?)
  {
    consulted := [];
    if parsed.Episode? {
      consulted := [SeasonCheck];
      var ignored := IsSeasonIgnored(cfg, parsed.show, parsed.season);
      if ignored != Some(false) {
        return false, consulted;
      }
    }
    consulted := consulted + [QueueCheck];
    var queued := IsInQueue(cfg, w.queue, t, reportId);
    if queued {
      return false, consulted;
    }
    consulted := consulted + [ArchiveCheck];
    wanted := !InNzbArchive(cfg, w.archive, t);
  }

  // ---------------------------------------------------------------------------

  /** Judge on a season/episode title: wanted exactly when every check passes. */
  lemma JudgeEpisode(cfg: Settings.Config, w: World, t: string, reportId: int, parsed: Title, target: Target)
    requires parsed.Episode?
    ensures Judge(cfg, w, t, reportId, parsed, target) == Wanted <==>
      && Watched(cfg, parsed.show)
      && !OnDisk(w.disk, cfg.videoExt, target.dir, target.mask)
      && IgnoreVerdict(cfg.ignoreSeasons, parsed.show, parsed.season) == Some(false)
      && !InQueue(w.queue, t, reportId, cfg.sabReplaceChars)
      && !InNzbArchive(cfg, w.archive, t)
  {
  }

  /** A season/episode report is wanted exactly when the show is watched, the episode is not
      on disk, its season is not ignored (and the ignore list reads), it is not queued and
      not archived. */
  lemma WantedEpisode(cfg: Settings.Config, w: World, title: string, reportId: int,
                      show: string, season: int, episode: int)
    requires ParseTitle(title) == Episode(show, season, episode)
    ensures Decide(cfg, w, title, reportId) == Wanted <==>
      && Watched(cfg, show)
      && !OnDisk(w.disk, cfg.videoExt, Naming.EpisodeDir(cfg, show, season, episode), Naming.EpisodeFileMask(cfg, season, episode))
      && IgnoreVerdict(cfg.ignoreSeasons, show, season) == Some(false)
      && !InQueue(w.queue, Truncate(title), reportId, cfg.sabReplaceChars)
      && !InNzbArchive(cfg, w.archive, Truncate(title))
  {
    var t := Truncate(title);
    JudgeEpisode(cfg, w, t, reportId, Classify(t), Locate(cfg, Classify(t)));
  }

  /** A daily report is wanted exactly when the show is watched, the date is not on disk, and
      the report is neither queued nor archived: the season check never runs. */
  lemma WantedDaily(cfg: Settings.Config, w: World, title: string, reportId: int,
                    show: string, year: int, month: int, day: int)
    requires ParseTitle(title) == DailyEpisode(show, year, month, day)
    ensures Decide(cfg, w, title, reportId) == Wanted <==>
      && Watched(cfg, show)
      && !OnDisk(w.disk, cfg.videoExt, Naming.DailyEpisodeDir(cfg, show, year, month, day),
                 Naming.DailyEpisodeFileMask(cfg, year, month, day))
      && !InQueue(w.queue, Truncate(title), reportId, cfg.sabReplaceChars)
      && !InNzbArchive(cfg, w.archive, Truncate(title))
  {
  }

  /** A title the parser rejects is never wanted and consults nothing. */
  lemma RejectedTitle(cfg: Settings.Config, w: World, title: string, reportId: int)
    requires ParseTitle(title).Unsupported? || ParseTitle(title).MissingX?
    ensures Decide(cfg, w, title, reportId) != Wanted
    ensures Consulted(Decide(cfg, w, title, reportId), false) == []
  {
  }

  /** Judge never answers with a season verdict for a daily title. */
  lemma JudgeDaily(cfg: Settings.Config, w: World, t: string, reportId: int, parsed: Title, target: Target)
    requires parsed.DailyEpisode?
    ensures Judge(cfg, w, t, reportId, parsed, target) !in {SeasonIgnored, MalformedIgnoreList}
  {
  }

  /** The checks run in the program's order and stop at the first that rejects: the checks
      a verdict consults are a prefix of the chain, the whole chain only for a wanted or
      archived report, and the last one consulted is the one that decided. */
  lemma ConsultedOrder(d: Decision, daily: bool)
    requires daily ==> d !in {SeasonIgnored, MalformedIgnoreList}
    ensures var c := Consulted(d, daily);
      && |c| <= |Chain(daily)| && c == Chain(daily)[..|c|]
      && (d == NotWatched <==> c == [ShowCheck])
      && (d == OnDiskAlready <==> c == [ShowCheck, DiskCheck])
      && (d in {Wanted, ArchivedAlready} <==> c == Chain(daily))
      && (daily ==> SeasonCheck !in c)
  {
    var c := Consulted(d, daily);
    var chain := Chain(daily);
    if d == InQueueAlready {
      assert c == chain[..|c|];
    }
  }

  /** IsEpisodeWanted's checks follow the chain for every report. */
  lemma ConsultedPrefix(cfg: Settings.Config, w: World, title: string, reportId: int)
    ensures var d := Decide(cfg, w, title, reportId);
      var daily := ParseTitle(title).DailyEpisode?;
      var c := Consulted(d, daily);
      && |c| <= |Chain(daily)| && c == Chain(daily)[..|c|]
      && (d == Wanted ==> c == Chain(daily))
  {
    var t := Truncate(title);
    if Classify(t).DailyEpisode? {
      JudgeDaily(cfg, w, t, reportId, Classify(t), Locate(cfg, Classify(t)));
    }
    ConsultedOrder(Decide(cfg, w, title, reportId), ParseTitle(title).DailyEpisode?);
  }

  /** The season check is never consulted for a daily title. */
  lemma DailySkipsSeason(cfg: Settings.Config, w: World, title: string, reportId: int)
    requires ParseTitle(title).DailyEpisode?
    ensures SeasonCheck !in Consulted(Decide(cfg, w, title, reportId), true)
  {
    var t := Truncate(title);
    JudgeDaily(cfg, w, t, reportId, Classify(t), Locate(cfg, Classify(t)));
    ConsultedOrder(Decide(cfg, w, title, reportId), true);
  }

  /** Text beyond the 79 characters a long title is cut to never changes the verdict, the
      queue and archive checks included. */
  lemma DecideLongTitle(cfg: Settings.Config, w: World, title: string, extra: string, reportId: int)
    requires |title| > MAX_TITLE
    ensures Decide(cfg, w, title + extra, reportId) == Decide(cfg, w, title, reportId)
  {
    assert (title + extra)[..CUT_TITLE] == title[..CUT_TITLE];
  }
}
