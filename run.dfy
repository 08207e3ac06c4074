/**
 * The main loop: every collected report that IsEpisodeWanted accepts is sent
 * to the download queue with AddToQueue, and the title with the queue's answer
 * is recorded in the run's list of queued items. The queue's answers are an
 * oracle from report id to response text; an id it does not answer is a failed
 * request, whose exception ends the loop (the items queued before it stay
 * recorded). A run whose GetReports fails queues nothing.
 *
 * IsEpisodeWanted looks at the disk, the download queue and the archive afresh
 * on every call, and the loop's own AddToQueue calls change the queue between
 * turns; `worlds(k)` is what the checks see on turn `k`.
 */
module Run {
  import opened Wrappers
  import opened Text
  import Settings
  import opened Reports
  import opened Decisions

  /** AddToQueue's answer for `reportId`, with line feeds removed; None when the request fails. */
  function Response(answers: map<int, string>, reportId: int): Option<string> {
    if reportId in answers then Some(Replace(answers[reportId], "\n", "")) else None
  }

  /** IsEpisodeWanted's verdict on each report, in order, report `k` judged in the world of turn `k`. */
  function Verdicts(cfg: Settings.Config, worlds: nat -> World, reports: seq<Report>): (v: seq<bool>)
    ensures |v| == |reports|
  {
    seq(|reports|, k requires 0 <= k < |reports| => Decide(cfg, worlds(k), reports[k].title, reports[k].id) == Wanted)
  }

  /** The entries the loop records for `reports`, in order, stopping at the first failed
      request; `verdicts` says which reports are wanted. */
  function QueuedFor(reports: seq<Report>, verdicts: seq<bool>, answers: map<int, string>): seq<string>
    requires |verdicts| == |reports|
    decreases |reports|
  {
    if |reports| == 0 then []
    else
      var r := reports[0];
      if !verdicts[0] then QueuedFor(reports[1..], verdicts[1..], answers)
      else match Response(answers, r.id)
        case None => []
        case Some(response) => [r.title + ": " + response] + QueuedFor(reports[1..], verdicts[1..], answers)
  }

  /** What one run records: nothing when collecting the reports fails. */
  function RunOutcome(cfg: Settings.Config, worlds: nat -> World, lines: seq<string>, feeds: map<string, seq<Item>>,
                      answers: map<int, string>): seq<string>
  {
    match Reports.Reports(lines, feeds)
    case None => []
    case Some(reports) => QueuedFor(reports, Verdicts(cfg, worlds, reports), answers)
  }

  /** The reports whose verdict is yes, in order. */
  function WantedReports(reports: seq<Report>, verdicts: seq<bool>): seq<Report>
    requires |verdicts| == |reports|
    decreases |reports|
  {
    if |reports| == 0 then []
    else if verdicts[0] then [reports[0]] + WantedReports(reports[1..], verdicts[1..])
    else WantedReports(reports[1..], verdicts[1..])
  }

  /** The entry recorded for a report the queue accepted. */
  function Entry(r: Report, answers: map<int, string>): string
    requires r.id in answers
  {
    r.title + ": " + Replace(answers[r.id], "\n", "")
  }

  /** The run's state: the list of items queued, which the summary prints at the end. */
  class Session {
    var queued: seq<string>

    constructor ()
      ensures queued == []
    {
      queued := [];
    }

    /** AddToQueue (Program.cs): asks the queue to add the report, and returns its answer on one line. */
    static method AddToQueue(answers: map<int, string>, reportId: int) returns (response: Option<string>)
      ensures response == Response(answers, reportId)
    {
      if reportId !in answers {
        return None;
      }
      response := Some(Replace(answers[reportId], "\n", ""));
    }

    /** The body of the program's entry point: collect the reports, then queue each wanted one. */
    method Sync(cfg: Settings.Config, worlds: nat -> World, lines: seq<string>, feeds: map<string, seq<Item>>,
                answers: map<int, string>)
      modifies this
      ensures queued == old(queued) + RunOutcome(cfg, worlds, lines, feeds, answers)
    {
      var reports := GetReports(lines, feeds);
      if reports.None? {
        return;
      }
      ghost var verdicts := Verdicts(cfg, worlds, reports.value);
      QueueAll(cfg, worlds, reports.value, answers, verdicts);
    }

    /** The loop over the collected reports, in the dictionary's order; `verdicts` holds
        IsEpisodeWanted's verdict on each report in the world of its turn. */
    method QueueAll(cfg: Settings.Config, worlds: nat -> World, rs: seq<Report>, answers: map<int, string>, ghost verdicts: seq<bool>)
      requires |verdicts| == |rs|
      requires forall k {:trigger Decide(cfg, worlds(k), rs[k].title, rs[k].id)} :: 0 <= k < |rs| ==>
        (verdicts[k] <==> Decide(cfg, worlds(k), rs[k].title, rs[k].id) == Wanted)
      modifies this
      ensures queued == old(queued) + QueuedFor(rs, verdicts, answers)
    {
      var i := 0;
      while i < |rs|
        invariant 0 <= i <= |rs|
        invariant old(queued) + QueuedFor(rs, verdicts, answers) == queued + QueuedFor(rs[i..], verdicts[i..], answers)
      {
        var stop, added := Offer(cfg, worlds, rs, i, answers, verdicts);
        ghost var rest := if stop then [] else QueuedFor(rs[i + 1..], verdicts[i + 1..], answers);
        QueuedTurn(rs, verdicts, i, answers, stop, added);
        assert queued + QueuedFor(rs[i..], verdicts[i..], answers) == (queued + added) + rest;
        queued := queued + added;
        if stop {
          return;
        }
        i := i + 1;
      }
      assert rs[i..] == [];
    }

    /** One turn of the loop, on report `i`: IsEpisodeWanted on it, and AddToQueue when it
        is wanted. `stop` is a failed request, `added` what the turn records. */
    static method Offer(cfg: Settings.Config, worlds: nat -> World, rs: seq<Report>, i: nat, answers: map<int, string>,
                        ghost verdicts: seq<bool>)
      returns (stop: bool, added: seq<string>)
      requires i < |rs| == |verdicts|
      requires forall k {:trigger Decide(cfg, worlds(k), rs[k].title, rs[k].id)} :: 0 <= k < |rs| ==>
        (verdicts[k] <==> Decide(cfg, worlds(k), rs[k].title, rs[k].id) == Wanted)
      ensures stop <==> verdicts[i] && rs[i].id !in answers
      ensures added == if verdicts[i] && rs[i].id in answers then [Entry(rs[i], answers)] else []
    {
      var report := rs[i];
      var wanted, _ := IsEpisodeWanted(cfg, worlds(i), report.title, report.id);
      if !wanted {
        return false, [];
      }
      var response := AddToQueue(answers, report.id);
      if response.None? {
        return true, [];
      }
      return false, [report.title + ": " + response.value];
    }
  }

  // ---------------------------------------------------------------------------

  /** Every recorded entry is a wanted report's title and the queue's one-line answer,
      recorded in the order of the reports. */
  lemma {:induction false} QueuedSound(reports: seq<Report>, verdicts: seq<bool>, answers: map<int, string>)
    requires |verdicts| == |reports|
    ensures |QueuedFor(reports, verdicts, answers)| <= |WantedReports(reports, verdicts)|
    ensures forall k :: 0 <= k < |QueuedFor(reports, verdicts, answers)| ==>
      WantedReports(reports, verdicts)[k].id in answers &&
      QueuedFor(reports, verdicts, answers)[k] == Entry(WantedReports(reports, verdicts)[k], answers)
    decreases |reports|
  {
    if |reports| > 0 {
      QueuedSound(reports[1..], verdicts[1..], answers);
    }
  }

  /** When the queue answers every wanted report, every wanted report is recorded. */
  lemma {:induction false} QueuedComplete(reports: seq<Report>, verdicts: seq<bool>, answers: map<int, string>)
    requires |verdicts| == |reports|
    requires forall k :: 0 <= k < |WantedReports(reports, verdicts)| ==> WantedReports(reports, verdicts)[k].id in answers
    ensures |QueuedFor(reports, verdicts, answers)| == |WantedReports(reports, verdicts)|
    decreases |reports|
  {
    if |reports| > 0 {
      var rest := WantedReports(reports[1..], verdicts[1..]);
      if verdicts[0] {
        assert WantedReports(reports, verdicts)[0] == reports[0];
        assert forall k :: 0 <= k < |rest| ==> rest[k] == WantedReports(reports, verdicts)[k + 1];
      } else {
        assert rest == WantedReports(reports, verdicts);
      }
      QueuedComplete(reports[1..], verdicts[1..], answers);
    }
  }

  /** What one turn of the loop records is the head of what the rest of the loop records. */
  lemma QueuedTurn(rs: seq<Report>, verdicts: seq<bool>, i: nat, answers: map<int, string>,
                   stop: bool, added: seq<string>)
    requires |verdicts| == |rs| && i < |rs|
    requires stop <==> verdicts[i] && rs[i].id !in answers
    requires added == if verdicts[i] && rs[i].id in answers then [Entry(rs[i], answers)] else []
    ensures QueuedFor(rs[i..], verdicts[i..], answers) ==
            added + (if stop then [] else QueuedFor(rs[i + 1..], verdicts[i + 1..], answers))
  {
    assert rs[i..][1..] == rs[i + 1..];
    assert verdicts[i..][1..] == verdicts[i + 1..];
  }

  /** No recorded answer holds a line feed. */
  lemma ResponseOneLine(answers: map<int, string>, reportId: int)
    requires Response(answers, reportId).Some?
    ensures '\n' !in Response(answers, reportId).value
  {
    ReplaceRemoves(answers[reportId], '\n');
  }
}
