/**
 * The bookkeeping of one download session: the counters of downloaded and failed files,
 * the set of URLs downloaded in this session, and the files on disk, as a step per link
 * and a left-to-right run over the extracted links.
 */
module Session {
  import opened Wrappers
  
  /** How one call of the per-link download ended; only `Failed` makes it return False. */
  datatype Outcome = AlreadyExists | AlreadyHandled | Downloaded | Failed

  /** What the download request gave. */
  datatype Fetch =
    | Status(code: int)  // a response; with 200 its body was written to the destination in full
    | Interrupted        // 200, the destination file was opened, then streaming or writing raised
    | Raised             // the request, or opening the destination file, raised

  /** `total_downloaded`, `total_failed` and `downloaded_files`. */
  datatype Tally = Tally(downloaded: nat, failed: nat, handled: set<string>)

  datatype StepResult = StepResult(outcome: Outcome, tally: Tally, disk: set<string>)

  /**
   * One link: `dest` is its destination (`None` when computing it raised), `disk` the files
   * that exist, `fetch` what the request would give if it is made.
   */
  function Step(t: Tally, disk: set<string>, url: string, dest: Option<string>, fetch: Fetch): (r: StepResult)
    ensures r.outcome == AlreadyExists <==> dest.Some? && dest.value in disk
    ensures r.outcome == AlreadyHandled <==> dest.Some? && dest.value !in disk && url in t.handled
    ensures r.outcome == Downloaded <==> dest.Some? && dest.value !in disk && url !in t.handled && fetch == Status(200)
    ensures r.tally.downloaded == t.downloaded + (if r.outcome == Downloaded then 1 else 0)
    ensures r.tally.failed == t.failed + (if r.outcome == Failed then 1 else 0)
    ensures r.tally.handled == if r.outcome == Downloaded then t.handled + {url} else t.handled
    ensures r.disk == if r.outcome == Downloaded || (r.outcome == Failed && fetch == Interrupted && dest.Some?)
                      then disk + {dest.value} else disk
  {
    match dest
    case None => StepResult(Failed, t.(failed := t.failed + 1), disk)
    case Some(path) =>
      if path in disk then StepResult(AlreadyExists, t, disk)
      else if url in t.handled then StepResult(AlreadyHandled, t, disk)
      else match fetch
        case Status(code) =>
          if code == 200 then StepResult(Downloaded, Tally(t.downloaded + 1, t.failed, t.handled + {url}), disk + {path})
          else StepResult(Failed, t.(failed := t.failed + 1), disk)
        case Interrupted => StepResult(Failed, t.(failed := t.failed + 1), disk + {path})
        case Raised => StepResult(Failed, t.(failed := t.failed + 1), disk)
  }

  /** Number of occurrences of `o` in `os`. */
  function Count(os: seq<Outcome>, o: Outcome): nat
    decreases |os|
  {
    if os == [] then 0 else Count(os[..|os| - 1], o) + (if os[|os| - 1] == o then 1 else 0)
  }

  /** Every outcome is exactly one of the four. */
  lemma {:induction false} CountsCover(os: seq<Outcome>)
    ensures Count(os, AlreadyExists) + Count(os, AlreadyHandled) + Count(os, Downloaded) + Count(os, Failed) == |os|
    decreases |os|
  {
    if os != [] {
      CountsCover(os[..|os| - 1]);
    }
  }

  /** The outcomes of a run, in link order, and the state after it. */
  datatype Ledger = Ledger(outcomes: seq<Outcome>, tally: Tally, disk: set<string>)

  /**
   * The links handled one after the other; `answer(i)` is what requesting the i-th link would give.
   */
  function RunAll(t: Tally, disk: set<string>, links: seq<string>,
                  place: string -> Option<string>, answer: nat -> Fetch): (r: Ledger)
    ensures |r.outcomes| == |links|
    decreases |links|
  {
    if links == [] then Ledger([], t, disk)
    else
      var n := |links| - 1;
      var p := RunAll(t, disk, links[..n], place, answer);
      var s := Step(p.tally, p.disk, links[n], place(links[n]), answer(n));
      Ledger(p.outcomes + [s.outcome], s.tally, s.disk)
  }

  /** Counting over one more outcome. */
  lemma CountSnoc(os: seq<Outcome>, x: Outcome, o: Outcome)
    ensures Count(os + [x], o) == Count(os, o) + (if x == o then 1 else 0)
  {
    assert (os + [x])[..|os|] == os;
  }

  /** The counters of a run grow by the number of downloaded and of failed outcomes. */
  lemma {:induction false} RunCounts(t: Tally, disk: set<string>, links: seq<string>,
                                     place: string -> Option<string>, answer: nat -> Fetch)
    ensures var r := RunAll(t, disk, links, place, answer);
      && r.tally.downloaded == t.downloaded + Count(r.outcomes, Downloaded)
      && r.tally.failed == t.failed + Count(r.outcomes, Failed)
    decreases |links|
  {
    if links != [] {
      var n := |links| - 1;
      RunCounts(t, disk, links[..n], place, answer);
      var p := RunAll(t, disk, links[..n], place, answer);
      var s := Step(p.tally, p.disk, links[n], place(links[n]), answer(n));
      CountSnoc(p.outcomes, s.outcome, Downloaded);
      CountSnoc(p.outcomes, s.outcome, Failed);
    }
  }

  /** A run only adds files and remembered URLs. */
  lemma {:induction false} RunGrows(t: Tally, disk: set<string>, links: seq<string>,
                                    place: string -> Option<string>, answer: nat -> Fetch)
    ensures var r := RunAll(t, disk, links, place, answer);
      disk <= r.disk && t.handled <= r.tally.handled
    decreases |links|
  {
    if links != [] {
      RunGrows(t, disk, links[..|links| - 1], place, answer);
    }
  }

  /**
   * A session that starts with zero counters ends with every link accounted for exactly once:
   * downloaded + failed + skipped == number of links; and since the "already handled" skip never
   * fires in such a run, downloaded + failed + already-existed == number of links.
   */
  lemma RunAccountsEveryLink(disk: set<string>, links: seq<string>, place: string -> Option<string>, answer: nat -> Fetch)
    ensures var r := RunAll(Tally(0, 0, {}), disk, links, place, answer);
      r.tally.downloaded + r.tally.failed
        + Count(r.outcomes, AlreadyExists) + Count(r.outcomes, AlreadyHandled) == |links|
    ensures var r := RunAll(Tally(0, 0, {}), disk, links, place, answer);
      r.tally.downloaded + r.tally.failed + Count(r.outcomes, AlreadyExists) == |links|
  {
    CountsCover(RunAll(Tally(0, 0, {}), disk, links, place, answer).outcomes);
    RunCounts(Tally(0, 0, {}), disk, links, place, answer);
    RunStaysCoherent(Tally(0, 0, {}), disk, links, place, answer);
  }

  /**
   * The session invariant: one download per remembered URL, and every remembered URL's
   * file is on disk.
   */
  ghost predicate Coherent(t: Tally, disk: set<string>, place: string -> Option<string>) {
    && t.downloaded == |t.handled|
    && forall u :: u in t.handled ==>
         place(u).Some? && place(u).value in disk
  }

  /**
   * Run sequentially, the session stays coherent, and the "already handled in this session"
   * skip never fires: a remembered URL's file already exists, which is tested first.
   */
  lemma {:induction false} RunStaysCoherent(t: Tally, disk: set<string>, links: seq<string>, place: string -> Option<string>, answer: nat -> Fetch)
    requires Coherent(t, disk, place)
    ensures var r := RunAll(t, disk, links, place, answer);
      Coherent(r.tally, r.disk, place) && Count(r.outcomes, AlreadyHandled) == 0
    decreases |links|
  {
    if links != [] {
      var n := |links| - 1;
      RunStaysCoherent(t, disk, links[..n], place, answer);
      var p := RunAll(t, disk, links[..n], place, answer);
      var s := Step(p.tally, p.disk, links[n], place(links[n]), answer(n));
      assert s.outcome != AlreadyHandled;
      assert s.outcome == Downloaded ==> |s.tally.handled| == |p.tally.handled| + 1;
    }
  }

  /** The run over a prefix of the links is the beginning of the run over all of them. */
  lemma {:induction false} RunPrefix(t: Tally, disk: set<string>, links: seq<string>, place: string -> Option<string>, answer: nat -> Fetch, m: nat)
    requires m <= |links|
    ensures var p := RunAll(t, disk, links[..m], place, answer);
      var r := RunAll(t, disk, links, place, answer);
      p.outcomes == r.outcomes[..m] && p.disk <= r.disk && p.tally.handled <= r.tally.handled
    decreases |links|
  {
    if m == |links| {
      assert links[..m] == links;
    } else {
      var n := |links| - 1;
      assert links[..n][..m] == links[..m];
      RunPrefix(t, disk, links[..n], place, answer, m);
      var q := RunAll(t, disk, links[..n], place, answer);
      var s := Step(q.tally, q.disk, links[n], place(links[n]), answer(n));
      var r := RunAll(t, disk, links, place, answer);
      assert r == Ledger(q.outcomes + [s.outcome], s.tally, s.disk);
      assert r.outcomes[..m] == q.outcomes[..m];
    }
  }

  /** The run over the first `k + 1` links is the run over the first `k` followed by one step. */
  lemma RunExtends(t: Tally, disk: set<string>, links: seq<string>, place: string -> Option<string>, answer: nat -> Fetch, k: nat)
    requires k < |links|
    ensures var p := RunAll(t, disk, links[..k], place, answer);
      var s := Step(p.tally, p.disk, links[k], place(links[k]), answer(k));
      RunAll(t, disk, links[..k + 1], place, answer) == Ledger(p.outcomes + [s.outcome], s.tally, s.disk)
      && RunAll(t, disk, links, place, answer).outcomes[k] == s.outcome
  {
    assert links[..k + 1][..k] == links[..k];
    RunPrefix(t, disk, links, place, answer, k + 1);
  }

  /** A file on disk after step `i` is still there, so every later link with that destination is skipped. */
  lemma PresentStaysPresent(t: Tally, disk: set<string>, links: seq<string>, place: string -> Option<string>, answer: nat -> Fetch, i: nat, j: nat)
    requires i < j < |links|
    requires place(links[j]).Some?
    requires place(links[j]).value in RunAll(t, disk, links[..i + 1], place, answer).disk
    ensures RunAll(t, disk, links, place, answer).outcomes[j] == AlreadyExists
  {
    assert links[..j][..i + 1] == links[..i + 1];
    RunPrefix(t, disk, links[..j], place, answer, i + 1);
    var p := RunAll(t, disk, links[..j], place, answer);
    assert place(links[j]).value in p.disk;
    RunExtends(t, disk, links, place, answer, j);
  }

  /** A URL is downloaded at most once per session: any later occurrence finds its file. */
  lemma DownloadedOnce(t: Tally, disk: set<string>, links: seq<string>, place: string -> Option<string>, answer: nat -> Fetch, i: nat, j: nat)
    requires i < j < |links| && links[i] == links[j]
    requires RunAll(t, disk, links, place, answer).outcomes[i] == Downloaded
    ensures RunAll(t, disk, links, place, answer).outcomes[j] == AlreadyExists
  {
    RunExtends(t, disk, links, place, answer, i);
    PresentStaysPresent(t, disk, links, place, answer, i, j);
  }

  /**
   * An interrupted download leaves a partial file behind, and a later occurrence of the same
   * URL takes that file as already downloaded.
   */
  lemma InterruptedNotRetried(t: Tally, disk: set<string>, links: seq<string>, place: string -> Option<string>, answer: nat -> Fetch, i: nat, j: nat)
    requires i < j < |links| && links[i] == links[j]
    requires RunAll(t, disk, links, place, answer).outcomes[i] == Failed
    requires answer(i) == Interrupted && place(links[i]).Some?
    ensures RunAll(t, disk, links, place, answer).outcomes[j] == AlreadyExists
  {
    RunExtends(t, disk, links, place, answer, i);
    PresentStaysPresent(t, disk, links, place, answer, i, j);
  }

  /** A step on another link, with another destination, leaves a file absent and a URL unremembered. */
  lemma StepElsewhere(t: Tally, disk: set<string>, url: string, dest: Option<string>, fetch: Fetch, path: string, u: string)
    requires path !in disk && u !in t.handled
    requires dest != Some(path) && url != u
    ensures var s := Step(t, disk, url, dest, fetch);
      path !in s.disk && u !in s.tally.handled
  {
  }

  /** A step that failed without leaving a file found neither the file nor the URL, and changed neither. */
  lemma StepFailedClean(t: Tally, disk: set<string>, url: string, path: string, fetch: Fetch)
    requires Step(t, disk, url, Some(path), fetch).outcome == Failed && fetch != Interrupted
    ensures var s := Step(t, disk, url, Some(path), fetch);
      path !in s.disk && url !in s.tally.handled
  {
  }

  /**
   * Between a failed request that left no file and a later occurrence of the same URL, as
   * long as no other link writes the same destination, the URL stays unremembered and its file absent.
   */
  lemma {:induction false} FailureLeavesNoTrace(t: Tally, disk: set<string>, links: seq<string>, place: string -> Option<string>, answer: nat -> Fetch, i: nat, k: nat)
    requires i < k <= |links|
    requires place(links[i]).Some?
    requires RunAll(t, disk, links, place, answer).outcomes[i] == Failed && answer(i) != Interrupted
    requires forall m :: i < m < k ==> place(links[m]) != place(links[i])
    ensures var p := RunAll(t, disk, links[..k], place, answer);
      place(links[i]).value !in p.disk && links[i] !in p.tally.handled
    decreases k
  {
    var dest := place(links[i]);
    if k - 1 > i {
      FailureLeavesNoTrace(t, disk, links, place, answer, i, k - 1);
      var pre := links[..k];
      assert pre[..k - 1] == links[..k - 1] && pre[k - 1] == links[k - 1];
      assert place(links[k - 1]) != dest;
      NoTraceStep(t, disk, pre, place, answer, dest.value, links[i]);
    } else {
      NoTraceStart(t, disk, links, place, answer, i);
    }
  }

  /** Right after a failure that left no file, the file is absent and the URL unremembered. */
  lemma NoTraceStart(t: Tally, disk: set<string>, links: seq<string>, place: string -> Option<string>, answer: nat -> Fetch, i: nat)
    requires i < |links| && place(links[i]).Some?
    requires RunAll(t, disk, links, place, answer).outcomes[i] == Failed && answer(i) != Interrupted
    ensures var p := RunAll(t, disk, links[..i + 1], place, answer);
      place(links[i]).value !in p.disk && links[i] !in p.tally.handled
  {
    RunExtends(t, disk, links, place, answer, i);
    var p := RunAll(t, disk, links[..i], place, answer);
    StepFailedClean(p.tally, p.disk, links[i], place(links[i]).value, answer(i));
  }

  /** One more step on a link with another destination keeps a file absent and a URL unremembered. */
  lemma NoTraceStep(t: Tally, disk: set<string>, links: seq<string>, place: string -> Option<string>, answer: nat -> Fetch,
                    path: string, u: string)
    requires links != []
    requires var p := RunAll(t, disk, links[..|links| - 1], place, answer);
      path !in p.disk && u !in p.tally.handled
    requires place(links[|links| - 1]) != Some(path) && links[|links| - 1] != u
    ensures var r := RunAll(t, disk, links, place, answer);
      path !in r.disk && u !in r.tally.handled
  {
    var n := |links| - 1;
    var p := RunAll(t, disk, links[..n], place, answer);
    StepElsewhere(p.tally, p.disk, links[n], place(links[n]), answer(n), path, u);
  }

  /**
   * A failed URL is not remembered: when its request failed without leaving a file, a later
   * occurrence is requested again, unless a link in between wrote the same destination.
   */
  lemma RetriedAfterFailure(t: Tally, disk: set<string>, links: seq<string>, place: string -> Option<string>, answer: nat -> Fetch, i: nat, j: nat)
    requires i < j < |links| && links[i] == links[j]
    requires place(links[i]).Some?
    requires RunAll(t, disk, links, place, answer).outcomes[i] == Failed && answer(i) != Interrupted
    requires forall m :: i < m < j ==> place(links[m]) != place(links[i])
    ensures var o := RunAll(t, disk, links, place, answer).outcomes[j]; o == Downloaded || o == Failed
  {
    FailureLeavesNoTrace(t, disk, links, place, answer, i, j);
    RunExtends(t, disk, links, place, answer, j);
  }

  /** A step that does not fail, from a coherent state, ends with the link's file on disk. */
  lemma SucceededStepPresent(t: Tally, disk: set<string>, url: string, place: string -> Option<string>, fetch: Fetch)
    requires Coherent(t, disk, place)
    requires Step(t, disk, url, place(url), fetch).outcome != Failed
    ensures var dest := place(url);
      dest.Some? && dest.value in Step(t, disk, url, dest, fetch).disk
  {
  }

  /** Every link's file is on disk when the earlier ones' files were and the last one's is. */
  lemma AllPresentSnoc(pre: seq<string>, last: string, place: string -> Option<string>, before: set<string>, after: set<string>)
    requires before <= after
    requires forall i :: 0 <= i < |pre| ==> place(pre[i]).Some? && place(pre[i]).value in before
    requires place(last).Some? && place(last).value in after
    ensures var links := pre + [last];
      forall i :: 0 <= i < |links| ==> place(links[i]).Some? && place(links[i]).value in after
  {
  }

  /** After a coherent run without failures, every link's file is on disk. */
  lemma {:induction false} NoFailureAllPresent(t: Tally, disk: set<string>, links: seq<string>, place: string -> Option<string>, answer: nat -> Fetch)
    requires Coherent(t, disk, place)
    requires Count(RunAll(t, disk, links, place, answer).outcomes, Failed) == 0
    ensures var r := RunAll(t, disk, links, place, answer);
      forall i :: 0 <= i < |links| ==>
        place(links[i]).Some? && place(links[i]).value in r.disk
    decreases |links|
  {
    if links != [] {
      var n := |links| - 1;
      var p := RunAll(t, disk, links[..n], place, answer);
      var s := Step(p.tally, p.disk, links[n], place(links[n]), answer(n));
      CountSnoc(p.outcomes, s.outcome, Failed);
      NoFailureAllPresent(t, disk, links[..n], place, answer);
      RunStaysCoherent(t, disk, links[..n], place, answer);
      SucceededStepPresent(p.tally, p.disk, links[n], place, answer(n));
      AllPresentSnoc(links[..n], links[n], place, p.disk, s.disk);
      assert links[..n] + [links[n]] == links;
    }
  }

  /** When every link's file is already on disk, a run skips them all and changes nothing. */
  lemma {:induction false} AllPresentAllSkipped(t: Tally, disk: set<string>, links: seq<string>, place: string -> Option<string>, answer: nat -> Fetch)
    requires forall i :: 0 <= i < |links| ==>
      place(links[i]).Some? && place(links[i]).value in disk
    ensures var r := RunAll(t, disk, links, place, answer);
      r.tally == t && r.disk == disk && Count(r.outcomes, AlreadyExists) == |links|
    decreases |links|
  {
    if links != [] {
      var n := |links| - 1;
      AllPresentAllSkipped(t, disk, links[..n], place, answer);
    }
  }

  /**
   * A second session over the same links, after a first one in which nothing failed,
   * downloads nothing, fails nothing and leaves the disk as it was, whatever the network answers.
   */
  lemma SecondRunIdle(disk: set<string>, links: seq<string>, place: string -> Option<string>,
                      first: nat -> Fetch, second: nat -> Fetch)
    requires Count(RunAll(Tally(0, 0, {}), disk, links, place, first).outcomes, Failed) == 0
    ensures var r1 := RunAll(Tally(0, 0, {}), disk, links, place, first);
      var r2 := RunAll(Tally(0, 0, {}), r1.disk, links, place, second);
      r2.tally.downloaded == 0 && r2.tally.failed == 0 && r2.disk == r1.disk
  {
    var r1 := RunAll(Tally(0, 0, {}), disk, links, place, first);
    NoFailureAllPresent(Tally(0, 0, {}), disk, links, place, first);
    AllPresentAllSkipped(Tally(0, 0, {}), r1.disk, links, place, second);
  }
}
