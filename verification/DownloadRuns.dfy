/** What runs of the concurrent download (http/httpclient/client.go) there are: none gets stuck, none goes on forever,
    and there is one for every list of good answers. */
module DownloadRuns {
  import opened Wrappers
  import opened Download

  // ----- No run gets stuck -----

  ghost predicate Enabled(s: State) {
    exists e, t :: Step(s, e, t)
  }

  lemma StepIsEnabled(s: State, e: Event, t: State)
    requires Step(s, e, t)
    ensures Enabled(s)
  {
  }

  lemma LoopCanStep(s: State)
    requires Inv(s) && (s.phase == Launching || s.phase == ErrChecked)
    ensures Enabled(s)
  {
    hide Enabled;
    if s.phase == Launching && s.launched == |s.workers| {
      StepIsEnabled(s, EndLoop, s.(phase := Waiting));
    } else if s.phase == Launching && s.err.None? {
      StepIsEnabled(s, CheckErr, s.(phase := ErrChecked));
    } else if s.phase == ErrChecked && !Unexpected(s.resp) {
      StepIsEnabled(s, CheckRespAndStart, Started(s));
    } else {
      StepIsEnabled(s, Break, s.(phase := Waiting));
    }
  }

  function Started(s: State): State
    requires s.launched < |s.workers|
  {
    s.(phase := Launching, launched := s.launched + 1, workers := s.workers[s.launched := Running])
  }

  lemma WorkerCanStep(s: State, i: nat)
    requires i < |s.workers| && !s.workers[i].NotStarted? && !s.workers[i].Done?
    ensures Enabled(s)
  {
    hide Enabled;
    match s.workers[i]
    case Running =>
      var o := Outcome([], Some(Response(PARTIAL_CONTENT)), None);
      StepIsEnabled(s, Store(i, o), s.(workers := s.workers[i := Stored(o)]));
    case Stored(o) =>
      var err := if o.err.Some? then o.err else s.err;
      StepIsEnabled(s, WriteErr(i), s.(workers := s.workers[i := ErrWritten(o)], err := err));
    case ErrWritten(o) =>
      var resp := if Unexpected(o.resp) then o.resp else s.resp;
      StepIsEnabled(s, WriteResp(i), s.(workers := s.workers[i := Done(o)], resp := resp));
  }

  lemma StateCanStep(s: State)
    requires Inv(s) && !s.phase.Returned?
    ensures Enabled(s)
  {
    hide Enabled;
    if s.phase != Waiting {
      LoopCanStep(s);
    } else if i: nat :| i < |s.workers| && !s.workers[i].NotStarted? && !s.workers[i].Done? {
      WorkerCanStep(s, i);
    } else {
      var result := Collect(RespList(s.workers), ErrorsList(s.workers));
      StepIsEnabled(s, Finish, s.(phase := Returned(result)));
    }
  }

  /** In every state that a run reaches, some step is possible unless the download has returned. */
  lemma RunCanStep(r: Run, splitCount: nat, k: nat)
    requires IsRun(r, splitCount) && k < |r.states| && !r.states[k].phase.Returned?
    ensures exists e, t :: Step(r.states[k], e, t)
  {
    hide Inv;
    RunKeepsInv(r, splitCount, k);
    StateCanStep(r.states[k]);
  }

  // ----- No run goes on forever -----

  function WorkerSteps(w: Worker): nat {
    match w
    case NotStarted => 3
    case Running => 3
    case Stored(_) => 2
    case ErrWritten(_) => 1
    case Done(_) => 0
  }

  function AllWorkerSteps(workers: seq<Worker>): nat {
    if workers == [] then 0 else AllWorkerSteps(workers[..|workers| - 1]) + WorkerSteps(workers[|workers| - 1])
  }

  /** At most this many steps are left. */
  function StepsLeft(s: State): nat
    requires s.launched <= |s.workers|
  {
    AllWorkerSteps(s.workers) + match s.phase
                                case Launching => 2 * (|s.workers| - s.launched) + 2
                                case ErrChecked => 2 * (|s.workers| - s.launched) + 1
                                case Waiting => 1
                                case Returned(_) => 0
  }

  lemma {:induction false} StepsUpdate(workers: seq<Worker>, i: nat, w: Worker)
    requires i < |workers|
    ensures AllWorkerSteps(workers[i := w]) + WorkerSteps(workers[i]) == AllWorkerSteps(workers) + WorkerSteps(w)
  {
    hide WorkerSteps;
    var n := |workers| - 1;
    if i == n {
      assert workers[i := w][..n] == workers[..n];
    } else {
      assert workers[i := w][..n] == workers[..n][i := w];
      StepsUpdate(workers[..n], i, w);
    }
  }

  lemma StepUsesUp(s: State, e: Event, t: State)
    requires Inv(s) && Step(s, e, t)
    ensures t.launched <= |t.workers| && StepsLeft(t) < StepsLeft(s)
  {
    hide AllWorkerSteps, Reason;
    match e
    case CheckRespAndStart => StepsUpdate(s.workers, s.launched, Running);
    case Store(i, o) => StepsUpdate(s.workers, i, Stored(o));
    case WriteErr(i) => StepsUpdate(s.workers, i, ErrWritten(s.workers[i].o));
    case WriteResp(i) => StepsUpdate(s.workers, i, Done(s.workers[i].o));
    case _ =>
  }

  lemma {:induction false} StepsAtStart(n: nat, workers: seq<Worker>)
    requires |workers| == n && forall i :: 0 <= i < n ==> workers[i] == NotStarted
    ensures AllWorkerSteps(workers) == 3 * n
  {
    if n > 0 {
      StepsAtStart(n - 1, workers[..n - 1]);
    }
  }

  lemma {:induction false} StepsCount(r: Run, splitCount: nat, k: nat)
    requires IsRun(r, splitCount) && k < |r.states|
    ensures r.states[k].launched <= |r.states[k].workers| && StepsLeft(r.states[k]) + k <= 5 * splitCount + 2
  {
    hide StepsLeft, Inv, Step;
    if k == 0 {
      LeftAtStart(splitCount);
    } else {
      StepsCount(r, splitCount, k - 1);
      var s, e, t := r.states[k - 1], r.events[k - 1], r.states[k];
      assert Step(s, e, t);
      RunKeepsInv(r, splitCount, k - 1);
      if s.phase.Returned? {
        assert Step(r.states[k - 2], r.events[k - 2], s);
        ReturnedIsFinal(r.states[k - 2], s, e, t);
      } else {
        StepUsesUp(s, e, t);
      }
    }
  }

  lemma LeftAtStart(splitCount: nat)
    ensures var s := Init(splitCount); s.launched <= |s.workers| && StepsLeft(s) <= 5 * splitCount + 2
  {
    StepsAtStart(splitCount, Init(splitCount).workers);
  }

  /** Every run is short: the loop looks at the shared data twice for each chunk, and each worker takes three steps. */
  lemma RunsEnd(r: Run, splitCount: nat)
    requires IsRun(r, splitCount)
    ensures |r.events| <= 5 * splitCount + 2
  {
    StepsCount(r, splitCount, |r.events|);
  }

  // ----- Failures stop the loop -----

  lemma {:induction false} FailureStays(r: Run, splitCount: nat, j: nat, k: nat)
    requires IsRun(r, splitCount) && j <= k < |r.states|
    ensures r.states[j].err.Some? ==> r.states[k].err.Some?
    ensures Unexpected(r.states[j].resp) ==> Unexpected(r.states[k].resp)
    ensures r.states[j].launched <= r.states[k].launched
  {
    hide Step;
    if j < k {
      FailureStays(r, splitCount, j, k - 1);
      assert Step(r.states[k - 1], r.events[k - 1], r.states[k]);
      StepKeepsFailure(r.states[k - 1], r.events[k - 1], r.states[k]);
    }
  }

  lemma StepKeepsFailure(s: State, e: Event, t: State)
    requires Step(s, e, t)
    ensures s.err.Some? ==> t.err.Some?
    ensures Unexpected(s.resp) ==> Unexpected(t.resp)
    ensures s.launched <= t.launched
  {
  }

  /** The loop may still start the worker that it was about to start. */
  function MayStart(s: State): nat {
    if s.phase == ErrChecked && !Unexpected(s.resp) then 1 else 0
  }

  lemma StepStartsFew(s: State, e: Event, t: State)
    requires Step(s, e, t) && (s.err.Some? || Unexpected(s.resp))
    ensures s.err.Some? ==> t.launched + MayStart(t) <= s.launched + MayStart(s)
    ensures Unexpected(s.resp) ==> t.launched == s.launched
  {
  }

  /** In every run: after the shared error is set at most one more worker is started, and after the shared response is
      set none is. */
  lemma {:induction false} FailureStopsLoop(r: Run, splitCount: nat, j: nat, k: nat)
    requires IsRun(r, splitCount) && j <= k < |r.states|
    ensures r.states[j].err.Some? ==>
              r.states[k].launched + MayStart(r.states[k]) <= r.states[j].launched + MayStart(r.states[j])
              <= r.states[j].launched + 1
    ensures Unexpected(r.states[j].resp) ==> r.states[k].launched == r.states[j].launched
  {
    hide Step, MayStart;
    AtMostOne(r.states[j]);
    if j < k {
      FailureStopsLoop(r, splitCount, j, k - 1);
      FailureStays(r, splitCount, j, k - 1);
      var s, t := r.states[k - 1], r.states[k];
      assert Step(s, r.events[k - 1], t);
      if s.err.Some? || Unexpected(s.resp) {
        StepStartsFew(s, r.events[k - 1], t);
      }
    }
  }

  lemma AtMostOne(s: State)
    ensures MayStart(s) <= 1
  {
  }

  /** What a worker wrote is in the shared data. */
  ghost predicate Recorded(s: State) {
    forall i :: 0 <= i < |s.workers| ==>
      (WroteError(s.workers[i]) ==> s.err.Some?) && (WroteResponse(s.workers[i]) ==> Unexpected(s.resp))
  }

  predicate WroteError(w: Worker) {
    (w.ErrWritten? || w.Done?) && w.o.err.Some?
  }

  predicate WroteResponse(w: Worker) {
    w.Done? && Unexpected(w.o.resp)
  }

  lemma StepRecords(s: State, e: Event, t: State)
    requires Recorded(s) && Step(s, e, t)
    ensures Recorded(t)
  {
  }

  lemma {:induction false} RunRecords(r: Run, splitCount: nat, k: nat)
    requires IsRun(r, splitCount) && k < |r.states|
    ensures Recorded(r.states[k])
  {
    hide Step, Recorded;
    if k == 0 {
      NothingWritten(splitCount);
    } else {
      RunRecords(r, splitCount, k - 1);
      assert Step(r.states[k - 1], r.events[k - 1], r.states[k]);
      StepRecords(r.states[k - 1], r.events[k - 1], r.states[k]);
    }
  }

  lemma NothingWritten(splitCount: nat)
    ensures Recorded(Init(splitCount))
  {
  }

  /** In every run: once a worker is past writing its error at most one more worker is started, and once one is past
      writing its unexpected response none is. */
  lemma FailureEndsStarts(r: Run, splitCount: nat, j: nat, k: nat, i: nat)
    requires IsRun(r, splitCount) && j <= k < |r.states| && i < |r.states[j].workers|
    ensures WroteError(r.states[j].workers[i]) ==> r.states[k].launched <= r.states[j].launched + 1
    ensures WroteResponse(r.states[j].workers[i]) ==> r.states[k].launched == r.states[j].launched
  {
    hide Step, MayStart;
    RunRecords(r, splitCount, j);
    FailureStopsLoop(r, splitCount, j, k);
  }

  // ----- A successful run -----

  /** Each worker that has an outcome has its own one of these. */
  ghost predicate Answered(workers: seq<Worker>, answers: seq<Outcome>) {
    |workers| == |answers| && forall i :: 0 <= i < |workers| && HasOutcome(workers[i]) ==> workers[i].o == answers[i]
  }

  predicate AllGood(answers: seq<Outcome>) {
    forall i :: 0 <= i < |answers| ==> answers[i].err.None? && answers[i].resp == Some(Response(206))
  }

  /** The step that goes on from a state in which all outcomes so far were good. */
  lemma GoodStep(s: State, answers: seq<Outcome>) returns (e: Event, t: State)
    requires Inv(s) && !s.phase.Returned? && Answered(s.workers, answers) && AllGood(answers)
    requires s.phase == Waiting ==> s.launched == |s.workers|
    ensures Step(s, e, t) && Answered(t.workers, answers)
    ensures e == Finish ==> s.launched == |s.workers|
    ensures t.phase == Waiting ==> t.launched == |t.workers|
  {
    NoReason(s, answers);
    if s.phase == Launching && s.launched == |s.workers| {
      e, t := EndLoop, s.(phase := Waiting);
    } else if s.phase == Launching {
      e, t := CheckErr, s.(phase := ErrChecked);
    } else if s.phase == ErrChecked {
      e, t := CheckRespAndStart, Started(s);
    } else if i: nat :| i < |s.workers| && !s.workers[i].Done? {
      e, t := GoodWorkerStep(s, answers, i);
    } else {
      e, t := Finish, s.(phase := Returned(Collect(RespList(s.workers), ErrorsList(s.workers))));
    }
  }

  lemma NoReason(s: State, answers: seq<Outcome>)
    requires Inv(s) && Answered(s.workers, answers) && AllGood(answers)
    ensures s.err.None? && s.resp.None?
  {
  }

  lemma GoodWorkerStep(s: State, answers: seq<Outcome>, i: nat) returns (e: Event, t: State)
    requires s.phase == Waiting && s.launched == |s.workers| && Answered(s.workers, answers) && AllGood(answers)
    requires i < |s.workers| && !s.workers[i].NotStarted? && !s.workers[i].Done?
    ensures Step(s, e, t) && Answered(t.workers, answers) && e != Finish
    ensures t.phase == s.phase && t.launched == s.launched && |t.workers| == |s.workers|
  {
    match s.workers[i]
    case Running =>
      e, t := Store(i, answers[i]), s.(workers := s.workers[i := Stored(answers[i])]);
    case Stored(o) =>
      e, t := WriteErr(i), s.(workers := s.workers[i := ErrWritten(o)], err := if o.err.Some? then o.err else s.err);
    case ErrWritten(o) =>
      e := WriteResp(i);
      t := s.(workers := s.workers[i := Done(o)], resp := if Unexpected(o.resp) then o.resp else s.resp);
  }

  /** For all lists of good answers, of status 206 and without an error, some run gives them to the workers and returns
      the last response. */
  lemma GoodRun(answers: seq<Outcome>) returns (r: Run)
    requires answers != [] && AllGood(answers)
    ensures IsRun(r, |answers|)
    ensures var end := r.states[|r.events|];
            && end.phase == Returned(Got(Response(206)))
            && |end.workers| == |answers|
            && forall i :: 0 <= i < |answers| ==> end.workers[i] == Done(answers[i])
  {
    hide Step, StepsLeft, Inv;
    var n := |answers|;
    r := Run([Init(n)], []);
    InitInv(n);
    LeftAtStart(n);
    while !r.states[|r.events|].phase.Returned?
      invariant IsRun(r, n) && |r.states[|r.events|].workers| == n
      invariant Answered(r.states[|r.events|].workers, answers)
      invariant var s := r.states[|r.events|]; s.phase == Waiting ==> s.launched == |s.workers|
      invariant r.states[|r.events|].launched <= |r.states[|r.events|].workers|
      decreases StepsLeft(r.states[|r.events|])
    {
      var s := r.states[|r.events|];
      RunKeepsInv(r, n, |r.events|);
      var e, t := GoodStep(s, answers);
      StepUsesUp(s, e, t);
      r := Longer(r, n, e, t);
      RunKeepsInv(r, n, |r.events|);
    }
    RunResult(r, n);
    GoodResult(r.states[|r.events|], answers);
  }

  lemma Longer(r: Run, splitCount: nat, e: Event, t: State) returns (q: Run)
    requires IsRun(r, splitCount) && Step(r.states[|r.events|], e, t)
    ensures IsRun(q, splitCount) && |q.events| == |r.events| + 1 && q.states[|q.events|] == t
  {
    hide Step;
    q := Run(r.states + [t], r.events + [e]);
    forall k | 0 <= k < |q.events|
      ensures Step(q.states[k], q.events[k], q.states[k + 1])
    {
      if k < |r.events| {
        assert Step(r.states[k], r.events[k], r.states[k + 1]);
      }
    }
  }

  lemma GoodResult(s: State, answers: seq<Outcome>)
    requires s.phase.Returned? && Meets(s.workers, s.phase.result) && Answered(s.workers, answers) && AllGood(answers)
    ensures s.phase.result.Got?
    ensures forall i :: 0 <= i < |answers| ==> s.workers[i] == Done(answers[i])
    ensures answers != [] ==> s.phase.result == Got(Response(206))
  {
  }
}
