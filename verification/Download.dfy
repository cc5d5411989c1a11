/** Concurrent download of a file in ranges (http/httpclient/client.go): the range arithmetic, the interleavings of the
    launching loop with the workers, and the merge. A step of the machine is one read or write of shared data. */
module Download {
  import opened Wrappers

  // ----- Ranges -----

  function ChunkStart(size: nat, splitCount: nat, i: nat): nat
    requires splitCount > 0
  {
    size / splitCount * i
  }

  function ChunkEnd(size: nat, splitCount: nat, i: nat): nat
    requires splitCount > 0
  {
    size / splitCount * (i + 1) + if i == splitCount - 1 then size % splitCount else 0
  }

  /** The chunks are contiguous, start at 0, end at the file's size, and never leave the file (so that no product
      overflows when the size does not). */
  lemma RangesCover(size: nat, splitCount: nat, i: nat)
    requires i < splitCount
    ensures ChunkStart(size, splitCount, 0) == 0
    ensures ChunkStart(size, splitCount, i) <= ChunkEnd(size, splitCount, i) <= size
    ensures ChunkEnd(size, splitCount, i) == if i == splitCount - 1 then size else ChunkStart(size, splitCount, i + 1)
  {
    var q := size / splitCount;
    assert q * splitCount + size % splitCount == size;
    assert q * (i + 1) <= q * splitCount by {
      MulMonotone(q, i + 1, splitCount);
    }
    assert q * (i + 1) == q * i + q;
  }

  /** The chunks are even: the last one is at least as long as any other, and longer by less than the number of chunks,
      and the others are equally long. */
  lemma ChunksAreEven(size: nat, splitCount: nat, i: nat)
    requires i < splitCount
    ensures var length := ChunkEnd(size, splitCount, i) - ChunkStart(size, splitCount, i);
            var last := ChunkEnd(size, splitCount, splitCount - 1) - ChunkStart(size, splitCount, splitCount - 1);
            && length <= last < length + splitCount
            && (i < splitCount - 1 ==> length == ChunkEnd(size, splitCount, 0) - ChunkStart(size, splitCount, 0))
  {
    var q := size / splitCount;
    assert q * (i + 1) == q * i + q;
    assert q * splitCount == q * (splitCount - 1) + q;
    assert q * 1 == q && q * 0 == 0;
  }

  lemma MulMonotone(q: nat, a: nat, b: nat)
    requires a <= b
    ensures q * a <= q * b
  {
    assert q * b == q * a + q * (b - a);
  }

  /** Section 2.1 of RFC 7233: the last byte position of a range must not be less than its first.
      The header asks for the bytes from start to end - 1. */
  predicate ValidByteRange(size: nat, splitCount: nat, i: nat)
    requires splitCount > 0
  {
    ChunkStart(size, splitCount, i) <= ChunkEnd(size, splitCount, i) - 1
  }

  /** Every range asked for is valid if and only if the file has at least as many bytes as there are chunks. */
  lemma RangesValidIff(size: nat, splitCount: nat)
    requires splitCount > 0
    ensures (forall i :: 0 <= i < splitCount ==> ValidByteRange(size, splitCount, i)) <==> size >= splitCount
  {
    var q := size / splitCount;
    assert q * splitCount + size % splitCount == size;
    if size >= splitCount {
      forall i | 0 <= i < splitCount
        ensures ValidByteRange(size, splitCount, i)
      {
        assert q * (i + 1) == q * i + q;
      }
    } else {
      assert q == 0 by {
        MulMonotone(splitCount, 1, if q == 0 then 1 else q);
      }
      assert splitCount > 1 ==> !ValidByteRange(size, splitCount, 0);
      assert splitCount == 1 ==> size == 0 && !ValidByteRange(size, splitCount, 0);
    }
  }

  /** One byte in three chunks: the first request asks for the bytes from 0 to -1. */
  lemma InvalidRangeExample()
    ensures ChunkStart(1, 3, 0) == 0 && ChunkEnd(1, 3, 0) - 1 == -1
    ensures !ValidByteRange(1, 3, 0)
  {
    assert 1 / 3 == 0;
  }

  function Concat(chunks: seq<seq<bv8>>): seq<bv8> {
    if chunks == [] then [] else Concat(chunks[..|chunks| - 1]) + chunks[|chunks| - 1]
  }

  /** The chunks hold the bytes of their ranges. */
  ghost predicate Served(content: seq<bv8>, splitCount: nat, chunks: seq<seq<bv8>>)
    requires 0 < splitCount && |chunks| <= splitCount
  {
    forall i :: 0 <= i < |chunks| ==>
      ChunkStart(|content|, splitCount, i) <= ChunkEnd(|content|, splitCount, i) <= |content|
      && chunks[i] == content[ChunkStart(|content|, splitCount, i)..ChunkEnd(|content|, splitCount, i)]
  }

  lemma {:induction false} ChunksRebuildPrefix(content: seq<bv8>, splitCount: nat, chunks: seq<seq<bv8>>)
    requires 0 < |chunks| <= splitCount && Served(content, splitCount, chunks)
    ensures ChunkEnd(|content|, splitCount, |chunks| - 1) <= |content|
    ensures Concat(chunks) == content[..ChunkEnd(|content|, splitCount, |chunks| - 1)]
  {
    hide ChunkStart, ChunkEnd;
    var last := |chunks| - 1;
    RangesCover(|content|, splitCount, last);
    if last == 0 {
      assert Concat(chunks[..0]) == [];
    } else {
      RangesCover(|content|, splitCount, last - 1);
      ChunksRebuildPrefix(content, splitCount, chunks[..last]);
    }
  }

  /** Appending all the chunks in order rebuilds the file. */
  lemma ChunksRebuild(content: seq<bv8>, splitCount: nat, chunks: seq<seq<bv8>>)
    requires |chunks| == splitCount > 0 && Served(content, splitCount, chunks)
    ensures Concat(chunks) == content
  {
    hide ChunkStart, ChunkEnd;
    RangesCover(|content|, splitCount, splitCount - 1);
    ChunksRebuildPrefix(content, splitCount, chunks);
    assert content[..|content|] == content;
  }

  /** What can be read of a chunk's file, and the error that ends it, if there is one; a file that does not open has
      no data. */
  datatype ChunkFile = ChunkFile(data: seq<bv8>, err: Option<string>)

  function Contents(files: seq<ChunkFile>): (chunks: seq<seq<bv8>>)
    ensures |chunks| == |files|
  {
    seq(|files|, i requires 0 <= i < |files| => files[i].data)
  }

  predicate AllReadable(files: seq<ChunkFile>) {
    forall i :: 0 <= i < |files| ==> files[i].err.None?
  }

  /** The file at `n` is the first that cannot be read to its end. */
  predicate FirstUnreadable(files: seq<ChunkFile>, n: nat) {
    n < |files| && (forall i :: 0 <= i < n ==> files[i].err.None?) && files[n].err.Some?
  }

  /** mergeChunks: the destination is opened for appending, and the checksum is taken of what is appended. There is no
      error if and only if every file was read and the checksum, unless it is unknown or skipped, is the expected
      one. */
  method MergeChunks(destFile: seq<bv8>, files: seq<ChunkFile>, expectedSha1: string, skipChecksum: bool,
                     sha1: seq<bv8> -> string)
    returns (merged: seq<bv8>, err: Option<string>)
    ensures err.None? <==>
            AllReadable(files) && (expectedSha1 == "" || skipChecksum || sha1(Concat(Contents(files))) == expectedSha1)
    ensures AllReadable(files) ==> merged == destFile + Concat(Contents(files))
    ensures forall n: nat :: FirstUnreadable(files, n) ==>
              merged == destFile + Concat(Contents(files[..n + 1])) && err == files[n].err
  {
    hide Concat, Contents;
    var written: seq<bv8> := [];
    merged := destFile;
    assert files[..0] == [] && Concat(Contents([])) == [] by {
      NoContents();
    }
    for i := 0 to |files|
      invariant forall k :: 0 <= k < i ==> files[k].err.None?
      invariant written == Concat(Contents(files[..i])) && merged == destFile + written
    {
      ContentsStep(files, i);
      written := written + files[i].data;
      merged := merged + files[i].data;
      if files[i].err.Some? {
        return merged, files[i].err;
      }
    }
    assert files[..|files|] == files;
    if |expectedSha1| > 0 && !skipChecksum && sha1(written) != expectedSha1 {
      err := Some("Checksum mismatch");
    } else {
      err := None;
    }
  }

  lemma NoContents()
    ensures Concat(Contents([])) == []
  {
  }

  lemma ContentsStep(files: seq<ChunkFile>, i: nat)
    requires i < |files|
    ensures Concat(Contents(files[..i + 1])) == Concat(Contents(files[..i])) + files[i].data
  {
    assert Contents(files[..i + 1])[..i] == Contents(files[..i]);
  }

  // ----- The concurrent machine -----

  const PARTIAL_CONTENT: nat := 206

  datatype Response = Response(statusCode: nat)

  /** What downloadFileRange returned: the chunk file, the response and the error. Without an error there is a
      response. */
  datatype Outcome = Outcome(chunk: seq<bv8>, resp: Option<Response>, err: Option<string>)

  /** A worker stores its outcome, then writes the shared error, then the shared response, and is done. */
  datatype Worker = NotStarted | Running | Stored(o: Outcome) | ErrWritten(o: Outcome) | Done(o: Outcome)

  datatype Result = Failed(err: string) | Got(resp: Response) | NilDereference

  /** The launching loop reads the shared error, then the shared response, then starts a worker. */
  datatype Phase = Launching | ErrChecked | Waiting | Returned(result: Result)

  datatype State = State(phase: Phase, launched: nat, workers: seq<Worker>, err: Option<string>, resp: Option<Response>)

  predicate Unexpected(resp: Option<Response>) {
    resp.Some? && resp.value.statusCode != PARTIAL_CONTENT
  }

  predicate HasOutcome(w: Worker) {
    w.Stored? || w.ErrWritten? || w.Done?
  }

  predicate Plausible(o: Outcome) {
    o.err.None? ==> o.resp.Some?
  }

  function Init(splitCount: nat): State {
    State(Launching, 0, seq(splitCount, _ => NotStarted), None, None)
  }

  datatype Event =
    | CheckErr
    | CheckRespAndStart
    | Break
    | EndLoop
    | Store(i: nat, o: Outcome)
    | WriteErr(i: nat)
    | WriteResp(i: nat)
    | Finish

  predicate Step(s: State, e: Event, t: State) {
    match e
    case CheckErr =>
      s.phase == Launching && s.launched < |s.workers| && s.err.None? && t == s.(phase := ErrChecked)
    case CheckRespAndStart =>
      s.phase == ErrChecked && s.launched < |s.workers| && !Unexpected(s.resp)
      && t == s.(phase := Launching, launched := s.launched + 1, workers := s.workers[s.launched := Running])
    case Break =>
      ((s.phase == Launching && s.err.Some?) || (s.phase == ErrChecked && Unexpected(s.resp)))
      && s.launched < |s.workers| && t == s.(phase := Waiting)
    case EndLoop =>
      s.phase == Launching && s.launched == |s.workers| && t == s.(phase := Waiting)
    case Store(i, o) =>
      i < |s.workers| && s.workers[i] == Running && Plausible(o) && t == s.(workers := s.workers[i := Stored(o)])
    case WriteErr(i) =>
      i < |s.workers| && s.workers[i].Stored?
      && var o := s.workers[i].o;
      t == s.(workers := s.workers[i := ErrWritten(o)], err := if o.err.Some? then o.err else s.err)
    case WriteResp(i) =>
      i < |s.workers| && s.workers[i].ErrWritten?
      && var o := s.workers[i].o;
      t == s.(workers := s.workers[i := Done(o)], resp := if Unexpected(o.resp) then o.resp else s.resp)
    case Finish =>
      s.phase == Waiting && (forall i :: 0 <= i < |s.workers| ==> s.workers[i].NotStarted? || s.workers[i].Done?)
      && t == s.(phase := Returned(Collect(RespList(s.workers), ErrorsList(s.workers))))
  }

  function RespList(workers: seq<Worker>): (r: seq<Option<Response>>)
    ensures |r| == |workers|
  {
    seq(|workers|, i requires 0 <= i < |workers| => if HasOutcome(workers[i]) then workers[i].o.resp else None)
  }

  function ErrorsList(workers: seq<Worker>): (r: seq<Option<string>>)
    ensures |r| == |workers|
  {
    seq(|workers|, i requires 0 <= i < |workers| => if HasOutcome(workers[i]) then workers[i].o.err else None)
  }

  function FirstError(errorsList: seq<Option<string>>): Option<string> {
    if errorsList == [] then None
    else if errorsList[0].Some? then errorsList[0]
    else FirstError(errorsList[1..])
  }

  /** The scan of the responses: a nil response would be dereferenced. */
  function FirstUnexpected(respList: seq<Option<Response>>): Option<Result> {
    if respList == [] then None
    else if respList[0].None? then Some(NilDereference)
    else if Unexpected(respList[0]) then Some(Got(respList[0].value))
    else FirstUnexpected(respList[1..])
  }

  function Collect(respList: seq<Option<Response>>, errorsList: seq<Option<string>>): Result {
    if FirstError(errorsList).Some? then Failed(FirstError(errorsList).value)
    else if FirstUnexpected(respList).Some? then FirstUnexpected(respList).value
    else if respList == [] || respList[|respList| - 1].None? then NilDereference
    else Got(respList[|respList| - 1].value)
  }

  /** The code that runs once all workers are done. */
  method CollectResults(respList: seq<Option<Response>>, errorsList: seq<Option<string>>) returns (r: Result)
    ensures r == Collect(respList, errorsList)
  {
    var i := 0;
    while i < |errorsList|
      invariant 0 <= i <= |errorsList|
      invariant FirstError(errorsList) == FirstError(errorsList[i..])
    {
      assert errorsList[i..][1..] == errorsList[i + 1..];
      if errorsList[i].Some? {
        return Failed(errorsList[i].value);
      }
      i := i + 1;
    }
    i := 0;
    while i < |respList|
      invariant 0 <= i <= |respList|
      invariant FirstUnexpected(respList) == FirstUnexpected(respList[i..])
      invariant forall j :: 0 <= j < i ==> respList[j].Some?
    {
      assert respList[i..][1..] == respList[i + 1..];
      if respList[i].None? {
        return NilDereference;
      }
      if respList[i].value.statusCode != PARTIAL_CONTENT {
        return Got(respList[i].value);
      }
      i := i + 1;
    }
    if respList == [] {
      return NilDereference;
    }
    return Got(respList[|respList| - 1].value);
  }

  // ----- Invariant -----

  /** An early end of the loop has a reason that the final scan will meet before any worker that was not started. */
  ghost predicate Reason(s: State) {
    exists i :: 0 <= i < s.launched <= |s.workers| && HasOutcome(s.workers[i])
                && (s.workers[i].o.err.Some? || Unexpected(s.workers[i].o.resp))
  }

  ghost predicate Inv(s: State) {
    && s.launched <= |s.workers|
    && (forall i :: 0 <= i < |s.workers| ==> (s.workers[i].NotStarted? <==> i >= s.launched))
    && (forall i :: 0 <= i < |s.workers| && HasOutcome(s.workers[i]) ==> Plausible(s.workers[i].o))
    && (s.err.Some? ==> Reason(s))
    && (s.resp.Some? ==> Unexpected(s.resp) && Reason(s))
    && (s.phase == ErrChecked ==> s.launched < |s.workers|)
    && (s.phase == Waiting && s.launched < |s.workers| ==> Reason(s))
  }

  lemma ReasonStays(s: State, t: State)
    requires Reason(s) && |s.workers| == |t.workers| && s.launched <= t.launched <= |t.workers|
    requires forall i :: 0 <= i < |s.workers| && HasOutcome(s.workers[i]) ==>
               HasOutcome(t.workers[i]) && t.workers[i].o == s.workers[i].o
    ensures Reason(t)
  {
    var i :| 0 <= i < s.launched && HasOutcome(s.workers[i])
             && (s.workers[i].o.err.Some? || Unexpected(s.workers[i].o.resp));
    assert HasOutcome(t.workers[i]);
  }

  lemma StepKeepsInv(s: State, e: Event, t: State)
    requires Inv(s) && Step(s, e, t) && !t.phase.Returned?
    ensures Inv(t)
  {
    hide Inv, Step;
    match e
    case CheckErr => LaunchingKeepsInv(s, e, t);
    case CheckRespAndStart => StartKeepsInv(s, t);
    case Break => LaunchingKeepsInv(s, e, t);
    case EndLoop => LaunchingKeepsInv(s, e, t);
    case Store(i, o) => StoreKeepsInv(s, i, o, t);
    case WriteErr(i) => WriteErrKeepsInv(s, i, t);
    case WriteResp(i) => WriteRespKeepsInv(s, i, t);
    case Finish => FinishReturns(s, t);
  }

  lemma LaunchingKeepsInv(s: State, e: Event, t: State)
    requires Inv(s) && Step(s, e, t) && (e == CheckErr || e == Break || e == EndLoop)
    ensures Inv(t)
  {
    hide Reason;
    if Reason(s) {
      ReasonStays(s, t);
    }
  }

  lemma StartKeepsInv(s: State, t: State)
    requires Inv(s) && Step(s, CheckRespAndStart, t)
    ensures Inv(t)
  {
    hide Reason;
    if Reason(s) {
      ReasonStays(s, t);
    }
  }

  lemma StoreKeepsInv(s: State, i: nat, o: Outcome, t: State)
    requires Inv(s) && Step(s, Store(i, o), t)
    ensures Inv(t)
  {
    hide Reason;
    if Reason(s) {
      ReasonStays(s, t);
    }
  }

  lemma WriteErrKeepsInv(s: State, i: nat, t: State)
    requires Inv(s) && Step(s, WriteErr(i), t)
    ensures Inv(t)
  {
    hide Reason;
    if Reason(s) {
      ReasonStays(s, t);
    }
    ReasonHere(t, i);
  }

  lemma WriteRespKeepsInv(s: State, i: nat, t: State)
    requires Inv(s) && Step(s, WriteResp(i), t)
    ensures Inv(t)
  {
    hide Reason;
    if Reason(s) {
      ReasonStays(s, t);
    }
    ReasonHere(t, i);
  }

  lemma FinishReturns(s: State, t: State)
    requires Step(s, Finish, t)
    ensures t.phase.Returned?
  {
  }

  lemma ReasonHere(s: State, i: nat)
    requires i < s.launched <= |s.workers| && HasOutcome(s.workers[i])
    ensures s.workers[i].o.err.Some? || Unexpected(s.workers[i].o.resp) ==> Reason(s)
  {
  }

  datatype Run = Run(states: seq<State>, events: seq<Event>)

  ghost predicate IsRun(r: Run, splitCount: nat) {
    && |r.states| == |r.events| + 1
    && r.states[0] == Init(splitCount)
    && forall k :: 0 <= k < |r.events| ==> Step(r.states[k], r.events[k], r.states[k + 1])
  }

  /** Nothing can happen after the return: no worker is left running. */
  lemma ReturnedIsFinal(s: State, t: State, e: Event, u: State)
    requires Step(s, Finish, t)
    ensures !Step(t, e, u)
  {
  }

  lemma ReturnsByFinish(s: State, e: Event, t: State)
    requires Step(s, e, t) && !s.phase.Returned?
    ensures |t.workers| == |s.workers| && (t.phase.Returned? <==> e == Finish)
  {
  }

  lemma InitInv(splitCount: nat)
    ensures Inv(Init(splitCount)) && |Init(splitCount).workers| == splitCount && !Init(splitCount).phase.Returned?
  {
  }

  lemma {:induction false} RunKeepsInv(r: Run, splitCount: nat, k: nat)
    requires IsRun(r, splitCount) && k < |r.states|
    ensures |r.states[k].workers| == splitCount
    ensures if r.states[k].phase.Returned? then
              k > 0 && Inv(r.states[k - 1]) && r.events[k - 1] == Finish
            else Inv(r.states[k])
  {
    hide Inv, Step;
    if k == 0 {
      InitInv(splitCount);
    } else {
      RunKeepsInv(r, splitCount, k - 1);
      var s, e, t := r.states[k - 1], r.events[k - 1], r.states[k];
      assert Step(s, e, t);
      if s.phase.Returned? {
        assert Step(r.states[k - 2], r.events[k - 2], s);
        ReturnedIsFinal(r.states[k - 2], s, e, t);
      } else {
        ReturnsByFinish(s, e, t);
        if e != Finish {
          StepKeepsInv(s, e, t);
        }
      }
    }
  }

  // ----- What is returned -----

  lemma FirstErrorStep(errorsList: seq<Option<string>>)
    ensures FirstError(errorsList)
         == if errorsList == [] then None
            else if errorsList[0].Some? then errorsList[0]
            else FirstError(errorsList[1..])
  {
  }

  lemma {:induction false} FirstErrorIsFirst(errorsList: seq<Option<string>>)
    ensures match FirstError(errorsList)
            case None => forall i :: 0 <= i < |errorsList| ==> errorsList[i].None?
            case Some(e) => exists i :: 0 <= i < |errorsList| && errorsList[i] == Some(e)
                                        && forall j :: 0 <= j < i ==> errorsList[j].None?
  {
    hide FirstError;
    FirstErrorStep(errorsList);
    if errorsList != [] && errorsList[0].None? {
      var rest := errorsList[1..];
      FirstErrorIsFirst(rest);
      if FirstError(rest).Some? {
        var i :| 0 <= i < |rest| && rest[i] == FirstError(rest) && forall j :: 0 <= j < i ==> rest[j].None?;
        assert forall j :: 0 < j <= i ==> errorsList[j] == rest[j - 1];
        assert errorsList[i + 1] == FirstError(rest);
      }
    }
  }

  /** The response at i was expected. */
  predicate Expected(respList: seq<Option<Response>>, i: nat)
    requires i < |respList|
  {
    respList[i].Some? && respList[i].value.statusCode == PARTIAL_CONTENT
  }

  lemma {:induction false} FirstUnexpectedIsFirst(respList: seq<Option<Response>>)
    ensures match FirstUnexpected(respList)
            case None => forall i :: 0 <= i < |respList| ==> Expected(respList, i)
            case Some(r) => exists i :: 0 <= i < |respList| && !Expected(respList, i)
                                        && (forall j :: 0 <= j < i ==> Expected(respList, j))
                                        && r == if respList[i].None? then NilDereference else Got(respList[i].value)
  {
    if respList != [] {
      if Expected(respList, 0) {
        var rest := respList[1..];
        FirstUnexpectedIsFirst(rest);
        assert forall i :: 0 <= i < |rest| ==> Expected(respList, i + 1) == Expected(rest, i);
        if FirstUnexpected(rest).Some? {
          var i :| 0 <= i < |rest| && !Expected(rest, i) && (forall j :: 0 <= j < i ==> Expected(rest, j))
                   && FirstUnexpected(rest).value == if rest[i].None? then NilDereference else Got(rest[i].value);
          assert forall j :: 0 < j <= i ==> Expected(respList, j) == Expected(rest, j - 1);
          assert !Expected(respList, i + 1);
        } else {
          assert forall i :: 0 < i < |respList| ==> Expected(respList, i) == Expected(rest, i - 1);
        }
      } else {
        assert !Expected(respList, 0);
      }
    }
  }

  predicate Downloaded(w: Worker) {
    w.Done? && w.o.err.None? && w.o.resp.Some? && w.o.resp.value.statusCode == PARTIAL_CONTENT
  }

  /** The three ways in which the download may end. */
  ghost predicate Meets(workers: seq<Worker>, result: Result) {
    match result
    case Failed(err) =>
      exists i :: 0 <= i < |workers| && workers[i].Done? && workers[i].o.err == Some(err)
                  && forall j :: 0 <= j < i && workers[j].Done? ==> workers[j].o.err.None?
    case Got(resp) =>
      (forall j :: 0 <= j < |workers| && workers[j].Done? ==> workers[j].o.err.None?)
      && if resp.statusCode == PARTIAL_CONTENT then
           (forall j :: 0 <= j < |workers| ==> Downloaded(workers[j]))
           && workers != [] && workers[|workers| - 1].o.resp == Some(resp)
         else
           exists i :: 0 <= i < |workers| && workers[i].Done? && workers[i].o.resp == Some(resp)
                       && forall j :: 0 <= j < i ==> Downloaded(workers[j])
    case NilDereference => false
  }

  lemma FinishMeets(s: State, t: State)
    requires Inv(s) && Step(s, Finish, t) && s.workers != []
    ensures Meets(s.workers, t.phase.result)
  {
    hide FirstError, FirstUnexpected, Meets, Inv;
    var respList, errorsList, w := RespList(s.workers), ErrorsList(s.workers), s.workers;
    assert forall i :: 0 <= i < |w| ==> w[i].NotStarted? || w[i].Done?;
    FirstErrorIsFirst(errorsList);
    FirstUnexpectedIsFirst(respList);
    if FirstError(errorsList).Some? {
      FailureMeets(w, FirstError(errorsList).value);
    } else {
      NoErrors(w);
      if FirstUnexpected(respList).None? {
        AllExpectedMeets(w);
      } else {
        ReasonBeforeUnstarted(s);
        UnexpectedMeets(w, FirstUnexpected(respList).value);
      }
    }
  }

  lemma FailureMeets(w: seq<Worker>, err: string)
    requires forall i :: 0 <= i < |w| ==> w[i].NotStarted? || w[i].Done?
    requires var list := ErrorsList(w);
             exists i :: 0 <= i < |w| && list[i] == Some(err) && forall j :: 0 <= j < i ==> list[j].None?
    ensures Meets(w, Failed(err))
  {
    var list := ErrorsList(w);
    var i :| 0 <= i < |w| && list[i] == Some(err) && forall j :: 0 <= j < i ==> list[j].None?;
    assert w[i].Done? && w[i].o.err == Some(err);
    assert forall j :: 0 <= j < i && w[j].Done? ==> list[j] == w[j].o.err;
  }

  lemma NoErrors(w: seq<Worker>)
    requires var list := ErrorsList(w); forall i :: 0 <= i < |w| ==> list[i].None?
    ensures forall i :: 0 <= i < |w| && w[i].Done? ==> w[i].o.err.None?
  {
    var list := ErrorsList(w);
    forall i | 0 <= i < |w| && w[i].Done?
      ensures w[i].o.err.None?
    {
      assert list[i] == w[i].o.err;
    }
  }

  lemma ExpectedIsDownloaded(w: seq<Worker>, i: nat)
    requires i < |w| && (w[i].NotStarted? || w[i].Done?) && (w[i].Done? ==> w[i].o.err.None?)
    ensures Expected(RespList(w), i) <==> Downloaded(w[i])
    ensures RespList(w)[i] == if w[i].Done? then w[i].o.resp else None
  {
  }

  lemma AllExpectedMeets(w: seq<Worker>)
    requires w != [] && forall i :: 0 <= i < |w| ==> w[i].NotStarted? || w[i].Done?
    requires forall i :: 0 <= i < |w| && w[i].Done? ==> w[i].o.err.None?
    requires forall i :: 0 <= i < |w| ==> Expected(RespList(w), i)
    ensures RespList(w)[|w| - 1].Some? && Meets(w, Got(RespList(w)[|w| - 1].value))
  {
    hide RespList;
    forall i | 0 <= i < |w|
      ensures Downloaded(w[i])
    {
      ExpectedIsDownloaded(w, i);
    }
    ExpectedIsDownloaded(w, |w| - 1);
    assert Expected(RespList(w), |w| - 1);
  }

  lemma UnexpectedMeets(w: seq<Worker>, r: Result)
    requires forall i :: 0 <= i < |w| ==> w[i].NotStarted? || w[i].Done?
    requires forall i :: 0 <= i < |w| && w[i].Done? ==> w[i].o.err.None? && Plausible(w[i].o)
    requires forall i :: 0 <= i < |w| && (forall j :: 0 <= j < i ==> Expected(RespList(w), j)) ==> w[i].Done?
    requires var list := RespList(w);
             exists i :: 0 <= i < |w| && !Expected(list, i) && (forall j :: 0 <= j < i ==> Expected(list, j))
                         && r == if list[i].None? then NilDereference else Got(list[i].value)
    ensures Meets(w, r)
  {
    hide RespList;
    var list := RespList(w);
    var i :| 0 <= i < |w| && !Expected(list, i) && (forall j :: 0 <= j < i ==> Expected(list, j))
             && r == if list[i].None? then NilDereference else Got(list[i].value);
    assert w[i].Done?;
    ExpectedIsDownloaded(w, i);
    forall j | 0 <= j < i
      ensures Downloaded(w[j])
    {
      ExpectedIsDownloaded(w, j);
    }
  }

  /** Without errors, the first unexpected slot of a finished download belongs to a worker that was started. */
  lemma ReasonBeforeUnstarted(s: State)
    requires Inv(s) && s.phase == Waiting
    requires forall i :: 0 <= i < |s.workers| ==> s.workers[i].NotStarted? || s.workers[i].Done?
    requires forall i :: 0 <= i < |s.workers| && s.workers[i].Done? ==> s.workers[i].o.err.None?
    ensures forall i :: 0 <= i < |s.workers| && s.workers[i].Done? ==> Plausible(s.workers[i].o)
    ensures forall i :: 0 <= i < |s.workers| && (forall j :: 0 <= j < i ==> Expected(RespList(s.workers), j)) ==>
              s.workers[i].Done?
  {
    var w, respList := s.workers, RespList(s.workers);
    if s.launched < |w| {
      var c :| 0 <= c < s.launched && HasOutcome(w[c]) && (w[c].o.err.Some? || Unexpected(w[c].o.resp));
      assert !Expected(respList, c);
    }
  }

  /** For every run, that is for every interleaving of the launching loop with the workers and every outcome of the
      requests: what is returned is the error with the lowest index, or else the unexpected response with the lowest
      index, or else the last response after all the chunks were downloaded. A slot of a worker that was not started
      is never dereferenced. */
  lemma RunResult(r: Run, splitCount: nat)
    requires IsRun(r, splitCount) && splitCount > 0 && r.states[|r.events|].phase.Returned?
    ensures Meets(r.states[|r.events|].workers, r.states[|r.events|].phase.result)
  {
    hide Meets, Inv;
    var k := |r.events|;
    RunKeepsInv(r, splitCount, k);
    assert Step(r.states[k - 1], r.events[k - 1], r.states[k]);
    FinishMeets(r.states[k - 1], r.states[k]);
  }

  // ----- The file -----

  function Range(content: seq<bv8>, splitCount: nat, i: nat): (b: seq<bv8>)
    requires i < splitCount
  {
    RangesCover(|content|, splitCount, i);
    content[ChunkStart(|content|, splitCount, i)..ChunkEnd(|content|, splitCount, i)]
  }

  /** The server answers a range with status 206 only with the bytes of that range. */
  ghost predicate Honest(r: Run, content: seq<bv8>, splitCount: nat) {
    forall k :: 0 <= k < |r.events| ==> HonestEvent(r.events[k], content, splitCount)
  }

  predicate HonestEvent(e: Event, content: seq<bv8>, splitCount: nat) {
    e.Store? && e.i < splitCount && Downloaded(Done(e.o)) ==> e.o.chunk == Range(content, splitCount, e.i)
  }

  ghost predicate Holding(workers: seq<Worker>, content: seq<bv8>) {
    forall i :: 0 <= i < |workers| && HasOutcome(workers[i]) && Downloaded(Done(workers[i].o)) ==>
      workers[i].o.chunk == Range(content, |workers|, i)
  }

  lemma {:induction false} RunKeepsHolding(r: Run, content: seq<bv8>, splitCount: nat, k: nat)
    requires IsRun(r, splitCount) && Honest(r, content, splitCount) && k < |r.states|
    ensures |r.states[k].workers| == splitCount && Holding(r.states[k].workers, content)
  {
    hide Range;
    if k > 0 {
      RunKeepsHolding(r, content, splitCount, k - 1);
      assert Step(r.states[k - 1], r.events[k - 1], r.states[k]);
      assert HonestEvent(r.events[k - 1], content, splitCount);
    }
  }

  function ChunkFiles(workers: seq<Worker>): (c: seq<seq<bv8>>)
    requires forall i :: 0 <= i < |workers| ==> Downloaded(workers[i])
    ensures |c| == |workers|
  {
    seq(|workers|, i requires 0 <= i < |workers| && Downloaded(workers[i]) => workers[i].o.chunk)
  }

  /** A download that returns status 206 leaves the chunks whose merge, as MergeChunks computes it, is the file. */
  lemma DownloadRebuilds(r: Run, content: seq<bv8>, splitCount: nat)
    requires IsRun(r, splitCount) && Honest(r, content, splitCount) && splitCount > 0
    requires var end := r.states[|r.events|].phase;
             end.Returned? && end.result.Got? && end.result.resp.statusCode == PARTIAL_CONTENT
    ensures var workers := r.states[|r.events|].workers;
            (forall i :: 0 <= i < |workers| ==> Downloaded(workers[i])) && Concat(ChunkFiles(workers)) == content
  {
    hide Inv, ChunkStart, ChunkEnd, Concat;
    RunResult(r, splitCount);
    RunKeepsHolding(r, content, splitCount, |r.events|);
    var chunks := ChunkFiles(r.states[|r.events|].workers);
    forall i | 0 <= i < splitCount
      ensures ChunkStart(|content|, splitCount, i) <= ChunkEnd(|content|, splitCount, i) <= |content|
      ensures chunks[i] == content[ChunkStart(|content|, splitCount, i)..ChunkEnd(|content|, splitCount, i)]
    {
      RangesCover(|content|, splitCount, i);
    }
    ChunksRebuild(content, splitCount, chunks);
  }
}
