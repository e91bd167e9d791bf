/** The one-slot asynchronous decode protocol of PyNvSampleReader:
    DecodeN12ToRGBAsync submits a request to a background worker, the worker
    pushes exactly one result into a result buffer of capacity one, and
    DecodeN12ToRGBAsyncGetBuffer pops it and checks it against the caller's
    parameters. The worker runs between the caller's calls; its completion
    is one atomic step (Finish), taken lazily when a caller waits for it.
    A push into the full buffer blocks, so a worker whose result finds the
    slot occupied cannot finish until someone pops. */
module AsyncResult {
  import opened Common
  import opened SampleReader

  /** Why a decode raised: the argument checks of run_rgb_out, or a failure
      inside the decoder (an exception from code outside this model). */
  datatype DecodeError = Admission(e: RunError) | DecodeFailed(message: string)

  /** A DecodeResult as pushed by the worker: the request it answers, and
      the decoded frames or the captured exception. It is always marked
      ready before it is pushed. */
  datatype Stored<F> = Stored(req: Request, outcome: Result<seq<F>, DecodeError>)

  /** has_pending_task together with the request the worker was given, and
      decode_result_queue. */
  datatype Async<F> = Async(pending: Option<Request>, slot: Option<Stored<F>>)

  /** The errors DecodeN12ToRGBAsyncGetBuffer raises. */
  datatype GetError =
    | NoPendingTask                          // nothing submitted and nothing buffered
    | Rethrown(e: DecodeError)               // the worker's exception, rethrown
    | Mismatch(expected: Request, got: Request)  // buffered result answers another request

  /** A reader before any asynchronous call. */
  function Idle<F>(): Async<F> {
    Async(None, None)
  }

  /** What the worker computes: run_rgb_out, whose length check raises
      before the decoder (an oracle) is consulted. */
  function WorkerOutcome<F>(decode: Request -> Result<seq<F>, DecodeError>, req: Request)
    : (r: Result<seq<F>, DecodeError>)
    ensures |req.paths| != |req.ids| ==> r == Err(Admission(LengthMismatch(|req.paths|, |req.ids|)))
    ensures |req.paths| == |req.ids| ==> r == decode(req)
  {
    if |req.paths| != |req.ids| then Err(Admission(LengthMismatch(|req.paths|, |req.ids|)))
    else decode(req)
  }

  /** The worker completes: it pushes exactly one ready result for its own
      request and clears the pending flag. None when the buffer is full, so
      that the push blocks and a join on the worker never returns. */
  function Finish<F>(a: Async<F>, decode: Request -> Result<seq<F>, DecodeError>): (r: Option<Async<F>>)
    requires a.pending.Some?
    ensures r.None? <==> a.slot.Some?
    ensures r.Some? ==> r.value.pending.None? && r.value.slot.Some? &&
                        r.value.slot.value.req == a.pending.value &&
                        r.value.slot.value.outcome == WorkerOutcome(decode, a.pending.value)
  {
    if a.slot.Some? then None
    else Some(Async(None, Some(Stored(a.pending.value, WorkerOutcome(decode, a.pending.value)))))
  }

  /** waitForPendingAsyncTask: join the worker if one is pending. Also the
      first step of clearAllReaders, ReleaseMemPools, ReleaseDecoder and both
      synchronous decode entry points. None when the join never returns. */
  function WaitForPending<F>(a: Async<F>, decode: Request -> Result<seq<F>, DecodeError>): (r: Option<Async<F>>)
    ensures a.pending.None? ==> r == Some(a)
    ensures a.pending.Some? ==> r == Finish(a, decode)
    ensures r.Some? ==> r.value.pending.None?
  {
    if a.pending.None? then Some(a) else Finish(a, decode)
  }

  /** clearDecodeResultBuffer: empty the slot; the pending flag is untouched. */
  function ClearBuffer<F>(a: Async<F>): (r: Async<F>)
    ensures r.slot.None? && r.pending == a.pending
  {
    Async(a.pending, None)
  }

  /** DecodeN12ToRGBAsync as written: when a task is pending, wait for it and
      empty the slot; then start the worker on the new request. The slot is
      emptied ONLY in the pending branch, so a finished but unretrieved
      result stays buffered. */
  function Submit<F>(a: Async<F>, decode: Request -> Result<seq<F>, DecodeError>, req: Request): (r: Option<Async<F>>)
    ensures a.pending.Some? ==> (r.None? <==> a.slot.Some?)
    ensures r.Some? ==> r.value.pending == Some(req)
    ensures r.Some? && a.pending.Some? ==> r.value.slot.None?
    ensures a.pending.None? ==> r == Some(Async(Some(req), a.slot))
  {
    if a.pending.Some? then
      match Finish(a, decode)
      case None => None
      case Some(_) => Some(Async(Some(req), None))
    else Some(Async(Some(req), a.slot))
  }

  /** DecodeN12ToRGBAsync as its comment and the unconsumed-result rule
      intend: the previous result is discarded whether or not its task is
      still running. */
  function SubmitClearing<F>(a: Async<F>, decode: Request -> Result<seq<F>, DecodeError>, req: Request)
    : (r: Option<Async<F>>)
    ensures a.pending.Some? ==> (r.None? <==> a.slot.Some?)
    ensures r.Some? ==> r.value == Async(Some(req), None)
    ensures a.pending.None? ==> r.Some?
  {
    if a.pending.Some? then
      match Finish(a, decode)
      case None => None
      case Some(_) => Some(Async(Some(req), None))
    else Some(Async(Some(req), None))
  }

  /** The result a retrieval pops: the buffered one, or else the one the
      pending worker pushes once it completes. */
  function Popped<F>(a: Async<F>, decode: Request -> Result<seq<F>, DecodeError>): (s: Stored<F>)
    requires a.pending.Some? || a.slot.Some?
    ensures a.slot.None? ==> s.req == a.pending.value
  {
    if a.slot.Some? then a.slot.value
    else Stored(a.pending.value, WorkerOutcome(decode, a.pending.value))
  }

  /** DecodeN12ToRGBAsyncGetBuffer: fail when nothing is pending and nothing
      is buffered; otherwise pop the slot (waiting for the worker when it is
      empty), rethrow a captured exception before looking at the parameters,
      then check the parameters. The slot is empty afterwards in every case. */
  function GetBuffer<F>(a: Async<F>, decode: Request -> Result<seq<F>, DecodeError>,
                        paths: seq<string>, ids: seq<int>, asBgr: bool)
    : (r: (Async<F>, Result<seq<F>, GetError>))
    ensures r.1 == Err(NoPendingTask) <==> a.pending.None? && a.slot.None?
    ensures r.0.slot.None?
    ensures a.slot.Some? ==> r.0.pending == a.pending
    ensures a.slot.None? ==> r.0.pending.None?
    ensures a.pending.Some? || a.slot.Some? ==>
              var s := Popped(a, decode);
              (r.1.Ok? <==> s.outcome.Ok? && MatchesRequest(s.req, paths, ids, asBgr)) &&
              (r.1.Ok? ==> r.1.value == s.outcome.value) &&
              (s.outcome.Err? ==> r.1 == Err(Rethrown(s.outcome.error))) &&
              (s.outcome.Ok? && !MatchesRequest(s.req, paths, ids, asBgr) ==>
                 r.1 == Err(Mismatch(Request(paths, ids, asBgr), s.req)))
  {
    if a.pending.None? && a.slot.None? then (a, Err(NoPendingTask))
    else
      var s := Popped(a, decode);
      var after := if a.slot.Some? then Async(a.pending, None) else Async(None, None);
      if s.outcome.Err? then (after, Err(Rethrown(s.outcome.error)))
      else if !MatchesRequest(s.req, paths, ids, asBgr) then
        (after, Err(Mismatch(Request(paths, ids, asBgr), s.req)))
      else (after, Ok(s.outcome.value))
  }

  /** A captured exception is rethrown whatever parameters are passed. */
  lemma ExceptionBeforeParameterCheck<F>(a: Async<F>, decode: Request -> Result<seq<F>, DecodeError>,
                                         paths: seq<string>, ids: seq<int>, asBgr: bool)
    requires a.slot.Some? && a.slot.value.outcome.Err?
    ensures GetBuffer(a, decode, paths, ids, asBgr).1 == Err(Rethrown(a.slot.value.outcome.error))
  {
  }

  /** DecodeN12ToRGB: wait, empty the slot, then decode synchronously. */
  function DecodeRgbSync<F>(a: Async<F>, decode: Request -> Result<seq<F>, DecodeError>, req: Request)
    : (r: Option<(Async<F>, Result<seq<F>, DecodeError>)>)
    ensures r.None? <==> WaitForPending(a, decode).None?
    ensures r.Some? ==> r.value.0 == Idle() && r.value.1 == WorkerOutcome(decode, req)
  {
    match WaitForPending(a, decode)
    case None => None
    case Some(b) => Some((ClearBuffer(b), WorkerOutcome(decode, req)))
  }

  /** Decode (the synchronous YUV path): wait, but leave the slot alone. */
  function DecodeSync<F>(a: Async<F>, decode: Request -> Result<seq<F>, DecodeError>): (r: Option<Async<F>>)
    ensures r.None? <==> a.pending.Some? && a.slot.Some?
    ensures r.Some? && a.pending.None? ==> r.value == a
    ensures r.Some? && a.pending.Some? ==> r.value.slot.Some? && r.value.slot.value.req == a.pending.value
  {
    WaitForPending(a, decode)
  }

  /* ---------- The one-slot invariant ---------- */

  /** While a worker runs, the slot is empty: its push can never block. */
  predicate OneOutstanding<F>(a: Async<F>) {
    a.pending.Some? ==> a.slot.None?
  }

  /** Under the invariant, waiting always returns. */
  lemma WaitNeverBlocks<F>(a: Async<F>, decode: Request -> Result<seq<F>, DecodeError>)
    requires OneOutstanding(a)
    ensures WaitForPending(a, decode).Some?
    ensures OneOutstanding(WaitForPending(a, decode).value)
  {
  }

  /** The corrected submit, the worker's completion, retrieval, clearing and
      the synchronous paths all keep the invariant; with it, no submit or
      wait blocks forever. */
  lemma OneOutstandingPreserved<F>(a: Async<F>, decode: Request -> Result<seq<F>, DecodeError>,
                                   req: Request, paths: seq<string>, ids: seq<int>, asBgr: bool)
    requires OneOutstanding(a)
    ensures SubmitClearing(a, decode, req).Some? && OneOutstanding(SubmitClearing(a, decode, req).value)
    ensures a.pending.Some? ==> OneOutstanding(Finish(a, decode).value)
    ensures OneOutstanding(GetBuffer(a, decode, paths, ids, asBgr).0)
    ensures OneOutstanding(ClearBuffer(a))
    ensures DecodeRgbSync(a, decode, req).Some? && OneOutstanding(DecodeRgbSync(a, decode, req).value.0)
    ensures DecodeSync(a, decode).Some? && OneOutstanding(DecodeSync(a, decode).value)
  {
  }

  /** Under the invariant a retrieval leaves the reader idle, so an
      immediate second retrieval reports that nothing is pending. */
  lemma SecondGetBufferFails<F>(a: Async<F>, decode: Request -> Result<seq<F>, DecodeError>,
                                paths: seq<string>, ids: seq<int>, asBgr: bool,
                                paths': seq<string>, ids': seq<int>, asBgr': bool)
    requires OneOutstanding(a)
    ensures var b := GetBuffer(a, decode, paths, ids, asBgr).0;
            b == Idle() && GetBuffer(b, decode, paths', ids', asBgr').1 == Err(NoPendingTask)
  {
  }

  /** With the corrected submit, only the newest request's result can be
      retrieved: submitting A and then B, whatever happened before, gives
      B's outcome to a retrieval with B's parameters. */
  lemma NewestResultWins<F>(a: Async<F>, decode: Request -> Result<seq<F>, DecodeError>,
                            reqA: Request, reqB: Request)
    requires OneOutstanding(a)
    ensures var b := SubmitClearing(SubmitClearing(a, decode, reqA).value, decode, reqB);
            b.Some? &&
            GetBuffer(b.value, decode, reqB.paths, reqB.ids, reqB.asBgr).1 ==
              match WorkerOutcome(decode, reqB)
              case Ok(frames) => Ok(frames)
              case Err(e) => Err(Rethrown(e))
  {
    if |reqB.paths| == |reqB.ids| {
      assert MatchesRequest(reqB, reqB.paths, reqB.ids, reqB.asBgr);
    }
  }

  /* ---------- The stale result of the as-written submit ---------- */

  /** A decoder that succeeds on every request with no frames. */
  function NoFrames(): Request -> Result<seq<int>, DecodeError> {
    q => Ok([])
  }

  /** Submit A, let it finish, submit B: the as-written submit keeps A's
      result, and a retrieval with B's parameters pops A's result and reports
      a mismatch; a third submit joins B's worker, whose push blocks on the
      occupied slot, and never returns. */
  lemma StaleResultAsWritten()
    ensures var reqA := Request(["a.mp4"], [0], false);
            var reqB := Request(["a.mp4"], [3], false);
            var s1 := Submit(Idle(), NoFrames(), reqA).value;
            var s2 := Finish(s1, NoFrames()).value;
            var s3 := Submit(s2, NoFrames(), reqB).value;
            !OneOutstanding(s3) &&
            GetBuffer(s3, NoFrames(), reqB.paths, reqB.ids, reqB.asBgr).1 == Err(Mismatch(reqB, reqA)) &&
            Submit(s3, NoFrames(), Request([], [], false)).None? &&
            DecodeRgbSync(s3, NoFrames(), reqA).None?
  {
    var reqA := Request(["a.mp4"], [0], false);
    var reqB := Request(["a.mp4"], [3], false);
    assert !MatchesRequest(reqA, reqB.paths, reqB.ids, reqB.asBgr) by {
      assert reqA.ids[0] != reqB.ids[0];
    }
  }

  /** The same calls with the corrected submit: B's result is retrieved. */
  lemma StaleResultCorrected()
    ensures var reqA := Request(["a.mp4"], [0], false);
            var reqB := Request(["a.mp4"], [3], false);
            var s1 := SubmitClearing(Idle(), NoFrames(), reqA).value;
            var s2 := Finish(s1, NoFrames()).value;
            var s3 := SubmitClearing(s2, NoFrames(), reqB).value;
            OneOutstanding(s3) &&
            GetBuffer(s3, NoFrames(), reqB.paths, reqB.ids, reqB.asBgr).1 == Ok([])
  {
    var reqB := Request(["a.mp4"], [3], false);
    assert MatchesRequest(reqB, reqB.paths, reqB.ids, reqB.asBgr);
  }
}
