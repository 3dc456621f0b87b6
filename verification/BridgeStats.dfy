/** The telemetry counters of `PythonBandBridge`, updated by any number of concurrent
    `record_outcome` calls. Every atomic operation is one step; steps of different calls
    interleave freely, under sequential consistency. */
module BridgeStats {
  import opened Bytes

  /** Where a call is: before which of its atomic operations. */
  datatype Pc =
    | Start                 // fetch_add on the request counter
    | Counted               // fetch_add on the latency sum
    | Summed                // load of the peak
    | Test(current: nat)    // loop test
    | Swap(current: nat)    // compare_exchange
    | PastLoop              // fetch_add on the error counter, if the call failed
    | Done

  datatype Call = Call(elapsed: nat, ok: bool, pc: Pc)

  datatype State = State(requests: nat, errors: nat, sum: nat, peak: nat, calls: seq<Call>)

  predicate Enabled(s: State, i: nat) {
    i < |s.calls| && !s.calls[i].pc.Done?
  }

  /** The next atomic operation of call `i`. */
  function Step(s: State, i: nat): State
    requires Enabled(s, i)
  {
    var c := s.calls[i];
    match c.pc
    case Start => Goto(s, i, Counted).(requests := (s.requests + 1) % TWO64)
    case Counted => Goto(s, i, Summed).(sum := (s.sum + c.elapsed) % TWO64)
    case Summed => Goto(s, i, Test(s.peak))
    case Test(current) => Goto(s, i, if c.elapsed > current then Swap(current) else PastLoop)
    case Swap(current) =>
      if s.peak == current then Goto(s, i, PastLoop).(peak := c.elapsed)
      else Goto(s, i, Test(s.peak))
    case PastLoop => Goto(s, i, Done).(errors := if c.ok then s.errors else (s.errors + 1) % TWO64)
  }

  function Goto(s: State, i: nat, pc: Pc): State
    requires i < |s.calls|
  {
    s.(calls := s.calls[i := s.calls[i].(pc := pc)])
  }

  predicate Init(s: State) {
    s.requests == s.errors == s.sum == s.peak == 0 && forall i :: 0 <= i < |s.calls| ==> s.calls[i].pc == Start
  }

  /** Any interleaving of the calls' steps. */
  ghost predicate IsRun(run: seq<State>) {
    && run != [] && Init(run[0])
    && forall k :: 0 <= k < |run| - 1 ==> Next(run[k], run[k + 1])
  }

  ghost predicate Next(s: State, s': State) {
    exists i: nat :: Enabled(s, i) && s' == Step(s, i)
  }

  // ---- What every step keeps ----

  predicate OutOfLoop(c: Call) {
    c.pc.PastLoop? || c.pc.Done?
  }

  predicate CallInv(c: Call, peak: nat) {
    match c.pc
    case Test(current) => current <= peak
    case Swap(current) => current <= peak && current < c.elapsed
    case PastLoop => c.elapsed <= peak
    case Done => c.elapsed <= peak
    case _ => true
  }

  /** The peak is nobody's, or the latency of a call that has left its loop. */
  ghost predicate PeakRecorded(s: State) {
    s.peak == 0 || exists i :: 0 <= i < |s.calls| && OutOfLoop(s.calls[i]) && s.calls[i].elapsed == s.peak
  }

  ghost predicate CountersExact(s: State) {
    && s.requests == Total(s.calls, Requested) % TWO64
    && s.sum == Total(s.calls, Latency) % TWO64
    && s.errors == Total(s.calls, Failed) % TWO64
  }

  ghost predicate Inv(s: State) {
    (forall i :: 0 <= i < |s.calls| ==> CallInv(s.calls[i], s.peak)) && PeakRecorded(s) && CountersExact(s)
  }

  /** What a call has contributed so far to each counter. */
  function Requested(c: Call): nat {
    if c.pc.Start? then 0 else 1
  }

  function Latency(c: Call): nat {
    if c.pc.Start? || c.pc.Counted? then 0 else c.elapsed
  }

  function Failed(c: Call): nat {
    if c.pc.Done? && !c.ok then 1 else 0
  }

  ghost function Total(calls: seq<Call>, f: Call -> nat): nat {
    if calls == [] then 0 else f(calls[0]) + Total(calls[1..], f)
  }

  lemma {:induction false} TotalUpdate(calls: seq<Call>, f: Call -> nat, i: nat, c: Call)
    requires i < |calls|
    ensures Total(calls[i := c], f) + f(calls[i]) == Total(calls, f) + f(c)
  {
    if i > 0 {
      TotalUpdate(calls[1..], f, i - 1, c);
      assert calls[i := c][1..] == calls[1..][i - 1 := c];
    } else {
      assert calls[i := c][1..] == calls[1..];
    }
  }

  lemma {:induction false} InitInv(s: State)
    requires Init(s)
    ensures Inv(s)
  {
    TotalZero(s.calls, Requested);
    TotalZero(s.calls, Latency);
    TotalZero(s.calls, Failed);
  }

  lemma {:induction false} TotalZero(calls: seq<Call>, f: Call -> nat)
    requires forall i :: 0 <= i < |calls| ==> f(calls[i]) == 0
    ensures Total(calls, f) == 0
  {
    if calls != [] {
      TotalZero(calls[1..], f);
    }
  }

  lemma PeakStep(s: State, i: nat)
    requires Inv(s) && Enabled(s, i)
    ensures var s' := Step(s, i);
            s.peak <= s'.peak && PeakRecorded(s') && forall j :: 0 <= j < |s'.calls| ==> CallInv(s'.calls[j], s'.peak)
  {
    var s' := Step(s, i);
    assert forall j :: 0 <= j < |s.calls| && j != i ==> s'.calls[j] == s.calls[j];
    if s'.peak == s.peak {
      if s.peak != 0 {
        var w :| 0 <= w < |s.calls| && OutOfLoop(s.calls[w]) && s.calls[w].elapsed == s.peak;
        assert OutOfLoop(s'.calls[w]) && s'.calls[w].elapsed == s.peak;
      }
    } else {
      assert OutOfLoop(s'.calls[i]) && s'.calls[i].elapsed == s'.peak;
    }
  }

  lemma CountersStep(s: State, i: nat)
    requires CountersExact(s) && Enabled(s, i)
    ensures CountersExact(Step(s, i))
  {
    var s' := Step(s, i);
    var c, c' := s.calls[i], s'.calls[i];
    assert s'.calls == s.calls[i := c'];
    CounterStep(s.calls, Requested, i, c', s.requests, s'.requests);
    CounterStep(s.calls, Latency, i, c', s.sum, s'.sum);
    CounterStep(s.calls, Failed, i, c', s.errors, s'.errors);
  }

  /** A counter follows what one call adds to its total. */
  lemma CounterStep(calls: seq<Call>, f: Call -> nat, i: nat, c: Call, counter: nat, counter': nat)
    requires i < |calls| && counter == Total(calls, f) % TWO64
    requires f(calls[i]) <= f(c)
    requires counter' == if f(c) == f(calls[i]) then counter else (counter + (f(c) - f(calls[i]))) % TWO64
    ensures counter' == Total(calls[i := c], f) % TWO64
  {
    TotalUpdate(calls, f, i, c);
    AddWraps(Total(calls, f), f(c) - f(calls[i]));
  }

  lemma AddWraps(a: nat, d: nat)
    ensures (a % TWO64 + d) % TWO64 == (a + d) % TWO64
  {
    var q, r := a / TWO64, a % TWO64;
    assert a + d == q * TWO64 + (r + d);
    var p, t := (r + d) / TWO64, (r + d) % TWO64;
    assert a + d == (q + p) * TWO64 + t;
  }

  /** The invariant holds in every state of every interleaving. */
  lemma {:induction false} RunInv(run: seq<State>, k: nat)
    requires IsRun(run) && k < |run|
    ensures Inv(run[k]) && |run[k].calls| == |run[0].calls|
  {
    if k == 0 {
      InitInv(run[0]);
    } else {
      RunInv(run, k - 1);
      assert Next(run[k - 1], run[k - 1 + 1]);
      var i: nat :| Enabled(run[k - 1], i) && run[k] == Step(run[k - 1], i);
      PeakStep(run[k - 1], i);
      CountersStep(run[k - 1], i);
    }
  }

  /** The peak never decreases along a run. */
  lemma {:induction false} PeakMonotone(run: seq<State>, j: nat, k: nat)
    requires IsRun(run) && j <= k < |run|
    ensures run[j].peak <= run[k].peak
  {
    if j < k {
      PeakMonotone(run, j, k - 1);
      RunInv(run, k - 1);
      assert Next(run[k - 1], run[k - 1 + 1]);
      var i: nat :| Enabled(run[k - 1], i) && run[k] == Step(run[k - 1], i);
      PeakStep(run[k - 1], i);
    }
  }

  function One(c: Call): nat { 1 }

  function Elapsed(c: Call): nat { c.elapsed }

  function Fault(c: Call): nat { if c.ok then 0 else 1 }

  /** When every call has returned, the peak is the largest latency, and the other
      counters hold the number of calls, the latency sum and the number of failures,
      each modulo 2^64. */
  lemma FinalCounters(run: seq<State>)
    requires IsRun(run)
    requires var last := run[|run| - 1]; forall i :: 0 <= i < |last.calls| ==> last.calls[i].pc == Done
    ensures var last := run[|run| - 1];
            && (forall i :: 0 <= i < |last.calls| ==> last.calls[i].elapsed <= last.peak)
            && (last.peak == 0 || exists i :: 0 <= i < |last.calls| && last.calls[i].elapsed == last.peak)
            && last.requests == |last.calls| % TWO64
            && last.sum == Total(last.calls, Elapsed) % TWO64
            && last.errors == Total(last.calls, Fault) % TWO64
  {
    var last := run[|run| - 1];
    RunInv(run, |run| - 1);
    TotalSame(last.calls, Requested, One);
    TotalOnes(last.calls);
    TotalSame(last.calls, Latency, Elapsed);
    TotalSame(last.calls, Failed, Fault);
  }

  lemma {:induction false} TotalSame(calls: seq<Call>, f: Call -> nat, g: Call -> nat)
    requires forall i :: 0 <= i < |calls| ==> f(calls[i]) == g(calls[i])
    ensures Total(calls, f) == Total(calls, g)
  {
    if calls != [] {
      TotalSame(calls[1..], f, g);
    }
  }

  lemma {:induction false} TotalOnes(calls: seq<Call>)
    ensures Total(calls, One) == |calls|
  {
    if calls != [] {
      TotalOnes(calls[1..]);
    }
  }

  // ---- Termination ----

  /** Bounds the steps a call can still take. A failed exchange pays for the extra loop
      round, because it strictly raises `current` towards `elapsed`. */
  function Work(c: Call): nat {
    match c.pc
    case Start => 2 * c.elapsed + 6
    case Counted => 2 * c.elapsed + 5
    case Summed => 2 * c.elapsed + 4
    case Test(current) => if c.elapsed > current then 2 * (c.elapsed - current) + 3 else 2
    case Swap(current) => if c.elapsed > current then 2 * (c.elapsed - current) + 2 else 2
    case PastLoop => 1
    case Done => 0
  }

  function Budget(c: Call): nat { 2 * c.elapsed + 6 }

  /** A failed compare_exchange strictly raises `current`. */
  lemma FailedSwapRaises(s: State, i: nat)
    requires Inv(s) && Enabled(s, i) && s.calls[i].pc.Swap? && s.peak != s.calls[i].pc.current
    ensures var pc' := Step(s, i).calls[i].pc; pc'.Test? && pc'.current > s.calls[i].pc.current
  {
    assert CallInv(s.calls[i], s.peak);
  }

  lemma WorkDecreases(s: State, i: nat)
    requires Inv(s) && Enabled(s, i)
    ensures Total(Step(s, i).calls, Work) < Total(s.calls, Work)
  {
    var c' := Step(s, i).calls[i];
    assert CallInv(s.calls[i], s.peak);
    assert Step(s, i).calls == s.calls[i := c'];
    TotalUpdate(s.calls, Work, i, c');
  }

  /** No interleaving runs forever: a run takes at most the work of its first state,
      the sum of 2 * elapsed + 6 over all calls. */
  lemma {:induction false} RunsTerminate(run: seq<State>, k: nat)
    requires IsRun(run) && k < |run|
    ensures k + Total(run[k].calls, Work) <= Total(run[0].calls, Work)
    ensures k <= Total(run[0].calls, Budget)
  {
    if k > 0 {
      RunsTerminate(run, k - 1);
      RunInv(run, k - 1);
      assert Next(run[k - 1], run[k - 1 + 1]);
      var i: nat :| Enabled(run[k - 1], i) && run[k] == Step(run[k - 1], i);
      WorkDecreases(run[k - 1], i);
    }
    TotalSame(run[0].calls, Work, Budget);
  }
}
