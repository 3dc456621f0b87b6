/** Live-call metrics: saturating counters and a ring of the latest latencies, against the
    full history of calls. Floats are reals. */
module Metrics {
  import opened Bytes

  const RING_CAP: nat := 1024
  const U32_MAX: nat := 0xFFFF_FFFF
  const U64_MAX: nat := 0xFFFF_FFFF_FFFF_FFFF
  const U128_MAX: nat := 0xFFFF_FFFF_FFFF_FFFF_FFFF_FFFF_FFFF_FFFF
  const INPUT_USD_PER_MTOK: real := 3.15
  const OUTPUT_USD_PER_MTOK: real := 15.75

  datatype CallOutcome = CallOutcome(success: bool, latencyMs: Uint64, tokensIn: Uint32, tokensOut: Uint32, model: string)

  datatype Snapshot = Snapshot(
    calls: nat, successes: nat, avgLatencyMs: real, p95LatencyMs: nat, totalCostUsd: real,
    totalTokensIn: nat, totalTokensOut: nat, model: string)

  function Min(a: nat, b: nat): nat {
    if a < b then a else b
  }

  function CostUsd(tokensIn: nat, tokensOut: nat): real {
    tokensIn as real / 1_000_000.0 * INPUT_USD_PER_MTOK + tokensOut as real / 1_000_000.0 * OUTPUT_USD_PER_MTOK
  }

  // ---- What the history says ----

  function Latencies(h: seq<CallOutcome>): (l: seq<nat>)
    ensures |l| == |h|
  {
    seq(|h|, i requires 0 <= i < |h| => h[i].latencyMs)
  }

  function Sum(s: seq<nat>): nat {
    if s == [] then 0 else Sum(s[..|s| - 1]) + s[|s| - 1]
  }

  function Successes(h: seq<CallOutcome>): nat {
    if h == [] then 0 else Successes(h[..|h| - 1]) + if h[|h| - 1].success then 1 else 0
  }

  function TokensIn(h: seq<CallOutcome>): nat {
    if h == [] then 0 else TokensIn(h[..|h| - 1]) + h[|h| - 1].tokensIn
  }

  function TokensOut(h: seq<CallOutcome>): nat {
    if h == [] then 0 else TokensOut(h[..|h| - 1]) + h[|h| - 1].tokensOut
  }

  function Cost(h: seq<CallOutcome>): real {
    if h == [] then 0.0 else Cost(h[..|h| - 1]) + CostUsd(h[|h| - 1].tokensIn, h[|h| - 1].tokensOut)
  }

  /** The first model name that is not empty. */
  function FirstModel(h: seq<CallOutcome>): string {
    if h == [] then ""
    else if FirstModel(h[..|h| - 1]) != "" then FirstModel(h[..|h| - 1])
    else h[|h| - 1].model
  }

  /** The latencies of the last 1024 calls, or of all of them if fewer. */
  function Window(h: seq<CallOutcome>): (w: seq<nat>)
    ensures |w| == Min(|h|, RING_CAP)
  {
    Latest(Latencies(h))
  }

  function Latest(l: seq<nat>): (w: seq<nat>)
    ensures |w| == Min(|l|, RING_CAP)
  {
    l[|l| - Min(|l|, RING_CAP)..]
  }

  ghost predicate Sorted(s: seq<nat>) {
    forall i, j :: 0 <= i < j < |s| ==> s[i] <= s[j]
  }

  /** `v` is the element at index `i` once `s` is put in order. */
  ghost predicate OrderStatistic(s: seq<nat>, i: nat, v: nat) {
    exists t: seq<nat> :: Sorted(t) && multiset(t) == multiset(s) && i < |t| && t[i] == v
  }

  /** floor(0.95 * n), capped at the last index; the cap never matters. */
  function P95Index(n: nat): (i: nat)
    requires n > 0
    ensures i < n && 20 * i <= 19 * n < 20 * (i + 1)
  {
    assert (n as real * 0.95).Floor as real <= n as real * 0.95 < (n as real * 0.95).Floor as real + 1.0;
    Min((n as real * 0.95).Floor, n - 1)
  }

  /** The index the comment beside it gives. */
  function CommentedIndex(n: nat): (i: nat)
    requires n > 0
    ensures 20 * i <= 19 * (n - 1) < 20 * (i + 1)
  {
    assert ((n - 1) as real * 0.95).Floor as real <= (n - 1) as real * 0.95 < ((n - 1) as real * 0.95).Floor as real + 1.0;
    ((n - 1) as real * 0.95).Floor
  }

  /** The two agree for one window length in twenty. */
  lemma P95AsCommented(n: nat)
    requires n > 0
    ensures P95Index(n) == CommentedIndex(n) <==> n % 20 == 1
    ensures P95Index(n) == CommentedIndex(n) + if n % 20 == 1 then 0 else 1
  {
    var q, r := n / 20, n % 20;
    assert n == 20 * q + r;
  }

  /** With two samples the code reports the larger, the comment's index is the smaller's. */
  lemma P95OfTwo(a: nat, b: nat)
    requires a < b
    ensures OrderStatistic([a, b], P95Index(2), b) && OrderStatistic([a, b], CommentedIndex(2), a)
  {
    var t: seq<nat> := [a, b];
    assert Sorted(t) && t[1] == b && t[0] == a;
  }

  datatype Counters = Counters(
    calls: nat, successes: nat, latencySumMs: nat, tokensIn: nat, tokensOut: nat, costUsd: real, model: string)

  /** Every counter as the history determines it, saturated at its width. */
  function Totals(h: seq<CallOutcome>): Counters {
    Counters(
      Min(|h|, U32_MAX), Min(Successes(h), U32_MAX), Min(Sum(Latencies(h)), U128_MAX),
      Min(TokensIn(h), U64_MAX), Min(TokensOut(h), U64_MAX), Cost(h), FirstModel(h))
  }

  /** The counters after each call in turn. */
  function Running(h: seq<CallOutcome>): Counters {
    if h == [] then Counters(0, 0, 0, 0, 0, 0.0, "") else Counted(Running(h[..|h| - 1]), h[|h| - 1])
  }

  function Counted(t: Counters, o: CallOutcome): Counters {
    UsageCounted(LatencyCounted(t, o), o)
  }

  function LatencyCounted(t: Counters, o: CallOutcome): Counters {
    t.(calls := Min(t.calls + 1, U32_MAX),
       successes := if o.success then Min(t.successes + 1, U32_MAX) else t.successes,
       latencySumMs := Min(t.latencySumMs + o.latencyMs, U128_MAX))
  }

  function UsageCounted(t: Counters, o: CallOutcome): Counters {
    t.(tokensIn := Min(t.tokensIn + o.tokensIn, U64_MAX),
       tokensOut := Min(t.tokensOut + o.tokensOut, U64_MAX),
       costUsd := t.costUsd + CostUsd(o.tokensIn, o.tokensOut),
       model := if t.model == "" then o.model else t.model)
  }

  // ---- The accumulator ----

  class MetricsState {
    var calls: nat
    var successes: nat
    var latencySumMs: nat
    var ring: array<nat>
    var ringIdx: nat
    var ringFilled: bool
    var totalCostUsd: real
    var totalTokensIn: nat
    var totalTokensOut: nat
    var model: string
    ghost var history: seq<CallOutcome>

    ghost predicate Valid()
      reads this, ring
    {
      && RingHolds(ring[..], ringIdx, ringFilled, Latencies(history))
      && Held() == Running(history)
    }

    ghost function Held(): Counters
      reads this
    {
      Counters(calls, successes, latencySumMs, totalTokensIn, totalTokensOut, totalCostUsd, model)
    }

    constructor ()
      ensures Valid() && fresh(ring) && history == []
    {
      calls, successes, latencySumMs, ringIdx, ringFilled := 0, 0, 0, 0, false;
      totalCostUsd, totalTokensIn, totalTokensOut, model := 0.0, 0, 0, "";
      ring := new nat[RING_CAP](_ => 0);
      history := [];
    }

    /** `record_call` */
    method RecordCall(o: CallOutcome)
      requires Valid()
      modifies this, ring
      ensures Valid() && ring == old(ring) && history == old(history) + [o]
    {
      CountLatency(o);
      ghost var held := ring[..];
      CountUsage(o);
      assert ring[..] == held;
    }

    /** The second half of `record_call`: tokens, cost and model. */
    method CountUsage(o: CallOutcome)
      requires Held() == LatencyCounted(Running(history), o)
      modifies this`totalTokensIn, this`totalTokensOut, this`totalCostUsd, this`model, this`history
      ensures history == old(history) + [o] && Held() == Running(history)
    {
      totalTokensIn := Min(totalTokensIn + o.tokensIn, U64_MAX);
      totalTokensOut := Min(totalTokensOut + o.tokensOut, U64_MAX);
      totalCostUsd := totalCostUsd + CostUsd(o.tokensIn, o.tokensOut);
      if model == "" {
        model := o.model;
      }
      assert Held() == UsageCounted(old(Held()), o);
      history := history + [o];
      assert Running(history) == Counted(Running(old(history)), o) by {
        RunningNext(old(history), o);
      }
    }

    /** The first half of `record_call`: the call counters and the ring. */
    method CountLatency(o: CallOutcome)
      requires RingHolds(ring[..], ringIdx, ringFilled, Latencies(history))
      modifies this`calls, this`successes, this`latencySumMs, this`ringIdx, this`ringFilled, ring
      ensures RingHolds(ring[..], ringIdx, ringFilled, Latencies(history + [o]))
      ensures Held() == LatencyCounted(old(Held()), o)
    {
      LatenciesNext(history, o);
      RingNext(ring[..], ringIdx, ringFilled, Latencies(history), o.latencyMs);
      calls := Min(calls + 1, U32_MAX);
      if o.success {
        successes := Min(successes + 1, U32_MAX);
      }
      latencySumMs := Min(latencySumMs + o.latencyMs, U128_MAX);
      ghost var before := ring[..];
      ring[ringIdx] := o.latencyMs;
      assert ring[..] == before[ringIdx := o.latencyMs];
      ringIdx := (ringIdx + 1) % RING_CAP;
      if ringIdx == 0 {
        ringFilled := true;
      }
    }

    /** `snapshot` */
    method TakeSnapshot() returns (s: Snapshot)
      requires Valid()
      ensures s.calls == Min(|history|, 0xFFFF_FFFF) && s.successes == Min(Successes(history), 0xFFFF_FFFF)
      ensures s.totalTokensIn == Min(TokensIn(history), 0xFFFF_FFFF_FFFF_FFFF)
      ensures s.totalTokensOut == Min(TokensOut(history), 0xFFFF_FFFF_FFFF_FFFF)
      ensures s.totalCostUsd == Cost(history) && s.model == FirstModel(history)
      ensures s.avgLatencyMs == Average(history)
      ensures history == [] ==> s.p95LatencyMs == 0
      ensures history != [] ==> OrderStatistic(Window(history), P95Index(|Window(history)|), s.p95LatencyMs)
    {
      var ringLen := if ringFilled then RING_CAP else ringIdx;
      RunningIsTotals(history);
      RingIsWindow(ring[..], ringIdx, ringFilled, Latencies(history));
      var avg, p95 := 0.0, 0;
      if ringLen != 0 {
        var samples := SortSamples(ring[..ringLen]);
        assert |samples| == ringLen by { assert |multiset(samples)| == |multiset(ring[..ringLen])|; }
        avg := latencySumMs as real / ringLen as real;
        p95 := samples[P95Index(ringLen)];
        assert ring[..][..ringLen] == ring[..ringLen];
      }
      s := Snapshot(calls, successes, avg, p95, totalCostUsd, totalTokensIn, totalTokensOut, model);
    }
  }

  /** `sort_unstable`: insertion sort stands for the library's algorithm. */
  method SortSamples(s: seq<nat>) returns (r: seq<nat>)
    ensures Sorted(r) && multiset(r) == multiset(s)
  {
    r := [];
    for i := 0 to |s|
      invariant Sorted(r) && multiset(r) == multiset(s[..i])
    {
      InsertSorted(r, s[i]);
      InsertBag(r, s[i]);
      r := Insert(r, s[i]);
      assert s[..i + 1] == s[..i] + [s[i]];
    }
    assert s[..|s|] == s;
  }

  function Insert(s: seq<nat>, x: nat): seq<nat> {
    if s == [] || x <= s[0] then [x] + s else [s[0]] + Insert(s[1..], x)
  }

  lemma {:induction false} InsertBag(s: seq<nat>, x: nat)
    ensures multiset(Insert(s, x)) == multiset(s) + multiset{x}
  {
    if s != [] && x > s[0] {
      assert s == [s[0]] + s[1..];
      InsertBag(s[1..], x);
    }
  }

  lemma {:induction false} InsertSorted(s: seq<nat>, x: nat)
    requires Sorted(s)
    ensures Sorted(Insert(s, x))
  {
    if s != [] && x > s[0] {
      InsertSorted(s[1..], x);
      InsertBag(s[1..], x);
      AboveAll(s[0], s[1..], x, Insert(s[1..], x));
    }
  }

  lemma AboveAll(y: nat, s: seq<nat>, x: nat, t: seq<nat>)
    requires y <= x && (forall i :: 0 <= i < |s| ==> y <= s[i])
    requires multiset(t) == multiset(s) + multiset{x}
    ensures forall i :: 0 <= i < |t| ==> y <= t[i]
  {
    forall i | 0 <= i < |t| ensures y <= t[i] {
      assert t[i] in multiset(t);
      assert t[i] == x || t[i] in s;
    }
  }

  // ---- The ring against the history ----

  /** The ring holds the latest latencies, the newest just before `idx`. */
  ghost predicate RingHolds(ring: seq<nat>, idx: nat, filled: bool, l: seq<nat>) {
    && |ring| == RING_CAP && idx == |l| % RING_CAP && (filled <==> |l| >= RING_CAP)
    && (forall i :: 0 <= i < idx ==> ring[i] == l[|l| - idx + i])
    && (filled ==> forall i :: idx <= i < RING_CAP ==> ring[i] == l[|l| - idx - RING_CAP + i])
  }

  lemma RingNext(ring: seq<nat>, idx: nat, filled: bool, l: seq<nat>, x: nat)
    requires RingHolds(ring, idx, filled, l)
    ensures idx < RING_CAP
    ensures RingHolds(ring[idx := x], (idx + 1) % RING_CAP, filled || idx + 1 == RING_CAP, l + [x])
  {
  }

  /** As a bag, the filled part of the ring is the window. */
  lemma RingIsWindow(ring: seq<nat>, idx: nat, filled: bool, l: seq<nat>)
    requires RingHolds(ring, idx, filled, l)
    ensures var len := if filled then RING_CAP else idx;
            len == |Latest(l)| && len <= |ring| && multiset(ring[..len]) == multiset(Latest(l))
  {
    if filled {
      var newer, older := l[|l| - idx..], l[|l| - RING_CAP..|l| - idx];
      assert Latest(l) == older + newer;
      assert ring[..RING_CAP] == newer + older;
      BagOfSum(newer, older);
      BagOfSum(older, newer);
    } else {
      assert Latest(l) == l == ring[..idx];
    }
  }

  lemma BagOfSum(a: seq<nat>, b: seq<nat>)
    ensures multiset(a + b) == multiset(a) + multiset(b)
  {
  }

  /** Saturating one call at a time is saturating the totals. */
  lemma {:induction false} RunningIsTotals(h: seq<CallOutcome>)
    ensures Running(h) == Totals(h)
  {
    if h != [] {
      var g, o := h[..|h| - 1], h[|h| - 1];
      assert h == g + [o];
      RunningIsTotals(g);
      HistoryNext(g, o);
    }
  }

  lemma RunningNext(h: seq<CallOutcome>, o: CallOutcome)
    ensures Running(h + [o]) == Counted(Running(h), o)
  {
    assert (h + [o])[..|h|] == h;
  }

  lemma LatenciesNext(h: seq<CallOutcome>, o: CallOutcome)
    ensures Latencies(h + [o]) == Latencies(h) + [o.latencyMs]
  {
  }

  lemma HistoryNext(h: seq<CallOutcome>, o: CallOutcome)
    ensures Sum(Latencies(h + [o])) == Sum(Latencies(h)) + o.latencyMs
    ensures Successes(h + [o]) == Successes(h) + if o.success then 1 else 0
    ensures TokensIn(h + [o]) == TokensIn(h) + o.tokensIn && TokensOut(h + [o]) == TokensOut(h) + o.tokensOut
    ensures Cost(h + [o]) == Cost(h) + CostUsd(o.tokensIn, o.tokensOut)
    ensures FirstModel(h + [o]) == if FirstModel(h) != "" then FirstModel(h) else o.model
  {
    assert (h + [o])[..|h|] == h;
    var l := Latencies(h);
    LatenciesNext(h, o);
    assert (l + [o.latencyMs])[..|l|] == l;
  }

  // ---- The mean ----

  /** The reported mean: the sum of all latencies over the number of samples in the ring. */
  function Average(h: seq<CallOutcome>): real {
    if h == [] then 0.0 else Min(Sum(Latencies(h)), U128_MAX) as real / Min(|h|, RING_CAP) as real
  }

  /** The mean of the window, which is what the field is documented to be. */
  function WindowMean(h: seq<CallOutcome>): real {
    if h == [] then 0.0 else Sum(Window(h)) as real / Min(|h|, RING_CAP) as real
  }

  /** The latencies that the ring has overwritten. */
  function Evicted(h: seq<CallOutcome>): seq<nat> {
    Latencies(h)[..|h| - Min(|h|, RING_CAP)]
  }

  lemma {:induction false} SumAppend(a: seq<nat>, b: seq<nat>)
    ensures Sum(a + b) == Sum(a) + Sum(b)
  {
    if b == [] {
      assert a + b == a;
    } else {
      assert (a + b)[..|a + b| - 1] == a + b[..|b| - 1];
      SumAppend(a, b[..|b| - 1]);
    }
  }

  lemma SameQuotient(a: real, b: real, n: real)
    requires n > 0.0
    ensures a / n == b / n <==> a == b
  {
    assert a / n * n == a && b / n * n == b;
  }

  lemma {:induction false} SumBound(s: seq<nat>)
    requires forall i :: 0 <= i < |s| ==> s[i] <= U64_MAX
    ensures Sum(s) <= |s| * U64_MAX
  {
    if s != [] {
      SumBound(s[..|s| - 1]);
    }
  }

  /** The reported mean is the window's mean if and only if everything overwritten was
      zero, saturation included; in particular while nothing has been overwritten. */
  lemma AverageExact(h: seq<CallOutcome>)
    ensures Average(h) == WindowMean(h) <==> Sum(Evicted(h)) == 0
    ensures |h| <= RING_CAP ==> Average(h) == WindowMean(h)
  {
    var w := Window(h);
    assert Latencies(h) == Evicted(h) + w;
    SumAppend(Evicted(h), w);
    SumBound(w);
    if h != [] {
      SameMean(Sum(Latencies(h)), Sum(Evicted(h)), Sum(w), |w|);
    }
    if |h| <= RING_CAP {
      assert Evicted(h) == [];
    }
  }

  lemma SameMean(all: nat, evicted: nat, kept: nat, n: nat)
    requires all == evicted + kept && 0 < n <= RING_CAP && kept <= n * U64_MAX
    ensures Min(all, U128_MAX) as real / n as real == kept as real / n as real <==> evicted == 0
  {
    SameQuotient(Min(all, U128_MAX) as real, kept as real, n as real);
  }

  /** `n` calls that took a millisecond each. */
  function Steady(n: nat): (h: seq<CallOutcome>)
    ensures |h| == n
  {
    seq(n, _ => CallOutcome(true, 1, 0, 0, ""))
  }

  lemma {:induction false} SumOfOnes(s: seq<nat>)
    requires forall i :: 0 <= i < |s| ==> s[i] == 1
    ensures Sum(s) == |s|
  {
    if s != [] {
      SumOfOnes(s[..|s| - 1]);
    }
  }

  /** A steady latency of one millisecond is reported as n / 1024 milliseconds once the
      ring is full: from the 1025th call on the mean is wrong, and it keeps growing. */
  lemma SteadyLatencyDrifts(n: nat)
    requires RING_CAP <= n <= U64_MAX
    ensures WindowMean(Steady(n)) == 1.0
    ensures Average(Steady(n)) == n as real / 1024.0
    ensures Average(Steady(n)) == WindowMean(Steady(n)) <==> n == RING_CAP
  {
    var h := Steady(n);
    SumOfOnes(Latencies(h));
    SumOfOnes(Window(h));
    SameQuotient(n as real, 1024.0, 1024.0);
  }

  /** The successes are as many as the successful calls. */
  lemma {:induction false} SuccessesCounted(h: seq<CallOutcome>)
    ensures Successes(h) == |set i | 0 <= i < |h| && h[i].success|
  {
    var all := set i | 0 <= i < |h| && h[i].success;
    if h == [] {
      assert all == {};
    } else {
      var n, g := |h| - 1, h[..|h| - 1];
      SuccessesCounted(g);
      var before := set i | 0 <= i < |g| && g[i].success;
      assert all == if h[n].success then before + {n} else before;
    }
  }

  /** The token totals are the sums over the calls. */
  lemma {:induction false} TokensAreSums(h: seq<CallOutcome>)
    ensures TokensIn(h) == Sum(seq(|h|, i requires 0 <= i < |h| => h[i].tokensIn))
    ensures TokensOut(h) == Sum(seq(|h|, i requires 0 <= i < |h| => h[i].tokensOut))
  {
    if h != [] {
      var g := h[..|h| - 1];
      TokensAreSums(g);
      var ins := seq(|h|, i requires 0 <= i < |h| => h[i].tokensIn);
      var outs := seq(|h|, i requires 0 <= i < |h| => h[i].tokensOut);
      assert ins[..|g|] == seq(|g|, i requires 0 <= i < |g| => g[i].tokensIn);
      assert outs[..|g|] == seq(|g|, i requires 0 <= i < |g| => g[i].tokensOut);
    }
  }

  /** The model is that of the first call that names one. */
  lemma {:induction false} FirstModelNamed(h: seq<CallOutcome>, i: nat)
    requires i < |h| && h[i].model != "" && forall j :: 0 <= j < i ==> h[j].model == ""
    ensures FirstModel(h) == h[i].model
  {
    var g := h[..|h| - 1];
    if i < |g| {
      FirstModelNamed(g, i);
    } else {
      NoModelNamed(g);
    }
  }

  lemma {:induction false} NoModelNamed(h: seq<CallOutcome>)
    requires forall j :: 0 <= j < |h| ==> h[j].model == ""
    ensures FirstModel(h) == ""
  {
    if h != [] {
      NoModelNamed(h[..|h| - 1]);
    }
  }

  /** Cost is the two token totals at their prices, however the calls were split up. */
  lemma {:induction false} CostIsLinear(h: seq<CallOutcome>)
    ensures Cost(h) == CostUsd(TokensIn(h), TokensOut(h))
    ensures Cost(h) == (TokensIn(h) as real * 3.15 + TokensOut(h) as real * 15.75) / 1_000_000.0
  {
    if h != [] {
      CostIsLinear(h[..|h| - 1]);
    }
  }

  /** An order statistic is one number: two sorted arrangements of a bag are the same. */
  lemma {:induction false} SortedUnique(s: seq<nat>, t: seq<nat>)
    requires Sorted(s) && Sorted(t) && multiset(s) == multiset(t)
    ensures s == t
  {
    assert |multiset(s)| == |multiset(t)|;
    if s != [] {
      assert s[0] in multiset(t) && t[0] in multiset(s);
      assert s[0] == t[0];
      BagOfTail(s);
      BagOfTail(t);
      SortedUnique(s[1..], t[1..]);
    }
  }

  lemma BagOfTail(s: seq<nat>)
    requires s != []
    ensures multiset(s[1..]) == multiset(s) - multiset{s[0]} && s == [s[0]] + s[1..]
  {
    assert s == [s[0]] + s[1..];
  }

  lemma OrderStatisticUnique(s: seq<nat>, i: nat, v: nat, w: nat)
    requires OrderStatistic(s, i, v) && OrderStatistic(s, i, w)
    ensures v == w
  {
    var t: seq<nat> :| Sorted(t) && multiset(t) == multiset(s) && i < |t| && t[i] == v;
    var u: seq<nat> :| Sorted(u) && multiset(u) == multiset(s) && i < |u| && u[i] == w;
    SortedUnique(t, u);
  }
}
