/** Request/reply correlation in `SocketHandle`: calls of `send_request_raw_blocking`,
    the stdout reader thread and an echoing shim, as interleaved atomic steps.

    The shim is the environment: it may print anything that is not a reply with a
    reference at any time, and a reply carrying a reference once for each request line
    that reached it. Printing and reading a line are one step, taken at any moment after
    the request was written. The handle's methods take `&mut self`, so in the source at
    most one call is in flight; here any number may be. */
module ReplyCorrelation {
  import opened Wrappers

  /** A line of the shim's output, as the reader decodes it. */
  datatype Line =
    | Blank
    | Unparsable
    | Event(body: string)
    | Reply(ref: Option<nat>, body: string)

  datatype Pc =
    | Idle
    | Registered            // entry pushed, request not written
    | Waiting               // in recv_timeout
    | Received(reply: Line) // got a reply, entry not yet swept
    | Expired               // timed out, entry not yet swept
    | Returned(reply: Line)
    | TimedOut
    | StdinFailed           // returned early: no stdin, or a failed write

  /** `claimed`: the reader has taken this call's entry out of the pending list.
      `mailbox`: the one-slot reply channel. */
  datatype Call = Call(ref: nat, pc: Pc, claimed: bool, mailbox: Option<Line>)

  datatype Entry = Entry(ref: nat, call: nat)

  datatype Destination = ToEvents | ToCall(call: nat) | Dropped(call: nat)

  datatype Dispatch = Dispatch(line: Line, dest: Destination)

  /** `owed`: references of requests that reached the shim and have no reply yet.
      `held`: the entry and reply the reader is about to send.
      `parsed` and `log` record every decoded line and where it went. */
  datatype State = State(
    calls: seq<Call>, pending: seq<Entry>, stdin: bool, owed: set<nat>,
    held: Option<Dispatch>, observed: nat, parsed: seq<Line>, log: seq<Dispatch>)

  datatype Action =
    | Register(i: nat)
    | Write(i: nat)
    | WriteFails(i: nat, reached: bool)
    | NoStdin(i: nat)
    | Receive(i: nat)
    | Expire(i: nat)
    | Sweep(i: nat)
    | Read(line: Line)
    | Deliver
    | Shutdown

  predicate At(s: State, i: nat, pc: Pc) {
    i < |s.calls| && s.calls[i].pc == pc
  }

  predicate Enabled(s: State, a: Action) {
    match a
    case Register(i) => At(s, i, Idle)
    case Write(i) => At(s, i, Registered) && s.stdin
    case WriteFails(i, _) => At(s, i, Registered) && s.stdin
    case NoStdin(i) => At(s, i, Registered) && !s.stdin
    case Receive(i) => At(s, i, Waiting) && s.calls[i].mailbox.Some?
    case Expire(i) => At(s, i, Waiting) && s.calls[i].mailbox.None?
    case Sweep(i) => i < |s.calls| && (s.calls[i].pc.Received? || s.calls[i].pc.Expired?)
    case Read(line) => s.held.None? && (line.Reply? && line.ref.Some? ==> line.ref.value in s.owed)
    case Deliver => s.held.Some? && s.held.value.dest.ToCall? && s.held.value.dest.call < |s.calls|
    case Shutdown => true
  }

  function Goto(s: State, i: nat, pc: Pc): State
    requires i < |s.calls|
  {
    s.(calls := s.calls[i := s.calls[i].(pc := pc)])
  }

  /** The index of the first pending entry with this reference, or the length. */
  function Position(pending: seq<Entry>, ref: nat): (p: nat)
    ensures p <= |pending|
    ensures p < |pending| ==> pending[p].ref == ref
    ensures p == |pending| ==> forall e :: e in pending ==> e.ref != ref
  {
    if pending == [] || pending[0].ref == ref then 0 else 1 + Position(pending[1..], ref)
  }

  /** `Vec::swap_remove`: the last element takes the place of the removed one. */
  function SwapRemove(pending: seq<Entry>, p: nat): seq<Entry>
    requires p < |pending|
  {
    var last := |pending| - 1;
    pending[p := pending[last]][..last]
  }

  function Retain(pending: seq<Entry>, ref: nat): (r: seq<Entry>)
    ensures forall e :: e in r <==> e in pending && e.ref != ref
  {
    if pending == [] then []
    else (if pending[0].ref != ref then [pending[0]] else []) + Retain(pending[1..], ref)
  }

  function Do(s: State, a: Action): State
    requires Enabled(s, a)
  {
    match a
    case Register(i) => Goto(s, i, Registered).(pending := s.pending + [Entry(s.calls[i].ref, i)])
    case Write(i) => Goto(s, i, Waiting).(owed := s.owed + {s.calls[i].ref})
    case WriteFails(i, reached) =>
      Goto(s, i, StdinFailed).(stdin := false, owed := if reached then s.owed + {s.calls[i].ref} else s.owed)
    case NoStdin(i) => Goto(s, i, StdinFailed)
    case Receive(i) =>
      s.(calls := s.calls[i := s.calls[i].(pc := Received(s.calls[i].mailbox.value), mailbox := None)])
    case Expire(i) => Goto(s, i, Expired)
    case Sweep(i) =>
      Goto(s, i, if s.calls[i].pc.Expired? then TimedOut else Returned(s.calls[i].pc.reply))
        .(pending := Retain(s.pending, s.calls[i].ref))
    case Read(line) => ReadLine(s, line)
    case Deliver =>
      var d := s.held.value;
      var c := s.calls[d.dest.call];
      if ChannelOpen(c) then
        s.(held := None, log := s.log + [d], calls := s.calls[d.dest.call := c.(mailbox := Some(d.line))])
      else
        s.(held := None, log := s.log + [Dispatch(d.line, Dropped(d.dest.call))])
    case Shutdown => s.(stdin := false)
  }

  /** The call still holds the receiving end. */
  predicate ChannelOpen(c: Call) {
    !(c.pc.Returned? || c.pc.TimedOut? || c.pc.StdinFailed?)
  }

  /** One turn of the reader's loop, up to the send. */
  function ReadLine(s: State, line: Line): State {
    if line.Blank? || line.Unparsable? then s
    else
      var s := s.(observed := s.observed + 1, parsed := s.parsed + [line]);
      var toEvents := s.(log := s.log + [Dispatch(line, ToEvents)]);
      if !(line.Reply? && line.ref.Some?) then toEvents
      else
        var s, toEvents := s.(owed := s.owed - {line.ref.value}), toEvents.(owed := s.owed - {line.ref.value});
        var p := Position(s.pending, line.ref.value);
        if p == |s.pending| then toEvents
        else
          var i := s.pending[p].call;
          s.(pending := SwapRemove(s.pending, p), held := Some(Dispatch(line, ToCall(i))),
             calls := if i < |s.calls| then s.calls[i := s.calls[i].(claimed := true)] else s.calls)
  }

  /** All calls are still to come and have distinct references. */
  predicate Init(s: State) {
    && s.pending == [] && s.owed == {} && s.held == None && s.observed == 0 && s.parsed == [] && s.log == []
    && (forall i :: 0 <= i < |s.calls| ==> s.calls[i].pc == Idle && !s.calls[i].claimed && s.calls[i].mailbox == None)
    && DistinctRefs(s)
  }

  predicate DistinctRefs(s: State) {
    forall i, j :: 0 <= i < j < |s.calls| ==> s.calls[i].ref != s.calls[j].ref
  }

  ghost predicate Next(s: State, s': State) {
    exists a :: Enabled(s, a) && s' == Do(s, a)
  }

  ghost predicate IsRun(run: seq<State>) {
    run != [] && Init(run[0]) && forall k :: 0 <= k < |run| - 1 ==> Next(run[k], run[k + 1])
  }

  // ---- What every step keeps ----

  predicate HoldsEntry(pc: Pc) {
    pc.Registered? || pc.Waiting? || pc.Expired? || pc.StdinFailed?
  }

  predicate InPending(s: State, i: nat)
    requires i < |s.calls|
  {
    Entry(s.calls[i].ref, i) in s.pending
  }

  predicate Held(s: State, i: nat) {
    s.held.Some? && s.held.value.dest == ToCall(i)
  }

  /** One call, given whether its entry is pending, its reply owed, its reply in the reader's hand. */
  predicate CallInv(c: Call, pending: bool, owed: bool, held: bool) {
    && (pending <==> HoldsEntry(c.pc) && !c.claimed)
    && (owed ==> !c.claimed && !c.pc.Idle? && !c.pc.Registered?)
    && (c.claimed ==> !c.pc.Idle? && !c.pc.Registered?)
    && (held ==> c.claimed && c.mailbox.None? && !c.pc.Received? && !c.pc.Returned?)
    && (c.mailbox.Some? ==> c.claimed && IsReplyTo(c.mailbox.value, c.ref))
    && (c.mailbox.Some? ==> c.pc.Waiting? || c.pc.Expired? || c.pc.TimedOut?)
    && (c.pc.Received? || c.pc.Returned? ==> c.claimed && c.mailbox.None? && IsReplyTo(c.pc.reply, c.ref))
    && (c.claimed && c.pc.Waiting? ==> held || c.mailbox.Some?)
  }

  predicate IsReplyTo(line: Line, ref: nat) {
    line.Reply? && line.ref == Some(ref)
  }

  /** The reply that reached the call: taken out by it, or still in its mailbox. */
  function Reached(c: Call): Option<Line> {
    if c.pc.Received? || c.pc.Returned? then Some(c.pc.reply) else c.mailbox
  }

  predicate OriginInv(s: State) {
    forall i: nat :: i < |s.calls| ==> Logged(s, i)
  }

  /** What reached a call is a line that the reader dispatched to it. */
  predicate Logged(s: State, i: nat)
    requires i < |s.calls|
  {
    Reached(s.calls[i]).Some? ==> Dispatch(Reached(s.calls[i]).value, ToCall(i)) in s.log
  }

  predicate PendingInv(s: State) {
    && (forall e :: e in s.pending ==> e.call < |s.calls| && e.ref == s.calls[e.call].ref)
    && NoDuplicates(s.pending)
  }

  predicate NoDuplicates(pending: seq<Entry>) {
    forall p, q :: 0 <= p < q < |pending| ==> pending[p] != pending[q]
  }

  predicate HeldInv(s: State) {
    s.held.Some? ==>
      && s.held.value.dest.ToCall? && s.held.value.dest.call < |s.calls|
      && IsReplyTo(s.held.value.line, s.calls[s.held.value.dest.call].ref)
  }

  /** Where a dispatched line went, judged by where its call is now. */
  predicate DispatchInv(d: Dispatch, calls: seq<Call>) {
    match d.dest
    case ToEvents => forall i :: 0 <= i < |calls| && IsReplyTo(d.line, calls[i].ref) ==> calls[i].pc.TimedOut?
    case ToCall(i) => i < |calls| && IsReplyTo(d.line, calls[i].ref) && Reached(calls[i]) == Some(d.line)
    case Dropped(i) =>
      i < |calls| && IsReplyTo(d.line, calls[i].ref) && (calls[i].pc.TimedOut? || calls[i].pc.StdinFailed?)
  }

  predicate LogInv(s: State) {
    forall k :: 0 <= k < |s.log| ==> DispatchInv(s.log[k], s.calls)
  }

  function LinesOf(log: seq<Dispatch>): (lines: seq<Line>)
    ensures |lines| == |log|
  {
    seq(|log|, k requires 0 <= k < |log| => log[k].line)
  }

  predicate Conserved(s: State) {
    && s.parsed == LinesOf(s.log) + (if s.held.Some? then [s.held.value.line] else [])
    && s.observed == |s.parsed|
  }

  predicate CallsInv(s: State) {
    forall i :: 0 <= i < |s.calls| ==> CallInv(s.calls[i], InPending(s, i), s.calls[i].ref in s.owed, Held(s, i))
  }

  predicate Inv(s: State) {
    DistinctRefs(s) && PendingInv(s) && HeldInv(s) && CallsInv(s) && LogInv(s) && OriginInv(s) && Conserved(s)
  }

  lemma InitInv(s: State)
    requires Init(s)
    ensures Inv(s)
  {
  }

  lemma SwapRemoveElements(pending: seq<Entry>, p: nat)
    requires p < |pending| && NoDuplicates(pending)
    ensures forall e :: e in SwapRemove(pending, p) <==> e in pending && e != pending[p]
    ensures NoDuplicates(SwapRemove(pending, p))
  {
    var r, last := SwapRemove(pending, p), |pending| - 1;
    assert forall k :: 0 <= k < last ==> r[k] == if k == p then pending[last] else pending[k];
    forall e | e in pending && e != pending[p] ensures e in r {
      var k :| 0 <= k < |pending| && pending[k] == e;
      assert k < last ==> r[k] == e;
      assert k == last ==> r[p] == e;
    }
  }

  lemma {:induction false} RetainDistinct(pending: seq<Entry>, ref: nat)
    requires NoDuplicates(pending)
    ensures NoDuplicates(Retain(pending, ref))
  {
    if pending != [] {
      RetainDistinct(pending[1..], ref);
      var r := Retain(pending[1..], ref);
      forall a | 0 <= a < |r| ensures r[a] != pending[0] {
        assert r[a] in r;
        assert r[a] in pending[1..];
      }
      if pending[0].ref == ref {
        assert Retain(pending, ref) == r;
      }
    }
  }

  /** A finished call stays as it is: the log's verdicts depend on it. */
  predicate KeepsVerdicts(c: Call, c': Call) {
    && c'.ref == c.ref
    && (Reached(c).Some? ==> Reached(c') == Reached(c))
    && (c.pc.TimedOut? ==> c'.pc.TimedOut?)
    && (c.pc.StdinFailed? ==> c'.pc.StdinFailed?)
  }

  lemma LogKeeps(log: seq<Dispatch>, calls: seq<Call>, calls': seq<Call>)
    requires |calls'| == |calls| && forall j :: 0 <= j < |calls| ==> KeepsVerdicts(calls[j], calls'[j])
    requires forall k :: 0 <= k < |log| ==> DispatchInv(log[k], calls)
    ensures forall k :: 0 <= k < |log| ==> DispatchInv(log[k], calls')
  {
    forall k | 0 <= k < |log| ensures DispatchInv(log[k], calls') {
      assert DispatchInv(log[k], calls);
    }
  }

  /** A step of call `i` alone keeps the invariant if it keeps that call's part of it. */
  lemma OneCallMoves(s: State, s': State, i: nat)
    requires Inv(s) && i < |s.calls| && |s'.calls| == |s.calls|
    requires forall j :: 0 <= j < |s.calls| && j != i ==>
               s'.calls[j] == s.calls[j] && InPending(s', j) == InPending(s, j)
               && (s.calls[j].ref in s'.owed <==> s.calls[j].ref in s.owed)
    requires KeepsVerdicts(s.calls[i], s'.calls[i]) && Reached(s'.calls[i]) == Reached(s.calls[i])
    requires s'.log == s.log && s'.held == s.held && s'.parsed == s.parsed && s'.observed == s.observed
    requires PendingInv(s')
    requires CallInv(s'.calls[i], InPending(s', i), s'.calls[i].ref in s'.owed, Held(s', i))
    ensures Inv(s')
  {
    LogKeeps(s.log, s.calls, s'.calls);
    forall j | 0 <= j < |s'.calls|
      ensures CallInv(s'.calls[j], InPending(s', j), s'.calls[j].ref in s'.owed, Held(s', j))
    {
      if j != i {
        assert CallInv(s.calls[j], InPending(s, j), s.calls[j].ref in s.owed, Held(s, j));
      }
    }
    OriginKept(s, s');
  }

  lemma OriginKept(s: State, s': State)
    requires OriginInv(s) && |s'.calls| == |s.calls| && s.log <= s'.log
    requires forall j :: 0 <= j < |s.calls| ==> Reached(s'.calls[j]) == Reached(s.calls[j])
    ensures OriginInv(s')
  {
    forall j: nat | j < |s'.calls| ensures Logged(s', j) {
      assert Logged(s, j);
    }
  }

  lemma RegisterStep(s: State, i: nat)
    requires Inv(s) && Enabled(s, Register(i))
    ensures Inv(Do(s, Register(i)))
  {
    var s' := Do(s, Register(i));
    assert CallInv(s.calls[i], InPending(s, i), s.calls[i].ref in s.owed, Held(s, i));
    assert forall e :: e in s'.pending <==> e in s.pending || e == Entry(s.calls[i].ref, i);
    OneCallMoves(s, s', i);
  }

  lemma WriteStep(s: State, a: Action)
    requires Inv(s) && Enabled(s, a) && (a.Write? || a.WriteFails? || a.NoStdin?)
    ensures Inv(Do(s, a))
  {
    assert CallInv(s.calls[a.i], InPending(s, a.i), s.calls[a.i].ref in s.owed, Held(s, a.i));
    OneCallMoves(s, Do(s, a), a.i);
  }

  lemma WaitStep(s: State, a: Action)
    requires Inv(s) && Enabled(s, a) && (a.Receive? || a.Expire?)
    ensures Inv(Do(s, a))
  {
    assert CallInv(s.calls[a.i], InPending(s, a.i), s.calls[a.i].ref in s.owed, Held(s, a.i));
    OneCallMoves(s, Do(s, a), a.i);
  }

  lemma SweepStep(s: State, i: nat)
    requires Inv(s) && Enabled(s, Sweep(i))
    ensures Inv(Do(s, Sweep(i)))
  {
    var s' := Do(s, Sweep(i));
    assert CallInv(s.calls[i], InPending(s, i), s.calls[i].ref in s.owed, Held(s, i));
    RetainDistinct(s.pending, s.calls[i].ref);
    OneCallMoves(s, s', i);
  }

  lemma DeliverStep(s: State)
    requires Inv(s) && Enabled(s, Deliver)
    ensures Inv(Do(s, Deliver))
  {
    var s' := Do(s, Deliver);
    var d := s.held.value;
    var i := d.dest.call;
    forall j | 0 <= j < |s.calls|
      ensures CallInv(s'.calls[j], InPending(s', j), s'.calls[j].ref in s'.owed, Held(s', j))
      ensures KeepsVerdicts(s.calls[j], s'.calls[j])
    {
      assert CallInv(s.calls[j], InPending(s, j), s.calls[j].ref in s.owed, Held(s, j));
    }
    LogKeeps(s.log, s.calls, s'.calls);
    assert CallInv(s.calls[i], InPending(s, i), s.calls[i].ref in s.owed, Held(s, i));
    assert DispatchInv(s'.log[|s.log|], s'.calls);
    assert LinesOf(s'.log) == LinesOf(s.log) + [d.line];
    forall j: nat | j < |s'.calls| ensures Logged(s', j) {
      assert Logged(s, j);
      assert s'.log[|s.log|] in s'.log;
    }
  }

  /** A reply with a reference finds its call's entry, unless the call was swept. */
  lemma FindsEntry(s: State, ref: nat, i: nat)
    requires Inv(s) && ref in s.owed && i < |s.calls| && s.calls[i].ref == ref
    ensures var p := Position(s.pending, ref);
            if HoldsEntry(s.calls[i].pc) then p < |s.pending| && s.pending[p] == Entry(ref, i)
            else p == |s.pending| && s.calls[i].pc.TimedOut?
  {
    assert CallInv(s.calls[i], InPending(s, i), s.calls[i].ref in s.owed, Held(s, i));
    var p := Position(s.pending, ref);
    if p < |s.pending| {
      assert s.pending[p] in s.pending;
    }
  }

  lemma ReadStep(s: State, line: Line)
    requires Inv(s) && Enabled(s, Read(line))
    ensures Inv(Do(s, Read(line)))
  {
    if line.Event? || line.Reply? {
      if line.Reply? && line.ref.Some? && Position(s.pending, line.ref.value) < |s.pending| {
        ReadClaims(s, line);
      } else {
        ReadToEvents(s, line);
      }
    }
  }

  lemma ReadToEvents(s: State, line: Line)
    requires Inv(s) && Enabled(s, Read(line)) && (line.Event? || line.Reply?)
    requires line.Reply? && line.ref.Some? ==> Position(s.pending, line.ref.value) == |s.pending|
    ensures Inv(Do(s, Read(line)))
  {
    var s' := Do(s, Read(line));
    forall i | 0 <= i < |s.calls|
      ensures CallInv(s'.calls[i], InPending(s', i), s'.calls[i].ref in s'.owed, Held(s', i))
      ensures IsReplyTo(line, s.calls[i].ref) ==> s.calls[i].pc.TimedOut?
    {
      assert CallInv(s.calls[i], InPending(s, i), s.calls[i].ref in s.owed, Held(s, i));
      if IsReplyTo(line, s.calls[i].ref) {
        FindsEntry(s, line.ref.value, i);
      }
    }
    assert DispatchInv(s'.log[|s.log|], s'.calls);
    assert LinesOf(s'.log) == LinesOf(s.log) + [line];
    OriginKept(s, s');
  }

  lemma ReadClaims(s: State, line: Line)
    requires Inv(s) && Enabled(s, Read(line)) && line.Reply? && line.ref.Some?
    requires Position(s.pending, line.ref.value) < |s.pending|
    ensures Inv(Do(s, Read(line)))
  {
    var ref := line.ref.value;
    var p := Position(s.pending, ref);
    assert s.pending[p] in s.pending;
    var i := s.pending[p].call;
    FindsEntry(s, ref, i);
    SwapRemoveElements(s.pending, p);
    var s' := Do(s, Read(line));
    assert s'.calls == s.calls[i := s.calls[i].(claimed := true)];
    forall j | 0 <= j < |s.calls|
      ensures CallInv(s'.calls[j], InPending(s', j), s'.calls[j].ref in s'.owed, Held(s', j))
      ensures KeepsVerdicts(s.calls[j], s'.calls[j])
    {
      assert CallInv(s.calls[j], InPending(s, j), s.calls[j].ref in s.owed, Held(s, j));
    }
    LogKeeps(s.log, s.calls, s'.calls);
    OriginKept(s, s');
  }

  lemma StepInv(s: State, a: Action)
    requires Inv(s) && Enabled(s, a)
    ensures Inv(Do(s, a))
  {
    match a
    case Register(i) => RegisterStep(s, i);
    case Write(_) => WriteStep(s, a);
    case WriteFails(_, _) => WriteStep(s, a);
    case NoStdin(_) => WriteStep(s, a);
    case Receive(_) => WaitStep(s, a);
    case Expire(_) => WaitStep(s, a);
    case Sweep(i) => SweepStep(s, i);
    case Read(line) => ReadStep(s, line);
    case Deliver => DeliverStep(s);
    case Shutdown =>
      forall j | 0 <= j < |s.calls|
        ensures InPending(Do(s, a), j) == InPending(s, j) && Held(Do(s, a), j) == Held(s, j) {}
      OriginKept(s, Do(s, a));
  }

  /** The invariant holds in every state of every interleaving. */
  lemma {:induction false} RunInv(run: seq<State>, k: nat)
    requires IsRun(run) && k < |run|
    ensures Inv(run[k])
  {
    if k == 0 {
      InitInv(run[0]);
    } else {
      RunInv(run, k - 1);
      assert Next(run[k - 1], run[k - 1 + 1]);
      var a :| Enabled(run[k - 1], a) && run[k] == Do(run[k - 1], a);
      StepInv(run[k - 1], a);
    }
  }

  // ---- What the protocol promises, in every reachable state ----

  /** A call returns only a reply that carries its own reference, and one that the reader
      parsed and dispatched to it. */
  lemma ReturnsOwnReply(run: seq<State>, k: nat, i: nat)
    requires IsRun(run) && k < |run| && i < |run[k].calls| && run[k].calls[i].pc.Returned?
    ensures var reply := run[k].calls[i].pc.reply;
            IsReplyTo(reply, run[k].calls[i].ref) && Dispatch(reply, ToCall(i)) in run[k].log && reply in run[k].parsed
  {
    RunInv(run, k);
    var s := run[k];
    assert CallInv(s.calls[i], InPending(s, i), s.calls[i].ref in s.owed, Held(s, i));
    assert Logged(s, i);
    var n :| 0 <= n < |s.log| && s.log[n] == Dispatch(s.calls[i].pc.reply, ToCall(i));
    assert LinesOf(s.log)[n] == s.calls[i].pc.reply;
  }

  /** What became of a reply dispatched to a call: the call has it, or will find it in its
      mailbox, or gave up before it came and leaves it there for ever. */
  lemma DeliveredReplyFate(run: seq<State>, k: nat, i: nat, line: Line)
    requires IsRun(run) && k < |run| && Dispatch(line, ToCall(i)) in run[k].log
    ensures i < |run[k].calls|
    ensures match run[k].calls[i].pc
            case Received(reply) => reply == line
            case Returned(reply) => reply == line
            case Waiting => run[k].calls[i].mailbox == Some(line)
            case Expired => run[k].calls[i].mailbox == Some(line)
            case TimedOut => run[k].calls[i].mailbox == Some(line)
            case _ => false
  {
    RunInv(run, k);
    var s := run[k];
    var n :| 0 <= n < |s.log| && s.log[n] == Dispatch(line, ToCall(i));
    assert DispatchInv(s.log[n], s.calls);
    assert CallInv(s.calls[i], InPending(s, i), s.calls[i].ref in s.owed, Held(s, i));
  }

  /** So once a call is over, its reply was returned by it or the call had failed. */
  lemma ReplyLostOnlyAfterFailure(run: seq<State>, k: nat, i: nat, d: Dispatch)
    requires IsRun(run) && k < |run| && d in run[k].log && i < |run[k].calls|
    requires IsReplyTo(d.line, run[k].calls[i].ref) && !ChannelOpen(run[k].calls[i])
    ensures run[k].calls[i].pc == Returned(d.line) || run[k].calls[i].pc.TimedOut? || run[k].calls[i].pc.StdinFailed?
  {
    DivertedOnlyAfterTimeout(run, k, d, i);
    if d.dest.ToCall? {
      DeliveredReplyFate(run, k, i, d.line);
    }
  }

  /** Register before write: a reply read while its call has not been swept is claimed for
      that call, and stays within its reach while the call waits. */
  lemma ReplyIsClaimed(run: seq<State>, k: nat, i: nat, line: Line)
    requires IsRun(run) && k < |run| && Enabled(run[k], Read(line)) && i < |run[k].calls|
    requires IsReplyTo(line, run[k].calls[i].ref)
    ensures run[k].calls[i].pc.TimedOut? <==> !Held(Do(run[k], Read(line)), i)
    ensures !run[k].calls[i].pc.TimedOut? ==> Do(run[k], Read(line)).log == run[k].log
  {
    RunInv(run, k);
    FindsEntry(run[k], line.ref.value, i);
    var s := run[k];
    assert CallInv(s.calls[i], InPending(s, i), s.calls[i].ref in s.owed, Held(s, i));
  }

  lemma ClaimedReplyAtHand(run: seq<State>, k: nat, i: nat)
    requires IsRun(run) && k < |run| && At(run[k], i, Waiting) && run[k].calls[i].claimed
    ensures Held(run[k], i) || run[k].calls[i].mailbox.Some?
  {
    RunInv(run, k);
    var s := run[k];
    assert CallInv(s.calls[i], InPending(s, i), s.calls[i].ref in s.owed, Held(s, i));
  }

  /** A call's reply is found in the event channel only if the call timed out, and is
      lost only if the call had already returned without it. */
  lemma DivertedOnlyAfterTimeout(run: seq<State>, k: nat, d: Dispatch, i: nat)
    requires IsRun(run) && k < |run| && d in run[k].log && i < |run[k].calls|
    requires IsReplyTo(d.line, run[k].calls[i].ref)
    ensures d.dest == ToEvents ==> run[k].calls[i].pc.TimedOut?
    ensures d.dest.Dropped? ==> d.dest.call == i && (run[k].calls[i].pc.TimedOut? || run[k].calls[i].pc.StdinFailed?)
    ensures d.dest.ToCall? ==> d.dest.call == i
  {
    RunInv(run, k);
    var n :| 0 <= n < |run[k].log| && run[k].log[n] == d;
    assert DispatchInv(d, run[k].calls);
  }

  /** Every parsed line has exactly one destination, in the order the lines came, and is
      counted once; at most the last one is still in the reader's hand. */
  lemma LinesConserved(run: seq<State>, k: nat)
    requires IsRun(run) && k < |run|
    ensures run[k].observed == |run[k].parsed| == |run[k].log| + if run[k].held.Some? then 1 else 0
    ensures forall n :: 0 <= n < |run[k].log| ==> run[k].log[n].line == run[k].parsed[n]
  {
    RunInv(run, k);
    assert forall n :: 0 <= n < |run[k].log| ==> LinesOf(run[k].log)[n] == run[k].log[n].line;
  }

  /** Which references are pending, exactly: those of calls between registration and
      sweep, and of calls that returned early, as long as no reply has claimed them. */
  lemma PendingExactly(run: seq<State>, k: nat, i: nat)
    requires IsRun(run) && k < |run| && i < |run[k].calls|
    ensures (exists e :: e in run[k].pending && e.ref == run[k].calls[i].ref)
        <==> HoldsEntry(run[k].calls[i].pc) && !run[k].calls[i].claimed
  {
    RunInv(run, k);
    var s := run[k];
    assert CallInv(s.calls[i], InPending(s, i), s.calls[i].ref in s.owed, Held(s, i));
    if e :| e in s.pending && e.ref == s.calls[i].ref {
      assert e == Entry(s.calls[i].ref, i);
    }
  }

  /** So a finished call leaves its entry behind if and only if it returned early, on
      stdin, and was not answered all the same. */
  lemma FinishedCallPending(run: seq<State>, k: nat, i: nat)
    requires IsRun(run) && k < |run| && i < |run[k].calls| && !ChannelOpen(run[k].calls[i])
    ensures (exists e :: e in run[k].pending && e.ref == run[k].calls[i].ref)
        <==> run[k].calls[i].pc.StdinFailed? && !run[k].calls[i].claimed
  {
    PendingExactly(run, k, i);
  }

  /** The early return does happen: two steps after a shutdown, the entry is left behind. */
  lemma EarlyReturnLeavesEntry(ref: nat)
    ensures var s0 := State([Call(ref, Idle, false, None)], [], false, {}, None, 0, [], []);
            var s1 := Do(s0, Register(0));
            var s2 := Do(s1, NoStdin(0));
            IsRun([s0, s1, s2]) && !ChannelOpen(s2.calls[0]) && InPending(s2, 0)
  {
    var s0 := State([Call(ref, Idle, false, None)], [], false, {}, None, 0, [], []);
    assert Enabled(s0, Register(0));
    var s1 := Do(s0, Register(0));
    assert Enabled(s1, NoStdin(0));
    assert Next(s0, s1);
    var s2 := Do(s1, NoStdin(0));
    assert Next(s1, s2);
  }

  // ---- The stdin handle ----

  /** Only a failed write and a shutdown lose the handle, and nothing brings it back. */
  lemma StdinStep(s: State, a: Action)
    requires Enabled(s, a)
    ensures Do(s, a).stdin <==> s.stdin && !a.WriteFails? && !a.Shutdown?
  {
  }

  /** A run with the action taken at each step. */
  ghost predicate Performs(run: seq<State>, actions: seq<Action>) {
    && |run| == |actions| + 1 && Init(run[0])
    && forall k :: 0 <= k < |actions| ==> Takes(run, actions, k)
  }

  ghost predicate Takes(run: seq<State>, actions: seq<Action>, k: nat)
    requires k < |actions| && |run| == |actions| + 1
  {
    StepTaken(run[k], actions[k], run[k + 1])
  }

  predicate StepTaken(s: State, a: Action, s': State) {
    Enabled(s, a) && s' == Do(s, a)
  }

  predicate LosesStdin(a: Action) {
    a.WriteFails? || a.Shutdown?
  }

  /** Stdin is there in every state of a run up to the first failed write or shutdown,
      and in none after it. */
  lemma {:induction false} StdinExactly(run: seq<State>, actions: seq<Action>, k: nat)
    requires Performs(run, actions) && k < |run|
    ensures run[k].stdin <==> run[0].stdin && forall j :: 0 <= j < k ==> !LosesStdin(actions[j])
  {
    if k > 0 {
      StdinExactly(run, actions, k - 1);
      assert Takes(run, actions, k - 1);
      StdinStep(run[k - 1], actions[k - 1]);
    }
  }

  /** A call fails on stdin only in a run that began without it, or after some write
      failed or a shutdown. */
  lemma {:induction false} StdinFailureHasCause(run: seq<State>, actions: seq<Action>, k: nat, i: nat)
    requires Performs(run, actions) && k < |run| && i < |run[k].calls| && run[k].calls[i].pc.StdinFailed?
    ensures !run[0].stdin || exists j :: 0 <= j < k && LosesStdin(actions[j])
  {
    if k > 0 {
      assert Takes(run, actions, k - 1);
      var s, a := run[k - 1], actions[k - 1];
      StdinExactly(run, actions, k - 1);
      if i < |s.calls| && s.calls[i].pc.StdinFailed? {
        StdinFailureHasCause(run, actions, k - 1, i);
      } else {
        FailsOnStdin(s, a, i);
        assert a.WriteFails? ==> LosesStdin(actions[k - 1]);
      }
    }
  }

  lemma FailsOnStdin(s: State, a: Action, i: nat)
    requires Enabled(s, a) && i < |Do(s, a).calls| && Do(s, a).calls[i].pc.StdinFailed?
    ensures i < |s.calls| && (s.calls[i].pc.StdinFailed? || a.WriteFails? || !s.stdin)
  {
  }

  // ---- Calls that succeed ----

  /** The six steps in which a call is served. */
  function Served(i: nat, reply: Line): seq<Action> {
    [Register(i), Write(i), Read(reply), Deliver, Receive(i), Sweep(i)]
  }

  /** The state after one call has been served, when nothing else goes on. */
  function AfterServed(s: State, i: nat, reply: Line): State
    requires i < |s.calls|
  {
    s.(calls := s.calls[i := Call(s.calls[i].ref, Returned(reply), true, None)],
       observed := s.observed + 1, parsed := s.parsed + [reply], log := s.log + [Dispatch(reply, ToCall(i))])
  }

  /** Whenever nothing is pending and stdin is there, an idle call can be served, returns
      its reply, and leaves everything as it was for the next one. */
  lemma CallServed(s: State, i: nat, body: string) returns (run: seq<State>)
    requires i < |s.calls| && s.calls[i].pc == Idle && !s.calls[i].claimed && s.calls[i].mailbox == None
    requires s.stdin && s.pending == [] && s.owed == {} && s.held == None
    ensures var reply := Reply(Some(s.calls[i].ref), body);
            && |run| == 7 && run[0] == s && run[6] == AfterServed(s, i, reply)
            && forall k :: 0 <= k < 6 ==> StepTaken(run[k], Served(i, reply)[k], run[k + 1])
  {
    var reply := Reply(Some(s.calls[i].ref), body);
    var s1, s2 := RequestMade(s, i);
    var s3, s4 := ReplyRead(s2, i, reply);
    var s5, s6 := ReplyTaken(s4, i, reply);
    assert s6.calls == AfterServed(s, i, reply).calls;
    run := [s, s1, s2, s3, s4, s5, s6];
  }

  lemma RequestMade(s: State, i: nat) returns (middle: State, s': State)
    requires At(s, i, Idle) && s.stdin && s.pending == [] && s.owed == {}
    ensures StepTaken(s, Register(i), middle) && StepTaken(middle, Write(i), s')
    ensures var c := s.calls[i];
            s' == s.(calls := s.calls[i := c.(pc := Waiting)], pending := [Entry(c.ref, i)], owed := {c.ref})
  {
    middle := Do(s, Register(i));
    s' := Do(middle, Write(i));
    assert s'.calls == s.calls[i := s.calls[i].(pc := Waiting)];
  }

  lemma ReplyRead(s: State, i: nat, reply: Line) returns (middle: State, s': State)
    requires At(s, i, Waiting) && s.held == None && IsReplyTo(reply, s.calls[i].ref)
    requires s.pending == [Entry(s.calls[i].ref, i)] && s.owed == {s.calls[i].ref}
    ensures StepTaken(s, Read(reply), middle) && StepTaken(middle, Deliver, s')
    ensures s' == s.(calls := s.calls[i := s.calls[i].(claimed := true, mailbox := Some(reply))], pending := [], owed := {},
                     observed := s.observed + 1, parsed := s.parsed + [reply], log := s.log + [Dispatch(reply, ToCall(i))])
  {
    assert Position(s.pending, reply.ref.value) == 0 && SwapRemove(s.pending, 0) == [];
    middle := Do(s, Read(reply));
    s' := Do(middle, Deliver);
    assert s'.calls == s.calls[i := s.calls[i].(claimed := true, mailbox := Some(reply))];
  }

  lemma ReplyTaken(s: State, i: nat, reply: Line) returns (middle: State, s': State)
    requires At(s, i, Waiting) && s.calls[i].mailbox == Some(reply) && s.pending == []
    ensures StepTaken(s, Receive(i), middle) && StepTaken(middle, Sweep(i), s')
    ensures s' == s.(calls := s.calls[i := s.calls[i].(pc := Returned(reply), mailbox := None)])
  {
    middle := Do(s, Receive(i));
    s' := Do(middle, Sweep(i));
    assert s'.calls == s.calls[i := s.calls[i].(pc := Returned(reply), mailbox := None)];
  }

  /** Nothing is under way; the first `n` calls have returned and the others are to come. */
  predicate Quiet(s: State, s0: State, bodies: seq<string>, n: nat)
    requires |bodies| == |s0.calls|
  {
    && s.stdin && s.pending == [] && s.owed == {} && s.held == None && |s.calls| == |s0.calls|
    && (forall j :: n <= j < |s.calls| ==> s.calls[j] == s0.calls[j])
    && (forall j :: 0 <= j < n && j < |s.calls| ==>
          s.calls[j].ref == s0.calls[j].ref
          && s.calls[j].pc == Returned(Reply(Some(s0.calls[j].ref), bodies[j])))
  }

  /** From any start with stdin in place, every call can be served, one after another, and
      each returns the reply to its own request. */
  lemma {:induction false} AllServed(s0: State, bodies: seq<string>, n: nat) returns (run: seq<State>, actions: seq<Action>)
    requires Init(s0) && s0.stdin && |bodies| == |s0.calls| && n <= |s0.calls|
    ensures Performs(run, actions) && run[0] == s0 && Quiet(run[|run| - 1], s0, bodies, n)
  {
    if n == 0 {
      run, actions := [s0], [];
    } else {
      var run1, actions1 := AllServed(s0, bodies, n - 1);
      var s := run1[|run1| - 1];
      var run2 := CallServed(s, n - 1, bodies[n - 1]);
      var actions2 := Served(n - 1, Reply(Some(s.calls[n - 1].ref), bodies[n - 1]));
      run, actions := run1 + run2[1..], actions1 + actions2;
      RunsJoin(run1, actions1, run2, actions2);
    }
  }

  lemma RunsJoin(run1: seq<State>, actions1: seq<Action>, run2: seq<State>, actions2: seq<Action>)
    requires Performs(run1, actions1) && |run2| == |actions2| + 1 && run2[0] == run1[|run1| - 1]
    requires forall k :: 0 <= k < |actions2| ==> StepTaken(run2[k], actions2[k], run2[k + 1])
    ensures Performs(run1 + run2[1..], actions1 + actions2)
  {
    forall k | 0 <= k < |actions1| ensures StepTaken(run1[k], actions1[k], run1[k + 1]) {
      assert Takes(run1, actions1, k);
    }
    StepsJoin(StepTaken, run1, actions1, run2, actions2);
  }

  lemma StepsJoin<S, A>(step: (S, A, S) -> bool, run1: seq<S>, actions1: seq<A>, run2: seq<S>, actions2: seq<A>)
    requires |run1| == |actions1| + 1 && |run2| == |actions2| + 1 && run2[0] == run1[|run1| - 1]
    requires forall k :: 0 <= k < |actions1| ==> step(run1[k], actions1[k], run1[k + 1])
    requires forall k :: 0 <= k < |actions2| ==> step(run2[k], actions2[k], run2[k + 1])
    ensures var run, actions := run1 + run2[1..], actions1 + actions2;
            |run| == |actions| + 1 && forall k :: 0 <= k < |actions| ==> step(run[k], actions[k], run[k + 1])
  {
    var run, actions, n := run1 + run2[1..], actions1 + actions2, |actions1|;
    forall k | 0 <= k < |actions| ensures step(run[k], actions[k], run[k + 1]) {
      if k >= n {
        assert run[k] == run2[k - n] && run[k + 1] == run2[k - n + 1];
      }
    }
  }

  /** Such runs are among those the invariant is about. */
  lemma PerformedRunsAreRuns(run: seq<State>, actions: seq<Action>)
    requires Performs(run, actions)
    ensures IsRun(run)
  {
    forall k | 0 <= k < |run| - 1 ensures Next(run[k], run[k + 1]) {
      assert Takes(run, actions, k);
    }
  }
}
