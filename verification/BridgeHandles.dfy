/** Who owns the child's pipes in `PythonBandBridge`. `send_request_with_timeout` holds
    both mutexes for the whole call, so calls on one bridge follow one another; inside a
    call each handle is taken out and, on some paths only, put back. */
module BridgeHandles {

  /** What the child and the operating system do with one request. */
  datatype Event =
    | EncodeError
    | WriteError
    | FlushError
    | StdoutClosed
    | Timeout
    | ReaderPanic
    | BadReply
    | Reply(value: string)

  datatype Answer = Value(value: string) | Transport(event: Event) | ShutDown

  /** The handles present in their slots, and the counters `record_outcome` keeps. */
  datatype Bridge = Bridge(stdin: bool, stdout: bool, child: bool, requests: nat, errors: nat)

  const SPAWNED := Bridge(true, true, true, 0, 0)

  class PythonBandBridge {
    var stdin: bool
    var stdout: bool
    var child: bool
    var requests: nat
    var errors: nat

    function Now(): Bridge
      reads this
    {
      Bridge(stdin, stdout, child, requests, errors)
    }

    constructor ()
      ensures Now() == SPAWNED
    {
      stdin, stdout, child, requests, errors := true, true, true, 0, 0;
    }

    method RecordOutcome(ok: bool)
      modifies this`requests, this`errors
      ensures requests == old(requests) + 1 && errors == old(errors) + if ok then 0 else 1
    {
      requests := requests + 1;
      if !ok {
        errors := errors + 1;
      }
    }

    /** `send_request_with_timeout`. A handle taken and not put back is closed. */
    method SendRequest(event: Event) returns (r: Answer)
      modifies this
      ensures Now() == AfterSend(old(Now()), event) && r == AnswerTo(old(Now()), event)
    {
      if !stdin {
        return ShutDown;
      }
      stdin := false;
      if !stdout {
        return ShutDown;
      }
      stdout := false;
      if event.EncodeError? || event.WriteError? || event.FlushError? {
        stdin := true;
        stdout := true;
        RecordOutcome(false);
        return Transport(event);
      }
      stdin := true;
      if event.StdoutClosed? || event.Timeout? || event.ReaderPanic? {
        RecordOutcome(false);
        return Transport(event);
      }
      stdout := true;
      if event.Reply? {
        RecordOutcome(true);
        return Value(event.value);
      }
      RecordOutcome(false);
      return Transport(event);
    }

    method Shutdown()
      modifies this
      ensures Now() == AfterShutdown(old(Now()))
    {
      stdin := false;
      stdout := false;
      child := false;
    }
  }

  /** Both handles are there: the next request will reach the child. */
  predicate Alive(b: Bridge) {
    b.stdin && b.stdout
  }

  /** The paths on which the reader thread keeps the stdout handle. */
  predicate LosesStdout(e: Event) {
    e.StdoutClosed? || e.Timeout? || e.ReaderPanic?
  }

  function AfterSend(b: Bridge, e: Event): Bridge {
    if Alive(b) then
      b.(stdout := !LosesStdout(e), requests := b.requests + 1, errors := b.errors + if e.Reply? then 0 else 1)
    else b.(stdin := false)
  }

  function AnswerTo(b: Bridge, e: Event): Answer {
    if !Alive(b) then ShutDown else if e.Reply? then Value(e.value) else Transport(e)
  }

  function AfterShutdown(b: Bridge): Bridge {
    b.(stdin := false, stdout := false, child := false)
  }

  // ---- Whole histories of one bridge ----

  datatype Op = Send(event: Event) | Shutdown

  function Apply(b: Bridge, op: Op): Bridge {
    match op
    case Send(e) => AfterSend(b, e)
    case Shutdown => AfterShutdown(b)
  }

  function Run(b: Bridge, ops: seq<Op>): Bridge
    decreases ops
  {
    if ops == [] then b else Run(Apply(b, ops[0]), ops[1..])
  }

  /** The operations after which no request reaches the child any more. */
  predicate Fatal(op: Op) {
    op.Shutdown? || LosesStdout(op.event)
  }

  /** How many operations come before the first fatal one. */
  function FirstFatal(ops: seq<Op>): (n: nat)
    ensures n <= |ops| && (n < |ops| ==> Fatal(ops[n]))
    ensures forall i :: 0 <= i < n ==> !Fatal(ops[i])
  {
    if ops == [] || Fatal(ops[0]) then 0 else 1 + FirstFatal(ops[1..])
  }

  /** A bridge without one of its handles never serves a request again, and never counts one. */
  lemma {:induction false} DeadForever(b: Bridge, ops: seq<Op>)
    requires !Alive(b)
    ensures !Alive(Run(b, ops)) && Run(b, ops).requests == b.requests && Run(b, ops).errors == b.errors
    decreases ops
  {
    if ops != [] {
      DeadForever(Apply(b, ops[0]), ops[1..]);
    }
  }

  lemma {:induction false} RunSplit(b: Bridge, ops: seq<Op>, i: nat)
    requires i <= |ops|
    ensures Run(b, ops) == Run(Run(b, ops[..i]), ops[i..])
    decreases ops
  {
    if i == 0 {
      assert ops[0..] == ops;
    } else {
      RunSplit(Apply(b, ops[0]), ops[1..], i - 1);
      assert ops[..i][1..] == ops[1..][..i - 1] && ops[1..][i - 1..] == ops[i..];
    }
  }

  lemma {:induction false} AliveUntilFatal(b: Bridge, ops: seq<Op>)
    requires Alive(b) && forall i :: 0 <= i < |ops| ==> !Fatal(ops[i])
    ensures Alive(Run(b, ops)) && Run(b, ops).requests == b.requests + |ops|
    decreases ops
  {
    if ops != [] {
      AliveUntilFatal(Apply(b, ops[0]), ops[1..]);
    }
  }

  /** In any history, the requests that reach the child are exactly those up to and
      including the first one that loses its read: one timeout ends the bridge. */
  lemma ServedRequests(ops: seq<Op>, i: nat)
    requires i < |ops|
    ensures Alive(Run(SPAWNED, ops[..i])) <==> i <= FirstFatal(ops)
  {
    var k := FirstFatal(ops);
    if i <= k {
      AliveUntilFatal(SPAWNED, ops[..i]);
    } else {
      AliveUntilFatal(SPAWNED, ops[..k]);
      RunSplit(SPAWNED, ops[..i], k);
      assert ops[..i][..k] == ops[..k];
      var b := Run(SPAWNED, ops[..k]);
      assert ops[..i][k..][0] == ops[k];
      DeadForever(Apply(b, ops[k]), ops[..i][k..][1..]);
    }
  }

  function Sends(ops: seq<Op>): nat {
    if ops == [] then 0 else Sends(ops[1..]) + if ops[0].Send? then 1 else 0
  }

  /** The request counter stops at the first fatal operation. */
  lemma RequestsCounted(ops: seq<Op>)
    ensures var k := FirstFatal(ops);
            Run(SPAWNED, ops).requests == k + if k < |ops| && ops[k].Send? then 1 else 0
  {
    var k := FirstFatal(ops);
    AliveUntilFatal(SPAWNED, ops[..k]);
    RunSplit(SPAWNED, ops, k);
    if k < |ops| {
      DeadForever(Apply(Run(SPAWNED, ops[..k]), ops[k]), ops[k..][1..]);
    }
  }

  /** What is left of a history after its first fatal operation. */
  function Afterlife(ops: seq<Op>): seq<Op> {
    var k := FirstFatal(ops);
    if k < |ops| then ops[k + 1..] else []
  }

  /** So it is the number of `send_request` calls, as documented, if and only if no call
      comes after the first fatal operation. */
  lemma RequestsAreAllSends(ops: seq<Op>)
    ensures Run(SPAWNED, ops).requests == Sends(ops) <==> forall op :: op in Afterlife(ops) ==> op.Shutdown?
  {
    RequestsCounted(ops);
    var k := FirstFatal(ops);
    SendsSplit(ops, k);
    SendsAll(ops[..k]);
    SendsNone(Afterlife(ops));
    if k < |ops| {
      assert ops[k..][0] == ops[k] && ops[k..][1..] == Afterlife(ops);
    }
  }

  /** One timeout and one more call: two calls, one counted. */
  lemma SecondCallUncounted(e: Event)
    ensures var ops := [Send(Timeout), Send(e)];
            Run(SPAWNED, ops).requests == 1 && Sends(ops) == 2
  {
    var ops := [Send(Timeout), Send(e)];
    assert Fatal(ops[0]);
    RequestsCounted(ops);
    var rest := ops[1..];
    assert rest == [Send(e)] && rest[1..] == [];
    assert Sends(rest) == 1;
  }

  lemma {:induction false} SendsSplit(ops: seq<Op>, i: nat)
    requires i <= |ops|
    ensures Sends(ops) == Sends(ops[..i]) + Sends(ops[i..])
  {
    if i == 0 {
      assert ops[0..] == ops;
    } else {
      SendsSplit(ops[1..], i - 1);
      assert ops[..i][1..] == ops[1..][..i - 1] && ops[1..][i - 1..] == ops[i..];
    }
  }

  lemma {:induction false} SendsAll(ops: seq<Op>)
    requires forall i :: 0 <= i < |ops| ==> !Fatal(ops[i])
    ensures Sends(ops) == |ops|
  {
    if ops != [] {
      SendsAll(ops[1..]);
    }
  }

  lemma {:induction false} SendsNone(ops: seq<Op>)
    ensures Sends(ops) == 0 <==> forall op :: op in ops ==> op.Shutdown?
  {
    if ops != [] {
      SendsNone(ops[1..]);
      assert ops[0] in ops && forall op :: op in ops <==> op == ops[0] || op in ops[1..];
    }
  }

  /** After a lost read, the next call closes stdin as well, though it only reports that
      the bridge is shut down; the child is not reaped until `shutdown`. */
  lemma NextCallClosesStdin(b: Bridge, lost: Event, e: Event)
    requires Alive(b) && LosesStdout(lost)
    ensures var b' := AfterSend(b, lost);
            b'.stdin && !b'.stdout && AnswerTo(b', e) == ShutDown
            && !AfterSend(b', e).stdin && AfterSend(b', e).child == b.child
  {
  }

  /** What ends a bridge: a shutdown, or a reply that was not read to its end. */
  lemma FatalExactly(op: Op)
    ensures Fatal(op) <==> op in {Shutdown, Send(StdoutClosed), Send(Timeout), Send(ReaderPanic)}
  {
  }

  /** What each call of a history is answered: the reply, or the error, up to the first
      fatal operation, and that the bridge is shut down after it. */
  lemma AnswersExactly(ops: seq<Op>, i: nat)
    requires i < |ops| && ops[i].Send?
    ensures var e := ops[i].event;
            AnswerTo(Run(SPAWNED, ops[..i]), e) ==
            if i > FirstFatal(ops) then ShutDown else if e.Reply? then Value(e.value) else Transport(e)
  {
    ServedRequests(ops, i);
  }

  function Failures(ops: seq<Op>): nat {
    if ops == [] then 0
    else Failures(ops[..|ops| - 1]) + if ops[|ops| - 1].Send? && !ops[|ops| - 1].event.Reply? then 1 else 0
  }

  lemma RunNext(b: Bridge, ops: seq<Op>)
    requires ops != []
    ensures Run(b, ops) == Apply(Run(b, ops[..|ops| - 1]), ops[|ops| - 1])
  {
    RunSplit(b, ops, |ops| - 1);
    var last := ops[|ops| - 1..];
    assert last == [ops[|ops| - 1]] && last[1..] == [];
  }

  /** The error counter is the number of calls that reached the child and failed. */
  lemma {:induction false} ErrorsCounted(ops: seq<Op>)
    ensures var k := FirstFatal(ops);
            Run(SPAWNED, ops).errors == Failures(if k < |ops| then ops[..k + 1] else ops)
  {
    if ops != [] {
      var n, front := |ops| - 1, ops[..|ops| - 1];
      ErrorsCounted(front);
      RunNext(SPAWNED, ops);
      ServedRequests(ops, n);
      var k := FirstFatal(ops);
      FirstFatalOf(ops, n);
      if k >= n {
        assert (if k < |ops| then ops[..k + 1] else ops) == ops;
      } else {
        assert front[..k + 1] == ops[..k + 1];
      }
    }
  }

  /** Dropping the last operation moves the first fatal one only if it was that. */
  lemma FirstFatalOf(ops: seq<Op>, n: nat)
    requires |ops| == n + 1
    ensures FirstFatal(ops[..n]) == if FirstFatal(ops) < n then FirstFatal(ops) else n
  {
    var front := ops[..n];
    assert forall i :: 0 <= i < n ==> front[i] == ops[i];
  }

  /** Which handles are left after any history: the child until a shutdown, stdout until the
      first fatal operation, and stdin until a shutdown or the first operation after that. */
  lemma {:induction false} HandlesExactly(ops: seq<Op>)
    ensures var b := Run(SPAWNED, ops);
            && (b.child <==> Shutdown !in ops)
            && (b.stdout <==> FirstFatal(ops) == |ops|)
            && (b.stdin <==> Shutdown !in ops && FirstFatal(ops) + 1 >= |ops|)
  {
    if ops != [] {
      var n, front := |ops| - 1, ops[..|ops| - 1];
      HandlesExactly(front);
      RunNext(SPAWNED, ops);
      FirstFatalOf(ops, n);
      assert ops == front + [ops[n]];
    }
  }
}
