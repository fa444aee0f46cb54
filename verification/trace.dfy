/**
 Sequences of entry-point calls as the kernel issues them, each call taken
 as atomic, and the invariant every state they reach satisfies.
 */
module Trace {
  import opened DeviceState
  import Inbound
  import Outbound

  datatype Option<T> = None | Some(value: T)

  /** One call into either driver. */
  datatype Op =
    | InOpen
    | InClose
    | InWrite(data: seq<byte>)
    | OutOpen
    | OutClose
    | OutRead(copied: bool)

  /** The final state of a run and the buffers its successful reads delivered, in order. */
  datatype Outcome = Outcome(last: Driver, received: seq<seq<byte>>)

  /**
   The kernel calls close, write and read only on a file whose open
   succeeded, and the call itself must have defined behaviour.
   */
  predicate Defined(s: Driver, op: Op)
  {
    match op
    case InOpen => true
    case InClose => s.inOpen >= 1
    case InWrite(data) => s.inOpen >= 1 && Inbound.WriteDefined(s, data)
    case OutOpen => true
    case OutClose => s.outOpen >= 1 && Outbound.CloseDefined(s)
    case OutRead(_) => s.outOpen >= 1 && Outbound.ReadDefined(s)
  }

  /** The state after one call and the buffers it delivered (one for a successful read). */
  function Apply(s: Driver, op: Op): (Driver, seq<seq<byte>>)
    requires Defined(s, op)
  {
    match op
    case InOpen => (Inbound.Open(s).next, [])
    case InClose => (Inbound.Close(s).next, [])
    case InWrite(data) => (Inbound.Write(s, data).next, [])
    case OutOpen => (Outbound.Open(s).next, [])
    case OutClose => (Outbound.Close(s).next, [])
    case OutRead(copied) =>
      var r := Outbound.Read(s, copied);
      (r.next, if copied then [r.delivered] else [])
  }

  /** Runs the calls in order; None once a call would have undefined behaviour. */
  function Run(s: Driver, ops: seq<Op>): Option<Outcome>
    decreases |ops|
  {
    if ops == [] then
      Some(Outcome(s, []))
    else if !Defined(s, ops[0]) then
      None
    else
      var (t, got) := Apply(s, ops[0]);
      Prefix(got, Run(t, ops[1..]))
  }

  /** Puts the buffers `got` in front of those a later run received. */
  function Prefix(got: seq<seq<byte>>, o: Option<Outcome>): Option<Outcome>
  {
    match o
    case None => None
    case Some(a) => Some(Outcome(a.last, got + a.received))
  }

  /** Running `[op] + rest` is one call followed by the rest. */
  lemma RunCons(s: Driver, op: Op, rest: seq<Op>)
    requires Defined(s, op)
    ensures Run(s, [op] + rest) == Prefix(Apply(s, op).1, Run(Apply(s, op).0, rest))
  {
    assert ([op] + rest)[0] == op && ([op] + rest)[1..] == rest;
  }

  /** Runs `ops` after the outcome `o` of earlier calls. */
  function Then(o: Option<Outcome>, ops: seq<Op>): Option<Outcome>
  {
    match o
    case None => None
    case Some(a) =>
      match Run(a.last, ops)
      case None => None
      case Some(b) => Some(Outcome(b.last, a.received + b.received))
  }

  /**
   An upper bound on the byte counter: a sentinel-colliding write of
   MAX_RW_COUNT bytes at BUF_LEN + 1. In the kernel such a write already
   fails its allocation, so the bound is not reached.
   */
  const MaxCounter: int := BufLen + 2 + MaxRwCount

  /**
   What holds in every reachable state. Each device is open at most once;
   the counter is never negative; a freshly allocated queue comes with a
   zero counter. The counter either equals the sizes of the listed nodes or,
   once a write at a full counter has wiped the list without resetting it,
   exceeds them by at least BUF_LEN.
   */
  predicate Valid(s: Driver)
  {
    && 0 <= s.inOpen <= 1
    && 0 <= s.outOpen <= 1
    && 0 <= s.all <= MaxCounter
    && (s.q.Fresh? ==> s.all == 0)
    && (s.q.Live? ==> WellSized(s.q.msgs) && Counted(s.q.msgs, s.all))
  }

  /** The counter `all` accounts for the listed nodes exactly, or overshoots them by at least BUF_LEN. */
  predicate Counted(msgs: seq<Msg>, all: int)
  {
    all == Sum(msgs) || all >= Sum(msgs) + BufLen
  }

  lemma WriteKeepsValid(s: Driver, data: seq<byte>)
    requires Valid(s) && Inbound.WriteDefined(s, data)
    ensures Valid(Inbound.Write(s, data).next)
  {
    var t := Inbound.Write(s, data).next;
    var m := t.q.msgs;
    var kept := m[..|m| - 1];
    var node := m[|m| - 1];
    assert m == kept + [node];
    assert node.size == |node.payload| + 1;
    if s.all == 0 || s.all >= BufLen {
      assert kept == [];
    } else {
      assert kept == s.q.msgs;
    }
    Snoc(kept, node);
  }

  lemma ReadKeepsValid(s: Driver, copied: bool)
    requires Valid(s) && Outbound.ReadDefined(s)
    ensures Valid(Outbound.Read(s, copied).next)
  {
    var m := s.q.msgs;
    assert WellSized(m[1..]) by {
      forall i | 0 <= i < |m[1..]|
        ensures m[1..][i].size == |m[1..][i].payload| + 1
      {
        assert m[1..][i] == m[i + 1];
      }
    }
    SumWellSized(m[1..]);
  }

  /** Every call the kernel can issue keeps the invariant. */
  lemma ApplyKeepsValid(s: Driver, op: Op)
    requires Valid(s) && Defined(s, op)
    ensures Valid(Apply(s, op).0)
  {
    match op
    case InWrite(data) => WriteKeepsValid(s, data);
    case OutRead(copied) => ReadKeepsValid(s, copied);
    case _ =>
  }

  lemma {:induction false} RunKeepsValid(s: Driver, ops: seq<Op>)
    requires Valid(s)
    ensures Run(s, ops).Some? ==> Valid(Run(s, ops).value.last)
    decreases |ops|
  {
    if ops != [] && Defined(s, ops[0]) {
      ApplyKeepsValid(s, ops[0]);
      RunKeepsValid(Apply(s, ops[0]).0, ops[1..]);
    }
  }

  /**
   From the installed modules on, no counter leaves the range of a C `int`,
   and the byte counter is never negative.
   */
  lemma ReachableStatesAreValid(ops: seq<Op>)
    ensures Run(Init, ops).Some? ==> Valid(Run(Init, ops).value.last)
    ensures Run(Init, ops).Some? ==> 0 <= Run(Init, ops).value.last.all <= IntMax
  {
    RunKeepsValid(Init, ops);
  }

  lemma {:induction false} RunAppend(s: Driver, a: seq<Op>, b: seq<Op>)
    ensures Run(s, a + b) == Then(Run(s, a), b)
    decreases |a|
  {
    if a == [] {
      assert a + b == b;
      match Run(s, b)
      case None =>
      case Some(p) => assert [] + p.received == p.received;
    } else {
      assert (a + b)[0] == a[0];
      assert (a + b)[1..] == a[1..] + b;
      if Defined(s, a[0]) {
        var (t, got) := Apply(s, a[0]);
        RunAppend(t, a[1..], b);
        match Run(t, a[1..])
        case None =>
        case Some(o) =>
          match Run(o.last, b)
          case None =>
          case Some(p) =>
            assert got + o.received + p.received == got + (o.received + p.received);
      }
    }
  }

  /** Earlier calls that delivered nothing leave a later run's outcome as it is. */
  lemma ThenNothing(t: Driver, ops: seq<Op>)
    ensures Then(Some(Outcome(t, [])), ops) == Run(t, ops)
  {
    match Run(t, ops)
    case None =>
    case Some(b) => assert [] + b.received == b.received;
  }

  /**
   Until pa2_in is opened, `q` stays NULL, so pa2_out refuses to open with
   -ESRCH whenever it is not already open.
   */
  lemma {:induction false} NoQueueUntilInboundOpen(s: Driver, ops: seq<Op>)
    requires s.q.Absent?
    requires forall i :: 0 <= i < |ops| ==> !ops[i].InOpen?
    ensures Run(s, ops).Some? ==> Run(s, ops).value.last.q.Absent?
    ensures Run(s, ops).Some? && Run(s, ops).value.last.outOpen == 0 ==>
              Outbound.Open(Run(s, ops).value.last).ret == -ESRCH
    decreases |ops|
  {
    if ops != [] && Defined(s, ops[0]) {
      NoQueueUntilInboundOpen(Apply(s, ops[0]).0, ops[1..]);
    }
  }

  /**
   A payload that fills the buffer leaves the counter at BUF_LEN + 1; the
   next write then sees `remaining_bytes == -1`, stores its payload in full
   over the discarded list, and pushes the counter past BUF_LEN, beyond the
   sizes actually listed.
   */
  lemma CounterPassesCapacity(w: seq<byte>, v: seq<byte>)
    requires |w| == BufLen && |v| <= MaxRwCount
    ensures Run(Init, [InOpen, InWrite(w), InWrite(v)]) ==
              Some(Outcome(Driver(1, 0, Live([Node(v)]), BufLen + 2 + |v|), []))
  {
    var s1 := Inbound.Open(Init).next;
    var s2 := Inbound.Write(s1, w).next;
    assert s2 == Driver(1, 0, Live([Node(w)]), BufLen + 1);
    var s3 := Inbound.Write(s2, v).next;
    assert s3 == Driver(1, 0, Live([Node(v)]), BufLen + 2 + |v|);
    var none: seq<seq<byte>> := [];
    assert none + none == none;
    assert [InOpen, InWrite(w), InWrite(v)] == [InOpen] + [InWrite(w), InWrite(v)];
    assert [InWrite(w), InWrite(v)] == [InWrite(w)] + [InWrite(v)];
    assert [InWrite(v)] == [InWrite(v)] + [];
    RunCons(s2, InWrite(v), []);
    RunCons(s1, InWrite(w), [InWrite(v)]);
    RunCons(Init, InOpen, [InWrite(w), InWrite(v)]);
  }

  /**
   The undefined write is reachable from installation: once the sentinel
   collision has pushed the counter past BUF_LEN + 1, any further write asks
   for a negative-sized message buffer and copies through the null pointer.
   */
  lemma CrashReachable(w: seq<byte>, v: seq<byte>, x: seq<byte>)
    requires |w| == BufLen
    ensures Run(Init, [InOpen, InWrite(w), InWrite(v), InWrite(x)]).None?
  {
    var s1 := Inbound.Open(Init).next;
    var s2 := Inbound.Write(s1, w).next;
    assert s2.all == BufLen + 1;
    assert [InOpen, InWrite(w), InWrite(v), InWrite(x)] == [InOpen] + [InWrite(w), InWrite(v), InWrite(x)];
    assert [InWrite(w), InWrite(v), InWrite(x)] == [InWrite(w)] + [InWrite(v), InWrite(x)];
    RunCons(Init, InOpen, [InWrite(w), InWrite(v), InWrite(x)]);
    RunCons(s1, InWrite(w), [InWrite(v), InWrite(x)]);
    if Defined(s2, InWrite(v)) {
      var s3 := Inbound.Write(s2, v).next;
      assert s3.all == BufLen + 2 + |v|;
      assert [InWrite(v), InWrite(x)] == [InWrite(v)] + [InWrite(x)];
      RunCons(s2, InWrite(v), [InWrite(x)]);
      assert !Defined(s3, InWrite(x));
    }
  }

  /**
   Payloads that together fill BUF_LEN exactly do not all fit, because each
   stored node also counts a terminator: the second write is truncated by
   one byte, and its node records the dropped byte's place as its terminator.
   (With a one-byte second payload the first write already reaches BUF_LEN
   and the second wipes the list instead.)
   */
  lemma PayloadBoundTruncates(a: seq<byte>, b: seq<byte>)
    requires |a| + |b| == BufLen && |b| >= 2
    ensures Run(Init, [InOpen, InWrite(a), InWrite(b)]) ==
              Some(Outcome(Driver(1, 0, Live([Node(a), Msg(b[..|b| - 1], |b|)]), BufLen + 1), []))
  {
    var s1 := Inbound.Open(Init).next;
    var s2 := Inbound.Write(s1, a).next;
    assert s2 == Driver(1, 0, Live([Node(a)]), |a| + 1);
    var s3 := Inbound.Write(s2, b).next;
    var m := s3.q.msgs;
    assert m == m[..|m| - 1] + [m[|m| - 1]];
    assert s3 == Driver(1, 0, Live([Node(a), Msg(b[..|b| - 1], |b|)]), BufLen + 1);
    var none: seq<seq<byte>> := [];
    assert none + none == none;
    assert [InOpen, InWrite(a), InWrite(b)] == [InOpen] + [InWrite(a), InWrite(b)];
    assert [InWrite(a), InWrite(b)] == [InWrite(a)] + [InWrite(b)];
    assert [InWrite(b)] == [InWrite(b)] + [];
    RunCons(s2, InWrite(b), []);
    RunCons(s1, InWrite(a), [InWrite(b)]);
    RunCons(Init, InOpen, [InWrite(a), InWrite(b)]);
  }

  /**
   A write at a counter of BUF_LEN or more discards the list but keeps the
   counter: afterwards the counter exceeds the listed sizes by exactly its
   old value.
   */
  lemma FullWipeKeepsCounter(s: Driver, data: seq<byte>)
    requires Valid(s) && Inbound.WriteDefined(s, data) && s.all >= BufLen
    ensures var t := Inbound.Write(s, data).next;
            Contents(t.q) == [t.q.msgs[0]] && t.all - Sum(t.q.msgs) == s.all
  {
    var t := Inbound.Write(s, data).next;
    assert t.q.msgs == [t.q.msgs[0]];
    assert Sum(t.q.msgs) == t.q.msgs[0].size + Sum([]);
  }
}
