/**
 The queue delivers what pa2_in accepted, in order and byte for byte, as
 long as no write reaches the truncation branch or the full-queue wipe
 (pa2_in.c:211-215). The reset at a zero counter, which the first write of
 every session takes, is covered.
 */
module Fifo {
  import opened DeviceState
  import opened Trace
  import Inbound
  import Outbound

  /** One write call per payload. */
  function Writes(ws: seq<seq<byte>>): seq<Op>
  {
    if ws == [] then [] else [InWrite(ws[0])] + Writes(ws[1..])
  }

  /** `n` reads whose copies all succeed. */
  function Reads(n: nat): seq<Op>
  {
    if n == 0 then [] else [OutRead(true)] + Reads(n - 1)
  }

  /** A writer session on pa2_in: open, one write per payload, close. */
  function Writer(ws: seq<seq<byte>>): seq<Op>
  {
    [InOpen] + Writes(ws) + [InClose]
  }

  /** A reader session on pa2_out: open, `n` reads, close. */
  function Reader(n: nat): seq<Op>
  {
    [OutOpen] + Reads(n) + [OutClose]
  }

  /** The nodes untruncated writes of `ws` store. */
  function Nodes(ws: seq<seq<byte>>): seq<Msg>
  {
    if ws == [] then [] else [Node(ws[0])] + Nodes(ws[1..])
  }

  /** The buffers reads of `msgs` deliver. */
  function Wires(msgs: seq<Msg>): seq<seq<byte>>
  {
    if msgs == [] then [] else [Wire(msgs[0])] + Wires(msgs[1..])
  }

  /** Bytes the payloads take up in the counter, one terminator each. */
  function Footprint(ws: seq<seq<byte>>): nat
  {
    if ws == [] then 0 else |ws[0]| + 1 + Footprint(ws[1..])
  }

  /** A queue whose counter equals the sizes it lists, as pa2_in's open leaves it. */
  predicate Exact(s: Driver)
  {
    && s.inOpen >= 1
    && 0 <= s.all
    && (s.q.Fresh? ==> s.all == 0)
    && (s.q.Live? ==> WellSized(s.q.msgs) && Sum(s.q.msgs) == s.all)
    && (s.q.Fresh? || s.q.Live?)
  }

  lemma {:induction false} NodesSum(ws: seq<seq<byte>>)
    ensures WellSized(Nodes(ws)) && Sum(Nodes(ws)) == Footprint(ws)
  {
    if ws != [] {
      NodesSum(ws[1..]);
      var n := Nodes(ws);
      assert n[1..] == Nodes(ws[1..]);
      assert WellSized(n) by {
        forall i | 0 <= i < |n|
          ensures n[i].size == |n[i].payload| + 1
        {
          if i > 0 {
            assert n[i] == n[1..][i - 1];
          }
        }
      }
    }
  }

  /** An untruncated write onto an exact queue appends its node and keeps the queue exact. */
  lemma WriteOne(s: Driver, w: seq<byte>)
    requires Exact(s) && s.all + |w| + 1 <= BufLen
    ensures Defined(s, InWrite(w))
    ensures Apply(s, InWrite(w)) == (s.(q := Live(Contents(s.q) + [Node(w)]), all := s.all + |w| + 1), [])
    ensures Exact(Apply(s, InWrite(w)).0)
  {
    if s.q.Live? {
      SumWellSized(s.q.msgs);
    }
    var t := Inbound.Write(s, w).next;
    var m := t.q.msgs;
    assert m == m[..|m| - 1] + [m[|m| - 1]];
    assert m == Contents(s.q) + [Node(w)];
    Snoc(Contents(s.q), Node(w));
  }

  /** The state untruncated writes of `ws` leave behind on an exact queue. */
  function Appended(s: Driver, ws: seq<seq<byte>>): Driver
  {
    if ws == [] then s else s.(q := Live(Contents(s.q) + Nodes(ws)), all := s.all + Footprint(ws))
  }

  /**
   Writes whose payloads and terminators fit beside the counter each take
   the untruncated branch and append one node: the queue afterwards is the
   old contents followed by one node per payload.
   */
  lemma {:induction false} WritesAppend(s: Driver, ws: seq<seq<byte>>)
    requires Exact(s) && s.all + Footprint(ws) <= BufLen
    ensures Run(s, Writes(ws)) == Some(Outcome(Appended(s, ws), []))
    decreases |ws|
  {
    if ws == [] {
      assert Writes(ws) == [];
    } else {
      var w := ws[0];
      WriteOne(s, w);
      var t := s.(q := Live(Contents(s.q) + [Node(w)]), all := s.all + |w| + 1);
      assert Writes(ws) == [InWrite(w)] + Writes(ws[1..]);
      RunCons(s, InWrite(w), Writes(ws[1..]));
      WritesAppend(t, ws[1..]);
      AppendedStep(s, ws);
      var none: seq<seq<byte>> := [];
      assert none + none == none;
    }
  }

  /** Appending the first payload, then the rest, is appending them all. */
  lemma AppendedStep(s: Driver, ws: seq<seq<byte>>)
    requires ws != []
    ensures Appended(s.(q := Live(Contents(s.q) + [Node(ws[0])]), all := s.all + |ws[0]| + 1), ws[1..]) == Appended(s, ws)
  {
    var w := ws[0];
    var rest := ws[1..];
    assert Nodes(ws) == [Node(w)] + Nodes(rest);
    assert Footprint(ws) == |w| + 1 + Footprint(rest);
    if rest == [] {
      assert Nodes(rest) == [] && Footprint(rest) == 0;
      assert Nodes(ws) == [Node(w)];
    } else {
      assert Contents(s.q) + [Node(w)] + Nodes(rest) == Contents(s.q) + Nodes(ws);
    }
  }

  /**
   Successful reads of the first `n` nodes deliver their terminated buffers
   in list order, leave the rest queued and take their sizes off the counter.
   */
  lemma {:induction false} ReadsPop(s: Driver, n: nat)
    requires s.outOpen >= 1 && s.q.Live? && n <= |s.q.msgs|
    ensures Run(s, Reads(n)) ==
              Some(Outcome(s.(q := Live(s.q.msgs[n..]), all := s.all - Sum(s.q.msgs[..n])), Wires(s.q.msgs[..n])))
    decreases n
  {
    var m := s.q.msgs;
    if n == 0 {
      assert m[0..] == m;
      assert m[..0] == [];
    } else {
      var t := Outbound.Read(s, true).next;
      RunCons(s, OutRead(true), Reads(n - 1));
      ReadsPop(t, n - 1);
      assert m[1..][n - 1..] == m[n..];
      assert m[..n][0] == m[0] && m[..n][1..] == m[1..][..n - 1];
    }
  }

  lemma {:induction false} NodesLength(ws: seq<seq<byte>>)
    ensures |Nodes(ws)| == |ws|
  {
    if ws != [] {
      NodesLength(ws[1..]);
    }
  }

  /**
   A writer session whose payloads and terminators fit in BUF_LEN leaves
   pa2_in closed with one node per payload and the counter at their sizes.
   */
  lemma WriterSession(s: Driver, ws: seq<seq<byte>>)
    requires s.inOpen == 0 && Footprint(ws) <= BufLen
    ensures Run(s, Writer(ws)) ==
              Some(Outcome(s.(q := if ws == [] then Fresh else Live(Nodes(ws)), all := Footprint(ws)), []))
  {
    var none: seq<seq<byte>> := [];
    assert none + none == none;
    var s1 := Inbound.Open(s).next;
    assert Writer(ws) == [InOpen] + (Writes(ws) + [InClose]);
    RunCons(s, InOpen, Writes(ws) + [InClose]);
    WritesAppend(s1, ws);
    var s2 := Appended(s1, ws);
    assert [] + Nodes(ws) == Nodes(ws);
    assert s2 == s1.(q := if ws == [] then Fresh else Live(Nodes(ws)), all := Footprint(ws));
    var s3 := s2.(inOpen := 0);
    assert Run(s2, [InClose]) == Some(Outcome(s3, [])) by {
      assert [InClose] == [InClose] + [];
      RunCons(s2, InClose, []);
    }
    RunAppend(s1, Writes(ws), [InClose]);
    ThenNothing(s2, [InClose]);
    assert Run(s1, Writes(ws) + [InClose]) == Some(Outcome(s3, []));
  }

  /**
   A reader session that reads every queued node with successful copies
   receives their buffers in list order, takes their sizes off the counter
   and leaves the queue freed.
   */
  lemma ReaderSession(t: Driver)
    requires t.outOpen == 0 && (t.q.Fresh? || t.q.Live?)
    ensures Run(t, Reader(|Contents(t.q)|)) ==
              Some(Outcome(t.(q := Freed, all := t.all - Sum(Contents(t.q))), Wires(Contents(t.q))))
  {
    var m := Contents(t.q);
    var n := |m|;
    var t1 := t.(outOpen := 1);
    RunCons(t, OutOpen, Reads(n) + [OutClose]);
    assert Reader(n) == [OutOpen] + (Reads(n) + [OutClose]);
    var t2 := t1.(q := Live(m[n..]), all := t.all - Sum(m[..n]));
    if t.q.Live? {
      ReadsPop(t1, n);
    } else {
      assert Run(t1, Reads(0)) == Some(Outcome(t1, []));
    }
    assert m[..n] == m;
    var got := Run(t1, Reads(n)).value.received;
    assert got == Wires(m);
    var t3 := Run(t1, Reads(n)).value.last;
    assert t3 == t.(outOpen := 1, q := t3.q, all := t.all - Sum(m)) && !t3.q.Freed?;
    var none: seq<seq<byte>> := [];
    assert none + none == none;
    RunAppend(t1, Reads(n), [OutClose]);
    RunCons(t3, OutClose, []);
    assert [OutClose] == [OutClose] + [];
    var done := t.(q := Freed, all := t.all - Sum(m));
    assert Run(t3, [OutClose]) == Some(Outcome(done, []));
    assert got + [] == got;
    assert Run(t1, Reads(n) + [OutClose]) == Some(Outcome(done, got));
    assert [] + got == got;
  }

  /**
   One writer session followed by one reader session, as a user program
   runs them: pa2_in is opened, the payloads are written, pa2_in is closed,
   pa2_out is opened, read once per payload with successful copies, and
   closed. When the payloads with their terminators fit in BUF_LEN, the
   reader gets every payload, NUL-terminated, in the order written; both
   devices end closed, the counter at zero and the queue freed.
   The bound is sufficient, not tight: a single payload of exactly BUF_LEN
   bytes is also stored whole, since its write compares `1024 + 0 > 1024`.
   A bound on the payload bytes alone is too weak
   (`Trace.PayloadBoundTruncates`).
   */
  lemma Lossless(s: Driver, ws: seq<seq<byte>>)
    requires s.inOpen == 0 && s.outOpen == 0 && Footprint(ws) <= BufLen
    ensures Run(s, Writer(ws) + Reader(|ws|)) == Some(Outcome(Driver(0, 0, Freed, 0), Wires(Nodes(ws))))
  {
    WriterSession(s, ws);
    var t := Run(s, Writer(ws)).value.last;
    NodesSum(ws);
    NodesLength(ws);
    assert |Contents(t.q)| == |ws|;
    ReaderSession(t);
    RunAppend(s, Writer(ws), Reader(|ws|));
    ThenNothing(t, Reader(|ws|));
  }
}
