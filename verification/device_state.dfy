/**
 The state the two character devices pa2_in and pa2_out share: the global
 queue pointer `q`, the byte counter `all_msg_size`, and the open counter
 `device_open` each driver keeps for itself.

 The message list that `q->top .. q->bottom` links together is modelled as a
 sequence in list order: `msgs[0]` is `top`, the last element is `bottom`,
 and an empty sequence stands for `top == bottom == NULL`.
 */
module DeviceState {

  /** One byte of a user buffer. */
  type byte = x: int | 0 <= x < 256

  /** BUF_LEN: the capacity the writer checks the byte counter against. */
  const BufLen: int := 1024

  /** SUCCESS, and the errno values the drivers negate and return. */
  const Success: int := 0
  const ESRCH: int := 3
  const EFAULT: int := 14
  const EBUSY: int := 16

  /** INT_MAX of the C `int` that holds counters and node sizes. */
  const IntMax: int := 0x7fff_ffff

  /**
   Largest byte count the kernel's VFS layer hands to a driver's write
   (MAX_RW_COUNT, that is INT_MAX rounded down to a 4 KiB page).
   */
  const MaxRwCount: int := 0x7fff_f000

  /** A list node: the bytes stored and its `msg_size` field, which counts a terminator. */
  datatype Msg = Msg(payload: seq<byte>, size: int)

  /** What the global pointer `q` designates. */
  datatype Queue =
    | Absent                // q == NULL: pa2_in has never been opened
    | Fresh                 // just allocated by pa2_in's open; top and bottom are uninitialised
    | Live(msgs: seq<Msg>)  // a queue whose links are initialised, top first
    | Freed                 // released by pa2_out's close; q still points at it

  /** The shared driver state. */
  datatype Driver = Driver(inOpen: int, outOpen: int, q: Queue, all: int)

  /** The state after both modules are installed: counters zero, q NULL. */
  const Init: Driver := Driver(0, 0, Absent, 0)

  /** The new state and the value an entry point returns. */
  datatype Step = Step(next: Driver, ret: int)

  /** The result of a read: new state, return value and the message a successful read hands over. */
  datatype ReadStep = ReadStep(next: Driver, ret: int, delivered: seq<byte>)

  /** The messages a queue holds; a queue whose list is not there holds none. */
  function Contents(q: Queue): seq<Msg>
  {
    if q.Live? then q.msgs else []
  }

  /** The `msg_size` fields of the listed nodes, added up. */
  function Sum(msgs: seq<Msg>): int
  {
    if msgs == [] then 0 else msgs[0].size + Sum(msgs[1..])
  }

  /** The node a write of `data` stores when nothing is dropped. */
  function Node(data: seq<byte>): Msg
  {
    Msg(data, |data| + 1)
  }

  /** The `msg_size` bytes of a node's NUL-terminated buffer, as copied to user space. */
  function Wire(m: Msg): seq<byte>
  {
    m.payload + [0]
  }

  /** Every node records its payload length plus one for the terminator. */
  predicate WellSized(msgs: seq<Msg>)
  {
    forall i :: 0 <= i < |msgs| ==> msgs[i].size == |msgs[i].payload| + 1
  }

  lemma {:induction false} SumAppend(a: seq<Msg>, b: seq<Msg>)
    ensures Sum(a + b) == Sum(a) + Sum(b)
  {
    if a == [] {
      assert a + b == b;
    } else {
      assert (a + b)[1..] == a[1..] + b;
      SumAppend(a[1..], b);
    }
  }

  /** Linking one more well-sized node at the bottom keeps the list well sized and adds its size. */
  lemma Snoc(msgs: seq<Msg>, m: Msg)
    requires WellSized(msgs) && m.size == |m.payload| + 1
    ensures WellSized(msgs + [m]) && Sum(msgs + [m]) == Sum(msgs) + m.size
  {
    SumAppend(msgs, [m]);
    assert Sum([m]) == m.size + Sum([]);
    var all := msgs + [m];
    forall i | 0 <= i < |all|
      ensures all[i].size == |all[i].payload| + 1
    {
      if i < |msgs| {
        assert all[i] == msgs[i];
      }
    }
  }

  /** Every well-sized node counts at least one byte, so the total is at least the node count. */
  lemma {:induction false} SumWellSized(msgs: seq<Msg>)
    requires WellSized(msgs)
    ensures Sum(msgs) >= |msgs|
    ensures Sum(msgs) == 0 <==> msgs == []
  {
    if msgs != [] {
      assert WellSized(msgs[1..]) by {
        forall i | 0 <= i < |msgs[1..]|
          ensures msgs[1..][i].size == |msgs[1..][i].payload| + 1
        {
          assert msgs[1..][i] == msgs[i + 1];
        }
      }
      SumWellSized(msgs[1..]);
    }
  }
}
