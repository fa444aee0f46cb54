/**
 The read-only device pa2_out: `open` needs pa2_in to have allocated the
 queue, `read` hands out the top node, `close` frees the queue.
 */
module Outbound {
  import opened DeviceState

  /**
   open: refuses while `device_open` is nonzero, refuses while `q` is NULL,
   and otherwise marks the device open. Only the pointer is compared, so a
   queue pa2_out has already freed still lets it open.
   */
  function Open(s: Driver): (r: Step)
    ensures s.outOpen != 0 ==> r.ret == -EBUSY && r.next == s
    ensures s.outOpen == 0 && s.q.Absent? ==> r.ret == -ESRCH && r.next == s
    ensures s.outOpen == 0 && !s.q.Absent? ==> r.ret == Success && r.next == s.(outOpen := 1)
  {
    if s.outOpen != 0 then
      Step(s, -EBUSY)
    else if s.q == Absent then
      Step(s, -ESRCH)
    else
      Step(s.(outOpen := s.outOpen + 1), Success)
  }

  /** `close` frees `q` a second time when it is already freed. */
  predicate CloseDefined(s: Driver)
  {
    !s.q.Freed?
  }

  /**
   close: decrements `device_open` and frees the queue; `q` keeps pointing
   at the freed memory (freeing NULL does nothing).
   */
  function Close(s: Driver): (r: Step)
    requires CloseDefined(s)
    ensures r.ret == Success
    ensures r.next.outOpen == s.outOpen - 1
    ensures r.next.inOpen == s.inOpen && r.next.all == s.all
    ensures s.q.Absent? ==> r.next.q.Absent?
    ensures !s.q.Absent? ==> r.next.q.Freed?
  {
    var q := if s.q.Absent? then Absent else Freed;
    Step(s.(q := q, outOpen := s.outOpen - 1), Success)
  }

  /** `read` follows `q->top` before it checks it, so the list must be there and hold a node. */
  predicate ReadDefined(s: Driver)
  {
    s.q.Live? && |s.q.msgs| > 0
  }

  /**
   read: copies the top node's `msg_size` bytes to the user buffer; `copied`
   says whether `copy_to_user` left nothing uncopied. Only then is the top
   node unlinked and its size taken off the counter.
   */
  function Read(s: Driver, copied: bool): (r: ReadStep)
    requires ReadDefined(s)
    ensures r.next.inOpen == s.inOpen && r.next.outOpen == s.outOpen
    ensures copied ==> r.ret == Success && r.delivered == Wire(s.q.msgs[0])
    ensures copied ==> r.next.q == Live(s.q.msgs[1..])
    ensures copied ==> r.next.all == s.all - s.q.msgs[0].size
    ensures copied ==> (r.next.q.msgs == [] <==> |s.q.msgs| == 1)
    ensures !copied ==> r.ret == -EFAULT && r.next == s && r.delivered == []
  {
    var top := s.q.msgs[0];
    if copied then
      ReadStep(s.(q := Live(s.q.msgs[1..]), all := s.all - top.size), Success, top.payload + [0])
    else
      ReadStep(s, -EFAULT, [])
  }
}
