/**
 The write-only device pa2_in: `open` allocates a new queue and zeroes the
 byte counter, `write` appends one node, `close` only gives the device up.
 */
module Inbound {
  import opened DeviceState

  /**
   open: refuses while `device_open` is nonzero; otherwise points `q` at a
   newly allocated queue (its links not yet set), zeroes the counter and
   marks the device open.
   */
  function Open(s: Driver): (r: Step)
    ensures s.inOpen != 0 ==> r.ret == -EBUSY && r.next == s
    ensures s.inOpen == 0 ==> r.ret == Success
    ensures s.inOpen == 0 ==> r.next.inOpen == 1 && r.next.outOpen == s.outOpen
    ensures s.inOpen == 0 ==> r.next.q == Fresh && r.next.all == 0
  {
    if s.inOpen != 0 then
      Step(s, -EBUSY)
    else
      Step(s.(q := Fresh, all := 0, inOpen := s.inOpen + 1), Success)
  }

  /**
   close: decrements `device_open` and nothing else; the queue and the
   counter stay as they are for pa2_out to read.
   */
  function Close(s: Driver): (r: Step)
    ensures r.ret == Success
    ensures r.next.inOpen == s.inOpen - 1
    ensures r.next.outOpen == s.outOpen && r.next.q == s.q && r.next.all == s.all
  {
    Step(s.(inOpen := s.inOpen - 1), Success)
  }

  /**
   When `write` has defined behaviour. The kernel never passes more than
   MAX_RW_COUNT bytes. The list links are read only when the counter is
   strictly between 0 and BUF_LEN, so a freshly allocated queue is usable
   only when the counter makes `write` reset them first; a freed one never.
   A counter above BUF_LEN + 1 makes `remaining_bytes + 1` negative: the
   allocation of the node's message buffer then fails and the copy writes
   through a null pointer.
   */
  predicate WriteDefined(s: Driver, data: seq<byte>)
  {
    && |data| <= MaxRwCount
    && 0 <= s.all <= BufLen + 1
    && (s.q.Live? || (s.q.Fresh? && (s.all == 0 || s.all >= BufLen)))
  }

  /**
   write: computes `remaining_bytes` with -1 meaning "not truncated", empties
   the list when the counter is 0 or at least BUF_LEN, stores the (possibly
   truncated) payload in a new bottom node whose size counts a terminator,
   adds that size to the counter, and returns the requested length.
   */
  function Write(s: Driver, data: seq<byte>): (r: Step)
    requires WriteDefined(s, data)
    ensures r.ret == |data|
    ensures r.next.inOpen == s.inOpen && r.next.outOpen == s.outOpen
    ensures r.next.q.Live? && |r.next.q.msgs| > 0
    // room for the whole payload: it is stored in full
    ensures |data| + s.all <= BufLen ==>
              r.next.q.msgs[|r.next.q.msgs| - 1] == Msg(data, |data| + 1)
              && r.next.all == s.all + |data| + 1
    // no room: only the first BUF_LEN - all bytes are kept
    ensures |data| + s.all > BufLen && s.all <= BufLen ==>
              r.next.q.msgs[|r.next.q.msgs| - 1] == Msg(data[..BufLen - s.all], BufLen - s.all + 1)
              && r.next.all == s.all + (BufLen - s.all) + 1
    // a counter of BUF_LEN + 1 makes BUF_LEN - all equal the sentinel: nothing is dropped
    ensures s.all == BufLen + 1 ==>
              r.next.q.msgs[|r.next.q.msgs| - 1] == Msg(data, |data| + 1)
              && r.next.all == s.all + |data| + 1
    // an empty or full counter first discards the list; a full one is not reset
    ensures s.all == 0 || s.all >= BufLen ==> |r.next.q.msgs| == 1
    // otherwise the node is linked after the old bottom
    ensures 0 < s.all < BufLen ==> r.next.q.msgs[..|r.next.q.msgs| - 1] == s.q.msgs
  {
    var len := |data|;
    var remaining := if len + s.all > BufLen then BufLen - s.all else -1;
    var kept := if s.all == 0 || s.all >= BufLen then [] else s.q.msgs;
    var node := if remaining == -1 then Msg(data, len + 1) else Msg(data[..remaining], remaining + 1);
    Step(s.(q := Live(kept + [node]), all := s.all + node.size), len)
  }
}
