# pa2_in / pa2_out message queue

Two Linux character-device drivers share one message queue. `pa2_in` is
write-only: `open` allocates the queue and zeroes the byte counter
`all_msg_size`, and each `write` appends one node to the singly linked list
`q->top .. q->bottom`. `pa2_out` is read-only: `open` needs the queue to
exist, and `read` copies the top node to user space and unlinks it once the
copy succeeds. `close` on `pa2_out` frees the queue.

The model is functional. `DeviceState.Driver` holds:

- both drivers' `device_open` counters;
- what `q` points at: `Absent` (NULL), `Fresh` (just allocated, links
  uninitialised), `Live(msgs)` (the list, top first) or `Freed` (released
  by `pa2_out`'s close and still pointed at);
- the counter `all_msg_size`.

Each entry point is a pure function from a state to a new state and the
return value. `read` also returns the message a successful read hands over.
Whether `copy_to_user` copied everything is a boolean parameter.
Undefined behaviour in the C code is a precondition:

- `read` on a missing, uninitialised, freed or empty list;
- `write` on a freed queue;
- a second `kfree` of the queue.

`Trace` runs sequences of calls as the kernel issues them, each call
atomic. It proves an invariant that holds in every reachable state. `Fifo`
proves that a writer session followed by a reader session hands back every
payload in order.

The model follows the code's arithmetic wherever it differs from the
queue's intended design:

- Every stored node counts one byte more than its payload (the terminator
  `sprintf` writes). `read` copies those `msg_size` bytes, NUL included.
- A truncated write keeps `BUF_LEN - all_msg_size` bytes. It then leaves the
  counter at `BUF_LEN + 1`, not `BUF_LEN`.
- A write at a counter of `BUF_LEN` or more empties the list but does not
  reset the counter. After it, the counter is larger than the sizes still
  queued (`Trace.FullWipeKeepsCounter`).
- `remaining_bytes` uses -1 to mean "not truncated". A counter of
  `BUF_LEN + 1` gives `1024 - all == -1`, so that write stores its whole
  payload and pushes the counter far past `BUF_LEN`
  (`Trace.CounterPassesCapacity`).
- Two or more payloads whose lengths add up to `BUF_LEN` never all fit, because each node's terminator is counted too (`Trace.PayloadBoundTruncates`); a single payload of `BUF_LEN` bytes does.
- `write` returns the requested length even when it truncates. A
  successful `read` returns 0, not a byte count.
- `read` on an empty list dereferences NULL; it does not return 0 bytes.
- The queue is freed by `pa2_out`'s close, not `pa2_in`'s. `pa2_in`'s close
  only decrements its counter.
- `pa2_out`'s `open` compares `q` with NULL only, so it also succeeds on a
  freed queue.
- `write` is also undefined when the counter is above `BUF_LEN + 1`. There,
  `remaining_bytes + 1` is negative, the allocation of the node's message
  buffer fails, and `sprintf` writes through the null pointer. A user program reaches this with three writes (`Trace.CrashReachable`). Reading the node that pushed
  the counter up brings it back to `BUF_LEN + 1`.

## Model

| member | source | states |
|---|---|---|
| Inbound.Open | pa2_in.c:143-172 | while `device_open` is nonzero: returns -EBUSY and changes nothing; otherwise: returns 0, the counter goes from 0 to 1, `q` is a newly allocated queue with uninitialised links, `all_msg_size` is 0, pa2_out's state is kept |
| Inbound.Close | pa2_in.c:177-192 | returns 0 and decrements `device_open`; queue, counter and pa2_out's state are unchanged |
| Inbound.Write | pa2_in.c:197-258 | returns the requested length; the new node is the bottom of a live list. Payload fits (`len + all <= 1024`): node is the whole payload with size `len + 1`, counter grows by `len + 1`. Payload does not fit: node keeps the first `1024 - all` bytes with size `1024 - all + 1`, counter ends at 1025. At counter 1025: the sentinel collision stores the whole payload and adds `len + 1`. Counter 0 or >= 1024: the new node is the only one. Otherwise: the old nodes stay in order in front of it. The open counters are untouched |
| Outbound.Open | pa2_out.c:118-140 | while `device_open` is nonzero: -EBUSY, nothing changes; while `q` is NULL: -ESRCH, nothing changes; otherwise (also for a freed queue): returns 0 and the counter becomes 1 |
| Outbound.Close | pa2_out.c:145-157 | returns 0 and decrements `device_open`; a queue that exists becomes freed, a NULL `q` stays NULL; the byte counter and pa2_in's state are unchanged |
| Outbound.Read | pa2_out.c:162-196 | on a successful copy: returns 0, hands out the top node's payload plus its NUL, the successor becomes top, the list is empty exactly when it held one node, the counter drops by exactly that node's size; on a failed copy: -EFAULT, state unchanged, no message handed over (a partial copy is not recorded); open counters untouched |
| Trace.WriteKeepsValid | pa2_in.c:197-258 | a write keeps the reachable-state invariant: counter in 0..1026 + MAX_RW_COUNT, every node sized payload + 1, and the counter either equal to the listed sizes or at least BUF_LEN above them |
| Trace.ReadKeepsValid | pa2_out.c:173-187 | a read, successful or not, keeps the invariant: taking the top node's size off the counter keeps its gap to the listed sizes, so the counter never goes negative |
| Trace.ApplyKeepsValid | pa2_in.c:143-258 | every call the kernel can issue to either driver keeps the invariant: pa2_in's open, close and write here, and pa2_out's open, close and read (pa2_out.c:118-196) as well; this includes at most one open instance per device |
| Trace.RunKeepsValid | pa2_in.c:36-58 | any sequence of calls from a state satisfying the invariant ends in one satisfying it |
| Trace.ReachableStatesAreValid | pa2_in.c:31-58 | every state reached from installation satisfies the invariant; `all_msg_size` stays non-negative and within a C `int` |
| Trace.NoQueueUntilInboundOpen | pa2_out.c:128-132 | without an open of pa2_in, `q` stays NULL, so pa2_out's open fails with -ESRCH whenever pa2_out is not already open |
| Trace.CounterPassesCapacity | pa2_in.c:200-236 | open, write 1024 bytes, write `v`: the second write finds the counter at 1025, takes the untruncated path, leaves `v` alone in the list and the counter at `1026 + len(v)` |
| Trace.CrashReachable | pa2_in.c:200-234 | open, a 1024-byte write, then any two writes: the run reaches the undefined write. The second write leaves the counter above 1025, so the third asks for a negative-sized message buffer and `sprintf` writes through NULL |
| Trace.PayloadBoundTruncates | pa2_in.c:200-236 | after open, two payloads whose lengths add up to exactly 1024 (the second at least 2 bytes) are not both stored whole: the second loses its last byte, both nodes stay listed, and the counter ends at 1025 |
| Trace.FullWipeKeepsCounter | pa2_in.c:211-215 | a write at counter >= 1024 leaves one node, and the counter minus the listed sizes equals the old counter |
| Fifo.WriteOne | pa2_in.c:221-253 | a write with room on an exact queue (counter = listed sizes) appends the untruncated node after the old bottom and keeps the queue exact |
| Fifo.WritesAppend | pa2_in.c:243-253 | writes whose sizes fit next to the counter append one node per payload, in order, after the existing nodes; the counter grows by their total size |
| Fifo.ReadsPop | pa2_out.c:173-185 | `n` successful reads deliver the first `n` nodes' buffers in list order, leave the rest queued, and lower the counter by their sizes |
| Fifo.WriterSession | pa2_in.c:143-258 | open, writes that fit, close: pa2_in ends closed with one node per payload and the counter equal to their sizes |
| Fifo.ReaderSession | pa2_out.c:118-196 | open, one successful read per queued node, close: the reader gets every node's buffer in order and the queue ends freed |
| Fifo.Lossless | pa2_out.c:162-196 | a writer session on pa2_in (open, write and close, pa2_in.c:143-258) then a reader session on pa2_out: payloads whose sizes with terminators fit in 1024 come back NUL-terminated, complete and in write order; both devices end closed, the counter at 0, the queue freed |

## Left out

- `init_module` and `cleanup_module` in both files register and remove the devices with the kernel. This is OS plumbing with no queue logic.
- `printk` logging is left out.
- The mutex and wait queue (`mutex_trylock`, `wait_event_interruptible`, `mutex_unlock`, `wake_up`) are left out, because they are concurrency. pa2_in holds the mutex from open to close, and pa2_out never takes it. The model takes every call as atomic.
- `kmalloc` failures and memory leaks are not modelled. Of the message-buffer allocations that must fail, `Inbound.WriteDefined` excludes only the negative size above a counter of `BUF_LEN + 1`; the oversized one is the `Inbound.Write` line below. The leaks are:
  - the node `read` allocates and never uses;
  - the old queue a second pa2_in open abandons;
  - every node the wipes in `write` unlink;
  - the message buffer of every node `read` pops, since only the node is freed;
  - every node still listed when pa2_out's close frees the queue header.
- User-space copies are abstracted. `copy_to_user` is a success flag. `sprintf` reads the user pointer directly and stops at a NUL byte inside the payload. In the untruncated branch `"%s"` is not bounded by `len` either, so a user buffer with no NUL in its first `len` bytes overruns the `len + 1`-byte buffer, and `read` then hands out the user's byte `buffer[len]` where `Wire` has 0. The model stores the first `len` (or `remaining`) bytes followed by a terminator, as the evident intent.
- Outbound.Read: a failed copy may already have put a prefix of the top node's buffer into the user buffer. `copy_to_user` returns the number of bytes it did not copy. The model records only that the copy failed, and `delivered` is empty then.
- `read` ignores its `len` argument and the file offset. It always copies `msg_size` bytes, so a short user buffer is not modelled apart from the copy flag.
- The compile defects in pa2_out.c are not modelled: `extern static`, the missing semicolons, and `#include "pa2_in.c"`, which would also duplicate `device_open`, `open` and `close`. The model gives each driver its own open counter, as intended. It gives pa2_out no `write` entry point, even though the include makes its `.write` point at pa2_in's `write`.
- The open counters are unbounded integers. Their `int` wrap-around is not modelled. `Trace` lets `close`, `write` and `read` happen only on an open file, as the kernel does, and `Trace.ApplyKeepsValid` keeps both counters at 0 or 1.
- Inbound.Write: at a counter of `BUF_LEN + 1` every write takes the untruncated branch and asks `kmalloc` for `len + 1` bytes. For a payload of `KMALLOC_MAX_SIZE` bytes or more (4 MiB on x86-64) that allocation returns NULL and `sprintf` writes through it. The model stores such a payload anyway, and `Trace.CounterPassesCapacity` and `Trace.MaxCounter` include it. `KMALLOC_MAX_SIZE` depends on the kernel's configuration, so the model does not fix a value for it.
- Inbound.Write: requires a non-negative counter. For a negative counter the unsigned comparison at pa2_in.c:201 wraps for short payloads. A negative counter is unreachable (`Trace.ReachableStatesAreValid`).
- test.py is left out. It is a threaded test program with no queue logic.
- pa2_in.h holds only declarations. `get_lock` and `release_lock` are declared but never defined.
