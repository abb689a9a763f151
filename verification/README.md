# LinkBuffer: a growable, closable FIFO of payloads

This project models `LinkBuffer` from package `tunnel` of gotunnel. It is the
queue that sits between a producer and a consumer of tunnel payloads. Payloads
are opaque byte strings. They live in a ring buffer of slots with two cursors:
`start` is the oldest item and `end` is the next free slot. One slot is always
left free, so `start == end` means the buffer is empty. When `Put` finds only
that sentinel slot free, it first doubles the storage. It copies the items, in
order, to the front of the new slots and resets the cursors. `Close` marks the
queue closed. After that `Put` refuses payloads, but `Pop` still drains what
is queued. `Pop` reports `ok == false` only when the queue is empty and closed.

Files:

- `link_buffer.dfy`, module `Tunnel`. First, the ring arithmetic as pure
  functions over the slot sequence: `Occupied` (Go's `bufferLen`), `Items`
  (the items in FIFO order) and `Relocated` (what the two `copy` paths
  produce). Lemmas relate them. Then Go's built-in `copy`, modelled as
  `Copy`. Last, the class `LinkBuffer`, with the Go fields `start`, `end`,
  `buf` (an array) and `closed`, and a ghost `Contents`. Its methods update
  these in place, like the Go methods. `Valid()` ties `Contents` to
  `Items(buf[..], start, end)`.
- `link_buffer_clients.dfy`, module `TunnelClients`. Client runs proved from
  the method contracts alone. `Produce` puts a whole sequence into an open
  queue, and `Consume` drains a closed one until `Pop` reports the end.
  `PutAllThenDrain` composes them. `CloseThenDrain` follows a capacity-1
  queue through growth, a double close, a refused put and the drain.

Go's `%` truncates toward zero, while Dafny's is Euclidean. Every dividend
the queue uses is non-negative, so the two agree. The model writes the
operator as `Mod`: the remainder after taking away the divisor as often as it
fits. The proofs then need only linear arithmetic. `ModIsRemainder` proves
that `Mod` is the ordinary remainder.

The growth copy is done by `Relocate`, which calls `CopyRun` for the
non-wrapped case and `CopyWrapped` for the wrapped one. `Grow` then switches
the storage and resets the cursors, and `Append` writes the payload and
advances `end`. In the Go source all of these steps are inline in `Put`. They
are separate here only to keep each proof small.

Capacity: the Go constructor keeps a capacity of 1 as given. Such a queue
holds nothing until the first `Put`, which grows it to 2. The constructor here
does the same and does not round 1 up to 2: a capacity of 1 never holds an
item, so nothing depends on the rounding.

## Model

| member | source | states |
|---|---|---|
| `Tunnel.Mod` | tunnel/link_buffer.go:19 | Go's `%` on a non-negative dividend and positive divisor: the result is a slot index in [0, m) |
| `Tunnel.ModIsRemainder` | tunnel/link_buffer.go:19 | `Mod` leaves the ordinary remainder: `x == m*q + Mod(x, m)` for some `q`, and `Mod(x, m) == x % m` |
| `Tunnel.Occupied` | tunnel/link_buffer.go:18-20 | the item count lies in [0, cap-1]; stepping that many slots forward from `start` reaches `end`; it is 0 exactly when `start == end` |
| `Tunnel.OccupiedUnique` | tunnel/link_buffer.go:18-20 | the count is the only step count below cap that leads from `start` to `end`, so one free slot makes empty and full distinguishable |
| `Tunnel.GrowthTriggerIffFull` | tunnel/link_buffer.go:49-51 | the growth test `(end+1) % cap == start` holds exactly when the count is cap-1 |
| `Tunnel.RelocatedInOrder` | tunnel/link_buffer.go:53-58 | the non-wrapped copy, the wrapped tail-then-head copy and the empty case all give the items in FIFO order |
| `Tunnel.ItemsFromZero` | tunnel/link_buffer.go:59-61 | after the cursors are reset to `start = 0`, the items are exactly the first `end` slots |
| `Tunnel.ItemsAppend` | tunnel/link_buffer.go:64-65 | writing the payload at `end` and advancing `end` appends it to the items, when the advanced cursor does not hit `start` |
| `Tunnel.ItemsPop` | tunnel/link_buffer.go:74-76 | on a non-empty ring the slot at `start` is the head, and advancing `start` leaves the tail |
| `Tunnel.Copy` | tunnel/link_buffer.go:54-57 | Go's `copy`: copies min(room in destination, source length) slots, reading before writing, and leaves the other destination slots unchanged |
| `Tunnel.CopyRun` | tunnel/link_buffer.go:53-54 | when `end > start`, the first `end - start` new slots are the old slots `start..end` |
| `Tunnel.CopyWrapped` | tunnel/link_buffer.go:55-57 | when `end < start`, the new slots begin with the old slots from `start` to the old capacity, followed directly by the old slots `0..end` |
| `Tunnel.Relocate` | tunnel/link_buffer.go:50-58 | the new storage is fresh, twice as large, and its first cap-1 slots hold the queued items in FIFO order |
| `Tunnel.LinkBuffer.constructor` | tunnel/link_buffer.go:90-98 | `NewLinkBuffer(sz)`, `sz >= 1`: an open, empty queue with `sz` slots and `start == end == 0` |
| `Tunnel.LinkBuffer.BufferLen` | tunnel/link_buffer.go:18-20 | `bufferLen` is the number of queued payloads, at most capacity - 1 |
| `Tunnel.LinkBuffer.Len` | tunnel/link_buffer.go:22-26 | returns the number of queued payloads and changes nothing |
| `Tunnel.LinkBuffer.Close` | tunnel/link_buffer.go:28-39 | returns true exactly when the queue was open; afterwards it is closed; contents, cursors and storage are untouched |
| `Tunnel.LinkBuffer.Grow` | tunnel/link_buffer.go:49-62 | at the trigger: fresh storage of double capacity, `start = 0`, `end = old cap - 1`, same contents in the same order |
| `Tunnel.LinkBuffer.Append` | tunnel/link_buffer.go:64-65 | when the advanced `end` does not hit `start`: the payload joins the back of the contents, the storage object is kept, and `end` advances modulo the capacity |
| `Tunnel.LinkBuffer.Put` | tunnel/link_buffer.go:41-68 | closed: returns false and nothing changes. Open: returns true and the contents become old contents + [data]. It grows (capacity doubled, `start = 0`, `end = old cap`) exactly when the count was cap-1; otherwise the storage stays and `end` advances modulo cap. The invariant is kept, and `closed` is unchanged |
| `Tunnel.LinkBuffer.Pop` | tunnel/link_buffer.go:70-88 | non-empty: returns (head, true) and leaves the tail. Empty and closed: returns (empty payload, false) and changes nothing. `closed`, `end` and the storage never change |
| `TunnelClients.Produce` | tunnel/link_buffer.go:41-68 | Putting each payload of `xs` into an open queue refuses none of them, and the contents become old contents + `xs` |
| `TunnelClients.Consume` | tunnel/link_buffer.go:70-88 | Popping a closed queue until `ok` is false yields exactly the queued payloads in FIFO order and leaves the queue empty |
| `TunnelClients.PutAllThenDrain` | tunnel/link_buffer.go:22-98 | For any capacity `sz >= 1`, a queue that is filled with `xs`, closed and then drained gives back exactly `xs`, and `Len` reports `|xs|` before the drain |
| `TunnelClients.CloseThenDrain` | tunnel/link_buffer.go:28-88 | with two items queued: the first Close returns true and the second false; a Put after Close returns false and Len stays 2; two Pops return both items, and a third reports false |

## Left out

- Locking (`sync.Mutex`, `sync.Cond`, `Signal`, `Broadcast`). Each method is one atomic step; concurrency is not modelled.
- Tunnel.LinkBuffer.Pop: the blocking wait on an empty, open queue (the `for` loop with `cond.Wait()`) is not modelled. It becomes the precondition that the queue is non-empty or closed, so only the iteration that returns is modelled.
- `NewLinkBuffer` with `sz <= 0`: the Go code would divide by zero in `bufferLen` and in `Put`, so the constructor requires `sz >= 1`.
- Allocation failure when the storage doubles, and overflow of Go's `int` in `cap*2`. Integers here are unbounded.
- Payload contents and Go slice aliasing. Payloads are values of type `seq<byte>`, and Go's nil slice is the empty sequence. Popped slots are not cleared, in the model as in the code, and the model never reads them again.
