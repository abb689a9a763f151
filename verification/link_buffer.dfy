/** A model of package tunnel's LinkBuffer: a closable FIFO queue of opaque
    byte payloads kept in a ring buffer that doubles its storage when only the
    sentinel slot is left free.

    The first part of the module is the ring arithmetic as pure functions over
    the slot sequence; the class LinkBuffer then updates its array and cursors
    in place, as the Go methods do, and is proved against those functions. */
module Tunnel {

  newtype byte = x: int | 0 <= x < 256

  /** A payload is an opaque byte string; the queue never inspects it. */
  type Payload = seq<byte>

  // ---------------------------------------------------------------------------
  // Ring arithmetic
  // ---------------------------------------------------------------------------

  /** Go's `x % m` for the non-negative operands the ring uses: the
      remainder left after taking away m as often as it fits. */
  function Mod(x: int, m: int): (r: int)
    requires 0 <= x && 0 < m
    ensures 0 <= r < m
    decreases x
  {
    if x < m then x else Mod(x - m, m)
  }

  /** A remainder in [0, m) is determined by the dividend: if x == m*q + r
      then `x % m` is r. */
  lemma RemainderUnique(x: int, m: int, q: int, r: int)
    requires 0 < m && 0 <= r < m && x == m * q + r
    ensures x % m == r
  {
    var k := q - x / m;
    assert m * k == x % m - r by {
      assert x == m * (x / m) + x % m;
      assert m * q - m * (x / m) == m * k;
    }
  }

  /** Mod is the remainder operator on the operands it admits: it agrees with
      `%`, where Go's truncating and Dafny's Euclidean remainders coincide. */
  lemma {:induction false} ModIsRemainder(x: int, m: int) returns (q: int)
    requires 0 <= x && 0 < m
    ensures x == m * q + Mod(x, m)
    ensures Mod(x, m) == x % m
    decreases x
  {
    if x < m {
      q := 0;
    } else {
      var q' := ModIsRemainder(x - m, m);
      q := q' + 1;
      assert m * q == m * q' + m;
    }
    RemainderUnique(x, m, q, Mod(x, m));
  }

  /** Reduction modulo m of a value in [0, 2m): at most one wrap. */
  lemma ModOnce(x: int, m: int)
    requires 0 < m && 0 <= x < 2 * m
    ensures Mod(x, m) == if x < m then x else x - m
  {
  }

  /** The number of occupied slots of a ring of `cap` slots whose oldest item is
      at `start` and whose next free slot is `end`: it is the number of steps
      from `start` forward to `end`, and it never reaches `cap`, so one slot is
      always free. */
  function Occupied(start: int, end: int, cap: int): (n: int)
    requires 1 <= cap && 0 <= start < cap && 0 <= end < cap
    ensures 0 <= n <= cap - 1
    ensures Mod(start + n, cap) == end
    ensures n == 0 <==> start == end
  {
    var n := Mod(end + cap - start, cap);
    ModOnce(end + cap - start, cap);
    ModOnce(start + n, cap);
    n
  }

  /** Walking forward from a cursor reaches distinct slots in fewer than `cap`
      steps, so the step count from `start` to a slot is unique. */
  lemma {:induction false} StepsUnique(start: int, k1: int, k2: int, cap: int)
    requires 0 <= start < cap && 0 <= k1 < cap && 0 <= k2 < cap
    requires Mod(start + k1, cap) == Mod(start + k2, cap)
    ensures k1 == k2
  {
    ModOnce(start + k1, cap);
    ModOnce(start + k2, cap);
  }

  /** Occupied is the only step count below `cap` that leads from `start` to `end`. */
  lemma {:induction false} OccupiedUnique(start: int, end: int, cap: int, k: int)
    requires 1 <= cap && 0 <= start < cap && 0 <= end < cap
    requires 0 <= k < cap && Mod(start + k, cap) == end
    ensures k == Occupied(start, end, cap)
  {
    StepsUnique(start, k, Occupied(start, end, cap), cap);
  }

  /** Put's growth trigger `(end+1) % cap == start` fires exactly when the ring
      holds cap-1 items, that is, when only the sentinel slot is free. */
  lemma {:induction false} GrowthTriggerIffFull(start: int, end: int, cap: int)
    requires 1 <= cap && 0 <= start < cap && 0 <= end < cap
    ensures Mod(end + 1, cap) == start <==> Occupied(start, end, cap) == cap - 1
  {
    var n := Occupied(start, end, cap);
    ModOnce(end + 1, cap);
    ModOnce(start + n, cap);
    if n == cap - 1 {
      ModOnce(start + cap - 1, cap);
    }
  }

  /** The queued items in logical order: the slots met walking forward from
      `start` until `end`. */
  function Items<T>(slots: seq<T>, start: int, end: int): seq<T>
    requires 0 <= start < |slots| && 0 <= end < |slots|
  {
    var n := Occupied(start, end, |slots|);
    seq(n, i requires 0 <= i < n => slots[Mod(start + i, |slots|)])
  }

  /** What Put's two `copy` paths place at the front of the new storage: the
      run start..end when it does not wrap, otherwise the tail start..cap
      followed by the head 0..end; nothing when the cursors meet. */
  function Relocated<T>(slots: seq<T>, start: int, end: int): seq<T>
    requires 0 <= start < |slots| && 0 <= end < |slots|
  {
    if end > start then slots[start..end]
    else if end < start then slots[start..] + slots[..end]
    else []
  }

  /** Both copy paths of the relocation keep the items in FIFO order. */
  lemma {:induction false} RelocatedInOrder<T>(slots: seq<T>, start: int, end: int)
    requires 0 <= start < |slots| && 0 <= end < |slots|
    ensures Relocated(slots, start, end) == Items(slots, start, end)
  {
    var cap := |slots|;
    var r, it := Relocated(slots, start, end), Items(slots, start, end);
    var n := Occupied(start, end, cap);
    if end >= start {
      ModOnce(start + (end - start), cap);
      OccupiedUnique(start, end, cap, end - start);
    } else {
      ModOnce(start + (end + cap - start), cap);
      OccupiedUnique(start, end, cap, end + cap - start);
    }
    assert |r| == n == |it|;
    forall i | 0 <= i < n ensures r[i] == it[i] {
      ModOnce(start + i, cap);
    }
  }

  /** Storing `x` in the free slot at `end` and advancing `end` appends `x`,
      provided the advanced cursor does not run into `start`. */
  lemma {:induction false} ItemsAppend<T>(slots: seq<T>, start: int, end: int, x: T)
    requires 0 <= start < |slots| && 0 <= end < |slots|
    requires Mod(end + 1, |slots|) != start
    ensures 0 <= Mod(end + 1, |slots|) < |slots|
    ensures Items(slots[end := x], start, Mod(end + 1, |slots|)) == Items(slots, start, end) + [x]
  {
    var cap := |slots|;
    var n := Occupied(start, end, cap);
    var next := if end + 1 < cap then end + 1 else 0;
    ModOnce(end + 1, cap);
    assert Occupied(start, next, cap) == n + 1 by {
      GrowthTriggerIffFull(start, end, cap);
      ModOnce(start + n, cap);
      ModOnce(start + n + 1, cap);
      OccupiedUnique(start, next, cap, n + 1);
    }
    var lhs, rhs := Items(slots[end := x], start, next), Items(slots, start, end) + [x];
    forall i | 0 <= i < n + 1 ensures lhs[i] == rhs[i] {
      if i < n && Mod(start + i, cap) == end {
        StepsUnique(start, i, n, cap);
      }
    }
  }

  /** Taking the slot at `start` and advancing `start` removes the head. */
  lemma {:induction false} ItemsPop<T>(slots: seq<T>, start: int, end: int)
    requires 0 <= start < |slots| && 0 <= end < |slots|
    requires start != end
    ensures 0 <= Mod(start + 1, |slots|) < |slots|
    ensures Items(slots, start, end) != []
    ensures Items(slots, start, end)[0] == slots[start]
    ensures Items(slots, Mod(start + 1, |slots|), end) == Items(slots, start, end)[1..]
  {
    var cap := |slots|;
    var n := Occupied(start, end, cap);
    var next := if start + 1 < cap then start + 1 else 0;
    ModOnce(start + 1, cap);
    assert Mod(start + 1, cap) == next;
    assert n >= 1 && Items(slots, start, end)[0] == slots[start] by {
      ModOnce(start, cap);
    }
    assert Occupied(next, end, cap) == n - 1 by {
      ModOnce(start + n, cap);
      ModOnce(next + (n - 1), cap);
      OccupiedUnique(next, end, cap, n - 1);
    }
    var lhs, rhs := Items(slots, next, end), Items(slots, start, end)[1..];
    forall i | 0 <= i < n - 1 ensures lhs[i] == rhs[i] {
      if next == 0 {
        ModOnce(i, cap);
        ModOnce(start + (i + 1), cap);
      }
    }
  }

  /** With `start` at 0 the queued items are a prefix of the slots. */
  lemma {:induction false} ItemsFromZero<T>(slots: seq<T>, end: int)
    requires 0 <= end < |slots|
    ensures Items(slots, 0, end) == slots[..end]
  {
    var cap := |slots|;
    ModOnce(end, cap);
    OccupiedUnique(0, end, cap, end);
    var lhs := Items(slots, 0, end);
    forall i | 0 <= i < end ensures lhs[i] == slots[i] {
      ModOnce(i, cap);
    }
  }

  // ---------------------------------------------------------------------------
  // Go's built-in copy
  // ---------------------------------------------------------------------------

  /** Go's `copy(dst[at:], src[lo:hi])`: copies min(len(dst)-at, hi-lo) slots,
      reading every source slot before any write (as memmove does), and
      returns how many it copied. */
  method Copy<T>(dst: array<T>, at: int, src: array<T>, lo: int, hi: int) returns (count: int)
    requires 0 <= at <= dst.Length && 0 <= lo <= hi <= src.Length
    modifies dst
    ensures count == if dst.Length - at < hi - lo then dst.Length - at else hi - lo
    ensures dst[..] == old(dst[..at]) + old(src[lo..lo + count]) + old(dst[at + count..])
  {
    count := if dst.Length - at < hi - lo then dst.Length - at else hi - lo;
    ghost var pre := src[lo..lo + count];
    forall i | 0 <= i < count {
      dst[at + i] := src[lo + i];
    }
    assert dst[..] == old(dst[..at]) + pre + old(dst[at + count..]);
  }

  /** The copy Put makes when the occupied run does not wrap: the run
      start..end goes to the front of the new storage. */
  method CopyRun<T>(grown: array<T>, buf: array<T>, start: int, end: int)
    requires grown != buf && 0 <= start < end <= buf.Length < grown.Length
    modifies grown
    ensures grown[..end - start] == buf[start..end]
  {
    ghost var blank := grown[..];
    var copied := Copy(grown, 0, buf, start, end);
    assert grown[..] == buf[start..end] + blank[end - start..];
  }

  /** The copies Put makes when the occupied run wraps: the tail start..cap
      goes to the front of the new storage and the head 0..end right after
      it. */
  method CopyWrapped<T>(grown: array<T>, buf: array<T>, start: int, end: int)
    requires grown != buf && 0 <= end < start < buf.Length < grown.Length
    modifies grown
    ensures grown[..buf.Length - start + end] == buf[start..] + buf[..end]
  {
    var cap := buf.Length;
    var copied := Copy(grown, 0, buf, start, cap);
    ghost var tail := grown[..];
    assert tail[..cap - start] == buf[start..];
    copied := Copy(grown, cap - start, buf, 0, end);
    assert grown[..] == tail[..cap - start] + buf[..end] + tail[cap - start + end..];
    assert grown[..cap - start + end] == (tail[..cap - start] + buf[..end] + tail[cap - start + end..])[..cap - start + end];
  }

  /** The storage Put switches to when only the sentinel slot is free: twice
      the slots, with the queued items, in FIFO order, at the front. Both of
      Go's copy paths are followed: one copy when the run does not wrap, the
      tail then the head when it does. */
  method Relocate<T(0)>(buf: array<T>, start: int, end: int) returns (grown: array<T>)
    requires 0 <= start < buf.Length && 0 <= end < buf.Length
    requires Mod(end + 1, buf.Length) == start
    ensures fresh(grown) && grown.Length == 2 * buf.Length
    ensures grown[..buf.Length - 1] == Items(buf[..], start, end)
  {
    var oldCap := buf.Length;
    ModOnce(end + 1, oldCap);
    grown := new T[oldCap * 2];
    if end > start {
      CopyRun(grown, buf, start, end);
    } else if end < start {
      CopyWrapped(grown, buf, start, end);
    }
    assert grown[..oldCap - 1] == Relocated(buf[..], start, end);
    RelocatedInOrder(buf[..], start, end);
  }

  // ---------------------------------------------------------------------------
  // The queue
  // ---------------------------------------------------------------------------

  class LinkBuffer {
    var start: int
    var end: int
    var buf: array<Payload>
    var closed: bool

    /** The queued payloads, oldest first. */
    ghost var Contents: seq<Payload>

    /** The cursors stay inside the storage, and Contents is what the ring
        holds from `start` to `end`. */
    ghost predicate Valid()
      reads this, buf
    {
      1 <= buf.Length && 0 <= start < buf.Length && 0 <= end < buf.Length &&
      Contents == Items(buf[..], start, end)
    }

    /** NewLinkBuffer(sz): an open, empty queue with sz slots. */
    constructor (sz: int)
      requires sz >= 1
      ensures Valid() && fresh(buf)
      ensures Contents == [] && !closed
      ensures buf.Length == sz && start == 0 && end == 0
    {
      buf := new Payload[sz];
      start, end := 0, 0;
      closed := false;
      Contents := [];
    }

    /** The `bufferLen` helper: the count of occupied slots. */
    function BufferLen(): (n: int)
      reads this, buf
      requires Valid()
      ensures n == |Contents|
      ensures 0 <= n <= buf.Length - 1
    {
      Occupied(start, end, buf.Length)
    }

    /** Len reports the number of queued payloads and changes nothing. */
    method Len() returns (n: int)
      requires Valid()
      ensures n == |Contents|
      ensures n <= buf.Length - 1
    {
      n := BufferLen();
    }

    /** Close marks the queue closed; only the first call reports true.
        Queued payloads stay poppable. */
    method Close() returns (ok: bool)
      requires Valid()
      modifies this`closed
      ensures Valid() && closed
      ensures ok == !old(closed)
      ensures Contents == old(Contents) && buf == old(buf)
      ensures start == old(start) && end == old(end)
    {
      if closed {
        return false;
      }
      closed := true;
      return true;
    }

    /** Put's growth step: the items move, in order, to the front of a fresh
        storage twice as large, and the cursors are reset around them. */
    method Grow()
      requires Valid()
      requires Mod(end + 1, buf.Length) == start
      modifies this
      ensures Valid() && fresh(buf) && closed == old(closed)
      ensures Contents == old(Contents)
      ensures buf.Length == 2 * old(buf.Length) && start == 0 && end == old(buf.Length) - 1
    {
      var oldCap := buf.Length;
      var grown := Relocate(buf, start, end);
      ItemsFromZero(grown[..], oldCap - 1);
      buf := grown;
      start := 0;
      end := oldCap - 1;
    }

    /** Put's store step: the payload goes into the free slot at `end`, and
        `end` advances one slot around the ring. */
    method Append(data: Payload)
      requires Valid()
      requires Mod(end + 1, buf.Length) != start
      modifies this, buf
      ensures Valid() && closed == old(closed)
      ensures Contents == old(Contents) + [data]
      ensures buf == old(buf) && start == old(start) && end == Mod(old(end) + 1, buf.Length)
    {
      ItemsAppend(buf[..], start, end, data);
      buf[end] := data;
      end := Mod(end + 1, buf.Length);
      Contents := Contents + [data];
    }

    /** Put appends `data` unless the queue is closed. When only the sentinel
        slot is free it first moves the items, in order, to the front of a
        storage twice as large. */
    method Put(data: Payload) returns (ok: bool)
      requires Valid()
      modifies this, buf
      ensures Valid() && closed == old(closed)
      ensures ok == !old(closed)
      ensures ok ==> Contents == old(Contents) + [data]
      ensures !ok ==> Contents == old(Contents) && buf == old(buf) && buf[..] == old(buf[..])
                      && start == old(start) && end == old(end)
      ensures buf == old(buf) || fresh(buf)
      ensures ok && |old(Contents)| == old(buf.Length) - 1 ==>
                fresh(buf) && buf.Length == 2 * old(buf.Length) && start == 0 && end == old(buf.Length)
      ensures ok && |old(Contents)| < old(buf.Length) - 1 ==>
                buf == old(buf) && start == old(start) && end == Mod(old(end) + 1, buf.Length)
    {
      if closed {
        return false;
      }

      GrowthTriggerIffFull(start, end, buf.Length);
      if Mod(end + 1, buf.Length) == start {
        Grow();
      }

      Append(data);
      return true;
    }

    /** Pop takes the oldest payload. On an empty closed queue it reports
        ok == false with an empty payload (Go's nil slice). The wait for data
        on an empty open queue is the precondition. */
    method Pop() returns (data: Payload, ok: bool)
      requires Valid()
      requires Contents != [] || closed
      modifies this
      ensures Valid() && closed == old(closed) && buf == old(buf)
      ensures ok == (old(Contents) != [])
      ensures ok ==> data == old(Contents)[0] && Contents == old(Contents)[1..]
      ensures !ok ==> data == [] && Contents == old(Contents) && start == old(start)
      ensures end == old(end)
    {
      ok := true;
      if BufferLen() > 0 {
        ItemsPop(buf[..], start, end);
        data := buf[start];
        start := Mod(start + 1, buf.Length);
        Contents := Contents[1..];
        return;
      }
      ok := false;
      data := [];
    }
  }
}
