/** Client runs of LinkBuffer, proved from the method contracts alone: they
    state the queue's documented behaviour for whole call sequences. */
module TunnelClients {
  import opened Tunnel

  /** A producer puts every payload of `xs`, in order, into an open queue;
      none is refused, however often the storage grows. */
  method Produce(b: LinkBuffer, xs: seq<Payload>)
    requires b.Valid() && !b.closed
    modifies b, b.buf
    ensures b.Valid() && !b.closed
    ensures b.Contents == old(b.Contents) + xs
    ensures b.buf == old(b.buf) || fresh(b.buf)
  {
    var i := 0;
    while i < |xs|
      invariant 0 <= i <= |xs|
      invariant b.Valid() && !b.closed
      invariant b.Contents == old(b.Contents) + xs[..i]
      invariant b.buf == old(b.buf) || fresh(b.buf)
    {
      var ok := b.Put(xs[i]);
      assert xs[..i + 1] == xs[..i] + [xs[i]];
      i := i + 1;
    }
    assert xs[..i] == xs;
  }

  /** A consumer of a closed queue pops until Pop reports the end: it
      receives exactly the queued payloads, in order, each once. */
  method Consume(b: LinkBuffer) returns (received: seq<Payload>)
    requires b.Valid() && b.closed
    modifies b
    ensures b.Valid() && b.closed && b.Contents == []
    ensures received == old(b.Contents)
  {
    received := [];
    var more := true;
    while more
      invariant b.Valid() && b.closed
      invariant more ==> received + b.Contents == old(b.Contents)
      invariant !more ==> received == old(b.Contents) && b.Contents == []
      decreases |b.Contents| + (if more then 1 else 0)
    {
      var data, ok := b.Pop();
      if ok {
        received := received + [data];
      } else {
        more := false;
      }
    }
  }

  /** A producer puts `xs` into a fresh queue of `sz` slots and closes it; a
      consumer then drains it. The consumer receives exactly `xs`, in order,
      and Len counted all of them before the first Pop. */
  method PutAllThenDrain(xs: seq<Payload>, sz: int) returns (received: seq<Payload>, queued: int)
    requires sz >= 1
    ensures received == xs
    ensures queued == |xs|
  {
    var b := new LinkBuffer(sz);
    Produce(b, xs);
    queued := b.Len();
    var ok := b.Close();
    received := Consume(b);
  }

  /** Closing a queue that holds two payloads: both are still delivered, the
      third Pop reports the end, a second Close reports false, and a Put after
      closing is refused without changing the length. */
  method CloseThenDrain(a: Payload, c: Payload, late: Payload)
    returns (first: Payload, second: Payload, okFirst: bool, okSecond: bool, okThird: bool,
             closedFirst: bool, closedAgain: bool, putAfterClose: bool, lenAfterPut: int)
    ensures first == a && second == c && okFirst && okSecond && !okThird
    ensures closedFirst && !closedAgain
    ensures !putAfterClose && lenAfterPut == 2
  {
    var b := new LinkBuffer(1);
    var ok := b.Put(a);
    ok := b.Put(c);
    closedFirst := b.Close();
    closedAgain := b.Close();
    putAfterClose := b.Put(late);
    lenAfterPut := b.Len();
    first, okFirst := b.Pop();
    second, okSecond := b.Pop();
    var rest;
    rest, okThird := b.Pop();
  }
}
