/** The bounded frame queue both pipelines use: a `std::queue` that the
    producer pushes to only while it holds fewer than its capacity, silently
    dropping the incoming frame otherwise, and that the consumer pops from
    the front. */
module FrameQueues {

  /** The admission rule: push while below capacity, else drop the newcomer. */
  function Admit<T>(items: seq<T>, x: T, capacity: nat): (r: seq<T>)
    ensures items <= r
    ensures |r| == (if |items| < capacity then |items| + 1 else |items|)
    ensures |r| > |items| ==> r[|items|] == x
  {
    if |items| < capacity then items + [x] else items
  }

  /** The queue after offering `xs` one after another with no pop between. */
  function OfferAll<T>(items: seq<T>, xs: seq<T>, capacity: nat): (r: seq<T>)
    ensures items <= r && |r| <= |items| + |xs|
    ensures |items| <= capacity ==> |r| <= capacity
    decreases |xs|
  {
    if xs == [] then items else OfferAll(Admit(items, xs[0], capacity), xs[1..], capacity)
  }

  function Min(a: int, b: int): int
  {
    if a <= b then a else b
  }

  /** Offering a sequence keeps the queue's old contents in front and admits
      exactly the OLDEST newcomers that fit: drop-newest, never drop-oldest. */
  lemma {:induction false} OfferAllKeepsOldest<T>(items: seq<T>, xs: seq<T>, capacity: nat)
    requires |items| <= capacity
    ensures OfferAll(items, xs, capacity) == items + xs[..Min(capacity - |items|, |xs|)]
    decreases |xs|
  {
    if xs != [] {
      var next := Admit(items, xs[0], capacity);
      OfferAllKeepsOldest(next, xs[1..], capacity);
      if |items| < capacity {
        var k := Min(capacity - |next|, |xs[1..]|);
        assert next + xs[1..][..k] == items + xs[..k + 1];
      } else {
        FullQueueIgnoresOffers(items, xs[1..], capacity);
      }
    }
  }

  /** A full queue ignores every offer. */
  lemma {:induction false} FullQueueIgnoresOffers<T>(items: seq<T>, xs: seq<T>, capacity: nat)
    requires |items| >= capacity
    ensures OfferAll(items, xs, capacity) == items
    decreases |xs|
  {
    if xs != [] {
      FullQueueIgnoresOffers(items, xs[1..], capacity);
    }
  }

  /** N offers to an empty queue of capacity C < N leave exactly C frames,
      the first C offered. */
  lemma OverflowFromEmpty<T>(xs: seq<T>, capacity: nat)
    requires capacity < |xs|
    ensures OfferAll([], xs, capacity) == xs[..capacity]
    ensures |OfferAll([], xs, capacity)| == capacity
  {
    OfferAllKeepsOldest([], xs, capacity);
  }

  /** Offering one more frame after a sequence of offers. */
  lemma {:induction false} OfferAllSnoc<T>(items: seq<T>, xs: seq<T>, x: T, capacity: nat)
    ensures OfferAll(items, xs + [x], capacity) == Admit(OfferAll(items, xs, capacity), x, capacity)
    decreases |xs|
  {
    if xs == [] {
      assert [] + [x] == [x];
    } else {
      assert (xs + [x])[1..] == xs[1..] + [x];
      OfferAllSnoc(Admit(items, xs[0], capacity), xs[1..], x, capacity);
    }
  }

  /** Offering two sequences one after the other is offering their
      concatenation. */
  lemma {:induction false} OfferAllAppend<T>(items: seq<T>, xs: seq<T>, ys: seq<T>, capacity: nat)
    ensures OfferAll(items, xs + ys, capacity) == OfferAll(OfferAll(items, xs, capacity), ys, capacity)
    decreases |xs|
  {
    if xs == [] {
      assert xs + ys == ys;
    } else {
      assert (xs + ys)[1..] == xs[1..] + ys;
      OfferAllAppend(Admit(items, xs[0], capacity), xs[1..], ys, capacity);
    }
  }

  /** The queue object. `admitted` and `taken` record every frame pushed
      and every frame popped, so that FIFO order is the invariant
      `admitted == taken + items`. */
  class FrameQueue<T> {
    const capacity: nat
    var items: seq<T>
    ghost var admitted: seq<T>
    ghost var taken: seq<T>

    ghost predicate Valid()
      reads this
    {
      |items| <= capacity && admitted == taken + items
    }

    constructor (capacity: nat)
      ensures Valid() && this.capacity == capacity
      ensures items == [] && admitted == [] && taken == []
    {
      this.capacity := capacity;
      items, admitted, taken := [], [], [];
    }

    /** `if (q.size() < max) q.push(x);` */
    method TryPush(x: T) returns (pushed: bool)
      requires Valid()
      modifies this
      ensures Valid()
      ensures pushed <==> old(|items|) < capacity
      ensures items == Admit(old(items), x, capacity)
      ensures !pushed ==> items == old(items)
      ensures admitted == old(admitted) + (if pushed then [x] else [])
      ensures taken == old(taken)
    {
      pushed := |items| < capacity;
      if pushed {
        items := items + [x];
        admitted := admitted + [x];
      }
    }

    /** `x = q.front(); q.pop();`, called only once the wait has seen a
        non-empty queue. */
    method Pop() returns (x: T)
      requires Valid() && items != []
      modifies this
      ensures Valid()
      ensures x == old(items)[0] && items == old(items)[1..]
      ensures taken == old(taken) + [x] && admitted == old(admitted)
    {
      x := items[0];
      items := items[1..];
      taken := taken + [x];
    }
  }
}
