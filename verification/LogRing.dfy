/**
 The log ring of internal/applog/ring.go: a fixed array written round-robin.

 `Ring` is the value the array stands for, `Write` the first critical section of
 Push, and `Buffer` the object that keeps the array in place. A buffer refines
 the full history of what was pushed: it always holds exactly the last
 `capacity` records of it, in order, however often the array has wrapped.
 */
module LogRing {

  const DEFAULT_CAPACITY: nat := 2000

  /** The array, the next write index, and whether it wrapped at least once. */
  datatype Ring<T> = Ring(items: seq<T>, head: nat, full: bool) {
    predicate WellFormed() {
      head < |items|
    }
  }

  /** The last n elements of a history (all of it when it is shorter). */
  function LastN<T>(history: seq<T>, n: nat): seq<T> {
    if |history| <= n then history else history[|history| - n..]
  }

  /** The ring's records, oldest first. */
  function Chronological<T>(r: Ring<T>): seq<T>
    requires r.WellFormed()
  {
    if r.full then r.items[r.head..] + r.items[..r.head] else r.items[..r.head]
  }

  /** Overwrites the slot at head and advances head, wrapping at the end. */
  function Write<T>(r: Ring<T>, x: T): Ring<T>
    requires r.WellFormed()
  {
    var items := r.items[r.head := x];
    if r.head + 1 >= |items| then Ring(items, 0, true) else Ring(items, r.head + 1, r.full)
  }

  /** The ring holds exactly what the push history says it should. */
  ghost predicate Refines<T>(r: Ring<T>, history: seq<T>) {
    && r.WellFormed()
    && Chronological(r) == LastN(history, |r.items|)
    && (!r.full ==> |history| == r.head)
    && (r.full ==> |history| >= |r.items|)
  }

  lemma EmptyRefines<T>(items: seq<T>)
    requires |items| > 0
    ensures Refines(Ring(items, 0, false), [])
  {
  }

  /** One push shifts the window by one, also across the wrap-around. */
  lemma WriteRefines<T>(r: Ring<T>, history: seq<T>, x: T)
    requires Refines(r, history)
    ensures Refines(Write(r, x), history + [x])
    ensures |Write(r, x).items| == |r.items|
  {
    var w := Write(r, x);
    var before := Chronological(r);
    if r.full {
      assert before == [r.items[r.head]] + (r.items[r.head + 1..] + r.items[..r.head]);
      assert Chronological(w) == before[1..] + [x];
    } else {
      assert Chronological(w) == before + [x];
    }
  }

  /** Every push sequence: the ring ends up holding its last |items| elements. */
  function WriteAll<T>(r: Ring<T>, xs: seq<T>): (w: Ring<T>)
    requires r.WellFormed()
    ensures w.WellFormed() && |w.items| == |r.items|
    decreases |xs|
  {
    if xs == [] then r else WriteAll(Write(r, xs[0]), xs[1..])
  }

  lemma {:induction false} RingIsLastN<T>(r: Ring<T>, history: seq<T>, xs: seq<T>)
    requires Refines(r, history)
    ensures Refines(WriteAll(r, xs), history + xs)
    decreases |xs|
  {
    if xs == [] {
      assert history + xs == history;
    } else {
      WriteRefines(r, history, xs[0]);
      RingIsLastN(Write(r, xs[0]), history + [xs[0]], xs[1..]);
      assert history + [xs[0]] + xs[1..] == history + xs;
    }
  }

  lemma WrapOnce(x: nat, n: nat)
    requires 0 < n && x < 2 * n
    ensures x % n == if x < n then x else x - n
  {
    if x >= n {
      assert x == n * 1 + (x - n);
    }
  }

  /** The modulo index of Snapshot's walk reaches the records in chronological order. */
  lemma WalkIsChronological<T>(r: Ring<T>, start: nat, capacity: nat, i: nat)
    requires r.WellFormed() && i < |Chronological(r)|
    requires capacity == |r.items| && start == if r.full then r.head else 0
    ensures (start + i) % capacity < capacity
    ensures r.items[(start + i) % capacity] == Chronological(r)[i]
  {
    WrapOnce(start + i, capacity);
  }

  /** Snapshot's walk over all `total` records, leaving out the `skip` oldest. */
  method Walk<T>(r: Ring<T>, start: nat, total: nat, skip: nat) returns (out: seq<T>)
    requires r.WellFormed() && total == |Chronological(r)| && skip <= total
    requires start == if r.full then r.head else 0
    ensures out == Chronological(r)[skip..]
  {
    var capacity := |r.items|;
    out := [];
    var i := 0;
    while i < total
      invariant 0 <= i <= total
      invariant out == if i <= skip then [] else Chronological(r)[skip..i]
    {
      WalkIsChronological(r, start, capacity, i);
      var idx := (start + i) % capacity;
      if i >= skip {
        assert Chronological(r)[skip..i + 1] == Chronological(r)[skip..i] + [Chronological(r)[i]];
        out := out + [r.items[idx]];
      }
      i := i + 1;
    }
  }

  class Buffer<T(0)> {
    const capacity: nat
    var items: array<T>
    var head: nat
    var full: bool
    ghost var history: seq<T>  // every record pushed, oldest first

    ghost function Model(): Ring<T>
      reads this, items
    {
      Ring(items[..], head, full)
    }

    ghost predicate Valid()
      reads this, items
    {
      && items.Length == capacity
      && Refines(Model(), history)
    }

    constructor (requested: int)
      ensures Valid() && fresh(items) && history == []
      ensures capacity == if requested <= 0 then 2000 else requested
    {
      var n: nat := if requested <= 0 then DEFAULT_CAPACITY else requested;
      capacity := n;
      items := new T[n];
      head := 0;
      full := false;
      history := [];
    }

    /** The ring half of Push. */
    method Push(x: T)
      requires Valid()
      modifies this, items
      ensures Valid() && items == old(items)
      ensures history == old(history) + [x]
      ensures Model() == Write(old(Model()), x)
    {
      WriteRefines(Model(), history, x);
      items[head] := x;
      head := head + 1;
      if head >= capacity {
        head := 0;
        full := true;
      }
      history := history + [x];
      assert Model() == Write(old(Model()), x);
    }

    /** Up to n most recent records, oldest first; n <= 0 means all of them. */
    method Snapshot(n: int) returns (out: seq<T>)
      requires Valid()
      ensures var held := if |history| < capacity then |history| else capacity;
              && |out| == (if n <= 0 || n > held then held else n)
              && out == history[|history| - |out|..]
    {
      var total := if full then capacity else head;
      var count := if n <= 0 || n > total then total else n;
      var start := if full then head else 0;
      out := Walk(Ring(items[..], head, full), start, total, total - count);
    }
  }
}
