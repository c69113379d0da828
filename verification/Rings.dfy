/** Ring indices of src/core/cg_uring.c: 32-bit counters that wrap, under a power-of-two mask. */
module RingIndex {
  import opened Division
  import opened HashMap

  const WRAP: nat := 0x1_0000_0000

  predicate Sized(n: nat) {
    PowerOfTwo(n) && n <= 0x8000_0000
  }

  /** A counter `k` increments later. */
  function Add(c: u32, k: nat): u32 {
    (c as int + k) % WRAP
  }

  /** Tail minus head in 32-bit arithmetic. */
  function Gap(head: u32, tail: u32): nat {
    (tail as int - head as int) % WRAP
  }

  /** The slot of a counter. */
  function At(c: u32, n: nat): (i: nat)
    requires PowerOfTwo(n)
    ensures i < n
  {
    MaskBelow(c, n);
    BitAnd(c, n - 1)
  }

  function Ratio(n: nat, w: nat): nat
    requires PowerOfTwo(n)
  {
    if n == 1 then w else Ratio(n / 2, w / 2)
  }

  lemma {:induction false} Divides(n: nat, w: nat)
    requires PowerOfTwo(n) && PowerOfTwo(w) && n <= w
    ensures Ratio(n, w) * n == w
    decreases n
  {
    if n > 1 {
      var h, m := n / 2, Ratio(n / 2, w / 2);
      Divides(h, w / 2);
      assert m * n == 2 * (m * h);
    }
  }

  lemma WrapIsPower()
    ensures PowerOfTwo(WRAP)
  {
    Doubles(0x100);
    Doubles(0x1000);
    Doubles(0x1_0000);
    Doubles(0x10_0000);
    Doubles(0x100_0000);
    Doubles(0x1000_0000);
  }

  /** Four more doublings. */
  lemma Doubles(n: nat)
    requires n > 0
    ensures PowerOfTwo(n) ==> PowerOfTwo(16 * n)
  {
    assert 2 * n / 2 == n && 4 * n / 2 == 2 * n && 8 * n / 2 == 4 * n && 16 * n / 2 == 8 * n;
    assert PowerOfTwo(n) ==> PowerOfTwo(2 * n);
    assert PowerOfTwo(2 * n) ==> PowerOfTwo(4 * n);
    assert PowerOfTwo(4 * n) ==> PowerOfTwo(8 * n);
  }

  lemma AddMultiple(x: int, a: int, b: int, n: int)
    requires n > 0
    ensures (x + a * b * n) % n == x % n
  {
    var k := a * b;
    SameRemainder(x, k, n);
  }

  lemma SameRemainder(x: int, k: int, n: int)
    requires n > 0
    ensures (x + k * n) % n == x % n
  {
    var q := x / n;
    assert x + k * n == (q + k) * n + x % n;
    RemainderIs(x + k * n, q + k, x % n, n);
  }

  lemma RemainderIs(x: int, q: int, r: int, n: int)
    requires n > 0 && x == q * n + r && 0 <= r < n
    ensures x % n == r
  {
    Quotient(x, n, q, r);
  }

  lemma Reassociate(a: int, b: int, n: int)
    ensures a * (b * n) == a * b * n
  {
  }

  lemma AtIs(c: u32, n: nat)
    requires PowerOfTwo(n)
    ensures At(c, n) == c % n
  {
    MaskRemains(c, n);
  }

  lemma WrapRemainder(c: nat, n: nat)
    requires Sized(n)
    ensures c % WRAP % n == c % n
  {
    WrapIsPower();
    Divides(n, WRAP);
    Reassociate(c / WRAP, Ratio(n, WRAP), n);
    AddMultiple(c % WRAP, c / WRAP, Ratio(n, WRAP), n);
  }

  /** Wrapping the counter does not disturb its slot. */
  lemma AtIsRemainder(c: nat, n: nat)
    requires Sized(n)
    ensures At(c % WRAP, n) == c % n
  {
    WrapRemainder(c, n);
    AtIs(c % WRAP, n);
  }

  /** Fewer than `n` steps apart, two counters have different slots. */
  lemma SlotsApart(c: u32, j: nat, k: nat, n: nat)
    requires Sized(n) && j < k < j + n
    ensures At(Add(c, j), n) != At(Add(c, k), n)
  {
    AtIsRemainder(c + j, n);
    AtIsRemainder(c + k, n);
    Apart(c + j, k - j, n);
    assert c + j + (k - j) == c + k;
  }

  lemma Apart(x: nat, d: nat, n: nat)
    requires 0 < d < n
    ensures (x + d) % n != x % n
  {
    var q, r := x / n, x % n;
    if r + d < n {
      RemainderIs(x + d, q, r + d, n);
    } else {
      assert (q + 1) * n == q * n + n;
      RemainderIs(x + d, q + 1, r + d - n, n);
    }
  }

  lemma AddAdd(c: u32, j: nat, k: nat)
    ensures Add(Add(c, j), k) == Add(c, j + k)
  {
  }

  lemma GapValue(head: u32, tail: u32)
    ensures Gap(head, tail) == if tail >= head then tail - head else tail - head + WRAP
  {
  }

  lemma AddValue(c: u32, k: nat)
    requires k < WRAP
    ensures Add(c, k) == if c + k < WRAP then c + k else c + k - WRAP
  {
  }

  lemma GapTail(head: u32, tail: u32)
    ensures Add(head, Gap(head, tail)) == tail
    ensures Gap(head, tail) == 0 <==> head == tail
    ensures Gap(head, tail) < WRAP
    ensures Gap(head, tail) < WRAP - 1 ==> Gap(head, Add(tail, 1)) == Gap(head, tail) + 1
    ensures head != tail ==> Gap(Add(head, 1), tail) == Gap(head, tail) - 1
  {
    GapValue(head, tail);
    AddValue(head, Gap(head, tail));
    AddValue(tail, 1);
    AddValue(head, 1);
    GapValue(head, Add(tail, 1));
    GapValue(Add(head, 1), tail);
  }
}

/** The completion queue: the kernel publishes at the tail, the main loop of src/app/cg_app.c drains at the head. */
module CompletionQueue {
  import opened Bytes
  import opened Division
  import opened HashMap
  import opened RingIndex

  datatype Ring<T> = Ring(head: u32, tail: u32, slots: seq<T>)

  predicate RingOk<T>(r: Ring<T>) {
    Sized(|r.slots|) && Gap(r.head, r.tail) <= |r.slots|
  }

  /** The entries published and not yet released, oldest first. */
  function Pending<T>(r: Ring<T>): seq<T>
    requires RingOk(r)
  {
    seq(Gap(r.head, r.tail), k requires 0 <= k => r.slots[At(Add(r.head, k), |r.slots|)])
  }

  /** The kernel's side. */
  function Publish<T>(r: Ring<T>, e: T): Ring<T>
    requires Sized(|r.slots|)
  {
    r.(tail := Add(r.tail, 1), slots := r.slots[At(r.tail, |r.slots|) := e])
  }

  /** `cg_uring_cq_peek`: the slot of the oldest entry. */
  function Peek<T>(r: Ring<T>): Option<nat>
    requires Sized(|r.slots|)
  {
    if r.head == r.tail then None else Some(At(r.head, |r.slots|))
  }

  /** `cg_uring_cq_discard` of one entry. */
  function Discard<T>(r: Ring<T>): Ring<T> {
    r.(head := Add(r.head, 1))
  }

  lemma PublishAppends<T>(r: Ring<T>, e: T)
    requires RingOk(r) && Gap(r.head, r.tail) < |r.slots|
    ensures RingOk(Publish(r, e)) && Pending(Publish(r, e)) == Pending(r) + [e]
    ensures Publish(r, e).slots == r.slots[At(r.tail, |r.slots|) := e]
  {
    var n, g, r' := |r.slots|, Gap(r.head, r.tail), Publish(r, e);
    GapTail(r.head, r.tail);
    forall k | 0 <= k < g ensures Pending(r')[k] == Pending(r)[k] {
      SlotsApart(r.head, k, g, n);
    }
  }

  /** The kernel writes over the entry that the main loop looks at exactly when the ring is full. */
  lemma OldestOverwrittenIff<T>(r: Ring<T>)
    requires RingOk(r) && r.head != r.tail
    ensures Peek(r) == Some(At(r.tail, |r.slots|)) <==> Gap(r.head, r.tail) == |r.slots|
  {
    var n, g := |r.slots|, Gap(r.head, r.tail);
    GapTail(r.head, r.tail);
    assert Add(r.head, 0) == r.head;
    if g < n {
      SlotsApart(r.head, 0, g, n);
    } else {
      AtIsRemainder(r.head + n, n);
      AtIsRemainder(r.head, n);
      SameRemainder(r.head, 1, n);
    }
  }

  lemma DiscardReleases<T>(r: Ring<T>)
    requires RingOk(r) && r.head != r.tail
    ensures RingOk(Discard(r)) && Pending(r) != [] && Pending(Discard(r)) == Pending(r)[1..]
  {
    GapTail(r.head, r.tail);
    forall k | 0 <= k < Gap(r.head, r.tail) - 1 ensures Pending(Discard(r))[k] == Pending(r)[k + 1] {
      AddAdd(r.head, 1, k);
    }
  }

  lemma PeekIsOldest<T>(r: Ring<T>)
    requires RingOk(r)
    ensures Peek(r).None? <==> Pending(r) == []
    ensures Peek(r).Some? ==> r.slots[Peek(r).value] == Pending(r)[0]
  {
    GapTail(r.head, r.tail);
    assert Add(r.head, 0) == r.head;
  }

  // ----- the main loop and the kernel -----

  /** Where the main loop is: without an entry, holding a pointer into the ring, or done with the entry it points to. */
  datatype Turn = Idle | Holding(slot: nat) | Done(slot: nat)

  datatype Loop<T> = Loop(ring: Ring<T>, turn: Turn, published: seq<T>, handled: seq<T>)

  datatype Event<T> = KernelPublish(e: T) | Poll | Handle | Release

  /** The kernel publishes while there is room; the main loop polls, handles and releases in turn. */
  predicate Enabled<T>(l: Loop<T>, ev: Event<T>) {
    match ev
    case KernelPublish(_) => Gap(l.ring.head, l.ring.tail) < |l.ring.slots|
    case Poll => l.turn.Idle?
    case Handle => l.turn.Holding? && l.turn.slot < |l.ring.slots|
    case Release => l.turn.Done?
  }

  function AfterPeek<T>(r: Ring<T>): Turn
    requires Sized(|r.slots|)
  {
    match Peek(r) case None => Idle case Some(i) => Holding(i)
  }

  function Step<T>(l: Loop<T>, ev: Event<T>): Loop<T>
    requires Sized(|l.ring.slots|) && Enabled(l, ev)
    ensures |Step(l, ev).ring.slots| == |l.ring.slots|
  {
    match ev
    case KernelPublish(e) => l.(ring := Publish(l.ring, e), published := l.published + [e])
    case Poll => l.(turn := AfterPeek(l.ring))
    case Handle => l.(turn := Done(l.turn.slot), handled := l.handled + [l.ring.slots[l.turn.slot]])
    case Release => l.(ring := Discard(l.ring), turn := AfterPeek(Discard(l.ring)))
  }

  predicate Possible<T>(l: Loop<T>, evs: seq<Event<T>>)
    requires Sized(|l.ring.slots|)
    decreases |evs|
  {
    evs == [] || (Enabled(l, evs[0]) && Possible(Step(l, evs[0]), evs[1..]))
  }

  function Run<T>(l: Loop<T>, evs: seq<Event<T>>): (r: Loop<T>)
    requires Sized(|l.ring.slots|) && Possible(l, evs)
    ensures |r.ring.slots| == |l.ring.slots|
    decreases |evs|
  {
    if evs == [] then l else Run(Step(l, evs[0]), evs[1..])
  }

  /** What waits in the ring beyond the entry that is done with. */
  function Waiting<T>(l: Loop<T>): seq<T>
    requires RingOk(l.ring)
  {
    Beyond(Pending(l.ring), l.turn.Done?)
  }

  function Beyond<T>(s: seq<T>, done: bool): seq<T> {
    if done && s != [] then s[1..] else s
  }

  lemma BeyondAppend<T>(h: seq<T>, s: seq<T>, e: T, done: bool)
    requires done ==> s != []
    ensures h + Beyond(s + [e], done) == h + Beyond(s, done) + [e]
  {
  }

  lemma PeekStays<T>(r: Ring<T>, e: T)
    requires RingOk(r) && Peek(r).Some? && Gap(r.head, r.tail) < |r.slots|
    ensures Peek(Publish(r, e)) == Peek(r)
  {
    GapTail(r.head, r.tail);
    GapTail(r.head, Add(r.tail, 1));
  }

  ghost predicate LoopOk<T>(l: Loop<T>) {
    RingOk(l.ring) && l.handled + Waiting(l) == l.published
    && (!l.turn.Idle? ==> Peek(l.ring) == Some(l.turn.slot))
  }

  lemma PublishKeeps<T>(l: Loop<T>, e: T)
    requires LoopOk(l) && Enabled(l, KernelPublish(e))
    ensures LoopOk(Step(l, KernelPublish(e)))
  {
    PublishAppends(l.ring, e);
    PeekIsOldest(l.ring);
    BeyondAppend(l.handled, Pending(l.ring), e, l.turn.Done?);
    if !l.turn.Idle? {
      PeekStays(l.ring, e);
    }
  }

  lemma HandleKeeps<T>(l: Loop<T>)
    requires LoopOk(l) && l.turn.Holding? && l.turn.slot < |l.ring.slots|
    ensures LoopOk(Step(l, Handle))
  {
    PeekIsOldest(l.ring);
    var p := Pending(l.ring);
    assert l.handled + p == l.handled + [p[0]] + p[1..];
  }

  lemma StepKeeps<T>(l: Loop<T>, ev: Event<T>)
    requires LoopOk(l) && Enabled(l, ev)
    ensures LoopOk(Step(l, ev))
  {
    match ev
    case KernelPublish(e) => PublishKeeps(l, e);
    case Poll =>
    case Handle => HandleKeeps(l);
    case Release => DiscardReleases(l.ring);
  }

  /** An entry is never overwritten between the moment it is peeked and its release. */
  lemma HeldIsIntact<T>(l: Loop<T>)
    requires LoopOk(l) && l.turn.Holding?
    ensures l.turn.slot < |l.ring.slots| && |l.handled| < |l.published|
    ensures l.ring.slots[l.turn.slot] == l.published[|l.handled|]
  {
    PeekIsOldest(l.ring);
  }

  predicate Fresh<T>(l: Loop<T>) {
    Sized(|l.ring.slots|) && l.ring.head == l.ring.tail && l.turn.Idle? && l.published == [] && l.handled == []
  }

  /** From an empty ring at any counter value, over every interleaving of the kernel and the main loop: the
      entries handled are the first ones published, in order and each once; the rest is still in the ring;
      nothing is missing when a poll finds the ring empty. */
  lemma {:induction false} EachHandledOnce<T>(l: Loop<T>, evs: seq<Event<T>>)
    requires Sized(|l.ring.slots|) && (Fresh(l) || LoopOk(l)) && Possible(l, evs)
    ensures var r := Run(l, evs);
      LoopOk(r) && r.handled <= r.published && |r.published| - |r.handled| <= |r.ring.slots|
      && (r.turn.Idle? && Peek(r.ring).None? ==> r.handled == r.published)
    decreases |evs|
  {
    if Fresh(l) {
      GapTail(l.ring.head, l.ring.tail);
    }
    if evs == [] {
      PeekIsOldest(l.ring);
    } else {
      StepKeeps(l, evs[0]);
      EachHandledOnce(Step(l, evs[0]), evs[1..]);
    }
  }

  // ----- the shared memory -----

  /** The mapped ring; the kernel moves `tail`. */
  class SharedRing<T> {
    var head: u32
    var tail: u32
    const mask: u32
    const cqes: array<T>

    ghost predicate Valid() {
      Sized(cqes.Length) && mask == cqes.Length - 1
    }

    ghost function Value(): Ring<T>
      reads this, cqes
    {
      Ring(head, tail, cqes[..])
    }

    constructor (cqes: array<T>, head: u32, tail: u32)
      requires Sized(cqes.Length)
      ensures Valid() && this.cqes == cqes && Value() == Ring(head, tail, cqes[..])
    {
      this.cqes, this.mask, this.head, this.tail := cqes, cqes.Length - 1, head, tail;
    }

    /** `cg_uring_cq_peek`. */
    method CqPeek() returns (slot: Option<nat>)
      requires Valid()
      ensures slot == Peek(Value())
    {
      if head == tail {
        return None;
      }
      return Some(BitAnd(head, mask));
    }

    /** `cg_uring_cq_discard`. */
    method CqDiscard(count: nat)
      modifies this`head
      ensures Value() == old(Value()).(head := Add(old(head), count))
    {
      head := (head as int + count) % WRAP;
    }

    /** The round of the draining loop: the entry is read, released, and the next one is looked for. */
    method HandleOne(slot: nat, ghost l: Loop<T>) returns (e: T, next: Option<nat>, ghost l': Loop<T>)
      requires Valid() && l.ring == Value() && LoopOk(l) && l.turn == Holding(slot)
      modifies this`head
      ensures l' == Step(Step(l, Handle), Release) && LoopOk(l') && l'.ring == Value()
      ensures e == l.published[|l.handled|] && next == Peek(Value())
    {
      HeldIsIntact(l);
      HandleKeeps(l);
      StepKeeps(Step(l, Handle), Release);
      e := cqes[slot];
      CqDiscard(1);
      next := CqPeek();
      l' := Step(Step(l, Handle), Release);
    }
  }
}

/** The submission queue: entries are taken in ring order, filled in, and passed on through an array of indices. */
module SubmissionQueue {
  import opened Bytes
  import opened Division
  import opened HashMap
  import opened RingIndex

  /** `next` counts entries taken, `tail` entries passed on, `head` entries that the kernel has consumed. */
  datatype Ring<T> = Ring(next: u32, head: u32, tail: u32, indices: seq<u32>, sqes: seq<T>)

  predicate Shaped<T>(q: Ring<T>) {
    Sized(|q.sqes|) && |q.indices| == |q.sqes|
  }

  /** `cg_uring_sqe_get`: the next entry, zeroed. */
  function SqeGet<T>(q: Ring<T>, zero: T): (nat, Ring<T>)
    requires Shaped(q)
  {
    var i := At(q.next, |q.sqes|);
    (i, q.(sqes := q.sqes[i := zero], next := Add(q.next, 1)))
  }

  /** `cg_uring_sq_enqueue`: the index of the entry is published. */
  function SqEnqueue<T>(q: Ring<T>, i: nat): Ring<T>
    requires Shaped(q) && i < |q.sqes|
  {
    q.(indices := q.indices[At(q.tail, |q.indices|) := i], tail := Add(q.tail, 1))
  }

  /** The kernel's side: the entry that the oldest published index names. */
  function Oldest<T>(q: Ring<T>): nat
    requires Shaped(q)
  {
    q.indices[At(q.head, |q.indices|)]
  }

  // ----- the loop and the kernel -----

  datatype Loop<T> = Loop(ring: Ring<T>, held: Option<nat>, submitted: seq<T>, taken: seq<T>)

  datatype Event<T> = Get(zero: T) | Fill(e: T) | Enqueue | KernelTake

  /** An entry is taken while one is free, filled and passed on; the kernel takes what was passed on. */
  predicate Enabled<T>(l: Loop<T>, ev: Event<T>)
    requires Shaped(l.ring)
  {
    match ev
    case Get(_) => l.held.None? && Gap(l.ring.head, l.ring.tail) < |l.ring.sqes|
    case Fill(_) => l.held.Some? && l.held.value < |l.ring.sqes|
    case Enqueue => l.held.Some? && l.held.value < |l.ring.sqes|
    case KernelTake => l.ring.head != l.ring.tail && Oldest(l.ring) < |l.ring.sqes|
  }

  function Step<T>(l: Loop<T>, ev: Event<T>): (r: Loop<T>)
    requires Shaped(l.ring) && Enabled(l, ev)
    ensures Shaped(r.ring) && |r.ring.sqes| == |l.ring.sqes|
  {
    match ev
    case Get(zero) => l.(ring := SqeGet(l.ring, zero).1, held := Some(SqeGet(l.ring, zero).0))
    case Fill(e) => l.(ring := l.ring.(sqes := l.ring.sqes[l.held.value := e]))
    case Enqueue => l.(ring := SqEnqueue(l.ring, l.held.value), held := None,
                       submitted := l.submitted + [l.ring.sqes[l.held.value]])
    case KernelTake => l.(ring := l.ring.(head := Add(l.ring.head, 1)),
                          taken := l.taken + [l.ring.sqes[Oldest(l.ring)]])
  }

  /** The published index in the `k`-th place from the head. */
  function IndexAt<T>(q: Ring<T>, k: nat): nat
    requires Shaped(q)
  {
    q.indices[At(Add(q.head, k), |q.indices|)]
  }

  /** Entries are passed on in ring order, so each index is the number of its own place. */
  predicate InOrder<T>(q: Ring<T>)
    requires Shaped(q)
  {
    forall k: nat :: k < Gap(q.head, q.tail) ==> IndexAt(q, k) == At(Add(q.head, k), |q.sqes|)
  }

  function Queued<T>(q: Ring<T>): seq<T>
    requires Shaped(q)
  {
    seq(Gap(q.head, q.tail), k requires 0 <= k => q.sqes[At(Add(q.head, k), |q.sqes|)])
  }

  ghost predicate LoopOk<T>(l: Loop<T>) {
    Shaped(l.ring) && InOrder(l.ring) && l.taken + Queued(l.ring) == l.submitted
    && match l.held
       case None => l.ring.next == l.ring.tail && Gap(l.ring.head, l.ring.tail) <= |l.ring.sqes|
       case Some(i) => l.ring.next == Add(l.ring.tail, 1) && i == At(l.ring.tail, |l.ring.sqes|)
                       && Gap(l.ring.head, l.ring.tail) < |l.ring.sqes|
  }

  /** Writing the entry that is being filled leaves the queued ones alone. */
  lemma FillKeepsQueued<T>(q: Ring<T>, e: T)
    requires Shaped(q) && Gap(q.head, q.tail) < |q.sqes|
    ensures Queued(q.(sqes := q.sqes[At(q.tail, |q.sqes|) := e])) == Queued(q)
    ensures InOrder(q) ==> InOrder(q.(sqes := q.sqes[At(q.tail, |q.sqes|) := e]))
  {
    var q', g := q.(sqes := q.sqes[At(q.tail, |q.sqes|) := e]), Gap(q.head, q.tail);
    GapTail(q.head, q.tail);
    forall k | 0 <= k < g ensures Queued(q')[k] == Queued(q)[k] {
      SlotsApart(q.head, k, g, |q.sqes|);
    }
    assert forall k: nat :: k < g ==> IndexAt(q', k) == IndexAt(q, k);
  }

  lemma EnqueueAppends<T>(q: Ring<T>)
    requires Shaped(q) && InOrder(q) && Gap(q.head, q.tail) < |q.sqes|
    ensures var i := At(q.tail, |q.sqes|);
      InOrder(SqEnqueue(q, i)) && Queued(SqEnqueue(q, i)) == Queued(q) + [q.sqes[i]]
  {
    var n, g, q' := |q.sqes|, Gap(q.head, q.tail), SqEnqueue(q, At(q.tail, |q.sqes|));
    GapTail(q.head, q.tail);
    forall k: nat | k < g + 1 ensures IndexAt(q', k) == At(Add(q.head, k), n) {
      if k < g {
        SlotsApart(q.head, k, g, n);
        assert IndexAt(q, k) == At(Add(q.head, k), n);
      }
    }
  }

  lemma TakeReleases<T>(q: Ring<T>)
    requires Shaped(q) && InOrder(q) && q.head != q.tail
    ensures var q' := q.(head := Add(q.head, 1));
      Queued(q) != [] && Oldest(q) < |q.sqes| && q.sqes[Oldest(q)] == Queued(q)[0]
      && InOrder(q') && Queued(q') == Queued(q)[1..]
  {
    var q' := q.(head := Add(q.head, 1));
    GapTail(q.head, q.tail);
    assert Add(q.head, 0) == q.head && IndexAt(q, 0) == Oldest(q);
    forall k: nat | k < Gap(q'.head, q'.tail)
      ensures IndexAt(q', k) == At(Add(q'.head, k), |q.sqes|) && Queued(q')[k] == Queued(q)[k + 1]
    {
      Shifted(q, q', k);
    }
  }

  lemma Shifted<T>(q: Ring<T>, q': Ring<T>, k: nat)
    requires Shaped(q) && InOrder(q) && q' == q.(head := Add(q.head, 1)) && k + 1 < Gap(q.head, q.tail)
    ensures Add(q'.head, k) == Add(q.head, k + 1) && IndexAt(q', k) == At(Add(q'.head, k), |q.sqes|)
  {
    AddAdd(q.head, 1, k);
    assert IndexAt(q, k + 1) == At(Add(q.head, k + 1), |q.sqes|);
  }

  lemma StepKeeps<T>(l: Loop<T>, ev: Event<T>)
    requires LoopOk(l) && Enabled(l, ev)
    ensures LoopOk(Step(l, ev))
  {
    var q := l.ring;
    GapTail(q.head, q.tail);
    match ev
    case Get(zero) => FillKeepsQueued(q, zero);
    case Fill(e) => FillKeepsQueued(q, e);
    case Enqueue =>
      EnqueueAppends(q);
      assert l.taken + (Queued(q) + [q.sqes[l.held.value]]) == l.submitted + [q.sqes[l.held.value]];
    case KernelTake =>
      TakeReleases(q);
      var w := Queued(q);
      assert l.taken + w == l.taken + [w[0]] + w[1..];
  }

  predicate Possible<T>(l: Loop<T>, evs: seq<Event<T>>)
    requires Shaped(l.ring)
    decreases |evs|
  {
    evs == [] || (Enabled(l, evs[0]) && Possible(Step(l, evs[0]), evs[1..]))
  }

  function Run<T>(l: Loop<T>, evs: seq<Event<T>>): Loop<T>
    requires Shaped(l.ring) && Possible(l, evs)
    decreases |evs|
  {
    if evs == [] then l else Run(Step(l, evs[0]), evs[1..])
  }

  predicate Fresh<T>(l: Loop<T>) {
    Shaped(l.ring) && l.ring.head == l.ring.tail == l.ring.next && l.held.None? && l.submitted == [] && l.taken == []
  }

  /** An entry is handed out zeroed, and stays so until it is filled in, whatever the kernel takes meanwhile. */
  lemma HandedOutZeroed<T>(l: Loop<T>, zero: T)
    requires LoopOk(l) && Enabled(l, Get(zero))
    ensures var m := Step(l, Get(zero));
      m.held.Some? && m.ring.sqes[m.held.value] == zero
      && (Enabled(m, KernelTake) ==> Step(m, KernelTake).ring.sqes == m.ring.sqes && Step(m, KernelTake).held == m.held)
  {
  }

  /** Over every interleaving the kernel takes the entries as they were filled in, in order and each once. */
  lemma {:induction false} EachTakenOnce<T>(l: Loop<T>, evs: seq<Event<T>>)
    requires Shaped(l.ring) && (Fresh(l) || LoopOk(l)) && Possible(l, evs)
    ensures var r := Run(l, evs);
      LoopOk(r) && r.taken <= r.submitted && (r.ring.head == r.ring.tail ==> r.taken == r.submitted)
    decreases |evs|
  {
    GapTail(l.ring.head, l.ring.tail);
    if evs != [] {
      StepKeeps(l, evs[0]);
      EachTakenOnce(Step(l, evs[0]), evs[1..]);
    }
  }

  // ----- the shared memory -----

  class SharedRing<T> {
    var next: u32
    var head: u32
    var tail: u32
    const entries: nat
    const indices: array<u32>
    const sqes: array<T>

    ghost predicate Valid() {
      Sized(entries) && entries == sqes.Length == indices.Length && indices as object != sqes as object
    }

    ghost function Value(): Ring<T>
      reads this, indices, sqes
    {
      Ring(next, head, tail, indices[..], sqes[..])
    }

    constructor (indices: array<u32>, sqes: array<T>, start: u32)
      requires Sized(sqes.Length) && indices.Length == sqes.Length && indices as object != sqes as object
      ensures Valid() && this.indices == indices && this.sqes == sqes
      ensures Value() == Ring(start, start, start, indices[..], sqes[..])
    {
      this.indices, this.sqes, this.entries := indices, sqes, sqes.Length;
      this.next, this.head, this.tail := start, start, start;
    }

    /** `cg_uring_sqe_get`. */
    method Get(zero: T) returns (i: nat)
      requires Valid()
      modifies this`next, sqes
      ensures (i, Value()) == SqeGet(old(Value()), zero)
    {
      i := At(next, entries);
      sqes[i] := zero;
      next := (next as int + 1) % WRAP;
    }

    /** `cg_uring_sq_enqueue`. */
    method Enqueue(i: u32)
      requires Valid() && i < entries
      modifies this`tail, indices
      ensures Value() == SqEnqueue(old(Value()), i)
    {
      indices[At(tail, entries)] := i;
      tail := (tail as int + 1) % WRAP;
    }
  }
}
