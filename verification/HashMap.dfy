/** The open-addressing map of src/data/cg_hashmap.c: linear probing with tombstones. The hash of a key
    is uninterpreted; its slot is the hash under the capacity's bit mask. */
module HashMap {
  import opened Bytes
  import opened Counting

  /** The `occupied` byte: 0, 1 and 2. */
  datatype Mark = Never | Live | Tombstone

  datatype Entry<V> = Entry(key: nat, val: V, mark: Mark)

  // ----- the bit mask -----

  function BitAnd(a: nat, b: nat): nat {
    if a == 0 || b == 0 then 0 else a % 2 * (b % 2) + 2 * BitAnd(a / 2, b / 2)
  }

  predicate PowerOfTwo(n: nat) {
    n == 1 || (n > 1 && n % 2 == 0 && PowerOfTwo(n / 2))
  }

  /** Masking with `n - 1` is the remainder modulo `n`: the bits below, whatever the ones above. */
  lemma {:induction false} MaskIsRemainder(a: nat, n: nat, q: nat, r: nat)
    requires PowerOfTwo(n) && a == q * n + r && r < n
    ensures BitAnd(a, n - 1) == r
    decreases n
  {
    if n > 1 && a > 0 {
      var h := n / 2;
      assert n == 2 * h && (n - 1) / 2 == h - 1 && (n - 1) % 2 == 1;
      assert q * n == 2 * (q * h);
      assert a / 2 == q * h + r / 2 && a % 2 == r % 2;
      MaskIsRemainder(a / 2, h, q, r / 2);
    } else if n == 1 {
      assert q * n == q;
    } else {
      assert q * n >= 0;
    }
  }

  lemma {:induction false} MaskBelow(a: nat, n: nat)
    requires PowerOfTwo(n)
    ensures BitAnd(a, n - 1) < n
    decreases n
  {
    if n > 1 && a > 0 {
      assert (n - 1) / 2 == n / 2 - 1;
      MaskBelow(a / 2, n / 2);
    }
  }

  /** A mask takes the remainder of every number. */
  lemma MaskRemains(a: nat, n: nat)
    requires PowerOfTwo(n)
    ensures BitAnd(a, n - 1) == a % n < n
  {
    var q, r := Euclid(a, n);
    MaskIsRemainder(a, n, q, r);
  }

  lemma Euclid(a: nat, n: nat) returns (q: nat, r: nat)
    requires n > 0
    ensures a == q * n + r && r < n && r == a % n
  {
    q, r := a / n, a % n;
  }

  /** The masked successor of a slot index goes around the table. */
  lemma NextSlot(i: nat, n: nat)
    requires PowerOfTwo(n) && i < n
    ensures BitAnd(i + 1, n - 1) == if i + 1 == n then 0 else i + 1
  {
    if i + 1 == n {
      MaskIsRemainder(n, n, 1, 0);
    } else {
      MaskIsRemainder(i + 1, n, 0, i + 1);
    }
  }

  // ----- probing -----

  /** The slot `k` steps behind `home`, around the table. */
  function Slot(n: nat, home: nat, k: nat): (i: nat)
    requires home < n && k <= n
    ensures i < n
  {
    if home + k < n then home + k else home + k - n
  }

  /** Steps from `home` to slot `i`. */
  function Distance(n: nat, home: nat, i: nat): (k: nat)
    requires home < n && i < n
    ensures k < n && Slot(n, home, k) == i
  {
    if i >= home then i - home else i + n - home
  }

  /** First step from `k` on whose slot satisfies `p`; the table's size when there is none. */
  function First<V>(es: seq<Entry<V>>, home: nat, p: Entry<V> -> bool, k: nat): (r: nat)
    requires home < |es| && k <= |es|
    ensures k <= r <= |es|
    ensures forall j :: k <= j < r ==> !p(es[Slot(|es|, home, j)])
    ensures r < |es| ==> p(es[Slot(|es|, home, r)])
    decreases |es| - k
  {
    if k == |es| || p(es[Slot(|es|, home, k)]) then k else First(es, home, p, k + 1)
  }

  predicate IsNever<V>(e: Entry<V>) { e.mark.Never? }

  predicate IsLive<V>(e: Entry<V>) { e.mark.Live? }

  predicate LiveWith<V>(e: Entry<V>, key: nat) { e.mark.Live? && e.key == key }

  /** Where a lookup of `key` stops probing. */
  function LookupStop<V>(key: nat): Entry<V> -> bool {
    e => IsNever(e) || LiveWith(e, key)
  }

  /** Where an insertion stops probing. */
  function NotLive<V>(): Entry<V> -> bool {
    e => !IsLive(e)
  }

  function NeverUsed<V>(): Entry<V> -> bool {
    e => IsNever(e)
  }

  function LiveSlot<V>(): Entry<V> -> bool {
    e => IsLive(e)
  }

  /** Some slot has never been used. */
  predicate HasNever<V>(es: seq<Entry<V>>) {
    exists i :: 0 <= i < |es| && IsNever(es[i])
  }

  predicate HasKey<V>(es: seq<Entry<V>>, key: nat) {
    exists i :: 0 <= i < |es| && LiveWith(es[i], key)
  }

  /** A lookup of `key` comes to an end. */
  predicate ProbeEnds<V>(es: seq<Entry<V>>, home: nat, key: nat)
    requires home < |es|
  {
    First(es, home, LookupStop(key), 0) < |es|
  }

  function Lookup<V>(es: seq<Entry<V>>, home: nat, key: nat): (r: Option<nat>)
    requires home < |es|
    ensures r.Some? ==> r.value < |es| && LiveWith(es[r.value], key)
  {
    var k := First(es, home, LookupStop(key), 0);
    if k < |es| && IsLive(es[Slot(|es|, home, k)]) then Some(Slot(|es|, home, k)) else None
  }

  function Put<V>(es: seq<Entry<V>>, home: nat, key: nat, val: V): (r: seq<Entry<V>>)
    requires home < |es|
    ensures |r| == |es|
  {
    match Lookup(es, home, key)
    case Some(i) => es[i := es[i].(val := val)]
    case None =>
      var k := First(es, home, NotLive(), 0);
      if k == |es| then es else es[Slot(|es|, home, k) := Entry(key, val, Live)]
  }

  function Erase<V>(es: seq<Entry<V>>, home: nat, key: nat): (r: seq<Entry<V>>)
    requires home < |es|
    ensures |r| == |es|
  {
    match Lookup(es, home, key)
    case Some(i) => es[i := es[i].(mark := Tombstone)]
    case None => es
  }

  // ----- the invariant -----

  /** Every slot on the way from the home of a live key to it has been used. */
  predicate Reachable<V>(es: seq<Entry<V>>, home: nat -> nat, i: nat)
    requires i < |es| && home(es[i].key) < |es|
  {
    forall j :: 0 <= j < Distance(|es|, home(es[i].key), i) ==> !IsNever(es[Slot(|es|, home(es[i].key), j)])
  }

  ghost predicate Table<V>(es: seq<Entry<V>>, home: nat -> nat) {
    (forall key :: home(key) < |es|)
    && (forall i :: 0 <= i < |es| && IsLive(es[i]) ==> Reachable(es, home, i))
    && (forall i, j :: 0 <= i < j < |es| && IsLive(es[i]) && IsLive(es[j]) ==> es[i].key != es[j].key)
  }

  /** The finite map that a table stands for. */
  ghost function Contents<V>(es: seq<Entry<V>>, home: nat -> nat): map<nat, V>
    requires Table(es, home)
  {
    map i | 0 <= i < |es| && IsLive(es[i]) :: es[i].key := es[i].val
  }

  lemma Finds<V>(es: seq<Entry<V>>, home: nat -> nat, i: nat)
    requires Table(es, home) && i < |es| && IsLive(es[i])
    ensures Lookup(es, home(es[i].key), es[i].key) == Some(i)
  {
    var h, key := home(es[i].key), es[i].key;
    assert LookupStop<V>(key)(es[Slot(|es|, h, Distance(|es|, h, i))]);
  }

  /** A lookup finds exactly the live keys. */
  lemma LookupFindsLive<V>(es: seq<Entry<V>>, home: nat -> nat, key: nat)
    requires Table(es, home)
    ensures Lookup(es, home(key), key).Some? <==> HasKey(es, key)
    ensures HasKey(es, key) <==> key in Contents(es, home)
    ensures HasKey(es, key) ==> Contents(es, home)[key] == es[Lookup(es, home(key), key).value].val
  {
    if HasKey(es, key) {
      var i :| 0 <= i < |es| && LiveWith(es[i], key);
      Finds(es, home, i);
    }
  }

  /** A lookup ends exactly when the key is live or some slot has never been used. */
  lemma ProbeEndsIff<V>(es: seq<Entry<V>>, home: nat -> nat, key: nat)
    requires Table(es, home)
    ensures ProbeEnds(es, home(key), key) <==> HasKey(es, key) || HasNever(es)
  {
    var h := home(key);
    if HasKey(es, key) {
      LookupFindsLive(es, home, key);
    } else if HasNever(es) {
      var i :| 0 <= i < |es| && IsNever(es[i]);
      assert LookupStop<V>(key)(es[Slot(|es|, h, Distance(|es|, h, i))]);
    }
  }

  /** Writing to a slot keeps the table when no used slot becomes unused and the new key is reachable and new. */
  lemma WriteKeepsTable<V>(es: seq<Entry<V>>, home: nat -> nat, i: nat, e: Entry<V>)
    requires Table(es, home) && i < |es| && !IsNever(e)
    requires IsLive(e) ==> Reachable(es[i := e], home, i)
    requires IsLive(e) ==> forall j :: 0 <= j < |es| && j != i && IsLive(es[j]) ==> es[j].key != e.key
    ensures Table(es[i := e], home)
  {
    var es' := es[i := e];
    forall j | 0 <= j < |es'| && IsLive(es'[j]) ensures Reachable(es', home, j) {
      if j != i {
        assert Reachable(es, home, j);
      }
    }
  }

  lemma PutNew<V>(es: seq<Entry<V>>, home: nat -> nat, key: nat, val: V)
    requires Table(es, home) && !HasKey(es, key) && HasNever(es)
    ensures var k := First(es, home(key), NotLive(), 0);
            k < |es| && Put(es, home(key), key, val) == es[Slot(|es|, home(key), k) := Entry(key, val, Live)]
            && !IsLive(es[Slot(|es|, home(key), k)])
    ensures Table(Put(es, home(key), key, val), home)
  {
    var h := home(key);
    LookupFindsLive(es, home, key);
    var k := First(es, h, NotLive(), 0);
    var i :| 0 <= i < |es| && IsNever(es[i]);
    assert NotLive<V>()(es[Slot(|es|, h, Distance(|es|, h, i))]);
    var at, e := Slot(|es|, h, k), Entry(key, val, Live);
    forall j | 0 <= j < Distance(|es|, h, at) ensures !IsNever(es[at := e][Slot(|es|, h, j)]) {
      assert !NotLive<V>()(es[Slot(|es|, h, j)]);
    }
    WriteKeepsTable(es, home, at, e);
  }

  /** Insertion or update keeps the table and sets the key in the map, whatever tombstones it reuses. */
  lemma PutRefines<V>(es: seq<Entry<V>>, home: nat -> nat, key: nat, val: V)
    requires Table(es, home) && (HasKey(es, key) || HasNever(es))
    ensures var es' := Put(es, home(key), key, val);
            Table(es', home) && Contents(es', home) == Contents(es, home)[key := val]
  {
    var es' := Put(es, home(key), key, val);
    LookupFindsLive(es, home, key);
    var at: nat;
    if HasKey(es, key) {
      at := Lookup(es, home(key), key).value;
      WriteKeepsTable(es, home, at, es[at].(val := val));
    } else {
      PutNew(es, home, key, val);
      at := Slot(|es|, home(key), First(es, home(key), NotLive(), 0));
    }
    assert es' == es[at := Entry(key, val, Live)];
    assert forall j :: 0 <= j < |es| && j != at ==> es'[j] == es[j];
    assert Contents(es', home) == Contents(es, home)[key := val] by {
      ContentsWritten(es, home, at, Entry(key, val, Live));
    }
  }

  lemma ContentsWritten<V>(es: seq<Entry<V>>, home: nat -> nat, at: nat, e: Entry<V>)
    requires at < |es| && Table(es, home) && Table(es[at := e], home) && IsLive(e)
    requires !IsLive(es[at]) || es[at].key == e.key
    ensures Contents(es[at := e], home) == Contents(es, home)[e.key := e.val]
  {
    KeysWritten(es, home, at, e);
    ValuesWritten(es, home, at, e);
  }

  lemma KeysWritten<V>(es: seq<Entry<V>>, home: nat -> nat, at: nat, e: Entry<V>)
    requires at < |es| && Table(es, home) && Table(es[at := e], home) && IsLive(e)
    requires !IsLive(es[at]) || es[at].key == e.key
    ensures forall k :: k in Contents(es[at := e], home) <==> k in Contents(es, home) || k == e.key
  {
    var es' := es[at := e];
    LiveKey(es', home, at);
    forall k | k in Contents(es, home) && k != e.key ensures k in Contents(es', home) {
      var i :| 0 <= i < |es| && IsLive(es[i]) && es[i].key == k;
      assert es'[i] == es[i];
      LiveKey(es', home, i);
    }
    forall k | k in Contents(es', home) && k != e.key ensures k in Contents(es, home) {
      var i :| 0 <= i < |es'| && IsLive(es'[i]) && es'[i].key == k;
      assert es'[i] == es[i];
      LiveKey(es, home, i);
    }
  }

  lemma LiveKey<V>(es: seq<Entry<V>>, home: nat -> nat, i: nat)
    requires Table(es, home) && i < |es| && IsLive(es[i])
    ensures es[i].key in Contents(es, home) && Contents(es, home)[es[i].key] == es[i].val
  {
  }

  lemma ValuesWritten<V>(es: seq<Entry<V>>, home: nat -> nat, at: nat, e: Entry<V>)
    requires at < |es| && Table(es, home) && Table(es[at := e], home) && IsLive(e)
    ensures forall k :: k in Contents(es[at := e], home) ==>
              if k == e.key then Contents(es[at := e], home)[k] == e.val
              else k in Contents(es, home) && Contents(es[at := e], home)[k] == Contents(es, home)[k]
  {
    var es' := es[at := e];
    assert es'[at] == e;
    forall k | k in Contents(es', home)
      ensures if k == e.key then Contents(es', home)[k] == e.val
              else k in Contents(es, home) && Contents(es', home)[k] == Contents(es, home)[k]
    {
      var i :| 0 <= i < |es'| && IsLive(es'[i]) && es'[i].key == k;
      assert i != at ==> es'[i] == es[i];
    }
  }

  lemma ContentsErased<V>(es: seq<Entry<V>>, home: nat -> nat, at: nat, e: Entry<V>)
    requires at < |es| && Table(es, home) && Table(es[at := e], home) && IsLive(es[at]) && !IsLive(e)
    ensures Contents(es[at := e], home) == Contents(es, home) - {es[at].key}
  {
    KeysErased(es, home, at, e);
    ValuesErased(es, home, at, e);
  }

  lemma KeysErased<V>(es: seq<Entry<V>>, home: nat -> nat, at: nat, e: Entry<V>)
    requires at < |es| && Table(es, home) && Table(es[at := e], home) && IsLive(es[at]) && !IsLive(e)
    ensures forall k :: k in Contents(es[at := e], home) <==> k in Contents(es, home) - {es[at].key}
  {
    var es' := es[at := e];
    forall k | k in Contents(es, home) && k != es[at].key ensures k in Contents(es', home) {
      var i :| 0 <= i < |es| && IsLive(es[i]) && es[i].key == k;
      assert es'[i] == es[i];
      LiveKey(es', home, i);
    }
    forall k | k in Contents(es', home) ensures k in Contents(es, home) && k != es[at].key {
      var i :| 0 <= i < |es'| && IsLive(es'[i]) && es'[i].key == k;
      assert es'[i] == es[i];
      LiveKey(es, home, i);
    }
  }

  lemma ValuesErased<V>(es: seq<Entry<V>>, home: nat -> nat, at: nat, e: Entry<V>)
    requires at < |es| && Table(es, home) && Table(es[at := e], home) && IsLive(es[at]) && !IsLive(e)
    ensures forall k :: k in Contents(es[at := e], home) ==>
              k in Contents(es, home) && Contents(es[at := e], home)[k] == Contents(es, home)[k]
  {
    var es' := es[at := e];
    forall k | k in Contents(es', home)
      ensures k in Contents(es, home) && Contents(es', home)[k] == Contents(es, home)[k]
    {
      var i :| 0 <= i < |es'| && IsLive(es'[i]) && es'[i].key == k;
      assert es'[i] == es[i];
    }
  }

  /** Deletion keeps the table and removes just the key from the map. */
  lemma EraseRefines<V>(es: seq<Entry<V>>, home: nat -> nat, key: nat)
    requires Table(es, home)
    ensures var es' := Erase(es, home(key), key);
            Table(es', home) && Contents(es', home) == Contents(es, home) - {key}
  {
    LookupFindsLive(es, home, key);
    if HasKey(es, key) {
      var at := Lookup(es, home(key), key).value;
      var e := es[at].(mark := Tombstone);
      WriteKeepsTable(es, home, at, e);
      ContentsErased(es, home, at, e);
    }
  }

  // ----- counts -----

  /** Never-used slots: lost only to new keys, at most one each; never by an update or a deletion. */
  lemma NeverSpent<V>(es: seq<Entry<V>>, home: nat -> nat, key: nat, val: V)
    requires Table(es, home) && (HasKey(es, key) || HasNever(es))
    ensures var n, n' := Count(es, NeverUsed()), Count(Put(es, home(key), key, val), NeverUsed());
            if HasKey(es, key) then n' == n else n - 1 <= n' <= n
    ensures Count(Erase(es, home(key), key), NeverUsed()) == Count(es, NeverUsed())
  {
    LookupFindsLive(es, home, key);
    if HasKey(es, key) {
      UpdateCounts(es, Lookup(es, home(key), key).value, val, NeverUsed());
    } else {
      PutNew(es, home, key, val);
      CountUpdate(es, Slot(|es|, home(key), First(es, home(key), NotLive(), 0)), Entry(key, val, Live), NeverUsed());
    }
  }

  /** Step `k` is the first on the way from `home` whose slot is not live, and it has the mark. */
  predicate FirstFreeIs<V>(es: seq<Entry<V>>, home: nat, k: int, mark: Mark)
    requires home < |es|
  {
    0 <= k < |es| && es[Slot(|es|, home, k)].mark == mark && mark != Live
    && forall j :: 0 <= j < k ==> es[Slot(|es|, home, j)].mark == Live
  }

  /** A new key goes into the first slot on its way that is not live. It spends a never-used slot exactly when no
      tombstone comes first. */
  lemma TombstoneReused<V>(es: seq<Entry<V>>, home: nat -> nat, key: nat, val: V)
    requires Table(es, home) && !HasKey(es, key) && HasNever(es)
    ensures forall k, mark | FirstFreeIs(es, home(key), k, mark) ::
              Put(es, home(key), key, val) == es[Slot(|es|, home(key), k) := Entry(key, val, Live)]
    ensures Count(Put(es, home(key), key, val), NeverUsed()) == Count(es, NeverUsed())
       <==> exists k :: FirstFreeIs(es, home(key), k, Tombstone)
  {
    var h := home(key);
    PutNew(es, home, key, val);
    var k := First(es, h, NotLive(), 0);
    var at := Slot(|es|, h, k);
    assert NotLive<V>()(es[at]) && FirstFreeIs(es, h, k, es[at].mark);
    forall j, mark | FirstFreeIs(es, h, j, mark) ensures j == k {
      FirstFreeOnce(es, h, j, k, mark, es[at].mark);
    }
    CountUpdate(es, at, Entry(key, val, Live), NeverUsed());
  }

  lemma FirstFreeOnce<V>(es: seq<Entry<V>>, home: nat, j: int, k: int, mark: Mark, mark': Mark)
    requires home < |es| && FirstFreeIs(es, home, j, mark) && FirstFreeIs(es, home, k, mark')
    ensures j == k
  {
  }

  /** An update changes no mark, a deletion one. */
  lemma UpdateCounts<V>(es: seq<Entry<V>>, at: nat, val: V, p: Entry<V> -> bool)
    requires at < |es| && p(es[at].(val := val)) == p(es[at])
    ensures Count(es[at := es[at].(val := val)], p) == Count(es, p)
    ensures Count(es[at := es[at].(mark := Tombstone)], p) + One(p(es[at]))
            == Count(es, p) + One(p(es[at].(mark := Tombstone)))
  {
    CountUpdate(es, at, es[at].(val := val), p);
    CountUpdate(es, at, es[at].(mark := Tombstone), p);
  }

  lemma HasNeverIff<V>(es: seq<Entry<V>>)
    ensures HasNever(es) <==> Count(es, NeverUsed()) > 0
  {
    CountZero(es, NeverUsed());
    assert forall e: Entry<V> :: NeverUsed<V>()(e) <==> IsNever(e);
  }

  /** The `count` field: one up for a new key, one down for a removed one. */
  lemma LiveCounted<V>(es: seq<Entry<V>>, home: nat -> nat, key: nat, val: V)
    requires Table(es, home) && (HasKey(es, key) || HasNever(es))
    ensures Count(Put(es, home(key), key, val), LiveSlot()) == Count(es, LiveSlot()) + One(!HasKey(es, key))
    ensures Count(Erase(es, home(key), key), LiveSlot()) + One(HasKey(es, key)) == Count(es, LiveSlot())
  {
    LookupFindsLive(es, home, key);
    if HasKey(es, key) {
      UpdateCounts(es, Lookup(es, home(key), key).value, val, LiveSlot());
    } else {
      PutNew(es, home, key, val);
      CountUpdate(es, Slot(|es|, home(key), First(es, home(key), NotLive(), 0)), Entry(key, val, Live), LiveSlot());
    }
  }

  /** The number of live slots is the number of keys of the map. */
  lemma LiveIsSize<V>(es: seq<Entry<V>>, home: nat -> nat)
    requires Table(es, home)
    ensures |Contents(es, home)| == Count(es, LiveSlot())
  {
    LiveKeysCounted(es);
    assert Contents(es, home).Keys == LiveKeys(es);
  }

  function LiveKeys<V>(es: seq<Entry<V>>): set<nat> {
    set i | 0 <= i < |es| && IsLive(es[i]) :: es[i].key
  }

  lemma {:induction false} LiveKeysCounted<V>(es: seq<Entry<V>>)
    requires forall i, j :: 0 <= i < j < |es| && IsLive(es[i]) && IsLive(es[j]) ==> es[i].key != es[j].key
    ensures |LiveKeys(es)| == Count(es, LiveSlot())
  {
    if es != [] {
      LiveKeysCounted(es[1..]);
      LiveKeysFirst(es);
      var rest := LiveKeys(es[1..]);
      if IsLive(es[0]) {
        assert LiveKeys(es) == rest + {es[0].key} && es[0].key !in rest;
      } else {
        assert LiveKeys(es) == rest;
      }
    }
  }

  lemma LiveKeysFirst<V>(es: seq<Entry<V>>)
    requires es != []
    ensures forall k :: k in LiveKeys(es) <==> k in LiveKeys(es[1..]) || (IsLive(es[0]) && k == es[0].key)
  {
    forall k ensures k in LiveKeys(es) <==> k in LiveKeys(es[1..]) || (IsLive(es[0]) && k == es[0].key) {
      if k in LiveKeys(es) {
        var i :| 0 <= i < |es| && IsLive(es[i]) && es[i].key == k;
        if i > 0 {
          assert es[1..][i - 1] == es[i];
        }
      }
      if k in LiveKeys(es[1..]) {
        var i :| 0 <= i < |es[1..]| && IsLive(es[1..][i]) && es[1..][i].key == k;
        assert es[i + 1] == es[1..][i];
      }
    }
  }

  // ----- runs -----

  /** 32-bit increment and decrement. */
  function Up(n: nat): nat {
    (n + 1) % 0x1_0000_0000
  }

  function Down(n: nat): nat {
    if n == 0 then 0xFFFF_FFFF else n - 1
  }

  datatype MapOp<V> = Insert(key: nat, val: V) | Delete(key: nat) | Find(key: nat)

  function Apply<V>(es: seq<Entry<V>>, home: nat -> nat, op: MapOp<V>): (r: seq<Entry<V>>)
    requires home(op.key) < |es|
    ensures |r| == |es|
  {
    match op
    case Insert(key, val) => Put(es, home(key), key, val)
    case Delete(key) => Erase(es, home(key), key)
    case Find(_) => es
  }

  function ApplyToMap<V>(m: map<nat, V>, op: MapOp<V>): map<nat, V> {
    match op
    case Insert(key, val) => m[key := val]
    case Delete(key) => m - {key}
    case Find(_) => m
  }

  function NewKey<V>(m: map<nat, V>, op: MapOp<V>): nat {
    One(op.Insert? && op.key !in m)
  }

  /** How many operations of a run insert a key that is not in the map at that point. */
  function NewKeys<V>(m: map<nat, V>, ops: seq<MapOp<V>>): nat
    decreases |ops|
  {
    if ops == [] then 0 else NewKey(m, ops[0]) + NewKeys(ApplyToMap(m, ops[0]), ops[1..])
  }

  /** The map's `count` field after an operation, in 32-bit arithmetic. */
  function CountAfter<V>(es: seq<Entry<V>>, home: nat -> nat, op: MapOp<V>, count: nat): nat
    requires home(op.key) < |es|
  {
    var found := Lookup(es, home(op.key), op.key).Some?;
    match op
    case Insert(_, _) => if found then count else Up(count)
    case Delete(_) => if found then Down(count) else count
    case Find(_) => count
  }

  /** Every operation of a run comes to an end, the table goes on standing for the map, and the count for its size. */
  ghost predicate RunsLike<V>(es: seq<Entry<V>>, home: nat -> nat, count: nat, m: map<nat, V>, ops: seq<MapOp<V>>)
    decreases |ops|
  {
    Table(es, home) && Contents(es, home) == m && |m| == Count(es, LiveSlot()) == count
    && (ops == [] ||
        (ProbeEnds(es, home(ops[0].key), ops[0].key)
         && (Lookup(es, home(ops[0].key), ops[0].key).Some? <==> ops[0].key in m)
         && RunsLike(Apply(es, home, ops[0]), home, CountAfter(es, home, ops[0], count),
                     ApplyToMap(m, ops[0]), ops[1..])))
  }

  lemma UpFits(n: nat, size: nat)
    requires n + 1 <= size < 0x1_0000_0000
    ensures Up(n) == n + 1
  {
  }

  lemma InsertCounted<V>(es: seq<Entry<V>>, home: nat -> nat, key: nat, val: V, count: nat)
    requires Table(es, home) && |es| < 0x1_0000_0000 && (HasKey(es, key) || HasNever(es))
            && count == Count(es, LiveSlot())
    ensures CountAfter(es, home, Insert(key, val), count) == Count(Put(es, home(key), key, val), LiveSlot())
  {
    LookupFindsLive(es, home, key);
    LiveCounted(es, home, key, val);
    AllCounted(Put(es, home(key), key, val), LiveSlot());
    if !HasKey(es, key) {
      UpFits(count, |es|);
    }
  }

  lemma DeleteCounted<V>(es: seq<Entry<V>>, home: nat -> nat, key: nat, count: nat)
    requires Table(es, home) && count == Count(es, LiveSlot())
    ensures CountAfter(es, home, Delete(key), count) == Count(Erase(es, home(key), key), LiveSlot())
  {
    LookupFindsLive(es, home, key);
    if HasKey(es, key) {
      LiveCounted(es, home, key, es[Lookup(es, home(key), key).value].val);
    }
  }

  /** The count field follows the number of live slots, and neither wraps. */
  lemma CountFollows<V>(es: seq<Entry<V>>, home: nat -> nat, op: MapOp<V>, count: nat)
    requires Table(es, home) && |es| < 0x1_0000_0000 && (HasKey(es, op.key) || HasNever(es))
    requires count == Count(es, LiveSlot())
    ensures CountAfter(es, home, op, count) == Count(Apply(es, home, op), LiveSlot())
  {
    match op
    case Insert(key, val) => InsertCounted(es, home, key, val, count);
    case Delete(key) => DeleteCounted(es, home, key, count);
    case Find(_) =>
  }

  /** With fewer new keys than never-used slots, however many updates, deletions and lookups there are,
      every operation ends and the table behaves as the finite map. */
  lemma {:induction false} RunRefines<V>(es: seq<Entry<V>>, home: nat -> nat, ops: seq<MapOp<V>>)
    requires Table(es, home) && |es| < 0x1_0000_0000 && NewKeys(Contents(es, home), ops) < Count(es, NeverUsed())
    ensures RunsLike(es, home, Count(es, LiveSlot()), Contents(es, home), ops)
    decreases |ops|
  {
    LiveIsSize(es, home);
    if ops != [] {
      HasNeverIff(es);
      ProbeEndsIff(es, home, ops[0].key);
      LookupFindsLive(es, home, ops[0].key);
      CountFollows(es, home, ops[0], Count(es, LiveSlot()));
      OperationRefines(es, home, ops[0]);
      RunRefines(Apply(es, home, ops[0]), home, ops[1..]);
    }
  }

  lemma OperationRefines<V>(es: seq<Entry<V>>, home: nat -> nat, op: MapOp<V>)
    requires Table(es, home) && HasNever(es)
    ensures var es' := Apply(es, home, op);
      Table(es', home) && Contents(es', home) == ApplyToMap(Contents(es, home), op)
      && Count(es', NeverUsed()) + NewKey(Contents(es, home), op) >= Count(es, NeverUsed())
  {
    LookupFindsLive(es, home, op.key);
    match op
    case Insert(key, val) =>
      PutRefines(es, home, key, val);
      NeverSpent(es, home, key, val);
    case Delete(key) =>
      EraseRefines(es, home, key);
      if HasKey(es, key) {
        NeverSpent(es, home, key, es[Lookup(es, home(key), key).value].val);
      }
    case Find(_) =>
  }

  /** On a fresh map that is every run with fewer new keys than its capacity. */
  lemma FreshRunRefines<V>(es: seq<Entry<V>>, home: nat -> nat, ops: seq<MapOp<V>>)
    requires (forall key :: home(key) < |es|) && (forall e | e in es :: IsNever(e)) && |es| < 0x1_0000_0000
    requires NewKeys(map[], ops) < |es|
    ensures RunsLike(es, home, 0, map[], ops)
  {
    AllNever(es);
    CountZero(es, LiveSlot());
    assert Table(es, home);
    assert Contents(es, home) == map[];
    RunRefines(es, home, ops);
  }

  lemma {:induction false} AllNever<V>(es: seq<Entry<V>>)
    requires forall e | e in es :: IsNever(e)
    ensures Count(es, NeverUsed()) == |es|
    ensures forall i :: 0 <= i < |es| ==> IsNever(es[i])
  {
    if es != [] {
      AllNever(es[1..]);
    }
  }

  // ----- the map in place -----

  /** A lookup that ends on a never-used slot leaves a slot for the insertion. */
  lemma RoomToInsert<V>(es: seq<Entry<V>>, home: nat, key: nat)
    requires home < |es| && ProbeEnds(es, home, key) && Lookup(es, home, key).None?
    ensures First(es, home, NotLive(), 0) < |es|
  {
    var k := First(es, home, LookupStop(key), 0);
    assert NotLive<V>()(es[Slot(|es|, home, k)]);
  }

  /** The probe loop of a lookup from slot `home`. */
  method ProbeLookup<V>(entries: array<Entry<V>>, home: nat, key: nat) returns (r: Option<nat>)
    requires PowerOfTwo(entries.Length) && home < entries.Length && ProbeEnds(entries[..], home, key)
    ensures r == Lookup(entries[..], home, key)
  {
    ghost var stop := First(entries[..], home, LookupStop(key), 0);
    var idx := home;
    ghost var k := 0;
    while entries[idx].mark != Never
      invariant k <= stop && idx == Slot(entries.Length, home, k)
      decreases entries.Length - k
    {
      if entries[idx].mark == Live && entries[idx].key == key {
        assert LookupStop<V>(key)(entries[..][idx]);
        return Some(idx);
      }
      assert !LookupStop<V>(key)(entries[..][idx]);
      NextSlot(idx, entries.Length);
      idx, k := BitAnd(idx + 1, entries.Length - 1), k + 1;
    }
    assert LookupStop<V>(key)(entries[..][idx]);
    return None;
  }

  /** The probe loop of an insertion. */
  method ProbeInsert<V>(entries: array<Entry<V>>, home: nat) returns (idx: nat)
    requires PowerOfTwo(entries.Length) && home < entries.Length
            && First(entries[..], home, NotLive(), 0) < entries.Length
    ensures idx == Slot(entries.Length, home, First(entries[..], home, NotLive(), 0))
  {
    ghost var stop := First(entries[..], home, NotLive(), 0);
    idx := home;
    ghost var k := 0;
    while entries[idx].mark == Live
      invariant k <= stop && idx == Slot(entries.Length, home, k)
      decreases entries.Length - k
    {
      assert !NotLive<V>()(entries[..][idx]);
      NextSlot(idx, entries.Length);
      idx, k := BitAnd(idx + 1, entries.Length - 1), k + 1;
    }
    assert NotLive<V>()(entries[..][idx]);
  }

  /** `struct cg_hashmap`. */
  class ProbeMap<V> {
    const hash: nat -> nat
    var entries: array?<Entry<V>>
    var capacity: nat
    var count: nat

    ghost predicate Valid()
      reads this
    {
      entries != null ==> capacity == entries.Length && PowerOfTwo(capacity)
    }

    ghost function Rows(): seq<Entry<V>>
      reads this, entries
    {
      if entries == null then [] else entries[..]
    }

    /** The slot at which probing for `key` starts. */
    function HomeSlot(key: nat): (h: nat)
      reads this
      requires Valid() && entries != null
      ensures h < entries.Length && h == hash(key) % capacity
    {
      MaskRemains(hash(key), capacity);
      BitAnd(hash(key), capacity - 1)
    }

    /** The probe for `key` comes to an end. */
    ghost predicate Ends(key: nat)
      reads this, entries
      requires Valid()
    {
      entries != null ==> ProbeEnds(Rows(), HomeSlot(key), key)
    }

    /** Binds a map to its rows, as the callers of the C map do by hand. */
    constructor (hash: nat -> nat, entries: array<Entry<V>>, count: nat)
      requires PowerOfTwo(entries.Length)
      ensures Valid() && this.entries == entries && this.hash == hash && this.count == count
              && capacity == entries.Length
    {
      this.hash, this.entries, this.capacity, this.count := hash, entries, entries.Length, count;
    }

    /** `cg_hashmap_get_key_uint`: the index of the live entry. The loop needs the probe to end. */
    method Get(key: nat) returns (r: Option<nat>)
      requires Valid() && Ends(key)
      ensures r == if entries == null then None else Lookup(Rows(), HomeSlot(key), key)
    {
      if entries == null || capacity == 0 {
        return None;
      }
      r := ProbeLookup(entries, HomeSlot(key), key);
    }

    /** `cg_hashmap_insert_key_uint`: update in place, or claim the first slot that is not live. */
    method Insert(key: nat, val: V)
      requires Valid() && Ends(key)
      modifies this`count, entries
      ensures Valid() && (entries == null ==> count == old(count))
      ensures entries != null ==>
                Rows() == Put(old(Rows()), HomeSlot(key), key, val)
                && count == if Lookup(old(Rows()), HomeSlot(key), key).Some? then old(count) else Up(old(count))
    {
      if entries == null {
        return;
      }
      var existing := Get(key);
      if existing.Some? {
        entries[existing.value] := entries[existing.value].(val := val);
        return;
      }
      RoomToInsert(Rows(), HomeSlot(key), key);
      var idx := ProbeInsert(entries, HomeSlot(key));
      entries[idx] := Entry(key, val, Live);
      count := Up(count);
    }

    /** `cg_hashmap_delete_key_uint`: the entry becomes a tombstone. */
    method Delete(key: nat)
      requires Valid() && Ends(key)
      modifies this`count, entries
      ensures Valid() && (entries == null ==> count == old(count))
      ensures entries != null ==>
                Rows() == Erase(old(Rows()), HomeSlot(key), key)
                && count == if Lookup(old(Rows()), HomeSlot(key), key).Some? then Down(old(count)) else old(count)
    {
      if entries == null {
        return;
      }
      var entry := Get(key);
      if entry.Some? {
        entries[entry.value] := entries[entry.value].(mark := Tombstone);
        count := Down(count);
      }
    }
  }
}
