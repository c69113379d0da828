/** The name-value pairs of a PARAMS record (FastCGI Specification, section 3.4)
    and the loop of `cg_fastcgi_handle_params` that walks over them. */
module NameValue {
  import opened Bytes
  import opened Orbits

  /** What one encoded length occupies: its value and the bytes it takes.
      A four-byte length that is cut short reads as 0 and takes no bytes. */
  function TakeLength(s: seq<byte>): (r: (nat, nat))
    ensures r.1 <= |s|
    ensures r.0 < 0x8000_0000
  {
    if s == [] then (0, 0)
    else if s[0] < 128 then (s[0], 1)
    else if |s| < 4 then (0, 0)
    else (BigEndian32(s[0] as int - 128, s[1], s[2], s[3]), 4)
  }

  /** `cg_fastcgi_len`: the length at `off`, and the offset behind it. */
  function LengthFrom(payload: seq<byte>, off: nat): (r: (nat, nat))
    requires off <= |payload|
    ensures off <= r.1 <= |payload| && r.0 < 0x8000_0000
  {
    var (n, used) := TakeLength(payload[off..]);
    (n, off + used)
  }

  const WRAP: nat := 0x1_0000_0000

  /** One round of the loop at an offset. A sum that wraps sends the loop on without a pair: one of its
      lengths is then in the order of 2^31, and no known name is that long. */
  datatype Round =
    | Visit(name: seq<byte>, value: seq<byte>, next: nat)
    | Wrapped(next: nat)
    | Overrun  // the pair would end after the record: the loop breaks off

  function RoundAt(payload: seq<byte>, off: nat): (r: Round)
    requires off < |payload|
    ensures !r.Overrun? ==> r.next <= |payload|
  {
    var (n, off1) := LengthFrom(payload, off);
    var (v, off2) := LengthFrom(payload, off1);
    RoundFrom(payload, off2, n, v)
  }

  function RoundFrom(payload: seq<byte>, off: nat, n: nat, v: nat): (r: Round)
    requires off <= |payload|
    ensures !r.Overrun? ==> r.next <= |payload|
  {
    var sum := off + n + v;
    if sum < WRAP then
      if sum > |payload| then Overrun else Visit(payload[off..off + n], payload[off + n..sum], sum)
    else
      if sum - WRAP > |payload| then Overrun else Wrapped(sum - WRAP)
  }

  /** The 32-bit sum wraps at most once. */
  lemma SumIs(off: nat, n: nat, v: nat)
    requires off < WRAP && n < 0x8000_0000 && v < 0x8000_0000
    ensures (off + n + v) % WRAP == if off + n + v < WRAP then off + n + v else off + n + v - WRAP
  {
  }

  /** A wrapped sum takes two lengths of almost 2^31. */
  lemma WrappedIsLong(off: nat, n: nat, v: nat)
    requires off < 0x1_0000 && n < 0x8000_0000 && v < 0x8000_0000 && off + n + v >= WRAP
    ensures n > 0x7FFF_0000 && v > 0x7FFF_0000
  {
  }

  /** A four-byte length marker with fewer than four bytes left. */
  predicate Truncated(s: seq<byte>) {
    0 < |s| < 4 && s[0] >= 128
  }

  // ----- when the loop leaves -----

  /** Where a round leads; none when it breaks off. */
  function Following(payload: seq<byte>): nat -> Option<nat> {
    (off: nat) =>
      if off >= |payload| || RoundAt(payload, off).Overrun? then None
      else Some(RoundAt(payload, off).next)
  }

  /** The offset before round `k`, counted from 0; None once the loop has left. */
  function OffsetAfter(payload: seq<byte>, off: nat, k: nat): (r: Option<nat>)
    ensures r.Some? ==> r.value < |payload|
  {
    Position(Following(payload), |payload|, off, k)
  }

  predicate LeavesWithin(payload: seq<byte>, off: nat, k: nat) {
    OffsetAfter(payload, off, k).None?
  }

  predicate SameOffset(payload: seq<byte>, i: nat, j: nat) {
    SamePosition(Following(payload), |payload|, 0, i, j)
  }

  /** The loop leaves, after whatever number of rounds, exactly when it leaves within as many as the record has
      bytes, and exactly when it never stands twice at the same offset. */
  lemma LoopExitsIff(payload: seq<byte>)
    ensures (exists k: nat :: LeavesWithin(payload, 0, k)) <==> LeavesWithin(payload, 0, |payload|)
    ensures LeavesWithin(payload, 0, |payload|) <==> forall i: nat, j: nat :: i < j ==> !SameOffset(payload, i, j)
  {
    LeavesIff(Following(payload), |payload|, 0);
    if k: nat :| LeavesWithin(payload, 0, k) {
      assert Position(Following(payload), |payload|, 0, k).None?;
    }
    forall i: nat, j: nat ensures SameOffset(payload, i, j) == SamePosition(Following(payload), |payload|, 0, i, j) {
    }
  }

  // ----- the encoding of section 3.4 -----

  /** A pair as a web server sends it; lengths below 128 may use either form. */
  datatype Pair = Pair(name: seq<byte>, value: seq<byte>, longName: bool, longValue: bool)

  predicate Encodable(p: Pair) {
    |p.name| < 0x8000_0000 && |p.value| < 0x8000_0000 &&
    (|p.name| >= 128 ==> p.longName) && (|p.value| >= 128 ==> p.longValue)
  }

  function EncodeLength(n: nat, long: bool): seq<byte>
    requires n < 0x8000_0000 && (n >= 128 ==> long)
  {
    if long then [128 + n / 0x100_0000, n / 0x1_0000 % 256, n / 0x100 % 256, n % 256] else [n]
  }

  function EncodePair(p: Pair): (r: seq<byte>)
    requires Encodable(p)
    ensures |r| >= 2 + |p.name| + |p.value|
  {
    EncodeLength(|p.name|, p.longName) + EncodeLength(|p.value|, p.longValue) + p.name + p.value
  }

  function EncodePairs(ps: seq<Pair>): seq<byte>
    requires forall p | p in ps :: Encodable(p)
  {
    if ps == [] then [] else EncodePair(ps[0]) + EncodePairs(ps[1..])
  }

  lemma BytesOfLength(n: nat)
    ensures n / 0x1_0000 == n / 0x100 / 0x100 && n / 0x100_0000 == n / 0x1_0000 / 0x100
    ensures n == n / 0x100 * 0x100 + n % 0x100
  {
  }

  lemma BigEndianOfLength(n: nat)
    ensures BigEndian32(n / 0x100_0000, n / 0x1_0000 % 256, n / 0x100 % 256, n % 256) == n
  {
    BytesOfLength(n);
    BytesOfLength(n / 0x100);
    BytesOfLength(n / 0x1_0000);
  }

  lemma TakeLong(a: byte, b: byte, c: byte, d: byte, tail: seq<byte>)
    requires a >= 128
    ensures TakeLength([a, b, c, d] + tail) == (BigEndian32(a as int - 128, b, c, d), 4)
  {
    var s := [a, b, c, d] + tail;
    assert s[0] == a && s[1] == b && s[2] == c && s[3] == d;
  }

  lemma LengthRoundTrip(n: nat, long: bool, tail: seq<byte>)
    requires n < 0x8000_0000 && (n >= 128 ==> long)
    ensures TakeLength(EncodeLength(n, long) + tail) == (n, |EncodeLength(n, long)|)
  {
    if long {
      BigEndianOfLength(n);
      TakeLong(128 + n / 0x100_0000, n / 0x1_0000 % 256, n / 0x100 % 256, n % 256, tail);
    }
  }

  // ----- records without a wrapped sum -----

  predicate VisitsWrap(payload: seq<byte>, k: nat) {
    var x := OffsetAfter(payload, 0, k);
    x.Some? && RoundAt(payload, x.value).Wrapped?
  }

  predicate VisitsTruncated(payload: seq<byte>, k: nat) {
    var x := OffsetAfter(payload, 0, k);
    x.Some? && Truncated(payload[x.value..])
  }

  /** As long as no sum wraps, the loop leaves exactly when it never meets a truncated length marker. */
  lemma NoWrapExitsIff(payload: seq<byte>)
    requires |payload| < WRAP && forall k: nat :: !VisitsWrap(payload, k)
    ensures LeavesWithin(payload, 0, |payload|) <==> forall k: nat :: !VisitsTruncated(payload, k)
  {
    if k: nat :| VisitsTruncated(payload, k) {
      TruncatedStays(payload, OffsetAfter(payload, 0, k).value);
      PositionAdd(Following(payload), |payload|, 0, k, 1);
      RepeatSpins(Following(payload), |payload|, 0, k, k + 1, |payload|);
    } else {
      forall i: nat, j: nat | i < j ensures !SamePosition(Following(payload), |payload|, 0, i, j) {
        Climbs(payload, i, j);
      }
      AllDiffer(Following(payload), |payload|, 0);
    }
  }

  /** At a truncated marker a round reads two empty strings and goes nowhere. */
  lemma TruncatedStays(payload: seq<byte>, off: nat)
    requires off < |payload| < WRAP && Truncated(payload[off..])
    ensures RoundAt(payload, off) == Visit([], [], off)
  {
  }

  lemma RoundClimbs(payload: seq<byte>, off: nat)
    requires off < |payload| && !Truncated(payload[off..]) && RoundAt(payload, off).Visit?
    ensures RoundAt(payload, off).next > off
  {
  }

  lemma {:induction false} Climbs(payload: seq<byte>, i: nat, j: nat)
    requires i < j && Smooth(payload)
    ensures Below(OffsetAfter(payload, 0, i), OffsetAfter(payload, 0, j))
    decreases j
  {
    if i < j - 1 {
      Climbs(payload, i, j - 1);
    }
    ClimbsOnce(payload, j - 1);
  }

  /** The loop meets no wrapped sum and no truncated marker. */
  ghost predicate Smooth(payload: seq<byte>) {
    forall k: nat :: !VisitsWrap(payload, k) && !VisitsTruncated(payload, k)
  }

  predicate Below(x: Option<nat>, y: Option<nat>) {
    y.Some? ==> x.Some? && x.value < y.value
  }

  lemma ClimbsOnce(payload: seq<byte>, k: nat)
    requires Smooth(payload)
    ensures Below(OffsetAfter(payload, 0, k), OffsetAfter(payload, 0, k + 1))
  {
    OneMore(Following(payload), |payload|, 0, k);
    assert !VisitsWrap(payload, k) && !VisitsTruncated(payload, k);
    if OffsetAfter(payload, 0, k + 1).Some? {
      RoundClimbs(payload, OffsetAfter(payload, 0, k).value);
    }
  }

  /** A wrapped sum need not spin: this record is left in its second round, behind a wrap. */
  lemma WrapCanLeave()
    ensures var payload: seq<byte> := [255, 255, 255, 255, 255, 255, 255, 255, 0, 0, 0];
      RoundAt(payload, 0) == Wrapped(6) && RoundAt(payload, 6).Overrun? && LeavesWithin(payload, 0, 2)
  {
    var payload: seq<byte> := [255, 255, 255, 255, 255, 255, 255, 255, 0, 0, 0];
    assert LengthFrom(payload, 0) == (0x7FFF_FFFF, 4);
    assert LengthFrom(payload, 4) == (0x7FFF_FFFF, 8);
    assert LengthFrom(payload, 6) == (0x7FFF_0000, 10);
    assert LengthFrom(payload, 10) == (0, 11);
    assert OffsetAfter(payload, 6, 1).None?;
  }

  /** And it can spin without any truncated marker: this record's first round leads back to its start. */
  lemma WrapCanSpin(k: nat)
    ensures var payload: seq<byte> := [255, 255, 255, 255, 255, 255, 255, 249];
      OffsetAfter(payload, 0, k) == Some(0) && !Truncated(payload)
  {
    var payload: seq<byte> := [255, 255, 255, 255, 255, 255, 255, 249];
    assert LengthFrom(payload, 0) == (0x7FFF_FFFF, 4);
    assert LengthFrom(payload, 4) == (0x7FFF_FFF9, 8);
    assert RoundAt(payload, 0) == Wrapped(0);
    if k > 0 {
      WrapCanSpin(k - 1);
    }
  }

  // ----- whole pairs -----

  lemma Suffix(s: seq<byte>, off: nat, head: seq<byte>, tail: seq<byte>)
    requires off <= |s| && s[off..] == head + tail
    ensures off + |head| <= |s| && s[off + |head|..] == tail && s[off..off + |head|] == head
  {
    assert s[off..][|head|..] == tail;
    assert s[off..][..|head|] == head;
  }

  lemma Regroup(a: seq<byte>, b: seq<byte>, c: seq<byte>, d: seq<byte>, e: seq<byte>)
    ensures a + b + c + d + e == a + (b + (c + (d + e)))
  {
  }

  /** A round at an encoded pair visits its name and value and ends behind it. */
  lemma PairRoundTrip(payload: seq<byte>, off: nat, p: Pair, tail: seq<byte>)
    requires Encodable(p) && off <= |payload| < WRAP && payload[off..] == EncodePair(p) + tail
    ensures var next := off + |EncodePair(p)|;
      off < next <= |payload| && payload[next..] == tail && RoundAt(payload, off) == Visit(p.name, p.value, next)
  {
    var a, b := EncodeLength(|p.name|, p.longName), EncodeLength(|p.value|, p.longValue);
    Regroup(a, b, p.name, p.value, tail);
    PartsRoundTrip(payload, off, p, a, b, tail);
  }

  lemma PartsRoundTrip(payload: seq<byte>, off: nat, p: Pair, a: seq<byte>, b: seq<byte>, tail: seq<byte>)
    requires Encodable(p) && off <= |payload| < WRAP && payload[off..] == a + (b + (p.name + (p.value + tail)))
    requires a == EncodeLength(|p.name|, p.longName) && b == EncodeLength(|p.value|, p.longValue)
    ensures var next := off + |a| + |b| + |p.name| + |p.value|;
      next <= |payload| && payload[next..] == tail && RoundAt(payload, off) == Visit(p.name, p.value, next)
  {
    var rest := p.name + (p.value + tail);
    var off1, off2 := off + |a|, off + |a| + |b|;
    LengthThere(payload, off, |p.name|, p.longName, b + rest);
    LengthThere(payload, off1, |p.value|, p.longValue, rest);
    RoundIs(payload, off, |p.name|, off1, |p.value|, off2);
    NameAndValue(payload, off2, p.name, p.value, tail);
  }

  lemma RoundIs(payload: seq<byte>, off: nat, n: nat, off1: nat, v: nat, off2: nat)
    requires off < off1 <= |payload| && off2 <= |payload|
    requires LengthFrom(payload, off) == (n, off1) && LengthFrom(payload, off1) == (v, off2)
    ensures RoundAt(payload, off) == RoundFrom(payload, off2, n, v)
  {
  }

  lemma LengthThere(payload: seq<byte>, off: nat, n: nat, long: bool, tail: seq<byte>)
    requires n < 0x8000_0000 && (n >= 128 ==> long) && off <= |payload|
            && payload[off..] == EncodeLength(n, long) + tail
    ensures LengthFrom(payload, off) == (n, off + |EncodeLength(n, long)|)
    ensures payload[off + |EncodeLength(n, long)|..] == tail
  {
    LengthRoundTrip(n, long, tail);
    Suffix(payload, off, EncodeLength(n, long), tail);
  }

  lemma NameAndValue(s: seq<byte>, off: nat, name: seq<byte>, value: seq<byte>, tail: seq<byte>)
    requires off <= |s| < WRAP && s[off..] == name + (value + tail)
    ensures off + |name| + |value| <= |s| && s[off + |name| + |value|..] == tail
    ensures RoundFrom(s, off, |name|, |value|) == Visit(name, value, off + |name| + |value|)
  {
    Suffix(s, off, name, value + tail);
    Suffix(s, off + |name|, value, tail);
  }

  lemma {:induction false} PairsAreLong(ps: seq<Pair>)
    requires forall p | p in ps :: Encodable(p)
    ensures |ps| <= |EncodePairs(ps)|
  {
    if ps != [] {
      PairsAreLong(ps[1..]);
    }
  }
}
