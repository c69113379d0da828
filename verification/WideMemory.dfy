/** The 32-byte-block routines of src/arch/x86_64/cg_util.asm and src/util/cg_util.c.
    `mem` is a stretch of memory; the address of `mem[i]` is `base + i`. */
module WideMemory {
  import opened Bytes

  const BLOCK := 32

  /** Number of single bytes until an address is block-aligned. */
  function Prologue(addr: nat): (r: nat)
    ensures r < BLOCK && (addr + r) % BLOCK == 0
  {
    if addr % BLOCK == 0 then 0 else BLOCK - addr % BLOCK
  }

  /** Memory with the `|text|` bytes at `dst` replaced. */
  function Write(m: seq<byte>, dst: nat, text: seq<byte>): (r: seq<byte>)
    requires dst + |text| <= |m|
    ensures |r| == |m|
    ensures forall a :: 0 <= a < |m| ==> r[a] == if dst <= a < dst + |text| then text[a - dst] else m[a]
  {
    seq(|m|, a requires 0 <= a < |m| => if dst <= a < dst + |text| then text[a - dst] else m[a])
  }

  /** The exact move of `n` bytes. */
  function Moved(m: seq<byte>, dst: nat, src: nat, n: nat): (r: seq<byte>)
    requires dst + n <= |m| && src + n <= |m|
    ensures |r| == |m|
    ensures forall a :: 0 <= a < |m| ==> r[a] == if dst <= a < dst + n then m[src + (a - dst)] else m[a]
  {
    Write(m, dst, m[src..src + n])
  }

  /** Bytes left for the closing block of a copy or fill of `n >= 32` bytes. */
  function Tail(addr: nat, n: nat): (t: nat)
    requires n >= BLOCK
    ensures t < BLOCK
  {
    (n - Prologue(addr)) % BLOCK
  }

  /** What the copy leaves behind: the closing block is read after the others were written. */
  function Copied(m: seq<byte>, base: nat, dst: nat, src: nat, n: nat): seq<byte>
    requires dst + n <= |m| && src + n <= |m|
  {
    if n < BLOCK then Moved(m, dst, src, n)
    else Closed(Moved(m, dst, src, n - Tail(base + dst, n)), dst, src, n, n - Tail(base + dst, n))
  }

  /** Memory with `done` of the bytes moved, after the closing block if one is left to do. */
  function Closed(w: seq<byte>, dst: nat, src: nat, n: nat, done: nat): seq<byte>
    requires BLOCK <= n && dst + n <= |w| && src + n <= |w|
  {
    if done < n then Write(w, dst + n - BLOCK, w[src + n - BLOCK..src + n]) else w
  }

  lemma WriteExtends(m: seq<byte>, dst: nat, src: nat, len: nat, k: nat)
    requires dst + len + k <= |m| && src + len + k <= |m|
    ensures Write(Moved(m, dst, src, len), dst + len, m[src + len..src + len + k]) == Moved(m, dst, src, len + k)
  {
  }

  /** One block store. */
  method StoreBlock(mem: array<byte>, at: nat, ymm: seq<byte>)
    requires |ymm| == BLOCK && at + BLOCK <= mem.Length
    modifies mem
    ensures mem[..] == Write(old(mem[..]), at, ymm)
  {
    forall j | 0 <= j < BLOCK {
      mem[at + j] := ymm[j];
    }
  }

  method CopyAvx2(mem: array<byte>, base: nat, dst: nat, src: nat, n: nat)
    requires dst + n <= mem.Length && src + n <= mem.Length
    requires dst <= src || src + n <= dst
    modifies mem
    ensures mem[..] == Copied(old(mem[..]), base, dst, src, n)
  {
    if n < BLOCK {
      ghost var m := mem[..];
      assert Moved(m, dst, src, 0) == m;
      CopyBytes(mem, m, dst, src, 0, n);
    } else {
      CopyWide(mem, base, dst, src, n);
    }
  }

  method CopyWide(mem: array<byte>, base: nat, dst: nat, src: nat, n: nat)
    requires BLOCK <= n && dst + n <= mem.Length && src + n <= mem.Length
    requires dst <= src || src + n <= dst
    modifies mem
    ensures mem[..] == Copied(old(mem[..]), base, dst, src, n)
  {
    ghost var m := mem[..];
    assert Moved(m, dst, src, 0) == m;
    CopyBytes(mem, m, dst, src, 0, Prologue(base + dst));
    var done := CopyBlocks(mem, m, base, dst, src, n);
    CloseCopy(mem, dst, src, n, done);
  }

  method CloseCopy(mem: array<byte>, dst: nat, src: nat, n: nat, done: nat)
    requires BLOCK <= n && dst + n <= mem.Length && src + n <= mem.Length
    modifies mem
    ensures mem[..] == Closed(old(mem[..]), dst, src, n, done)
  {
    if done < n {
      CopyLastBlock(mem, dst, src, n);
    }
  }

  /** The closing block, which reaches back over bytes already copied. */
  method CopyLastBlock(mem: array<byte>, dst: nat, src: nat, n: nat)
    requires n >= BLOCK && dst + n <= mem.Length && src + n <= mem.Length
    modifies mem
    ensures mem[..] == Write(old(mem[..]), dst + n - BLOCK, old(mem[..])[src + n - BLOCK..src + n])
  {
    MoveBlock(mem, dst + n - BLOCK, src + n - BLOCK);
  }

  /** The byte loops of the copy. */
  method CopyBytes(mem: array<byte>, ghost m: seq<byte>, dst: nat, src: nat, from: nat, to: nat)
    requires from <= to && |m| == mem.Length && dst + to <= |m| && src + to <= |m|
    requires dst <= src || src + to <= dst
    requires mem[..] == Moved(m, dst, src, from)
    modifies mem
    ensures mem[..] == Moved(m, dst, src, to)
  {
    var done := from;
    while done < to
      invariant from <= done <= to && mem[..] == Moved(m, dst, src, done)
    {
      assert mem[src + done] == mem[..][src + done] == m[src + done];
      mem[dst + done] := mem[src + done];
      assert mem[..] == Write(Moved(m, dst, src, done), dst + done, m[src + done..src + done + 1]);
      WriteExtends(m, dst, src, done, 1);
      done := done + 1;
    }
  }

  /** The block loop of the copy: it starts aligned and leaves less than a block. */
  method CopyBlocks(mem: array<byte>, ghost m: seq<byte>, base: nat, dst: nat, src: nat, n: nat) returns (done: nat)
    requires n >= BLOCK && |m| == mem.Length && dst + n <= |m| && src + n <= |m|
    requires dst <= src || src + n <= dst
    requires mem[..] == Moved(m, dst, src, Prologue(base + dst))
    modifies mem
    ensures done == n - Tail(base + dst, n) && mem[..] == Moved(m, dst, src, done)
  {
    done := Prologue(base + dst);
    ghost var rounds := 0;
    while n - done >= BLOCK
      invariant done == Prologue(base + dst) + BLOCK * rounds && done <= n
      invariant mem[..] == Moved(m, dst, src, done)
    {
      AlignedStore(base + dst, rounds);
      CopyBlock(mem, m, dst, src, done);
      done, rounds := done + BLOCK, rounds + 1;
    }
    TailLeft(n - Prologue(base + dst), rounds);
  }

  /** One block: an unaligned load and an aligned store. */
  method CopyBlock(mem: array<byte>, ghost m: seq<byte>, dst: nat, src: nat, done: nat)
    requires |m| == mem.Length && dst + done + BLOCK <= |m| && src + done + BLOCK <= |m|
    requires dst <= src || src + done + BLOCK <= dst
    requires mem[..] == Moved(m, dst, src, done)
    modifies mem
    ensures mem[..] == Moved(m, dst, src, done + BLOCK)
  {
    BlockMoved(m, mem[..], dst, src, done);
    MoveBlock(mem, dst + done, src + done);
  }

  method MoveBlock(mem: array<byte>, dst: nat, src: nat)
    requires dst + BLOCK <= mem.Length && src + BLOCK <= mem.Length
    modifies mem
    ensures mem[..] == Write(old(mem[..]), dst, old(mem[..])[src..src + BLOCK])
  {
    var ymm := mem[..][src..src + BLOCK];
    StoreBlock(mem, dst, ymm);
  }

  lemma BlockMoved(m: seq<byte>, w: seq<byte>, dst: nat, src: nat, done: nat)
    requires dst + done + BLOCK <= |m| && src + done + BLOCK <= |m| && (dst <= src || src + done + BLOCK <= dst)
    requires w == Moved(m, dst, src, done)
    ensures Write(w, dst + done, w[src + done..src + done + BLOCK]) == Moved(m, dst, src, done + BLOCK)
  {
    BlockUnread(m, dst, src, done);
    WriteExtends(m, dst, src, done, BLOCK);
  }

  lemma BlockUnread(m: seq<byte>, dst: nat, src: nat, done: nat)
    requires dst + done <= |m| && src + done + BLOCK <= |m| && (dst <= src || src + done + BLOCK <= dst)
    ensures Moved(m, dst, src, done)[src + done..src + done + BLOCK] == m[src + done..src + done + BLOCK]
  {
  }

  /** The address of every block store is a multiple of 32, as the aligned store demands. */
  lemma AlignedStore(addr: nat, rounds: nat)
    ensures (addr + Prologue(addr) + BLOCK * rounds) % BLOCK == 0
  {
  }

  lemma TailLeft(n: nat, rounds: nat)
    requires BLOCK * rounds <= n < BLOCK * rounds + BLOCK
    ensures n - BLOCK * rounds == n % BLOCK
  {
  }

  /** The guard under which sliding `n` bytes down from `src` to `dst` is exact. */
  predicate SlideExact(base: nat, dst: nat, src: nat, n: nat) {
    n < BLOCK || Tail(base + dst, n) == 0 || src + n <= dst || src == dst || src - dst >= BLOCK - Tail(base + dst, n)
  }

  lemma CopyExactWhen(m: seq<byte>, base: nat, dst: nat, src: nat, n: nat)
    requires dst + n <= |m| && src + n <= |m| && (dst <= src || src + n <= dst)
    requires SlideExact(base, dst, src, n)
    ensures Copied(m, base, dst, src, n) == Moved(m, dst, src, n)
  {
    if n >= BLOCK {
      var done := n - Tail(base + dst, n);
      ClosedExact(m, Moved(m, dst, src, done), dst, src, n, done);
    }
  }

  lemma ClosedExact(m: seq<byte>, w: seq<byte>, dst: nat, src: nat, n: nat, done: nat)
    requires dst + n <= |m| && src + n <= |m| && (dst <= src || src + n <= dst) && BLOCK <= n && n - BLOCK <= done <= n
    requires w == Moved(m, dst, src, done)
            && (done == n || src + n <= dst || src == dst || src - dst >= BLOCK - (n - done))
    ensures Closed(w, dst, src, n, done) == Moved(m, dst, src, n)
  {
    if done < n {
      TailUnread(m, dst, src, n, n - done);
      ClosingBlock(m, dst, src, n, done);
    }
  }

  lemma TailUnread(m: seq<byte>, dst: nat, src: nat, n: nat, t: nat)
    requires dst + n <= |m| && src + n <= |m| && (dst <= src || src + n <= dst) && t <= BLOCK <= n
    requires src + n <= dst || src == dst || src - dst >= BLOCK - t
    ensures Moved(m, dst, src, n - t)[src + n - BLOCK..src + n] == m[src + n - BLOCK..src + n]
  {
    var w := Moved(m, dst, src, n - t);
    assert forall a :: src + n - BLOCK <= a < src + n ==> w[a] == m[a];
  }

  lemma ClosingBlock(m: seq<byte>, dst: nat, src: nat, n: nat, len: nat)
    requires dst + n <= |m| && src + n <= |m| && BLOCK <= n && n - BLOCK <= len <= n
    ensures Write(Moved(m, dst, src, len), dst + n - BLOCK, m[src + n - BLOCK..src + n]) == Moved(m, dst, src, n)
  {
    var w, block := Moved(m, dst, src, len), m[src + n - BLOCK..src + n];
    var r := Write(w, dst + n - BLOCK, block);
    forall a | 0 <= a < |m| ensures r[a] == Moved(m, dst, src, n)[a] {
      if dst + n - BLOCK <= a < dst + n {
        assert r[a] == block[a - (dst + n - BLOCK)] == m[src + (a - dst)];
      }
    }
  }

  predicate MovesExactly(m: seq<byte>, base: nat, dst: nat, src: nat, n: nat)
    requires dst + n <= |m| && src + n <= |m|
  {
    Copied(m, base, dst, src, n) == Moved(m, dst, src, n)
  }

  /** The copy is the exact move on every memory precisely under that guard. */
  lemma CopyExactIff(size: nat, base: nat, dst: nat, src: nat, n: nat)
    requires dst + n <= size && src + n <= size && (dst <= src || src + n <= dst)
    ensures (forall m: seq<byte> | |m| == size :: MovesExactly(m, base, dst, src, n)) <==> SlideExact(base, dst, src, n)
  {
    if SlideExact(base, dst, src, n) {
      forall m: seq<byte> | |m| == size ensures MovesExactly(m, base, dst, src, n) {
        CopyExactWhen(m, base, dst, src, n);
      }
    } else {
      var m := OverlapWitness(size, base, dst, src, n);
      assert !MovesExactly(m, base, dst, src, n);
    }
  }

  lemma OverlapWitness(size: nat, base: nat, dst: nat, src: nat, n: nat) returns (m: seq<byte>)
    requires dst + n <= size && src + n <= size && dst <= src && !SlideExact(base, dst, src, n)
    ensures |m| == size && !MovesExactly(m, base, dst, src, n)
  {
    m := seq(size, a => if a == src + (src - dst) + n - BLOCK then 1 else 0);
    OverlapShows(m, base, dst, src, n);
  }

  /** With a shorter slide distance the closing block picks up a byte that was already overwritten. */
  lemma OverlapShows(m: seq<byte>, base: nat, dst: nat, src: nat, n: nat)
    requires dst + n <= |m| && src + n <= |m| && dst < src && !SlideExact(base, dst, src, n)
    requires m[src + n - BLOCK] == 0 && m[src + (src - dst) + n - BLOCK] == 1
    ensures !MovesExactly(m, base, dst, src, n) && Copied(m, base, dst, src, n)[dst + n - BLOCK] == 1
  {
    var w := Moved(m, dst, src, n - Tail(base + dst, n));
    assert w[src + n - BLOCK] == m[src + (src - dst) + n - BLOCK];
    assert Copied(m, base, dst, src, n)[dst + n - BLOCK] == w[src + n - BLOCK];
    assert Moved(m, dst, src, n)[dst + n - BLOCK] == m[src + n - BLOCK];
  }

  // ----- sliding to the front -----

  /** The last `left` bytes of a buffer after the copy has moved them to its front. */
  function Slid(m: seq<byte>, base: nat, left: nat): (r: seq<byte>)
    requires left <= |m|
    ensures |r| == left
  {
    Copied(m, base, 0, |m| - left, left)[..left]
  }

  /** What is behind the bytes that move has no part in the copy. */
  lemma CopiedInFront(m: seq<byte>, base: nat, src: nat, n: nat)
    requires src + n <= |m|
    ensures Copied(m, base, 0, src, n)[..n] == Slid(m[..src + n], base, n)
  {
    var t := m[..src + n];
    if n < BLOCK || Tail(base, n) == 0 {
      MovedPrefix(m, src, n, src + n);
    } else {
      var k := n - Tail(base, n);
      MovedPrefix(m, src, k, src + n);
      ClosedPrefix(m, t, Moved(m, 0, src, k), Moved(t, 0, src, k), base, src, n);
    }
  }

  lemma ClosedPrefix(m: seq<byte>, t: seq<byte>, w: seq<byte>, v: seq<byte>, base: nat, src: nat, n: nat)
    requires BLOCK <= n && src + n <= |m| && t == m[..src + n] && Tail(base, n) != 0
    requires w == Moved(m, 0, src, n - Tail(base, n)) && v == Moved(t, 0, src, n - Tail(base, n)) && v == w[..src + n]
    ensures Copied(m, base, 0, src, n)[..n] == Copied(t, base, 0, src, n)[..n]
  {
    PrefixWritten(w, v, src + n, n - BLOCK, src + n - BLOCK);
  }

  lemma MovedPrefix(m: seq<byte>, src: nat, k: nat, size: nat)
    requires src + k <= size <= |m|
    ensures Moved(m, 0, src, k)[..size] == Moved(m[..size], 0, src, k)
  {
  }

  lemma PrefixWritten(w: seq<byte>, v: seq<byte>, size: nat, dst: nat, src: nat)
    requires size <= |w| && v == w[..size] && dst + BLOCK <= size && src + BLOCK <= size
    ensures Write(w, dst, w[src..src + BLOCK])[..dst + BLOCK] == Write(v, dst, v[src..src + BLOCK])[..dst + BLOCK]
  {
    assert w[src..src + BLOCK] == v[src..src + BLOCK];
  }

  predicate SlidesExactly(m: seq<byte>, base: nat, left: nat)
    requires left <= |m|
  {
    Slid(m, base, left) == m[|m| - left..]
  }

  lemma SlidWhenExact(m: seq<byte>, base: nat, left: nat)
    requires left <= |m| && SlideExact(base, 0, |m| - left, left)
    ensures SlidesExactly(m, base, left)
  {
    var src := |m| - left;
    CopyExactWhen(m, base, 0, src, left);
    MovedInFront(m, Copied(m, base, 0, src, left), src, left);
  }

  lemma MovedInFront(m: seq<byte>, c: seq<byte>, src: nat, n: nat)
    requires src + n == |m| && c == Moved(m, 0, src, n)
    ensures c[..n] == m[src..]
  {
  }

  /** A leftover is slid to the front unchanged, whatever it is, precisely under the guard of the copy. */
  lemma SlideExactIff(size: nat, base: nat, left: nat)
    requires left <= size
    ensures (forall m: seq<byte> | |m| == size :: SlidesExactly(m, base, left))
            <==> SlideExact(base, 0, size - left, left)
  {
    if SlideExact(base, 0, size - left, left) {
      forall m: seq<byte> | |m| == size ensures SlidesExactly(m, base, left) {
        SlidWhenExact(m, base, left);
      }
    } else {
      var m := SlideWitness(size, base, left);
      assert !SlidesExactly(m, base, left);
    }
  }

  lemma SlideWitness(size: nat, base: nat, left: nat) returns (m: seq<byte>)
    requires left <= size && !SlideExact(base, 0, size - left, left)
    ensures |m| == size && !SlidesExactly(m, base, left)
  {
    var src := size - left;
    m := seq(size, a => if a == src + src + left - BLOCK then 1 else 0);
    SlideShows(m, base, left);
  }

  lemma SlideShows(m: seq<byte>, base: nat, left: nat)
    requires left <= |m| && !SlideExact(base, 0, |m| - left, left)
    requires var src := |m| - left; m[src + left - BLOCK] == 0 && m[src + src + left - BLOCK] == 1
    ensures !SlidesExactly(m, base, left)
  {
    var src := |m| - left;
    OverlapShows(m, base, 0, src, left);
    assert Slid(m, base, left)[left - BLOCK] == 1;
    assert m[src..][left - BLOCK] == m[src + left - BLOCK];
  }

  // ----- fill -----

  function Filled(m: seq<byte>, dst: nat, val: byte, n: nat): (r: seq<byte>)
    requires dst + n <= |m|
    ensures |r| == |m| && forall a :: 0 <= a < |m| ==> r[a] == if dst <= a < dst + n then val else m[a]
  {
    Write(m, dst, seq(n, _ => val))
  }

  /** `memset`: exactly the `n` bytes at `dst` become the low byte of `val`. */
  method FillAvx2(mem: array<byte>, base: nat, dst: nat, val: nat, n: nat)
    requires dst + n <= mem.Length
    modifies mem
    ensures mem[..] == Filled(old(mem[..]), dst, val % 256, n)
    ensures forall a :: 0 <= a < mem.Length ==> mem[a] == if dst <= a < dst + n then val % 256 else old(mem[a])
  {
    ghost var m := mem[..];
    var v: byte := val % 256;
    assert Filled(m, dst, v, 0) == m;
    if n < BLOCK {
      FillBytes(mem, m, dst, v, n);
    } else {
      FillBytes(mem, m, dst, v, Prologue(base + dst));
      var done := Prologue(base + dst);
      ghost var rounds := 0;
      while n - done >= BLOCK
        invariant done == Prologue(base + dst) + BLOCK * rounds && done <= n
        invariant mem[..] == Filled(m, dst, v, done)
      {
        AlignedStore(base + dst, rounds);
        StoreBlock(mem, dst + done, seq(BLOCK, _ => v));
        FillExtends(m, dst, v, done, done, BLOCK);
        done, rounds := done + BLOCK, rounds + 1;
      }
      if done < n {
        StoreBlock(mem, dst + n - BLOCK, seq(BLOCK, _ => v));
        FillExtends(m, dst, v, done, n - BLOCK, BLOCK);
      }
    }
  }

  method FillBytes(mem: array<byte>, ghost m: seq<byte>, dst: nat, v: byte, n: nat)
    requires |m| == mem.Length && dst + n <= |m| && mem[..] == m
    modifies mem
    ensures mem[..] == Filled(m, dst, v, n)
  {
    var done := 0;
    while done < n
      invariant done <= n && mem[..] == Filled(m, dst, v, done)
    {
      mem[dst + done] := v;
      assert mem[..] == Write(Filled(m, dst, v, done), dst + done, [v]);
      FillExtends(m, dst, v, done, done, 1);
      done := done + 1;
    }
  }

  lemma FillExtends(m: seq<byte>, dst: nat, v: byte, len: nat, at: nat, k: nat)
    requires at <= len <= at + k && dst + at + k <= |m|
    ensures Write(Filled(m, dst, v, len), dst + at, seq(k, _ => v)) == Filled(m, dst, v, at + k)
    ensures k == 1 ==> [v] == seq(k, _ => v)
  {
  }

  // ----- scans -----

  /** Zero positions of a block, as the compare-and-movemask pair yields them. */
  function ZeroMask(block: seq<byte>): (mask: seq<bool>)
    ensures |mask| == |block| && forall j :: 0 <= j < |block| ==> (mask[j] <==> block[j] == 0)
  {
    seq(|block|, j requires 0 <= j < |block| => block[j] == 0)
  }

  /** Index of the lowest set bit. */
  function LowestBit(mask: seq<bool>): (k: nat)
    requires true in mask
    ensures k < |mask| && mask[k] && forall j :: 0 <= j < k ==> !mask[j]
  {
    if mask[0] then 0 else 1 + LowestBit(mask[1..])
  }

  /** First zero among `mem[from..to)`, found in the block mask of `mem[at..at + 32)` shifted to `from`. */
  method ScanBlock(mem: array<byte>, at: nat, from: nat) returns (hit: Option<nat>)
    requires at <= from < at + BLOCK <= mem.Length
    ensures hit.Some? ==> from <= hit.value < at + BLOCK && mem[hit.value] == 0
    ensures hit.Some? ==> forall i :: from <= i < hit.value ==> mem[i] != 0
    ensures hit.None? ==> forall i :: from <= i < at + BLOCK ==> mem[i] != 0
  {
    var block := mem[at..at + BLOCK];
    var mask := ZeroMask(block)[from - at..];
    assert forall i :: from <= i < at + BLOCK ==> block[i - at] == mem[i] && (mask[i - from] <==> block[i - at] == 0);
    if true in mask {
      hit := Some(from + LowestBit(mask));
    } else {
      forall i | from <= i < at + BLOCK ensures mem[i] != 0 {
        assert mask[i - from] in mask;
      }
      hit := None;
    }
  }

  /** `strlen` by aligned blocks: memory is whole blocks and the string at `p` ends in it. */
  method StrlenAvx2(mem: array<byte>, base: nat, p: nat) returns (len: nat)
    requires base % BLOCK == 0 && mem.Length % BLOCK == 0
    requires p < mem.Length && 0 in mem[p..]
    ensures p + len < mem.Length && mem[p + len] == 0 && mem[p..p + len] == CString(mem[p..])
  {
    var z := FirstZeroFrom(mem, p);
    len := z - p;
    StringEnds(mem[..], p, z);
    assert mem[..][p..] == mem[p..] && mem[..][p..z] == mem[p..z];
  }

  /** The block loop of the scan. */
  method FirstZeroFrom(mem: array<byte>, p: nat) returns (z: nat)
    requires mem.Length % BLOCK == 0 && p < mem.Length && 0 in mem[p..]
    ensures p <= z < mem.Length && mem[z] == 0 && forall i :: p <= i < z ==> mem[i] != 0
  {
    ghost var end :| p <= end < mem.Length && mem[end] == 0;
    var at := p - p % BLOCK;
    BlockFits(mem.Length, p, at);
    var hit := ScanBlock(mem, at, p);
    while hit.None?
      invariant at % BLOCK == 0 && at <= end && p < at + BLOCK <= mem.Length
      invariant hit.Some? ==> p <= hit.value < mem.Length && mem[hit.value] == 0
      invariant forall i :: p <= i < (if hit.Some? then hit.value else at + BLOCK) ==> mem[i] != 0
      decreases mem.Length - at, hit.None?
    {
      at := at + BLOCK;
      BlockFits(mem.Length, end, at);
      hit := ScanBlock(mem, at, at);
    }
    z := hit.value;
  }

  lemma StringEnds(m: seq<byte>, p: nat, z: nat)
    requires p <= z < |m| && m[z] == 0 && forall i :: p <= i < z ==> m[i] != 0
    ensures CString(m[p..]) == m[p..z]
  {
    assert m[p..][..z - p] == m[p..z];
    BeforeUnique(m[p..], 0, z - p);
  }

  /** An aligned block that starts before the end of whole blocks lies inside. */
  lemma BlockFits(length: nat, p: nat, at: nat)
    requires length % BLOCK == 0 && at <= p < length && at % BLOCK == 0
    ensures at + BLOCK <= length
  {
  }

  /** First position at which `s` and `t` differ; `|s|` when they are equal. */
  function FirstDifference(s: seq<byte>, t: seq<byte>): (k: nat)
    requires |s| == |t|
    ensures k <= |s| && s[..k] == t[..k] && (k < |s| ==> s[k] != t[k])
  {
    if s == [] || s[0] != t[0] then 0 else 1 + FirstDifference(s[1..], t[1..])
  }

  lemma {:induction false} DifferenceAt(s: seq<byte>, t: seq<byte>, k: nat)
    requires |s| == |t| && k <= |s| && s[..k] == t[..k] && (k < |s| ==> s[k] != t[k])
    ensures FirstDifference(s, t) == k && (k == |s| <==> s == t)
  {
    if k > 0 {
      assert s[0] == s[..k][0] == t[..k][0];
      assert s[1..][..k - 1] == s[..k][1..] && t[1..][..k - 1] == t[..k][1..];
      DifferenceAt(s[1..], t[1..], k - 1);
      assert s == [s[0]] + s[1..] && t == [t[0]] + t[1..];
    }
  }

  /** What `memcmp` returns on two stretches of equal length. */
  function Compared(s: seq<byte>, t: seq<byte>): (r: int)
    requires |s| == |t|
    ensures r == 0 <==> s == t
    ensures forall k :: 0 <= k < |s| && s[..k] == t[..k] && s[k] != t[k] ==> r == s[k] as int - t[k] as int
  {
    forall k | 0 <= k < |s| && s[..k] == t[..k] && s[k] != t[k] ensures FirstDifference(s, t) == k {
      DifferenceAt(s, t, k);
    }
    var k := FirstDifference(s, t);
    DifferenceAt(s, t, k);
    if k == |s| then 0 else s[k] as int - t[k] as int
  }

  /** Positions where two blocks differ: the inverted compare-and-movemask result. */
  function DifferenceMask(v1: seq<byte>, v2: seq<byte>): (mask: seq<bool>)
    requires |v1| == |v2|
    ensures |mask| == |v1| && forall j :: 0 <= j < |v1| ==> (mask[j] <==> v1[j] != v2[j])
  {
    seq(|v1|, j requires 0 <= j < |v1| => v1[j] != v2[j])
  }

  /** `memcmp`: 0 on equal stretches, else the difference of the first two bytes that differ. */
  method MemcmpAvx2(s: seq<byte>, t: seq<byte>) returns (r: int)
    requires |s| == |t|
    ensures r == Compared(s, t)
  {
    var n, done := |s|, 0;
    while n - done >= BLOCK
      invariant done <= n && s[..done] == t[..done]
    {
      var v1, v2 := s[done..done + BLOCK], t[done..done + BLOCK];
      var differ := DifferenceMask(v1, v2);
      if true in differ {
        var k := LowestBit(differ);
        SamePrefix(s, t, done, v1, v2, k);
        DifferenceAt(s, t, done + k);
        return s[done + k] as int - t[done + k] as int;
      }
      assert forall j :: 0 <= j < BLOCK ==> !differ[j];
      SamePrefix(s, t, done, v1, v2, BLOCK);
      done := done + BLOCK;
    }
    while done < n
      invariant done <= n && s[..done] == t[..done]
    {
      if s[done] != t[done] {
        DifferenceAt(s, t, done);
        return s[done] as int - t[done] as int;
      }
      assert s[..done + 1] == s[..done] + [s[done]] && t[..done + 1] == t[..done] + [t[done]];
      done := done + 1;
    }
    DifferenceAt(s, t, n);
    return 0;
  }

  lemma SamePrefix(s: seq<byte>, t: seq<byte>, done: nat, v1: seq<byte>, v2: seq<byte>, k: nat)
    requires |s| == |t| && k <= BLOCK && done + BLOCK <= |s| && s[..done] == t[..done]
    requires v1 == s[done..done + BLOCK] && v2 == t[done..done + BLOCK]
    requires forall j :: 0 <= j < k ==> v1[j] == v2[j]
    ensures s[..done + k] == t[..done + k]
  {
    assert s[..done + k] == s[..done] + v1[..k];
    assert t[..done + k] == t[..done] + v2[..k];
  }
}
