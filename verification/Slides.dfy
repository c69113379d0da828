/** Fragmentation once more, with the leftover of each read slid to the front by the block copy. */
module Slides {
  import opened Bytes
  import opened FastCgi
  import opened Records
  import opened WideMemory

  /** One call of the parser and the slide behind it, in a receive buffer at `addr`. */
  function ParseAt(addr: nat, st: ParserState, data: seq<byte>): (o: Outcome)
    ensures |o.rest| <= |data|
  {
    NoStall(st, data);
    var o := Parse(st, data);
    o.(rest := Slid(data, addr, |o.rest|))
  }

  function ResumeAt(addr: nat, o: Outcome, b: seq<byte>): Outcome {
    match o
    case Ready(st, rest) => Ready(st, rest + b)
    case More(st, rest, _) => ParseAt(addr, st, rest + b)
  }

  /** Feeding a list of reads, one call and one slide after each, until the request is ready. */
  function FeedAt(addr: nat, o: Outcome, chunks: seq<seq<byte>>): (Outcome, seq<seq<byte>>)
    decreases |chunks|
  {
    if o.Ready? || chunks == [] then (o, chunks) else FeedAt(addr, ResumeAt(addr, o, chunks[0]), chunks[1..])
  }

  /** The guard of the copy holds for the slide behind this call. */
  predicate Guarded(addr: nat, st: ParserState, data: seq<byte>) {
    var left := |Parse(st, data).rest|;
    left <= |data| && SlideExact(addr, 0, |data| - left, left)
  }

  /** It holds for every slide on the way. */
  predicate AllGuarded(addr: nat, o: Outcome, chunks: seq<seq<byte>>)
    decreases |chunks|
  {
    o.Ready? || chunks == []
    || (Guarded(addr, o.st, o.rest + chunks[0]) && AllGuarded(addr, Resume(o, chunks[0]), chunks[1..]))
  }

  /** Under the guard a call and its slide are the call. */
  lemma GuardedParse(addr: nat, st: ParserState, data: seq<byte>)
    requires Guarded(addr, st, data)
    ensures ParseAt(addr, st, data) == Parse(st, data)
  {
    RestIsSuffix(st, data);
    SlidWhenExact(data, addr, |Parse(st, data).rest|);
  }

  lemma {:induction false} GuardedFeed(addr: nat, o: Outcome, chunks: seq<seq<byte>>)
    requires AllGuarded(addr, o, chunks)
    ensures FeedAt(addr, o, chunks) == Feed(o, chunks)
    decreases |chunks|
  {
    if o.More? && chunks != [] {
      GuardedParse(addr, o.st, o.rest + chunks[0]);
      GuardedFeed(addr, Resume(o, chunks[0]), chunks[1..]);
    }
  }

  /** With the real slide, feeding a typed stream in any reads ends as one parse of the whole stream, as long as
      the guard of the copy holds for every slide on the way. */
  lemma FragmentationAt(addr: nat, st: ParserState, chunks: seq<seq<byte>>)
    requires Typed(st, Concat(chunks)) && AllGuarded(addr, Parse(st, []), chunks)
    ensures var (o, left) := FeedAt(addr, Parse(st, []), chunks);
            Parse(st, Concat(chunks)) == (if o.Ready? then Resume(o, Concat(left)) else o)
  {
    assert [] + Concat(chunks) == Concat(chunks);
    GuardedFeed(addr, Parse(st, []), chunks);
    FragmentationIndependent(st, [], chunks);
  }

  // ----- a body that arrives in two reads -----

  /** The request after a STDIN record has arrived in two reads, the first of them ending behind `n` bytes of
      content. */
  function BodyInTwo(addr: nat, st: ParserState, content: seq<byte>, n: nat): Outcome
    requires st.hdr.typ == 0 && 0 < n < |content| < 0x1_0000
  {
    var first := HeaderBytes(HeaderOf(Record(STDIN, 0, 1, content, []))) + content[..n];
    ResumeAt(addr, ParseAt(addr, st, first), content[n..])
  }

  predicate BodyIntact(addr: nat, st: ParserState, content: seq<byte>, n: nat)
    requires st.hdr.typ == 0 && 0 < n < |content| < 0x1_0000
  {
    BodyInTwo(addr, st, content, n).st.req == st.req.(stdin := st.req.stdin + content)
  }

  /** The first read leaves its part of the content behind the consumed header, slid to the front. */
  lemma FirstRead(addr: nat, st: ParserState, content: seq<byte>, n: nat, first: seq<byte>)
    requires st.hdr.typ == 0 && 0 < n < |content| < 0x1_0000
    requires first == HeaderBytes(HeaderOf(Record(STDIN, 0, 1, content, []))) + content[..n]
    ensures var h := HeaderOf(Record(STDIN, 0, 1, content, []));
      ParseAt(addr, st, first) == More(st.(hdr := h), Slid(first, addr, n), |content|)
  {
    var h := HeaderOf(Record(STDIN, 0, 1, content, []));
    assert ReadHeader(first) == h && first[HEADER_SIZE..] == content[..n];
    assert TotalPayload(h) == |content|;
    assert Parse(st, first) == ParseBody(st.(hdr := h), content[..n]);
  }

  lemma SecondRead(addr: nat, st: ParserState, content: seq<byte>, payload: seq<byte>)
    requires 0 < |content| < 0x1_0000 && |payload| == |content| && st.hdr == HeaderOf(Record(STDIN, 0, 1, content, []))
    requires |st.req.stdin| + |content| < MAX_STDIN
    ensures ParseAt(addr, st, payload).st.req == st.req.(stdin := st.req.stdin + payload)
  {
    assert TotalPayload(st.hdr) == ContentLength(st.hdr) == |payload|;
    assert payload[..|payload|] == payload && payload[|payload|..] == [];
    var next := FastCgi.Handle(st, payload);
    assert Parse(st, payload) == ParseBody(st, payload);
    assert Parse(next, []) == More(next, [], 0);
  }

  /** A body cut in two is stored as it was sent exactly when the slide of its first part leaves it unchanged. */
  lemma BodyIsSlid(addr: nat, st: ParserState, content: seq<byte>, n: nat, first: seq<byte>)
    requires st.hdr.typ == 0 && 0 < n < |content| && |st.req.stdin| + |content| < MAX_STDIN
    requires first == HeaderBytes(HeaderOf(Record(STDIN, 0, 1, content, []))) + content[..n]
    ensures n <= |first| && (BodyIntact(addr, st, content, n) <==> SlidesExactly(first, addr, n))
  {
    var h, part := HeaderOf(Record(STDIN, 0, 1, content, [])), Slid(first, addr, n);
    FirstRead(addr, st, content, n, first);
    SecondRead(addr, st.(hdr := h), content, part + content[n..]);
    assert first[|first| - n..] == content[..n];
    SamePart(st.req.stdin, part, content, n);
  }

  lemma SamePart(before: seq<byte>, part: seq<byte>, content: seq<byte>, n: nat)
    requires n <= |content| && |part| == n
    ensures before + (part + content[n..]) == before + content <==> part == content[..n]
  {
    if before + (part + content[n..]) == before + content {
      assert (before + (part + content[n..]))[|before|..] == part + content[n..];
      assert (before + content)[|before|..] == content;
      assert (part + content[n..])[..n] == part;
    } else {
      assert content == content[..n] + content[n..];
    }
  }

  /** A body whose first read ends behind `n` of its bytes is stored as it was sent, whatever its bytes are,
      exactly under the guard of the copy for a slide of `n` bytes by the length of a header. */
  lemma BodyIntactIff(addr: nat, st: ParserState, size: nat, n: nat)
    requires st.hdr.typ == 0 && 0 < n < size && |st.req.stdin| + size < MAX_STDIN
    ensures (forall content: seq<byte> | |content| == size :: BodyIntact(addr, st, content, n))
       <==> SlideExact(addr, 0, HEADER_SIZE, n)
  {
    if SlideExact(addr, 0, HEADER_SIZE, n) {
      forall content: seq<byte> | |content| == size ensures BodyIntact(addr, st, content, n) {
        var first := HeaderBytes(HeaderOf(Record(STDIN, 0, 1, content, []))) + content[..n];
        SlidWhenExact(first, addr, n);
        BodyIsSlid(addr, st, content, n, first);
      }
    } else {
      var content := SpoiltBody(addr, st, size, n);
      assert |content| == size && !BodyIntact(addr, st, content, n);
    }
  }

  /** A body that comes out wrong: zeros but for one byte. */
  lemma SpoiltBody(addr: nat, st: ParserState, size: nat, n: nat) returns (content: seq<byte>)
    requires st.hdr.typ == 0 && 0 < n < size && |st.req.stdin| + size < MAX_STDIN
    requires !SlideExact(addr, 0, HEADER_SIZE, n)
    ensures |content| == size && !BodyIntact(addr, st, content, n)
  {
    content := seq(size, i => if i == n + HEADER_SIZE - BLOCK then 1 else 0);
    var first := HeaderBytes(HeaderOf(Record(STDIN, 0, 1, content, []))) + content[..n];
    assert first[HEADER_SIZE + n - BLOCK] == content[n - BLOCK] == 0;
    assert first[2 * HEADER_SIZE + n - BLOCK] == content[n + HEADER_SIZE - BLOCK] == 1;
    SlideShows(first, addr, n);
    BodyIsSlid(addr, st, content, n, first);
  }

  /** Wherever the buffer lies, some first read spoils a body: its part of the content is one byte longer than the
      copy's aligned blocks. */
  lemma SomeReadSpoils(addr: nat, st: ParserState) returns (content: seq<byte>, n: nat)
    requires st.hdr.typ == 0 && |st.req.stdin| + 100 < MAX_STDIN
    ensures 0 < n < |content| < 0x1_0000 && !BodyIntact(addr, st, content, n)
  {
    n := Prologue(addr) + BLOCK + 1;
    assert Tail(addr, n) == 1;
    content := SpoiltBody(addr, st, 100, n);
  }
}
