/** The record parser of src/core/cg_fastcgi.c as functions on byte sequences: what one
    call of the parser does to the saved header, the request and the unread bytes. */
module FastCgi {
  import opened Bytes
  import opened NameValue

  const HEADER_SIZE := 8
  const RX_SIZE := 65790
  const MAX_STDIN := 4096

  const BEGIN_REQUEST: byte := 1
  const END_REQUEST: byte := 3
  const PARAMS: byte := 4
  const STDIN: byte := 5
  const STDOUT: byte := 6

  /** The eight bytes of a record header, in wire order. Type 0 marks an empty save slot. */
  datatype Header = Header(version: byte, typ: byte, id1: byte, id0: byte,
                           len1: byte, len0: byte, padding: byte, reserved: byte)

  function ContentLength(h: Header): (n: nat)
    ensures n == h.len1 as int * 256 + h.len0 as int && n < 0x1_0000
  {
    Bswap16(Load16(h.len1, h.len0))
  }

  function TotalPayload(h: Header): (n: nat)
    ensures n <= RX_SIZE
  {
    ContentLength(h) + h.padding as int
  }

  function ReadHeader(s: seq<byte>): Header
    requires |s| >= HEADER_SIZE
  {
    Header(s[0], s[1], s[2], s[3], s[4], s[5], s[6], s[7])
  }

  /** The parsed request; text fields are the C strings in the request's buffers. */
  datatype Request = Request(uri: seq<byte>, verb: seq<byte>, session: seq<byte>,
                             reqId: word, keepAlive: bool, stdin: seq<byte>)

  // ----- record handlers -----

  function BeginRequest(req: Request, h: Header, payload: seq<byte>): Request {
    req.(keepAlive := if |payload| > 2 then payload[2] % 2 == 1 else req.keepAlive,
         reqId := Load16(h.id1, h.id0), stdin := [], session := [])
  }

  function UriOf(value: seq<byte>): seq<byte> {
    CString(Before(value[..Min(|value|, 127)], '?' as byte))
  }

  function VerbOf(value: seq<byte>): seq<byte> {
    CString(value[..Min(|value|, 15)])
  }

  /** The value of the first `SESSION=` in a cookie, up to `;`, at most 31 bytes. */
  function SessionOf(cookie: seq<byte>): Option<seq<byte>> {
    if |cookie| < 8 then None
    else if cookie[..8] == Ascii("SESSION=") then
      var text := Before(cookie[8..], ';' as byte);
      Some(CString(text[..Min(|text|, 31)]))
    else SessionOf(cookie[1..])
  }

  function ApplyPair(req: Request, name: seq<byte>, value: seq<byte>): Request {
    if name == Ascii("REQUEST_URI") then req.(uri := UriOf(value))
    else if name == Ascii("REQUEST_METHOD") then req.(verb := VerbOf(value))
    else if name == Ascii("HTTP_COOKIE") && SessionOf(value).Some? then req.(session := SessionOf(value).value)
    else req
  }

  /** A name and a value as the params loop visits them. */
  datatype Param = Param(name: seq<byte>, value: seq<byte>)

  /** The pairs that at most `k` rounds of the params loop visit from an offset, in order. */
  function VisitsFrom(payload: seq<byte>, off: nat, k: nat): seq<Param>
    decreases k
  {
    if off >= |payload| || k == 0 then []
    else match RoundAt(payload, off)
      case Overrun => []
      case Wrapped(next) => VisitsFrom(payload, next, k - 1)
      case Visit(name, value, next) => [Param(name, value)] + VisitsFrom(payload, next, k - 1)
  }

  /** All pairs it visits: if it leaves at all, it leaves within as many rounds as there are bytes. */
  function Visits(payload: seq<byte>): seq<Param> {
    VisitsFrom(payload, 0, |payload|)
  }

  function ApplyAll(req: Request, vs: seq<Param>): Request
    decreases |vs|
  {
    if vs == [] then req else ApplyAll(ApplyPair(req, vs[0].name, vs[0].value), vs[1..])
  }

  lemma ApplyFirst(req: Request, v: Param, vs: seq<Param>)
    ensures ApplyAll(req, [v] + vs) == ApplyAll(ApplyPair(req, v.name, v.value), vs)
  {
    assert ([v] + vs)[1..] == vs;
  }

  function Params(req: Request, payload: seq<byte>): Request {
    ApplyAll(req, Visits(payload))
  }

  function Stdin(req: Request, content: seq<byte>): Request {
    if |req.stdin| + |content| < MAX_STDIN then req.(stdin := req.stdin + content) else req
  }

  function Dispatch(req: Request, h: Header, payload: seq<byte>): Request
    requires ContentLength(h) <= |payload|
  {
    var content := payload[..ContentLength(h)];
    if h.typ == BEGIN_REQUEST then BeginRequest(req, h, payload)
    else if h.typ == PARAMS then Params(req, content)
    else if h.typ == STDIN && content != [] then Stdin(req, content)
    else req
  }

  predicate EndsRequest(h: Header) {
    h.typ == STDIN && ContentLength(h) == 0
  }

  // ----- one call of the parser -----

  datatype ParserState = ParserState(hdr: Header, req: Request)

  /** Result of one call. `need` is the payload size a `More` result is waiting for, 0 when it
      waits for a header; the C function returns 1 either way. */
  datatype Outcome =
    | Ready(st: ParserState, rest: seq<byte>)
    | More(st: ParserState, rest: seq<byte>, need: nat)

  /** The loop leaves, or returns, without a header to work on. */
  predicate Waits(st: ParserState, data: seq<byte>) {
    data == [] || (st.hdr.typ == 0 && |data| < HEADER_SIZE)
  }

  /** State and unread bytes once a header is at hand: the saved one, or the next one from the data. */
  function Load(st: ParserState, data: seq<byte>): (r: (ParserState, seq<byte>))
    requires !Waits(st, data)
    ensures |r.1| <= |data| && (st.hdr.typ == 0 ==> |r.1| < |data|)
  {
    if st.hdr.typ == 0 then (st.(hdr := ReadHeader(data)), data[HEADER_SIZE..]) else (st, data)
  }

  /** State after the record at the front of `data` was dispatched. */
  function Handle(st: ParserState, data: seq<byte>): (r: ParserState)
    requires |data| >= TotalPayload(st.hdr)
    ensures r.hdr.typ == 0
  {
    ParserState(st.hdr.(typ := 0), Dispatch(st.req, st.hdr, data[..TotalPayload(st.hdr)]))
  }

  function Parse(st: ParserState, data: seq<byte>): Outcome
    decreases |data|, if st.hdr.typ == 0 then 0 else 2
  {
    if Waits(st, data) then More(st, data, if st.hdr.typ == 0 then 0 else TotalPayload(st.hdr))
    else var (st', data') := Load(st, data); ParseBody(st', data')
  }

  function ParseBody(st: ParserState, data: seq<byte>): Outcome
    decreases |data|, 1
  {
    var total := TotalPayload(st.hdr);
    if |data| < total then More(st, data, total)
    else if EndsRequest(st.hdr) then Ready(Handle(st, data), data[total..])
    else Parse(Handle(st, data), data[total..])
  }

  /** Every complete record the call meets lets its handler stay inside the record and leave its loop. */
  predicate Regular(st: ParserState, data: seq<byte>)
    decreases |data|, if st.hdr.typ == 0 then 0 else 2
  {
    Waits(st, data) || (var (st', data') := Load(st, data); RegularBody(st', data'))
  }

  predicate RegularBody(st: ParserState, data: seq<byte>)
    decreases |data|, 1
  {
    var total := TotalPayload(st.hdr);
    |data| < total ||
    (RegularRecord(st.hdr, data[..total]) &&
     (EndsRequest(st.hdr) || Regular(Handle(st, data), data[total..])))
  }

  predicate RegularRecord(h: Header, payload: seq<byte>)
    requires ContentLength(h) <= |payload|
  {
    (h.typ == BEGIN_REQUEST ==> |payload| > 2) &&
    (h.typ == PARAMS ==> LeavesWithin(payload[..ContentLength(h)], 0, ContentLength(h)))
  }

  predicate NeedsPayload(o: Outcome) {
    o.More? && (o.need > 0 ==> o.need == TotalPayload(o.st.hdr) && |o.rest| < o.need)
    && (o.need == 0 ==> o.st.hdr.typ == 0 || TotalPayload(o.st.hdr) == 0)
  }

  /** A call that asks for more leaves less than a full buffer, and tells what it waits for. */
  lemma {:induction false} NoStall(st: ParserState, data: seq<byte>)
    ensures |Parse(st, data).rest| <= |data|
    ensures Parse(st, data).More? ==> |Parse(st, data).rest| < RX_SIZE && NeedsPayload(Parse(st, data))
    decreases |data|, if st.hdr.typ == 0 then 0 else 1
  {
    if !Waits(st, data) {
      var (st', data') := Load(st, data);
      var total := TotalPayload(st'.hdr);
      if |data'| >= total {
        NoStall(Handle(st', data'), data'[total..]);
      }
    }
  }

  /** What a call leaves unread is the end of what it was given. */
  lemma RestIsSuffix(st: ParserState, data: seq<byte>)
    ensures var left := |Parse(st, data).rest|; left <= |data| && Parse(st, data).rest == data[|data| - left..]
  {
    var k := Consumed(st, data);
  }

  lemma {:induction false} Consumed(st: ParserState, data: seq<byte>) returns (k: nat)
    ensures k <= |data| && Parse(st, data).rest == data[k..]
    decreases |data|, if st.hdr.typ == 0 then 0 else 1
  {
    k := 0;
    assert data[0..] == data;
    if !Waits(st, data) {
      var (st', data') := Load(st, data);
      var h, total := |data| - |data'|, TotalPayload(st'.hdr);
      assert data' == data[h..];
      k := h;
      if |data'| >= total {
        var next := Handle(st', data');
        var j := Consumed(next, data'[total..]);
        k := h + total;
        SuffixOfSuffix(data, data', h, total);
        if !EndsRequest(st'.hdr) {
          SuffixOfSuffix(data, data'[total..], k, j);
          k := k + j;
        }
      }
    }
  }

  lemma SuffixOfSuffix(s: seq<byte>, t: seq<byte>, h: nat, k: nat)
    requires h + k <= |s| && t == s[h..]
    ensures t[k..] == s[h + k..]
  {
  }

  // ----- fragmentation -----

  /** The next call of the parser, after the leftover was slid to the front and `b` was read behind it. */
  function Resume(o: Outcome, b: seq<byte>): Outcome {
    match o
    case Ready(st, rest) => Ready(st, rest + b)
    case More(st, rest, _) => Parse(st, rest + b)
  }

  /** Going on exactly where the call stopped. */
  function Continue(o: Outcome, b: seq<byte>): Outcome {
    if o.More? && o.need > 0 then ParseBody(o.st, o.rest + b) else Resume(o, b)
  }

  lemma {:induction false} ParseCut(st: ParserState, a: seq<byte>, b: seq<byte>)
    ensures Parse(st, a + b) == Continue(Parse(st, a), b)
    decreases |a|, if st.hdr.typ == 0 then 0 else 1
  {
    if Waits(st, a) {
      if a == [] { assert a + b == b; }
    } else {
      var (st', a') := Load(st, a);
      LoadCut(st, a, b);
      var total := TotalPayload(st'.hdr);
      if |a'| >= total {
        HandleCut(st', a', b);
        ParseCut(Handle(st', a'), a'[total..], b);
      }
    }
  }

  lemma LoadCut(st: ParserState, a: seq<byte>, b: seq<byte>)
    requires !Waits(st, a)
    ensures !Waits(st, a + b) && Load(st, a + b) == (Load(st, a).0, Load(st, a).1 + b)
  {
    if st.hdr.typ == 0 {
      assert (a + b)[HEADER_SIZE..] == a[HEADER_SIZE..] + b;
    }
  }

  lemma HandleCut(st: ParserState, a: seq<byte>, b: seq<byte>)
    requires |a| >= TotalPayload(st.hdr)
    ensures Handle(st, a + b) == Handle(st, a)
    ensures (a + b)[TotalPayload(st.hdr)..] == a[TotalPayload(st.hdr)..] + b
    ensures (a + b)[..TotalPayload(st.hdr)] == a[..TotalPayload(st.hdr)]
  {
    assert (a + b)[..TotalPayload(st.hdr)] == a[..TotalPayload(st.hdr)];
  }

  /** The call stopped inside the payload of a record of type 0: its header looks unsaved. */
  predicate HeaderLost(o: Outcome) {
    o.More? && o.need > 0 && o.st.hdr.typ == 0
  }

  /** Two results that the caller cannot tell apart. */
  predicate Same(o: Outcome, o': Outcome) {
    o.Ready? == o'.Ready? && o.st == o'.st && o.rest == o'.rest
  }

  lemma ResumeContinues(o: Outcome, b: seq<byte>)
    requires o.More? ==> NeedsPayload(o) && !HeaderLost(o)
    ensures Resume(o, b) == Continue(o, b)
  {
  }

  lemma CutKept(st: ParserState, a: seq<byte>, b: seq<byte>)
    requires !HeaderLost(Parse(st, a))
    ensures Resume(Parse(st, a), b) == Parse(st, a + b)
  {
    NoStall(st, a);
    ResumeContinues(Parse(st, a), b);
    ParseCut(st, a, b);
  }

  /** A cut is harmless for every continuation exactly when it does not lose a type-0 header. */
  lemma CutIndependentIff(st: ParserState, a: seq<byte>)
    ensures (forall b :: Same(Resume(Parse(st, a), b), Parse(st, a + b))) <==> !HeaderLost(Parse(st, a))
  {
    var o := Parse(st, a);
    if !HeaderLost(o) {
      forall b ensures Same(Resume(o, b), Parse(st, a + b)) {
        CutKept(st, a, b);
      }
    } else {
      var b := CutWitness(st, a);
      assert !Same(Resume(o, b), Parse(st, a + b));
    }
  }

  /** A continuation on which the lost header shows. */
  lemma CutWitness(st: ParserState, a: seq<byte>) returns (b: seq<byte>)
    requires HeaderLost(Parse(st, a))
    ensures !Same(Resume(Parse(st, a), b), Parse(st, a + b))
  {
    var o := Parse(st, a);
    NoStall(st, a);
    if |o.rest| >= HEADER_SIZE {
      b := [];
      assert o.rest + b == o.rest && a + b == a;
      HeaderConsumed(o.st, o.rest);
    } else {
      var mark: byte := if o.st.hdr.reserved == 0 then 1 else 0;
      b := seq(Min(o.need, HEADER_SIZE) - |o.rest|, _ => mark);
      ParseCut(st, a, b);
      HeaderConsumedOrKept(o.st, o.rest + b, mark);
    }
  }

  lemma HeaderConsumed(st: ParserState, data: seq<byte>)
    requires st.hdr.typ == 0 && |data| >= HEADER_SIZE
    ensures |Parse(st, data).rest| <= |data| - HEADER_SIZE
  {
    var (st', data') := Load(st, data);
    if |data'| >= TotalPayload(st'.hdr) {
      NoStall(Handle(st', data'), data'[TotalPayload(st'.hdr)..]);
    }
  }

  /** Reading at most eight bytes as a header differs from reading them as the payload of `st.hdr`. */
  lemma HeaderConsumedOrKept(st: ParserState, data: seq<byte>, mark: byte)
    requires st.hdr.typ == 0 && |data| == Min(TotalPayload(st.hdr), HEADER_SIZE) > 0
    requires data[|data| - 1] == mark != st.hdr.reserved
    ensures !Same(Parse(st, data), ParseBody(st, data))
  {
    if |data| < HEADER_SIZE {
      assert Parse(st, data) == More(st, data, 0);
      assert data[TotalPayload(st.hdr)..] == [];
      assert ParseBody(st, data).rest == [];
    } else if TotalPayload(st.hdr) > HEADER_SIZE {
      HeaderConsumed(st, data);
      assert ParseBody(st, data).rest == data;
    } else {
      var (st', data') := Load(st, data);
      assert data' == [] && st'.hdr.reserved == mark;
      assert data[TotalPayload(st.hdr)..] == [];
      assert ParseBody(st, data) == Parse(Handle(st, data), []);
      assert Parse(st, data) == ParseBody(st', []);
      assert Parse(st, data).st.hdr.reserved == mark by {
        if TotalPayload(st'.hdr) == 0 { assert [][0..] == data'; }
      }
    }
  }

  /** No header that the call meets has type 0. */
  predicate Typed(st: ParserState, data: seq<byte>)
    decreases |data|, if st.hdr.typ == 0 then 0 else 1
  {
    Waits(st, data) ||
    (var (st', data') := Load(st, data);
     var total := TotalPayload(st'.hdr);
     st'.hdr.typ != 0 &&
     (|data'| < total || EndsRequest(st'.hdr) || Typed(Handle(st', data'), data'[total..])))
  }

  lemma {:induction false} TypedPrefix(st: ParserState, a: seq<byte>, b: seq<byte>)
    requires Typed(st, a + b)
    ensures Typed(st, a) && !HeaderLost(Parse(st, a))
    decreases |a|, if st.hdr.typ == 0 then 0 else 1
  {
    if !Waits(st, a) {
      LoadCut(st, a, b);
      var (st', a') := Load(st, a);
      var total := TotalPayload(st'.hdr);
      if |a'| >= total && !EndsRequest(st'.hdr) {
        HandleCut(st', a', b);
        TypedPrefix(Handle(st', a'), a'[total..], b);
      }
    }
  }

  function Concat(chunks: seq<seq<byte>>): seq<byte> {
    if chunks == [] then [] else chunks[0] + Concat(chunks[1..])
  }

  /** Feeding a list of reads, one parser call after each, until the request is ready. */
  function Feed(o: Outcome, chunks: seq<seq<byte>>): (Outcome, seq<seq<byte>>)
    decreases |chunks|
  {
    if o.Ready? || chunks == [] then (o, chunks) else Feed(Resume(o, chunks[0]), chunks[1..])
  }

  /** However a stream is cut into reads, feeding them ends as one parse of the whole stream. */
  lemma {:induction false} FragmentationIndependent(st: ParserState, a: seq<byte>, chunks: seq<seq<byte>>)
    requires Typed(st, a + Concat(chunks))
    ensures var (o, left) := Feed(Parse(st, a), chunks);
            Parse(st, a + Concat(chunks)) == (if o.Ready? then Resume(o, Concat(left)) else o)
    decreases |chunks|
  {
    TypedPrefix(st, a, Concat(chunks));
    CutKept(st, a, Concat(chunks));
    if chunks == [] {
      assert a + Concat(chunks) == a;
    } else if Parse(st, a).More? {
      assert Concat(chunks) == chunks[0] + Concat(chunks[1..]);
      assert a + Concat(chunks) == a + chunks[0] + Concat(chunks[1..]);
      CutKept(st, a, chunks[0]);
      FragmentationIndependent(st, a + chunks[0], chunks[1..]);
    }
  }
}
