/** Request streams as lists of records (FastCGI Specification, sections 3.3, 5.1, 5.2 and 5.3)
    and what the parser makes of them, whatever the reads. */
module Records {
  import opened Bytes
  import opened NameValue
  import opened FastCgi

  datatype Record = Record(typ: byte, id1: byte, id0: byte, content: seq<byte>, padding: seq<byte>)

  predicate ValidRecord(r: Record) {
    |r.content| < 0x1_0000 && |r.padding| < 256
  }

  function HeaderOf(r: Record): Header
    requires ValidRecord(r)
  {
    Header(1, r.typ, r.id1, r.id0, |r.content| / 256, |r.content| % 256, |r.padding|, 0)
  }

  function HeaderBytes(h: Header): (s: seq<byte>)
    ensures |s| == HEADER_SIZE
  {
    [h.version, h.typ, h.id1, h.id0, h.len1, h.len0, h.padding, h.reserved]
  }

  function EncodeRecord(r: Record): seq<byte>
    requires ValidRecord(r)
  {
    HeaderBytes(HeaderOf(r)) + r.content + r.padding
  }

  function Encode(rs: seq<Record>): seq<byte>
    requires forall r | r in rs :: ValidRecord(r)
  {
    if rs == [] then [] else EncodeRecord(rs[0]) + Encode(rs[1..])
  }

  /** The request after one record. */
  function AfterRecord(req: Request, r: Record): Request
    requires ValidRecord(r)
  {
    if r.typ == BEGIN_REQUEST then BeginRequest(req, HeaderOf(r), r.content + r.padding)
    else if r.typ == PARAMS then Params(req, r.content)
    else if r.typ == STDIN && r.content != [] then Stdin(req, r.content)
    else req
  }

  predicate IsEnd(r: Record) {
    r.typ == STDIN && r.content == []
  }

  function AfterRecords(req: Request, rs: seq<Record>): Request
    requires forall r | r in rs :: ValidRecord(r)
    decreases |rs|
  {
    if rs == [] then req else AfterRecords(AfterRecord(req, rs[0]), rs[1..])
  }

  lemma RecordParsed(st: ParserState, r: Record, tail: seq<byte>)
    requires st.hdr.typ == 0 && ValidRecord(r)
    ensures var s := EncodeRecord(r) + tail;
            !Waits(st, s) && Load(st, s) == (st.(hdr := HeaderOf(r)), r.content + r.padding + tail)
  {
    var s := EncodeRecord(r) + tail;
    assert s == HeaderBytes(HeaderOf(r)) + (r.content + r.padding + tail);
    assert forall i | 0 <= i < HEADER_SIZE :: s[i] == HeaderBytes(HeaderOf(r))[i];
    assert s[HEADER_SIZE..] == r.content + r.padding + tail;
  }

  lemma RecordHandled(st: ParserState, r: Record, tail: seq<byte>)
    requires ValidRecord(r) && st.hdr == HeaderOf(r)
    ensures var data := r.content + r.padding + tail;
            var total := TotalPayload(st.hdr);
            ContentLength(st.hdr) == |r.content| && total == |r.content| + |r.padding|
            && data[..total] == r.content + r.padding && data[total..] == tail
            && data[..total][..|r.content|] == r.content
            && Handle(st, data) == ParserState(st.hdr.(typ := 0), AfterRecord(st.req, r))
  {
    var data := r.content + r.padding + tail;
    var total := TotalPayload(st.hdr);
    assert total == |r.content| + |r.padding|;
    assert data[..total] == r.content + r.padding;
    assert data[..total][..|r.content|] == r.content;
  }

  /** One encoded record at the front of the data is one round of the parser's loop. */
  lemma RecordRound(st: ParserState, r: Record, tail: seq<byte>)
    requires st.hdr.typ == 0 && ValidRecord(r)
    ensures var s, next := EncodeRecord(r) + tail, ParserState(HeaderOf(r).(typ := 0), AfterRecord(st.req, r));
            Parse(st, s) == (if IsEnd(r) then Ready(next, tail) else Parse(next, tail))
            && (Typed(st, s) <==> r.typ != 0 && (IsEnd(r) || Typed(next, tail)))
  {
    RecordParsed(st, r, tail);
    RecordHandled(st.(hdr := HeaderOf(r)), r, tail);
  }

  /** The parser reaches READY on the first empty STDIN record, with the request that all records
      before it make up, and keeps exactly the bytes behind it. */
  lemma {:induction false} StreamParsed(st: ParserState, rs: seq<Record>, end: Record, tail: seq<byte>)
    requires st.hdr.typ == 0 && (forall r | r in rs :: ValidRecord(r) && !IsEnd(r))
    requires ValidRecord(end) && IsEnd(end)
    ensures var s := Encode(rs) + EncodeRecord(end) + tail;
            Parse(st, s) == Ready(ParserState(HeaderOf(end).(typ := 0), AfterRecords(st.req, rs)), tail)
            && (Typed(st, s) <==> forall r | r in rs :: r.typ != 0)
    decreases |rs|
  {
    var s := Encode(rs) + EncodeRecord(end) + tail;
    if rs == [] {
      assert s == EncodeRecord(end) + tail;
      RecordRound(st, end, tail);
    } else {
      var rest := Encode(rs[1..]) + EncodeRecord(end) + tail;
      assert s == EncodeRecord(rs[0]) + rest;
      RecordRound(st, rs[0], rest);
      StreamParsed(ParserState(HeaderOf(rs[0]).(typ := 0), AfterRecord(st.req, rs[0])), rs[1..], end, tail);
    }
  }

  /** However a stream of typed records is cut into reads, the connection becomes ready on the same
      record, with the same request, and nothing of what follows is lost by the parser. */
  lemma RequestSurvivesAnyCut(st: ParserState, rs: seq<Record>, end: Record, tail: seq<byte>, chunks: seq<seq<byte>>)
    requires st.hdr.typ == 0 && (forall r | r in rs :: ValidRecord(r) && !IsEnd(r) && r.typ != 0)
    requires ValidRecord(end) && IsEnd(end)
    requires Concat(chunks) == Encode(rs) + EncodeRecord(end) + tail
    ensures var (o, left) := Feed(Parse(st, []), chunks);
            o.Ready? && o.st == ParserState(HeaderOf(end).(typ := 0), AfterRecords(st.req, rs))
            && o.rest + Concat(left) == tail
  {
    StreamParsed(st, rs, end, tail);
    FedAsWhole(st, Concat(chunks), chunks, ParserState(HeaderOf(end).(typ := 0), AfterRecords(st.req, rs)), tail);
  }

  /** When the whole stream is ready, so is what was fed of it, with the rest of the stream behind it. */
  lemma FedAsWhole(st: ParserState, stream: seq<byte>, chunks: seq<seq<byte>>, st': ParserState, tail: seq<byte>)
    requires stream == Concat(chunks) && Typed(st, stream) && Parse(st, stream) == Ready(st', tail)
    ensures var (o, left) := Feed(Parse(st, []), chunks); o.Ready? && o.st == st' && o.rest + Concat(left) == tail
  {
    assert [] + Concat(chunks) == Concat(chunks);
    FragmentationIndependent(st, [], chunks);
  }
}
