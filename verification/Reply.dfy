/** The reply stream: STDOUT records and END_REQUEST as `cg_fastcgi_stdout` and `cg_fastcgi_end`
    put them into the transmit buffer (FastCGI Specification, sections 3.3, 5.3 and 5.5). */
module Reply {
  import opened Bytes
  import opened FastCgi
  import opened Records

  const TX_SIZE := 65790

  /** The largest buffer that a route handler answers from. */
  const MAX_RESPONSE := 8192

  /** A 16-bit store on a little-endian machine. */
  function Store16(v: word): (s: seq<byte>)
    ensures |s| == 2
  {
    [v % 256, v / 256]
  }

  function RecordHeader(typ: byte, reqId: word, length: nat): (s: seq<byte>)
    ensures |s| == HEADER_SIZE
  {
    [1, typ] + Store16(Bswap16(reqId)) + Store16(Bswap16(length % 0x1_0000)) + [0, 0]
  }

  function Zeros(n: nat): seq<byte> {
    seq(n, _ => 0)
  }

  /** The bytes that follow the response: an empty STDOUT record and END_REQUEST with status 0. */
  function EndBytes(reqId: word): (s: seq<byte>)
    ensures |s| == 24
  {
    RecordHeader(STDOUT, reqId, 0) + RecordHeader(END_REQUEST, reqId, 8) + Zeros(8)
  }

  /** The whole reply to one request. */
  function ReplyBytes(reqId: word, resp: seq<byte>): seq<byte>
  {
    RecordHeader(STDOUT, reqId, |resp|) + resp + EndBytes(reqId)
  }

  /** The transmit buffer and its metadata. */
  class TxBuffer {
    const buf: array<byte>
    var valid: nat
    var pos: nat

    constructor ()
      ensures fresh(this.buf) && Valid() && valid == pos == 0
    {
      buf := new byte[TX_SIZE](_ => 0);
      valid, pos := 0, 0;
    }

    ghost predicate Valid()
      reads this
    {
      buf.Length == TX_SIZE && pos <= valid <= buf.Length
    }

    ghost function Text(): seq<byte>
      reads this, buf
      requires Valid()
    {
      buf[..valid]
    }

    /** Appends bytes that fit. */
    method Append(text: seq<byte>)
      requires Valid() && valid + |text| <= buf.Length
      modifies this`valid, buf
      ensures Valid() && Text() == old(Text()) + text
    {
      forall i | 0 <= i < |text| {
        buf[valid + i] := text[i];
      }
      valid := valid + |text|;
    }

    /** One STDOUT record; a response that does not fit is dropped. */
    method Stdout(reqId: word, resp: seq<byte>)
      requires Valid()
      modifies this`valid, buf
      ensures Valid()
      ensures Text() == if old(valid) + HEADER_SIZE + |resp| > TX_SIZE then old(Text())
                        else old(Text()) + RecordHeader(STDOUT, reqId, |resp|) + resp
    {
      if valid + HEADER_SIZE + |resp| > buf.Length {
        return;
      }
      Append(RecordHeader(STDOUT, reqId, |resp|));
      if |resp| > 0 {
        Append(resp);
      }
    }

    /** The closing records. The room check counts 16 of the 24 bytes, so a caller must leave 24 or under 16. */
    method End(reqId: word)
      requires Valid()
      requires valid + 24 <= TX_SIZE || valid + 16 > TX_SIZE
      modifies this`valid, buf
      ensures Valid()
      ensures Text() == if old(valid) + 24 > TX_SIZE then old(Text()) else old(Text()) + EndBytes(reqId)
    {
      if valid + HEADER_SIZE + 8 > buf.Length {
        return;
      }
      ghost var before := Text();
      Stdout(reqId, []);
      Append(RecordHeader(END_REQUEST, reqId, 8));
      Append(Zeros(8));
      assert Text() == before + EndBytes(reqId);
    }

    /** `cg_route_map_reply` around a handler that answers `resp`. */
    method RouteReply(reqId: word, resp: seq<byte>)
      requires Valid() && |resp| + 32 <= TX_SIZE
      modifies this, buf
      ensures Valid() && pos == 0 && Text() == ReplyBytes(reqId, resp)
    {
      valid, pos := 0, 0;
      Stdout(reqId, resp);
      End(reqId);
      assert Text() == ReplyBytes(reqId, resp);
    }
  }

  /** The room check of the closing records, which counts one header and eight bytes. */
  predicate EndAdmitted(valid: nat) {
    valid + HEADER_SIZE + 8 <= TX_SIZE
  }

  /** The check admits records that do not fit exactly when 16 to 23 bytes are left. Behind a response from any
      handler's buffer there is always room for all of them. */
  lemma EndOverrunsIff(reqId: word, valid: nat)
    requires valid <= TX_SIZE
    ensures EndAdmitted(valid) && valid + |EndBytes(reqId)| > TX_SIZE <==> 16 <= TX_SIZE - valid < 24
    ensures forall resp: seq<byte> :: |resp| <= MAX_RESPONSE ==> |ReplyBytes(reqId, resp)| <= TX_SIZE
  {
    assert |EndBytes(reqId)| == 24;
  }

  // ----- decoding -----

  /** The record at the front of a byte stream, by section 3.3, and what follows it. */
  function TakeRecord(s: seq<byte>): (r: Option<(Record, seq<byte>)>)
    ensures r.Some? ==> |r.value.1| < |s|
  {
    if |s| < HEADER_SIZE || s[0] != 1 || s[7] != 0 then None
    else
      var h := ReadHeader(s);
      var end := HEADER_SIZE + TotalPayload(h);
      if |s| < end then None
      else
        var content := s[HEADER_SIZE..HEADER_SIZE + ContentLength(h)];
        var padding := s[HEADER_SIZE + ContentLength(h)..end];
        Some((Record(h.typ, h.id1, h.id0, content, padding), s[end..]))
  }

  /** All records of a byte stream; None when it is not whole records. */
  function Decode(s: seq<byte>): Option<seq<Record>>
    decreases |s|
  {
    if s == [] then Some([])
    else match TakeRecord(s)
      case None => None
      case Some((r, rest)) =>
        var rs := Decode(rest);
        if rs.None? then None else Some([r] + rs.value)
  }

  lemma TakeEncoded(r: Record, tail: seq<byte>)
    requires ValidRecord(r)
    ensures TakeRecord(EncodeRecord(r) + tail) == Some((r, tail))
  {
    var s := EncodeRecord(r) + tail;
    RecordParsed(ParserState(HeaderOf(r).(typ := 0), Request([], [], [], 0, false, [])), r, tail);
    var body := r.content + r.padding + tail;
    var c, end := HEADER_SIZE + |r.content|, HEADER_SIZE + |r.content| + |r.padding|;
    assert s[0] == 1 && s[7] == 0 by {
      assert s == HeaderBytes(HeaderOf(r)) + body;
    }
    assert s[HEADER_SIZE..] == body;
    assert s[HEADER_SIZE..c] == body[..|r.content|] == r.content;
    assert s[c..end] == body[|r.content|..|r.content| + |r.padding|] == r.padding;
    assert s[end..] == body[|r.content| + |r.padding|..] == tail;
  }

  lemma {:induction false} DecodeEncode(rs: seq<Record>)
    requires forall r | r in rs :: ValidRecord(r)
    ensures Decode(Encode(rs)) == Some(rs)
  {
    if rs != [] {
      TakeEncoded(rs[0], Encode(rs[1..]));
      DecodeEncode(rs[1..]);
      assert |EncodeRecord(rs[0])| > 0 && [rs[0]] + rs[1..] == rs;
    }
  }

  /** The records that the client should see: the response, the end of output, the end of the request,
      all with the identifier bytes `id1` and `id0`. */
  function ReplyRecords(id1: byte, id0: byte, resp: seq<byte>): seq<Record> {
    [Record(STDOUT, id1, id0, resp, []), Record(STDOUT, id1, id0, [], []),
     Record(END_REQUEST, id1, id0, [0, 0, 0, 0, 0, 0, 0, 0], [])]
  }

  lemma RecordWritten(typ: byte, id1: byte, id0: byte, content: seq<byte>)
    requires |content| < 0x1_0000
    ensures RecordHeader(typ, Load16(id1, id0), |content|) + content == EncodeRecord(Record(typ, id0, id1, content, []))
  {
    BigEndianStored(|content|);
    IdSwapped(id1, id0);
    var h := HeaderOf(Record(typ, id0, id1, content, []));
    assert HeaderBytes(h) == [1, typ] + [id0, id1] + [|content| / 256, |content| % 256] + [0, 0];
    assert EncodeRecord(Record(typ, id0, id1, content, [])) == HeaderBytes(h) + content;
  }

  lemma BigEndianStored(v: word)
    ensures v / 256 < 256 && Store16(Bswap16(v % 0x1_0000)) == [v / 256, v % 256]
  {
    var hi, lo := v as int / 256, v as int % 256;
    assert v % 0x1_0000 == v;
    SwappedDigits(v, hi, lo);
  }

  lemma IdSwapped(id1: byte, id0: byte)
    ensures Store16(Bswap16(Load16(id1, id0))) == [id0, id1]
  {
    SwappedDigits(Load16(id1, id0), id0, id1);
  }

  lemma SwappedDigits(v: word, hi: byte, lo: byte)
    requires v as int == hi as int * 256 + lo as int
    ensures Store16(Bswap16(v)) == [hi, lo]
  {
    Digits256(v, hi, lo);
    var w := Bswap16(v);
    assert w as int == lo as int * 256 + hi as int;
    Digits256(w, lo, hi);
  }

  /** The digits of a number in base 256. */
  lemma Digits256(v: int, hi: int, lo: int)
    requires v == hi * 256 + lo && 0 <= hi < 256 && 0 <= lo < 256
    ensures v / 256 == hi && v % 256 == lo
  {
  }

  lemma EncodeThree(a: Record, b: Record, c: Record)
    requires ValidRecord(a) && ValidRecord(b) && ValidRecord(c)
    ensures Encode([a, b, c]) == EncodeRecord(a) + EncodeRecord(b) + EncodeRecord(c)
  {
    assert [a, b, c][1..] == [b, c] && [b, c][1..] == [c] && [c][1..] == [];
    assert Encode([c]) == EncodeRecord(c) + [];
    assert Encode([b, c]) == EncodeRecord(b) + Encode([c]);
  }

  /** For a response that a record can carry, the reply decodes to exactly these records; the
      identifier bytes come back in the opposite order. */
  lemma ReplyDecodes(id1: byte, id0: byte, resp: seq<byte>)
    requires |resp| < 0x1_0000
    ensures Decode(ReplyBytes(Load16(id1, id0), resp)) == Some(ReplyRecords(id0, id1, resp))
  {
    var reqId, rs := Load16(id1, id0), ReplyRecords(id0, id1, resp);
    RecordWritten(STDOUT, id1, id0, resp);
    RecordWritten(STDOUT, id1, id0, []);
    RecordWritten(END_REQUEST, id1, id0, Zeros(8));
    assert Zeros(8) == [0, 0, 0, 0, 0, 0, 0, 0];
    EncodeThree(rs[0], rs[1], rs[2]);
    assert ReplyBytes(reqId, resp) == Encode(rs);
    DecodeEncode(rs);
  }

  /** The reply decodes to the intended records exactly when a record can carry the response:
      the content length is stored in 16 bits. */
  lemma ReplyDecodesIff(id1: byte, id0: byte, resp: seq<byte>)
    ensures Decode(ReplyBytes(Load16(id1, id0), resp)) == Some(ReplyRecords(id0, id1, resp)) <==> |resp| < 0x1_0000
  {
    if |resp| < 0x1_0000 {
      ReplyDecodes(id1, id0, resp);
    } else {
      var d := Decode(ReplyBytes(Load16(id1, id0), resp));
      assert d.Some? && d.value != [] ==> |d.value[0].content| < 0x1_0000;
      assert ReplyRecords(id0, id1, resp)[0].content == resp;
    }
  }

  /** The reply carries the identifier of the request exactly when its two bytes are equal;
      identifier 1, for one, comes back as 256. */
  lemma ReplyEchoesIdIff(id1: byte, id0: byte, resp: seq<byte>)
    requires |resp| < 0x1_0000
    ensures Decode(ReplyBytes(Load16(id1, id0), resp)) == Some(ReplyRecords(id1, id0, resp)) <==> id1 == id0
    ensures ReplyRecords(0, 1, resp) != ReplyRecords(1, 0, resp)
  {
    ReplyDecodes(id1, id0, resp);
    assert ReplyRecords(id0, id1, resp)[0].id1 == id0 && ReplyRecords(id1, id0, resp)[0].id1 == id1;
    assert ReplyRecords(0, 1, resp)[0].id1 != ReplyRecords(1, 0, resp)[0].id1;
  }
}
