/** What one request leaves behind for the next one on the same slot or the same connection. */
module SlotReuse {
  import opened Bytes
  import opened FastCgi
  import opened Records
  import opened Engine

  /** A header is only ever saved while its payload is outstanding. */
  predicate SavedIsOutstanding(st: ParserState) {
    st.hdr.typ != 0 ==> TotalPayload(st.hdr) > 0
  }

  lemma {:induction false} ParseKeepsSaved(st: ParserState, data: seq<byte>)
    requires SavedIsOutstanding(st)
    ensures SavedIsOutstanding(Parse(st, data).st)
    decreases |data|, if st.hdr.typ == 0 then 0 else 1
  {
    if !Waits(st, data) {
      var (st', data') := Load(st, data);
      if |data'| >= TotalPayload(st'.hdr) {
        ParseKeepsSaved(Handle(st', data'), data'[TotalPayload(st'.hdr)..]);
      }
    }
  }

  predicate RequestStream(rs: seq<Record>, end: Record) {
    (forall r | r in rs :: ValidRecord(r) && !IsEnd(r) && r.typ != 0) && ValidRecord(end) && IsEnd(end)
  }

  /** The parser reads the stream as one request and stops behind its last byte. */
  predicate ReadsRequest(st: ParserState, rs: seq<Record>, end: Record)
    requires RequestStream(rs, end)
  {
    var o := Parse(st, Encode(rs) + EncodeRecord(end));
    o.Ready? && o.rest == []
  }

  /** `cg_fastcgi_client_init` does not reset the saved header: a new connection has its requests read
      as they are exactly when the slot's last connection left no header saved. */
  lemma FreshStartIff(st: ParserState)
    requires SavedIsOutstanding(st)
    ensures (forall rs, end | RequestStream(rs, end) :: ReadsRequest(st, rs, end)) <==> st.hdr.typ == 0
  {
    if st.hdr.typ == 0 {
      forall rs, end | RequestStream(rs, end) ensures ReadsRequest(st, rs, end) {
        assert Encode(rs) + EncodeRecord(end) + [] == Encode(rs) + EncodeRecord(end);
        StreamParsed(st, rs, end, []);
      }
    } else {
      var rs, end := StaleWitness(st);
      assert RequestStream(rs, end) && !ReadsRequest(st, rs, end);
    }
  }

  /** A request that a stale header misreads: one or two bare headers. */
  lemma StaleWitness(st: ParserState) returns (rs: seq<Record>, end: Record)
    requires st.hdr.typ != 0 && SavedIsOutstanding(st)
    ensures RequestStream(rs, end) && !ReadsRequest(st, rs, end)
  {
    end := Record(STDIN, 0, 1, [], []);
    if TotalPayload(st.hdr) == HEADER_SIZE && EndsRequest(st.hdr) {
      rs := [Record(11, 0, 1, [], [])];
      assert Encode(rs) == EncodeRecord(rs[0]) + Encode([]);
      StaleMisreads(st, Encode(rs) + EncodeRecord(end));
    } else {
      rs := [];
      StaleMisreads(st, Encode(rs) + EncodeRecord(end));
    }
  }

  lemma StaleMisreads(st: ParserState, data: seq<byte>)
    requires st.hdr.typ != 0 && TotalPayload(st.hdr) > 0
    requires |data| == if TotalPayload(st.hdr) == HEADER_SIZE && EndsRequest(st.hdr) then 16 else HEADER_SIZE
    ensures Parse(st, data).Ready? ==> Parse(st, data).rest != []
  {
    var total := TotalPayload(st.hdr);
    assert Parse(st, data) == ParseBody(st, data);
    if total <= HEADER_SIZE && !EndsRequest(st.hdr) {
      var next := FastCgi.Handle(st, data);
      assert Waits(next, data[total..]);
      assert Parse(next, data[total..]).More?;
      assert ParseBody(st, data) == Parse(next, data[total..]);
    }
  }

  /** Two results that differ in nothing the connection goes by: verdict, request, unread bytes, saved header. */
  predicate Alike(o: Outcome, o': Outcome) {
    o.Ready? == o'.Ready? && o.rest == o'.rest && o.st.req == o'.st.req
    && (if o.st.hdr.typ == 0 then o'.st.hdr.typ == 0 else o.st.hdr == o'.st.hdr)
  }

  /** Without a saved header, what is left in its fields does not matter. */
  lemma UnsavedAlike(st: ParserState, st': ParserState, data: seq<byte>)
    requires st.req == st'.req && st.hdr.typ == 0 && st'.hdr.typ == 0
    ensures Alike(Parse(st, data), Parse(st', data))
  {
    if !Waits(st, data) {
      assert Load(st, data) == Load(st', data);
    }
  }

  /** What had been read behind the answered request made no difference yet. */
  predicate Negligible(st: ParserState, rx: seq<byte>) {
    var o := Parse(st, rx);
    o.More? && o.rest == [] && o.need == 0 && o.st.req == st.req
  }

  /** A kept connection starts over with an empty buffer. It goes on as if nothing had been dropped, whatever comes
      next, exactly when what had been read behind the answered request was whole records that change nothing. */
  lemma KeptConnectionIff(s: Slot, res: nat)
    requires s.sent + res >= |s.tx| && s.parser.req.keepAlive && s.parser.hdr.typ == 0
    ensures var next := OnWrite(s, res);
      (forall b :: Alike(Parse(next.parser, next.rx + b), Parse(s.parser, s.rx + b))) <==> Negligible(s.parser, s.rx)
  {
    var next := OnWrite(s, res);
    assert next.parser == s.parser && next.rx == [];
    if Negligible(s.parser, s.rx) {
      forall b ensures Alike(Parse(next.parser, next.rx + b), Parse(s.parser, s.rx + b)) {
        assert next.rx + b == b;
        NegligibleAlike(s.parser, s.rx, b);
      }
    } else {
      var b := MissedBytes(s.parser, s.rx);
      assert next.rx + b == b;
      assert !Alike(Parse(next.parser, next.rx + b), Parse(s.parser, s.rx + b));
    }
  }

  lemma NegligibleAlike(st: ParserState, rx: seq<byte>, b: seq<byte>)
    requires st.hdr.typ == 0 && Negligible(st, rx)
    ensures Alike(Parse(st, b), Parse(st, rx + b))
  {
    var o := Parse(st, rx);
    NothingPending(st, rx);
    CutKept(st, rx, b);
    assert o.rest + b == b;
    UnsavedAlike(st, o.st, b);
  }

  /** A continuation on which the dropped bytes are missed. */
  lemma MissedBytes(st: ParserState, rx: seq<byte>) returns (b: seq<byte>)
    requires st.hdr.typ == 0 && !Negligible(st, rx)
    ensures !Alike(Parse(st, b), Parse(st, rx + b))
  {
    var o := Parse(st, rx);
    NothingPending(st, rx);
    if HeaderLost(o) && o.rest == [] {
      b := EncodeRecord(Record(STDIN, 0, 1, [], []));
      LostSwallows(st, rx, b);
      EmptyStdinReady(st, b);
    } else {
      b := [];
      assert rx + b == rx;
    }
  }

  lemma EmptyStdinReady(st: ParserState, b: seq<byte>)
    requires st.hdr.typ == 0 && b == EncodeRecord(Record(STDIN, 0, 1, [], []))
    ensures Parse(st, b).Ready?
  {
    assert b + [] == b;
    RecordRound(st, Record(STDIN, 0, 1, [], []), []);
  }

  /** A call that began without a saved header and waits for no payload has none saved either. */
  lemma NothingPending(st: ParserState, data: seq<byte>)
    requires st.hdr.typ == 0
    ensures var o := Parse(st, data);
      o.More? ==> (o.need == 0 ==> o.st.hdr.typ == 0) && (o.st.hdr.typ == 0 ==> HeaderLost(o) || o.need == 0)
  {
    NoStall(st, data);
    ParseKeepsSaved(st, data);
  }

  /** The payload of a lost header takes the next empty STDIN with it. */
  lemma LostSwallows(st: ParserState, data: seq<byte>, b: seq<byte>)
    requires HeaderLost(Parse(st, data)) && Parse(st, data).rest == []
    requires b == EncodeRecord(Record(STDIN, 0, 1, [], []))
    ensures Parse(st, data + b).More?
  {
    var o := Parse(st, data);
    NoStall(st, data);
    ParseCut(st, data, b);
    assert o.rest + b == b && |b| == HEADER_SIZE;
    assert Parse(st, data + b) == ParseBody(o.st, b);
    var total := TotalPayload(o.st.hdr);
    if total <= |b| {
      var next := FastCgi.Handle(o.st, b);
      assert Waits(next, b[total..]);
      assert Parse(next, b[total..]).More?;
      assert ParseBody(o.st, b) == Parse(next, b[total..]);
    }
  }

  /** So when the client waits for the reply before it sends the next request, that request is read as it is; when
      all of it had already been read behind the answered one, it is not served, though it could have been. */
  lemma KeptConnectionServes(s: Slot, res: nat, rs: seq<Record>, end: Record)
    requires s.sent + res >= |s.tx| && s.parser.req.keepAlive && RequestStream(rs, end)
    requires s.parser.hdr.typ == 0
    ensures var next := OnWrite(s, res);
      var o, stream := Ready(ParserState(HeaderOf(end).(typ := 0), AfterRecords(s.parser.req, rs)), []),
                       Encode(rs) + EncodeRecord(end);
      Parse(next.parser, next.rx + stream) == o
      && (s.rx == stream ==> Parse(s.parser, s.rx) == o && Parse(next.parser, next.rx) == More(next.parser, [], 0))
  {
    var stream := Encode(rs) + EncodeRecord(end);
    assert stream + [] == stream && [] + stream == stream;
    StreamParsed(s.parser, rs, end, []);
    assert OnWrite(s, res).parser == s.parser;
  }
}
