/** Runs of the event loop that reach the states one would rather not: a listener that is lost, and a
    connection that opens with a stale header. */
module LoopWitnesses {
  import opened Bytes
  import opened FastCgi
  import opened Records
  import opened Reply
  import opened Engine
  import opened Counting
  import opened EventLoop
  import opened LoopSafety
  import opened LoopSockets
  import opened LoopBytes
  import opened LoopRuns
  import opened SlotReuse
  import RequestContents

  lemma {:induction false} RunThen(s: System, es: seq<Event>, s1: System, e: Event)
    requires Run(s, es, s1) && Enabled(s1, e)
    ensures Run(s, es + [e], Step(s1, e))
    decreases |es|
  {
    if es == [] {
      assert Run(Step(s, e), [e][1..], Step(s1, e));
    } else {
      assert (es + [e])[1..] == es[1..] + [e];
      RunThen(Step(s, es[0]), es[1..], s1, e);
    }
  }

  /** The loop listens, and nothing but the accept is under way. */
  predicate Quiet(s: System) {
    s.listening && s.armed && s.flights == [] && s.cq == [] && |s.hist| == |s.slots|
  }

  lemma Listening(s: System) returns (es: seq<Event>, s': System)
    requires Booted(s)
    ensures Run(s, es, s') && Quiet(s') && s'.slots == s.slots && s'.hist == s.hist && s'.open == {}
  {
    es, s' := [Listen], Step(s, Listen);
    assert Run(s', [Listen][1..], s');
  }

  /** A connection is accepted into the first free slot. */
  lemma Connect(s: System, es: seq<Event>, s1: System, i: nat, fd: int) returns (es': seq<Event>, s': System)
    requires Run(s, es, s1) && Quiet(s1) && FirstFree(s1.slots) == Some(i) && fd >= 0 && fd !in s1.open
    ensures Run(s, es', s') && Quiet(s') && s'.open == s1.open + {fd}
    ensures s'.slots == s1.slots[i := Open(s1.slots[i], fd)]
    ensures s'.hist == s1.hist[i := History(s1.slots[i].parser, [], [], [])]
  {
    var accept, reap := KernelAccept(fd, true), Reap([]);
    var s2 := Step(s1, accept);
    RunThen(s, es, s1, accept);
    RunThen(s, es + [accept], s2, reap);
    es', s' := es + [accept] + [reap], Step(s2, reap);
  }

  // ----- the listener -----

  predicate FilledUpTo(s: System, k: nat) {
    k <= |s.slots|
    && (forall j :: 0 <= j < |s.slots| ==> (s.slots[j].inUse <==> j < k))
    && (forall fd | fd in s.open :: fd < k)
  }

  lemma FirstFreeIs(slots: seq<Slot>, k: nat)
    requires k <= |slots| && forall j :: 0 <= j < |slots| ==> (slots[j].inUse <==> j < k)
    ensures FirstFree(slots) == if k < |slots| then Some(k) else None
  {
    var r := FirstFree(slots);
    assert k < |slots| ==> !slots[k].inUse;
    if r.Some? {
      assert !slots[r.value].inUse;
    }
  }

  lemma {:induction false} FillPool(s: System, es: seq<Event>, s1: System, k: nat) returns (es': seq<Event>, s': System)
    requires Run(s, es, s1) && Quiet(s1) && FilledUpTo(s1, k)
    ensures Run(s, es', s') && Quiet(s') && |s'.slots| == |s1.slots| && FilledUpTo(s', |s'.slots|)
    decreases |s1.slots| - k
  {
    if k == |s1.slots| {
      es', s' := es, s1;
    } else {
      FirstFreeIs(s1.slots, k);
      var es2, s2 := Connect(s, es, s1, k, k);
      es', s' := FillPool(s, es2, s2, k + 1);
    }
  }

  /** From every start, whatever the size of the pool, some run ends with a loop that believes it listens while
      no accept is in flight: the pool fills up, and one more connection ends the accept. */
  lemma CanGoDeaf(s: System) returns (es: seq<Event>, s': System)
    requires Booted(s)
    ensures Run(s, es, s') && Deaf(s')
  {
    es, s' := Listening(s);
    assert forall j :: 0 <= j < |s.slots| ==> s.slots[j] in s.slots;
    es, s' := FillPool(s, es, s', 0);
    var n := |s'.slots|;
    FirstFreeIs(s'.slots, n);
    var accept, reap := KernelAccept(n, false), Reap([]);
    var s2 := Step(s', accept);
    RunThen(s, es, s', accept);
    RunThen(s, es + [accept], s2, reap);
    es, s' := es + [accept] + [reap], Step(s2, reap);
  }

  // ----- the saved header -----

  /** Slot 0 has its operation submitted, completed with a legal result, and handled. */
  lemma Operate(s: System, es: seq<Event>, s1: System, res: int, data: seq<byte>, resp: seq<byte>)
    returns (es': seq<Event>, s': System)
    requires Run(s, es, s1) && Quiet(s1) && s1.slots != [] && SlotOk(s1.slots[0]) && |resp| <= MAX_RESPONSE
    requires Submit(s1.slots[0]).1.Some?
    requires LegalResult(Submit(s1.slots[0]).1.value, res, data)
    ensures Run(s, es', s') && Quiet(s') && |s'.slots| == |s1.slots|
    ensures s'.slots[0] == Complete(Submit(s1.slots[0]).0, res, data, resp)
    ensures s'.open == if s1.slots[0].phase == CloseSqe then s1.open - {s1.slots[0].fd} else s1.open
  {
    var a, b, c := Service(0), KernelDone(0, res, data), Reap(resp);
    var (t, op) := Submit(s1.slots[0]);
    var s2 := Submitted(s1, t, op.value);
    RunThen(s, es, s1, a);
    var s3 := Finished(s2, op.value, res, data);
    RunThen(s, es + [a], s2, b);
    var s4 := Reaped(s3, res, data, resp);
    RunThen(s, es + [a] + [b], s3, c);
    es', s' := es + [a] + [b] + [c], s4;
  }

  lemma Submitted(s: System, t: Slot, op: Op) returns (s': System)
    requires Quiet(s) && s.slots != [] && SlotOk(s.slots[0]) && Submit(s.slots[0]) == (t, Some(op))
    ensures Enabled(s, Service(0)) && s' == Step(s, Service(0)) && s'.flights == [Flight(0, op)]
    ensures s'.slots == s.slots[0 := t] && s' == s.(slots := s'.slots, flights := s'.flights, closed := s'.closed)
  {
    s' := Step(s, Service(0));
  }

  lemma Finished(s: System, op: Op, res: int, data: seq<byte>) returns (s': System)
    requires s.flights == [Flight(0, op)] && s.cq == [] && s.hist != [] && LegalResult(op, res, data)
    ensures Enabled(s, KernelDone(0, res, data)) && s' == Step(s, KernelDone(0, res, data))
    ensures s'.flights == [] && s'.cq == [Done(0, res, data)] && |s'.hist| == |s.hist|
    ensures s'.open == (if op.Close? then s.open - {op.fd} else s.open)
    ensures s' == s.(flights := [], cq := s'.cq, open := s'.open, hist := s'.hist)
  {
    s' := Step(s, KernelDone(0, res, data));
  }

  lemma Reaped(s: System, res: int, data: seq<byte>, resp: seq<byte>) returns (s': System)
    requires s.cq == [Done(0, res, data)] && |s.hist| == |s.slots| > 0 && SlotOk(s.slots[0]) && |resp| <= MAX_RESPONSE
    ensures Enabled(s, Reap(resp)) && s' == Step(s, Reap(resp)) && |s'.hist| == |s.hist|
    ensures s' == s.(cq := [], slots := s.slots[0 := Complete(s.slots[0], res, data, resp)], hist := s'.hist)
  {
    s' := Step(s, Reap(resp));
  }

  /** A STDIN header that announces one byte. */
  const HEADER: seq<byte> := [1, STDIN, 0, 1, 0, 1, 0, 0]

  /** A slot on which nothing has been received since it was opened, or since its header was read. */
  predicate Reading(slot: Slot, fd: int, typ: byte) {
    slot.phase == ReadSqe && slot.inUse && slot.fd == fd && slot.rx == [] && slot.tx == [] && slot.sent == 0
    && slot.parser.hdr.typ == typ
  }

  lemma HeaderIsSaved(slot: Slot, fd: int)
    requires Reading(slot, fd, 0)
    ensures Reading(Complete(Submit(slot).0, 8, HEADER, []), fd, STDIN)
  {
    var st := slot.parser;
    assert HEADER[HEADER_SIZE..] == [] && [] + HEADER == HEADER;
    assert Parse(st, HEADER) == ParseBody(st.(hdr := ReadHeader(HEADER)), []);
  }

  lemma ClosesStale(slot: Slot, fd: int)
    requires Reading(slot, fd, STDIN) && fd >= 0
    ensures var closing := Complete(Submit(slot).0, 0, [], []);
      closing == slot.(phase := CloseSqe)
      && Complete(Submit(closing).0, 0, [], []) == slot.(phase := Free, inUse := false, fd := -1)
  {
  }

  lemma FirstIsFree(slots: seq<Slot>)
    requires slots != [] && !slots[0].inUse
    ensures FirstFree(slots) == Some(0)
  {
  }

  /** Slot 0 reads a header, and nothing more, before its client leaves. */
  lemma LeaveStale(s: System, es: seq<Event>, s1: System) returns (es': seq<Event>, s': System)
    requires Run(s, es, s1) && Quiet(s1) && s1.slots != [] && Reading(s1.slots[0], 0, 0)
    ensures Run(s, es', s') && Quiet(s') && |s'.slots| == |s1.slots| && s'.open == s1.open - {0}
    ensures !s'.slots[0].inUse && s'.slots[0].parser.hdr.typ == STDIN
  {
    HeaderIsSaved(s1.slots[0], 0);
    es', s' := Operate(s, es, s1, 8, HEADER, []);
    ClosesStale(s'.slots[0], 0);
    es', s' := Operate(s, es', s', 0, [], []);
    es', s' := Operate(s, es', s', 0, [], []);
  }

  /** From every start with a slot, some run opens a connection whose parser holds the header of the one before:
      a client sends a header and closes, and the next one takes its slot. */
  lemma CanOpenStale(s: System) returns (es: seq<Event>, s': System)
    requires Booted(s) && s.slots != []
    ensures Run(s, es, s') && |s'.slots| == |s.slots| && |s'.hist| == |s'.slots|
    ensures s'.slots[0].phase == ReadSqe && s'.hist[0].base == s'.slots[0].parser && s'.slots[0].parser.hdr.typ != 0
  {
    assert s.slots[0] in s.slots;
    es, s' := Listening(s);
    FirstIsFree(s'.slots);
    es, s' := Connect(s, es, s', 0, 0);
    es, s' := LeaveStale(s, es, s');
    FirstIsFree(s'.slots);
    es, s' := Connect(s, es, s', 0, 0);
  }

  // ----- a request from end to end -----

  /** A request that arrives in one read is answered. */
  lemma AnswersStream(slot: Slot, rs: seq<Record>, end: Record, stream: seq<byte>, resp: seq<byte>)
    requires Reading(slot, 0, 0) && RequestStream(rs, end) && stream == Encode(rs) + EncodeRecord(end)
    ensures var t, req := Complete(Submit(slot).0, |stream|, stream, resp), AfterRecords(slot.parser.req, rs);
      t.phase == WriteSqe && t.fd == 0 && t.rx == [] && t.parser.req == req && t.sent == 0
      && t.tx == ReplyBytes(req.reqId, resp)
  {
    assert [] + stream == stream && stream + [] == stream && stream != [];
    StreamParsed(slot.parser, rs, end, []);
  }

  lemma WritesWhole(slot: Slot)
    requires SlotOk(slot) && slot.phase == WriteSqe && slot.sent == 0
    ensures var (t, op) := Submit(slot);
      op == Some(Write(slot.fd, slot.tx))
      && Complete(t, |slot.tx|, [], []).phase == (if slot.parser.req.keepAlive then ReadSqe else CloseSqe)
      && Complete(t, |slot.tx|, [], []).fd == slot.fd && SlotOk(Complete(t, |slot.tx|, [], []))
  {
    assert slot.tx[0..] == slot.tx;
  }

  /** From every start with a slot and for every request that fits the receive buffer, some run accepts a connection,
      reads the request, writes the whole reply, and then waits for the next request if the keep flag is set and
      closes the socket otherwise. */
  lemma CanServe(s: System, begin: Record, rs: seq<Record>, end: Record, resp: seq<byte>)
    returns (es: seq<Event>, s': System)
    requires Booted(s) && s.slots != [] && RequestRecords(begin, rs, end) && |resp| <= MAX_RESPONSE
    requires |Encode([begin] + rs) + EncodeRecord(end)| < RX_SIZE
    ensures Run(s, es, s') && s'.slots != []
    ensures if begin.content[2] % 2 == 1 then s'.slots[0].phase == ReadSqe && 0 in s'.open
            else s'.slots[0].phase == Free && 0 !in s'.open
  {
    assert s.slots[0] in s.slots;
    es, s' := Listening(s);
    FirstIsFree(s'.slots);
    es, s' := Connect(s, es, s', 0, 0);
    es, s' := ReadRequest(s, es, s', begin, rs, end, resp);
    es, s' := WriteReply(s, es, s');
    if begin.content[2] % 2 == 0 {
      es, s' := CloseSocket(s, es, s');
    }
  }

  /** Slot 0 reads the whole request and has its answer. */
  lemma ReadRequest(s: System, es: seq<Event>, s1: System, begin: Record, rs: seq<Record>, end: Record, resp: seq<byte>)
    returns (es': seq<Event>, s': System)
    requires Run(s, es, s1) && Quiet(s1) && s1.slots != [] && Reading(s1.slots[0], 0, 0)
    requires RequestRecords(begin, rs, end) && |resp| <= MAX_RESPONSE
    requires |Encode([begin] + rs) + EncodeRecord(end)| < RX_SIZE
    ensures Run(s, es', s') && Quiet(s') && s'.slots != [] && s'.open == s1.open
    ensures var t := s'.slots[0];
      t.phase == WriteSqe && t.fd == 0 && t.rx == [] && t.sent == 0
      && (t.parser.req.keepAlive <==> begin.content[2] % 2 == 1)
  {
    var stream := Encode([begin] + rs) + EncodeRecord(end);
    RequestContents.RequestContentsAre(s1.slots[0].parser.req, begin, rs);
    AnswersStream(s1.slots[0], [begin] + rs, end, stream, resp);
    es', s' := Operate(s, es, s1, |stream|, stream, resp);
  }

  /** The kernel takes the whole reply of slot 0. */
  lemma WriteReply(s: System, es: seq<Event>, s1: System) returns (es': seq<Event>, s': System)
    requires Run(s, es, s1) && Quiet(s1) && s1.slots != []
    requires SlotOk(s1.slots[0]) && s1.slots[0].phase == WriteSqe && s1.slots[0].sent == 0
    ensures Run(s, es', s') && Quiet(s') && s'.slots != [] && s'.open == s1.open
    ensures s'.slots[0].phase == (if s1.slots[0].parser.req.keepAlive then ReadSqe else CloseSqe)
    ensures s'.slots[0].fd == s1.slots[0].fd && SlotOk(s'.slots[0])
  {
    WritesWhole(s1.slots[0]);
    es', s' := Operate(s, es, s1, |s1.slots[0].tx|, [], []);
  }

  /** The socket of slot 0 is closed. */
  lemma CloseSocket(s: System, es: seq<Event>, s1: System) returns (es': seq<Event>, s': System)
    requires Run(s, es, s1) && Quiet(s1) && s1.slots != []
    requires SlotOk(s1.slots[0]) && s1.slots[0].phase == CloseSqe && s1.slots[0].fd >= 0
    ensures Run(s, es', s') && s'.slots != [] && s'.slots[0].phase == Free && s'.open == s1.open - {s1.slots[0].fd}
  {
    es', s' := Operate(s, es, s1, 0, [], []);
  }
}
