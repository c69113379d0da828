/** Whole runs of the event loop, from a pool of free slots and with any kernel. */
module LoopRuns {
  import opened Bytes
  import opened FastCgi
  import opened Records
  import opened Reply
  import opened Engine
  import opened Counting
  import opened EventLoop
  import opened LoopSafety
  import opened LoopSockets
  import opened LoopBytes
  import opened SlotReuse
  import RequestContents

  /** After `cg_client_pool_init` and the listener's setup; the saved headers are still zero. */
  ghost predicate Booted(s: System) {
    !s.listening && !s.armed && |s.hist| == |s.slots| && s.flights == [] && s.cq == [] && s.open == {}
    && s.accepted == s.closed == multiset{}
    && (forall h | h in s.hist :: h.base.hdr.typ == 0)
    && forall slot | slot in s.slots ::
         slot.phase == Free && !slot.inUse && slot.fd == -1 && slot.rx == slot.tx == [] && slot.sent == 0
             && slot.parser.hdr.typ == 0
  }

  ghost predicate Run(s: System, es: seq<Event>, s': System)
    decreases |es|
  {
    if es == [] then s == s' else Enabled(s, es[0]) && Run(Step(s, es[0]), es[1..], s')
  }

  ghost predicate Good(s: System) {
    Safe(s) && Listener(s) && Sockets(s) && Intact(s)
  }

  lemma BootGood(s: System)
    requires Booted(s)
    ensures Good(s) && !Deaf(s)
  {
    forall i | 0 <= i < |s.slots| ensures SlotConsistent(s.slots[i]) && Pending(s, i) == One(InCqe(s.slots[i].phase)) {
      assert s.slots[i] in s.slots;
    }
    forall fd ensures SocketKept(s, fd) {
      CountZero(s.slots, HeldFd(fd));
      assert forall k :: 0 <= k < |s.slots| ==> s.slots[k] in s.slots;
    }
    assert forall i :: 0 <= i < |s.slots| ==> s.slots[i] in s.slots;
  }

  lemma {:induction false} RunGood(s: System, es: seq<Event>, s': System)
    requires Good(s) && Run(s, es, s')
    ensures Good(s')
    decreases |es|
  {
    if es != [] {
      StepListener(s, es[0]);
      StepSockets(s, es[0]);
      StepIntact(s, es[0]);
      RunGood(Step(s, es[0]), es[1..], s');
    }
  }

  /** In every state of every run a slot has exactly one operation pending if it is in a CQE phase, and
      none otherwise; a slot is free only then; the pending operation is the one its phase calls for; a
      read always has room, inside the buffer; and the loop can always go on. */
  lemma OneOperationPerSlot(s: System, es: seq<Event>, s': System, i: nat)
    requires Booted(s) && Run(s, es, s') && i < |s'.slots|
    ensures Pending(s', i) == One(InCqe(s'.slots[i].phase))
    ensures !s'.slots[i].inUse <==> s'.slots[i].phase == Free
    ensures forall f | f in s'.flights && f.slot == i :: FlightFits(s'.slots[i], f.op)
    ensures Enabled(s', Service(i)) && (s'.cq != [] ==> Enabled(s', Reap([])))
  {
    BootGood(s);
    RunGood(s, es, s');
    assert s'.cq != [] ==> s'.cq[0] in s'.cq;
  }

  /** In every state of every run a socket was accepted as often as its close was requested, plus once
      if it has an owner; it has at most one owner; and it is open exactly while owned or being closed. */
  lemma SocketsClosedOnce(s: System, es: seq<Event>, s': System, fd: int)
    requires Booted(s) && Run(s, es, s')
    ensures s'.accepted[fd] == s'.closed[fd] + Owners(s', fd) && Owners(s', fd) <= 1
    ensures fd in s'.open <==> Owners(s', fd) + Count(s'.flights, ClosingFd(fd)) == 1
    ensures forall i, j :: 0 <= i < j < |s'.slots| && Holds(s'.slots[i], fd) ==> !Holds(s'.slots[j], fd)
  {
    BootGood(s);
    RunGood(s, es, s');
    assert SocketKept(s', fd);
    forall i, j | 0 <= i < j < |s'.slots| && Holds(s'.slots[i], fd) ensures !Holds(s'.slots[j], fd) {
      if Holds(s'.slots[j], fd) {
        TwoCounted(s'.slots, i, j, HeldFd(fd));
      }
    }
  }

  /** When everything has come to rest, every accept has been matched by exactly one close. */
  lemma AllClosedAtRest(s: System, es: seq<Event>, s': System)
    requires Booted(s) && Run(s, es, s')
    requires s'.cq == [] && forall slot | slot in s'.slots :: slot.phase == Free
    ensures s'.accepted == s'.closed && s'.open == {} && s'.flights == []
  {
    forall fd ensures s'.accepted[fd] == s'.closed[fd] && fd !in s'.open {
      SocketsClosedOnce(s, es, s', fd);
      CountZero(s'.slots, HeldFd(fd));
      assert forall k :: 0 <= k < |s'.slots| ==> s'.slots[k] in s'.slots;
      NoFlights(s, es, s');
    }
    NoFlights(s, es, s');
  }

  lemma NoFlights(s: System, es: seq<Event>, s': System)
    requires Booted(s) && Run(s, es, s')
    requires forall slot | slot in s'.slots :: slot.phase == Free
    ensures s'.flights == []
  {
    BootGood(s);
    RunGood(s, es, s');
    if s'.flights != [] {
      var f := s'.flights[0];
      assert f in s'.flights && s'.slots[f.slot] in s'.slots;
      OnlyFlight(s', 0);
    }
  }

  lemma {:induction false} RunDeaf(s: System, es: seq<Event>, s': System)
    requires Good(s) && Deaf(s) && Run(s, es, s')
    ensures Deaf(s')
    decreases |es|
  {
    if es != [] {
      StepListener(s, es[0]);
      StepSockets(s, es[0]);
      StepIntact(s, es[0]);
      StaysDeaf(s, es[0]);
      RunDeaf(Step(s, es[0]), es[1..], s');
    }
  }

  /** A saved header has its payload outstanding, in every slot, now and when its request began. */
  ghost predicate AllSaved(s: System) {
    |s.hist| == |s.slots|
    && forall i :: 0 <= i < |s.slots| ==> SavedIsOutstanding(s.slots[i].parser) && SavedIsOutstanding(s.hist[i].base)
  }

  lemma CompleteSaved(slot: Slot, res: int, data: seq<byte>, resp: seq<byte>)
    requires SlotOk(slot) && SavedIsOutstanding(slot.parser)
    ensures SavedIsOutstanding(Complete(slot, res, data, resp).parser)
  {
    ParseKeepsSaved(slot.parser, slot.rx + data);
  }

  /** A slot and its history are replaced. */
  lemma ReplacedSaved(s: System, s': System, i: nat, t: Slot, h: History)
    requires AllSaved(s) && i < |s.slots| && SavedIsOutstanding(t.parser) && SavedIsOutstanding(h.base)
    requires s'.slots == s.slots[i := t] && s'.hist == s.hist[i := h]
    ensures AllSaved(s')
  {
  }

  lemma ReapSaved(s: System, resp: seq<byte>)
    requires AllSaved(s) && Enabled(s, Reap(resp)) && s.cq[0].Done?
    ensures AllSaved(ReapDone(s, resp))
  {
    var Done(i, res, data) := s.cq[0];
    var t := Complete(s.slots[i], res, data, resp);
    CompleteSaved(s.slots[i], res, data, resp);
    ReplacedSaved(s, ReapDone(s, resp), i, t, NextHistory(s.hist[i], s.slots[i], t, data, resp));
  }

  lemma TakeSaved(s: System, fd: int, more: bool)
    requires AllSaved(s)
    ensures AllSaved(TakeAccepted(s, fd, more))
  {
    if s.listening && FirstFree(s.slots).Some? {
      var i := FirstFree(s.slots).value;
      ReplacedSaved(s, TakeAccepted(s, fd, more), i, Open(s.slots[i], fd), History(s.slots[i].parser, [], [], []));
    }
  }

  lemma HandleSaved(s: System, i: nat)
    requires AllSaved(s) && i < |s.slots| && SlotOk(s.slots[i])
    ensures AllSaved(HandleSlot(s, i))
  {
    ReplacedSaved(s, HandleSlot(s, i), i, Submit(s.slots[i]).0, s.hist[i]);
  }

  lemma StepSaved(s: System, e: Event)
    requires AllSaved(s) && Enabled(s, e)
    ensures AllSaved(Step(s, e))
  {
    match e
    case Service(i) => HandleSaved(s, i);
    case Reap(resp) =>
      if s.cq[0].Done? {
        ReapSaved(s, resp);
      } else if s.cq[0].Accepted? {
        TakeSaved(s.(cq := s.cq[1..]), s.cq[0].fd, s.cq[0].more);
      }
    case KernelDone(k, res, data) =>
      var i := s.flights[k].slot;
      ReplacedSaved(s, KernelFinish(s, k, res, data), i, s.slots[i], KernelFinish(s, k, res, data).hist[i]);
    case _ =>
  }

  lemma {:induction false} RunSaved(s: System, es: seq<Event>, s': System)
    requires AllSaved(s) && Run(s, es, s')
    ensures AllSaved(s')
    decreases |es|
  {
    if es != [] {
      StepSaved(s, es[0]);
      RunSaved(Step(s, es[0]), es[1..], s');
    }
  }

  /** In every state of every run, a connection has its requests read as they are exactly when the parser held
      no saved header at the moment it was opened. */
  lemma OpenedCleanIff(s: System, es: seq<Event>, s': System, i: nat)
    requires Booted(s) && Run(s, es, s') && i < |s'.slots| && i < |s'.hist|
    ensures (forall rs, end | RequestStream(rs, end) :: ReadsRequest(s'.hist[i].base, rs, end))
       <==> s'.hist[i].base.hdr.typ == 0
  {
    forall j | 0 <= j < |s.slots| ensures SavedIsOutstanding(s.slots[j].parser) && SavedIsOutstanding(s.hist[j].base) {
      assert s.slots[j] in s.slots && s.hist[j] in s.hist;
    }
    RunSaved(s, es, s');
    FreshStartIff(s'.hist[i].base);
  }

  /** Whatever the kernel delivered in whatever pieces: a connection that received a stream of typed
      records up to an empty STDIN answers exactly that request, keeps what follows, and what it writes
      is the handler's answer under the request's identifier. */
  lemma RequestServed(s: System, es: seq<Event>, s': System, i: nat, rs: seq<Record>, end: Record, tail: seq<byte>)
    requires Booted(s) && Run(s, es, s') && i < |s'.slots| && i < |s'.hist|
    requires s'.slots[i].phase == WriteSqe || s'.slots[i].phase == WriteCqe
    requires (forall r | r in rs :: ValidRecord(r) && !IsEnd(r) && r.typ != 0) && ValidRecord(end) && IsEnd(end)
    requires s'.hist[i].base.hdr.typ == 0 && s'.hist[i].recvd == Encode(rs) + EncodeRecord(end) + tail
    ensures var slot, req := s'.slots[i], AfterRecords(s'.hist[i].base.req, rs);
            slot.parser.req == req && slot.rx == tail && slot.tx == ReplyBytes(req.reqId, s'.hist[i].answer)
  {
    BootGood(s);
    RunGood(s, es, s');
    assert SlotIntact(s', i);
    ReceivedIsRequest(s'.slots[i], s'.hist[i], rs, end, tail);
  }

  /** Over any run, when a write completion ends a reply, whatever partial writes came before: the bytes that the
      kernel has taken decode to exactly the handler's answer, the end of output and the end of the request,
      all under the stored identifier. */
  lemma ReplyReceived(s: System, es: seq<Event>, s': System, resp: seq<byte>)
    requires Booted(s) && Run(s, es, s') && Enabled(s', Reap(resp)) && s'.cq[0].Done? && s'.cq[0].res >= 0
    requires s'.slots[s'.cq[0].slot].phase == WriteCqe && ReapDone(s', resp).slots[s'.cq[0].slot].phase != WriteSqe
    ensures var i := s'.cq[0].slot;
            var h, id := s'.hist[i], s'.slots[i].parser.req.reqId;
            |h.answer| <= MAX_RESPONSE && Decode(h.wire) == Some(ReplyRecords(id / 256, id % 256, h.answer))
  {
    BootGood(s);
    RunGood(s, es, s');
    var i := s'.cq[0].slot;
    ReplySentWhole(s', resp);
    assert SlotIntact(s', i);
    AnswerDecodes(s'.slots[i].parser.req.reqId, s'.hist[i].answer);
  }

  lemma AnswerDecodes(id: word, answer: seq<byte>)
    requires |answer| <= MAX_RESPONSE
    ensures Decode(ReplyBytes(id, answer)) == Some(ReplyRecords(id / 256, id % 256, answer))
  {
    assert Load16(id % 256, id / 256) == id;
    ReplyDecodes(id % 256, id / 256, answer);
  }

  lemma ReceivedIsRequest(slot: Slot, h: History, rs: seq<Record>, end: Record, tail: seq<byte>)
    requires ReceivedOk(slot, h) && (slot.phase == WriteSqe || slot.phase == WriteCqe) && h.base.hdr.typ == 0
    requires (forall r | r in rs :: ValidRecord(r) && !IsEnd(r) && r.typ != 0) && ValidRecord(end) && IsEnd(end)
    requires h.recvd == Encode(rs) + EncodeRecord(end) + tail
    ensures slot.parser.req == AfterRecords(h.base.req, rs) && slot.rx == tail
  {
    StreamParsed(h.base, rs, end, tail);
  }

  // ----- what each step of a connection leads to -----

  /** The operation that the kernel is asked for when a slot is served: to read into the room that is left, to
      write the rest of the reply, or to close the socket. */
  predicate Asks(slot: Slot, h: History, op: Option<Op>) {
    match slot.phase
    case ReadSqe => op == Some(Read(slot.fd, RX_SIZE - |slot.rx|))
    case WriteSqe =>
      var reply := ReplyBytes(slot.parser.req.reqId, h.answer);
      |h.wire| <= |reply| && op == Some(Write(slot.fd, reply[|h.wire|..]))
    case CloseSqe => op == Some(Close(slot.fd))
    case _ => op == None
  }

  function Submitted(p: Phase): Phase {
    match p
    case ReadSqe => ReadCqe
    case WriteSqe => WriteCqe
    case CloseSqe => CloseCqe
    case _ => p
  }

  /** In every state of every run, serving a slot asks the kernel for exactly that, and no more. */
  lemma ServiceAsks(s: System, es: seq<Event>, s': System, i: nat) returns (op: Option<Op>)
    requires Booted(s) && Run(s, es, s') && i < |s'.slots| && i < |s'.hist|
    ensures Asks(s'.slots[i], s'.hist[i], op) && Enabled(s', Service(i))
    ensures var t := Step(s', Service(i));
      t.flights == s'.flights + (if op.Some? then [Flight(i, op.value)] else [])
      && t.slots == s'.slots[i := s'.slots[i].(phase := Submitted(s'.slots[i].phase))]
  {
    BootGood(s);
    RunGood(s, es, s');
    assert SlotIntact(s', i);
    op := Submit(s'.slots[i]).1;
    SubmitAsks(s'.slots[i], s'.hist[i]);
    assert s'.slots[i := s'.slots[i]] == s'.slots;
  }

  lemma SubmitAsks(slot: Slot, h: History)
    requires SlotConsistent(slot) && ReplyOk(slot, h) && (slot.phase == WriteSqe ==> h.wire == slot.tx[..slot.sent])
    ensures Asks(slot, h, Submit(slot).1) && Submit(slot).0 == slot.(phase := Submitted(slot.phase))
  {
  }

  /** The next phase of the slot whose completion is at the head of the queue. */
  function NextPhase(s: System, resp: seq<byte>): Phase
    requires Enabled(s, Reap(resp)) && s.cq[0].Done?
  {
    Step(s, Reap(resp)).slots[s.cq[0].slot].phase
  }

  /** In every state of every run: a failed read, or the end of the file, closes the connection; after any other
      read the slot answers exactly when a parse of everything received is ready, and reads on otherwise. */
  lemma ReadLeadsTo(s: System, es: seq<Event>, s': System, resp: seq<byte>)
    requires Booted(s) && Run(s, es, s') && Enabled(s', Reap(resp)) && s'.cq[0].Done?
    requires s'.slots[s'.cq[0].slot].phase == ReadCqe
    ensures var c, h := s'.cq[0], s'.hist[s'.cq[0].slot];
      if c.res <= 0 then NextPhase(s', resp) == CloseSqe
      else Typed(h.base, h.recvd + c.data) ==>
        NextPhase(s', resp) == if Parse(h.base, h.recvd + c.data).Ready? then WriteSqe else ReadSqe
  {
    BootGood(s);
    RunGood(s, es, s');
    var c := s'.cq[0];
    assert SlotIntact(s', c.slot);
    ReadGoesOn(s'.slots[c.slot], s'.hist[c.slot], c.res, c.data, resp);
  }

  lemma ReadGoesOn(slot: Slot, h: History, res: int, data: seq<byte>, resp: seq<byte>)
    requires SlotOk(slot) && slot.phase == ReadCqe && ReceivedOk(slot, h)
    ensures var next := Complete(slot, res, data, resp).phase;
      if res <= 0 then next == CloseSqe
      else Typed(h.base, h.recvd + data) ==> next == if Parse(h.base, h.recvd + data).Ready? then WriteSqe else ReadSqe
  {
    if res > 0 && Typed(h.base, h.recvd + data) {
      TypedPrefix(h.base, h.recvd, data);
      CutKept(h.base, h.recvd, data);
    }
  }

  /** A close ends with a free slot. */
  lemma CloseLeadsTo(s: System, resp: seq<byte>)
    requires Enabled(s, Reap(resp)) && s.cq[0].Done? && s.slots[s.cq[0].slot].phase == CloseCqe
    ensures var t := Step(s, Reap(resp)).slots[s.cq[0].slot]; t.phase == Free && !t.inUse && t.fd == -1
  {
  }

  predicate RequestRecords(begin: Record, rs: seq<Record>, end: Record) {
    ValidRecord(begin) && begin.typ == BEGIN_REQUEST && |begin.content| > 2 && ValidRecord(end) && IsEnd(end)
    && forall r | r in rs :: ValidRecord(r) && !IsEnd(r) && r.typ != 0 && r.typ != BEGIN_REQUEST
  }

  /** Over any run, a write completion to a connection that received the records of one request: a failed write
      closes the connection; as long as the kernel has not taken the whole reply, the slot writes on; then it takes
      the next request if the request's keep flag is set, and closes the connection otherwise. */
  lemma WriteLeadsTo(s: System, es: seq<Event>, s': System, resp: seq<byte>,
                     begin: Record, rs: seq<Record>, end: Record, tail: seq<byte>)
    requires Booted(s) && Run(s, es, s') && Enabled(s', Reap(resp)) && s'.cq[0].Done?
    requires s'.slots[s'.cq[0].slot].phase == WriteCqe && RequestRecords(begin, rs, end)
    requires var h := s'.hist[s'.cq[0].slot];
      h.base.hdr.typ == 0 && h.recvd == Encode([begin] + rs) + EncodeRecord(end) + tail
    ensures var c, h := s'.cq[0], s'.hist[s'.cq[0].slot];
      NextPhase(s', resp)
      == if c.res < 0 then CloseSqe
         else if h.wire != ReplyBytes(Load16(begin.id1, begin.id0), h.answer) then WriteSqe
         else if begin.content[2] % 2 == 1 then ReadSqe
         else CloseSqe
  {
    BootGood(s);
    RunGood(s, es, s');
    var c := s'.cq[0];
    assert c in s'.cq && SlotIntact(s', c.slot);
    var slot, h := s'.slots[c.slot], s'.hist[c.slot];
    RequestKept(slot, h, begin, rs, end, tail);
    WriteGoesOn(slot, h, c.res, resp);
  }

  lemma RequestKept(slot: Slot, h: History, begin: Record, rs: seq<Record>, end: Record, tail: seq<byte>)
    requires ReceivedOk(slot, h) && slot.phase == WriteCqe && RequestRecords(begin, rs, end)
    requires h.base.hdr.typ == 0 && h.recvd == Encode([begin] + rs) + EncodeRecord(end) + tail
    ensures slot.parser.req.reqId == Load16(begin.id1, begin.id0)
    ensures slot.parser.req.keepAlive <==> begin.content[2] % 2 == 1
  {
    ReceivedIsRequest(slot, h, [begin] + rs, end, tail);
    RequestContents.RequestContentsAre(h.base.req, begin, rs);
  }

  lemma WriteGoesOn(slot: Slot, h: History, res: int, resp: seq<byte>)
    requires SlotConsistent(slot) && slot.phase == WriteCqe && slot.tx == ReplyBytes(slot.parser.req.reqId, h.answer)
    requires res <= |slot.tx| - slot.sent
    requires h.wire == slot.tx[..if res > 0 then slot.sent + res else slot.sent]
    ensures Complete(slot, res, [], resp).phase
         == if res < 0 then CloseSqe
            else if h.wire != ReplyBytes(slot.parser.req.reqId, h.answer) then WriteSqe
            else if slot.parser.req.keepAlive then ReadSqe
            else CloseSqe
  {
    assert slot.tx[..|slot.tx|] == slot.tx;
    if res >= 0 {
      assert h.wire == slot.tx <==> slot.sent + res == |slot.tx|;
    }
  }
}
