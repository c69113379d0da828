/** The bytes of each connection over every run of the event loop: what is parsed is what was received,
    and what is sent is the reply, once. */
module LoopBytes {
  import opened Bytes
  import opened FastCgi
  import opened Reply
  import opened Engine
  import opened Counting
  import opened EventLoop
  import opened LoopSafety

  /** The slot stands where one parse of everything received since the request began would stand. */
  predicate ReceivedOk(slot: Slot, h: History) {
    Typed(h.base, h.recvd) ==>
      var o := Parse(h.base, h.recvd);
      match slot.phase
      case ReadSqe => o.More? && o.st == slot.parser && o.rest == slot.rx
      case ReadCqe => o.More? && o.st == slot.parser && o.rest == slot.rx
      case WriteSqe => o == Ready(slot.parser, slot.rx)
      case WriteCqe => o == Ready(slot.parser, slot.rx)
      case _ => true
  }

  /** The reply being written carries what the handler answered to the parsed request, and no header is saved. */
  predicate ReplyOk(slot: Slot, h: History) {
    slot.phase == WriteSqe || slot.phase == WriteCqe ==>
      slot.parser.hdr.typ == 0 && slot.tx == ReplyBytes(slot.parser.req.reqId, h.answer) && |h.answer| <= MAX_RESPONSE
  }

  /** The kernel has taken the bytes before the position, and those of a completion to be handled. */
  predicate WireOk(s: System, i: nat)
    requires Shapes(s) && i < |s.slots|
  {
    var slot, wire := s.slots[i], s.hist[i].wire;
    match slot.phase
    case ReadSqe => wire == []
    case ReadCqe => wire == []
    case WriteSqe => wire == slot.tx[..slot.sent]
    case WriteCqe =>
      (forall f | f in s.flights && f.slot == i :: wire == slot.tx[..slot.sent])
      && (forall c | c in s.cq && c.Done? && c.slot == i ::
            slot.sent + c.res <= |slot.tx| && wire == slot.tx[..if c.res > 0 then slot.sent + c.res else slot.sent])
    case _ => true
  }

  /** Everything that is said of one slot. */
  predicate SlotIntact(s: System, i: nat)
    requires Shapes(s) && i < |s.slots|
  {
    ReceivedOk(s.slots[i], s.hist[i]) && ReplyOk(s.slots[i], s.hist[i]) && WireOk(s, i)
  }

  ghost predicate Intact(s: System)
    requires Shapes(s)
  {
    forall i :: 0 <= i < |s.slots| ==> SlotIntact(s, i)
  }

  /** A read completion continues the one parse of all that was received. */
  lemma ReadKeeps(slot: Slot, h: History, data: seq<byte>, resp: seq<byte>)
    requires SlotOk(slot) && slot.phase == ReadCqe && ReceivedOk(slot, h) && |resp| <= MAX_RESPONSE
    ensures ReceivedOk(OnRead(slot, data, resp), h.(recvd := h.recvd + data, answer := resp))
    ensures ReplyOk(OnRead(slot, data, resp), h.(recvd := h.recvd + data, answer := resp))
  {
    ReadyIsClean(slot.parser, slot.rx + data);
    if Typed(h.base, h.recvd + data) {
      TypedPrefix(h.base, h.recvd, data);
      CutKept(h.base, h.recvd, data);
    }
  }

  lemma {:induction false} ReadyIsClean(st: ParserState, data: seq<byte>)
    ensures Parse(st, data).Ready? ==> Parse(st, data).st.hdr.typ == 0
    decreases |data|, if st.hdr.typ == 0 then 0 else 1
  {
    if !Waits(st, data) {
      var (st', data') := Load(st, data);
      if |data'| >= TotalPayload(st'.hdr) {
        ReadyIsClean(Handle(st', data'), data'[TotalPayload(st'.hdr)..]);
      }
    }
  }

  /** The same for a slot outside the CQE phases, whatever is under way elsewhere. */
  predicate IdleIntact(slot: Slot, h: History) {
    ReceivedOk(slot, h) && ReplyOk(slot, h)
    && (slot.phase == ReadSqe ==> h.wire == [])
    && (slot.phase == WriteSqe ==> h.wire == slot.tx[..Min(slot.sent, |slot.tx|)])
  }

  lemma HandleIntact(s: System, i: nat)
    requires Safe(s) && Intact(s) && i < |s.slots|
    ensures Safe(HandleSlot(s, i)) && Intact(HandleSlot(s, i))
  {
    HandleSafe(s, i);
    SubmitEffect(s.slots[i]);
    var s' := HandleSlot(s, i);
    var (t, op) := Submit(s.slots[i]);
    if op.Some? {
      Idle(s, i);
      assert SlotIntact(s, i);
      SubmittedIntact(s, s', i, t, op.value);
      forall j | 0 <= j < |s.slots| && j != i ensures SlotIntact(s', j) {
        assert SlotIntact(s, j);
        BesideFlight(s, s', i, t, op.value, j);
      }
    } else {
      assert s'.slots == s.slots;
      SameSlotsIntact(s, s');
    }
  }

  lemma SubmittedIntact(s: System, s': System, i: nat, t: Slot, op: Op)
    requires Shapes(s) && Shapes(s') && i < |s.slots| && IdleIntact(s.slots[i], s.hist[i]) && SlotConsistent(s.slots[i])
    requires Submit(s.slots[i]) == (t, Some(op))
    requires s'.slots == s.slots[i := t] && s'.hist == s.hist && s'.flights == s.flights + [Flight(i, op)]
            && s'.cq == s.cq
    requires forall c | c in s.cq && c.Done? :: c.slot != i
    ensures SlotIntact(s', i)
  {
  }

  lemma BesideFlight(s: System, s': System, i: nat, t: Slot, op: Op, j: nat)
    requires Shapes(s) && Shapes(s') && i < |s.slots| && j < |s.slots| && j != i && SlotIntact(s, j)
    requires s'.slots == s.slots[i := t] && s'.hist == s.hist && s'.flights == s.flights + [Flight(i, op)]
            && s'.cq == s.cq
    ensures SlotIntact(s', j)
  {
    assert forall f | f in s'.flights :: f in s.flights || f == Flight(i, op);
  }

  lemma FinishIntact(s: System, k: nat, res: int, data: seq<byte>)
    requires Safe(s) && Intact(s) && Enabled(s, KernelDone(k, res, data))
    ensures Safe(KernelFinish(s, k, res, data)) && Intact(KernelFinish(s, k, res, data))
  {
    FinishSafe(s, k, res, data);
    var s' := KernelFinish(s, k, res, data);
    forall j | 0 <= j < |s.slots| ensures SlotIntact(s', j) {
      assert SlotIntact(s, j);
      assert s'.hist[j] == s.hist[j].(wire := s'.hist[j].wire);
      FinishWire(s, k, res, data, j);
    }
  }

  lemma FinishWire(s: System, k: nat, res: int, data: seq<byte>, j: nat)
    requires Safe(s) && Enabled(s, KernelDone(k, res, data)) && j < |s.slots| && WireOk(s, j)
    requires Shapes(KernelFinish(s, k, res, data))
    ensures WireOk(KernelFinish(s, k, res, data), j)
  {
    var s' := KernelFinish(s, k, res, data);
    assert s.flights[k] in s.flights;
    if j == s.flights[k].slot {
      FinishOwnWire(s, k, res, data);
    } else {
      assert s'.hist[j] == s.hist[j];
      WireElsewhere(s, s', k, Done(s.flights[k].slot, res, data), j);
    }
  }

  lemma WireElsewhere(s: System, s': System, k: nat, c: Cqe, j: nat)
    requires Shapes(s) && Shapes(s') && j < |s.slots| && WireOk(s, j) && k < |s.flights| && c.Done? && c.slot != j
    requires s'.slots == s.slots && s'.hist[j] == s.hist[j] && s'.flights == Remove(s.flights, k) && s'.cq == s.cq + [c]
    ensures WireOk(s', j)
  {
    assert forall f | f in s'.flights :: f in s.flights;
    assert forall d | d in s'.cq :: d in s.cq || d == c;
  }

  /** The slot whose operation the kernel completes. */
  lemma FinishOwnWire(s: System, k: nat, res: int, data: seq<byte>)
    requires Safe(s) && Enabled(s, KernelDone(k, res, data)) && s.flights[k].slot < |s.slots|
            && WireOk(s, s.flights[k].slot)
    requires Shapes(KernelFinish(s, k, res, data))
    ensures WireOk(KernelFinish(s, k, res, data), s.flights[k].slot)
  {
    var s' := KernelFinish(s, k, res, data);
    var Flight(i, op) := s.flights[k];
    assert s.flights[k] in s.flights;
    OnlyFlight(s, k);
    assert forall c | c in s'.cq :: c in s.cq || c == Done(i, res, data);
    assert FlightFits(s.slots[i], op);
    if op.Write? && res > 0 {
      Prefix(s.slots[i].tx, s.slots[i].sent, res);
    }
  }

  lemma Prefix(s: seq<byte>, a: nat, b: nat)
    requires a + b <= |s|
    ensures s[..a] + s[a..][..b] == s[..a + b]
  {
  }

  lemma ReapDoneIntact(s: System, resp: seq<byte>)
    requires Safe(s) && Intact(s) && Enabled(s, Reap(resp)) && s.cq[0].Done?
    ensures Safe(ReapDone(s, resp)) && Intact(ReapDone(s, resp))
  {
    ReapDoneSafe(s, resp);
    var s', i := ReapDone(s, resp), s.cq[0].slot;
    assert s.cq[0] in s.cq;
    assert forall c | c in s'.cq :: c in s.cq;
    OthersIntact(s, s', i);
    ReapedIntact(s, resp);
  }

  /** The slot whose completion is handled. */
  lemma ReapedIntact(s: System, resp: seq<byte>)
    requires Safe(s) && Intact(s) && Enabled(s, Reap(resp)) && s.cq[0].Done?
    requires Shapes(ReapDone(s, resp))
    ensures SlotIntact(ReapDone(s, resp), s.cq[0].slot)
  {
    var Done(i, res, data) := s.cq[0];
    assert s.cq[0] in s.cq;
    OnlyFirst(s, i);
    assert SlotIntact(s, i);
    CompleteEffect(s.slots[i], res, data, resp);
    CompletedIntact(s.slots[i], s.hist[i], res, data, resp);
    IdleSlotIntact(ReapDone(s, resp), i);
  }

  lemma IdleSlotIntact(s: System, i: nat)
    requires Shapes(s) && i < |s.slots| && !InCqe(s.slots[i].phase) && IdleIntact(s.slots[i], s.hist[i])
    ensures SlotIntact(s, i)
  {
  }

  lemma CompletedIntact(slot: Slot, h: History, res: int, data: seq<byte>, resp: seq<byte>)
    requires SlotConsistent(slot) && InCqe(slot.phase) && DoneFits(slot, res, data) && |resp| <= MAX_RESPONSE
    requires ReceivedOk(slot, h) && ReplyOk(slot, h) && (slot.phase == ReadCqe ==> h.wire == [])
    requires slot.phase == WriteCqe ==> h.wire == slot.tx[..if res > 0 then slot.sent + res else slot.sent]
    ensures var t := Complete(slot, res, data, resp); IdleIntact(t, NextHistory(h, slot, t, data, resp))
  {
    if slot.phase == ReadCqe && res > 0 {
      ReadKeeps(slot, h, data, resp);
    }
  }

  lemma TakeAcceptedIntact(s: System, fd: int, more: bool)
    requires Safe(s) && Intact(s) && fd >= 0
    ensures Safe(TakeAccepted(s, fd, more)) && Intact(TakeAccepted(s, fd, more))
  {
    TakeAcceptedSafe(s, fd, more);
    var s' := TakeAccepted(s, fd, more);
    if s.listening && FirstFree(s.slots).Some? {
      var i := FirstFree(s.slots).value;
      OpenedIntact(s, s', i, Open(s.slots[i], fd));
    } else {
      SameSlotsIntact(s, s');
    }
  }

  lemma OpenedIntact(s: System, s': System, i: nat, t: Slot)
    requires Shapes(s) && Shapes(s') && Intact(s) && i < |s.slots| && t.phase == ReadSqe && t.rx == []
    requires s'.slots == s.slots[i := t] && s'.hist == s.hist[i := History(t.parser, [], [], [])]
    requires s'.flights == s.flights && s'.cq == s.cq
    ensures Intact(s')
  {
    OthersIntact(s, s', i);
    FreshIntact(s', i);
  }

  /** The slots that a step does not touch stay intact. */
  lemma OthersIntact(s: System, s': System, i: nat)
    requires Shapes(s) && Shapes(s') && Intact(s) && |s'.slots| == |s.slots| && i < |s.slots|
    requires s'.slots == s.slots[i := s'.slots[i]] && s'.hist == s.hist[i := s'.hist[i]]
    requires s'.flights == s.flights && forall c | c in s'.cq :: c in s.cq
    ensures forall j :: 0 <= j < |s.slots| && j != i ==>
              SlotIntact(s', j)
  {
    forall j | 0 <= j < |s.slots| && j != i ensures SlotIntact(s', j) {
      assert s'.slots[j] == s.slots[j] && s'.hist[j] == s.hist[j];
      assert SlotIntact(s, j);
    }
  }

  /** A request that begins has received and sent nothing. */
  lemma FreshIntact(s: System, i: nat)
    requires Shapes(s) && i < |s.slots| && s.slots[i].phase == ReadSqe && s.slots[i].rx == []
    requires s.hist[i] == History(s.slots[i].parser, [], [], [])
    ensures SlotIntact(s, i)
  {
  }

  /** Dropping or publishing a completion of the listener changes no slot. */
  lemma SameSlotsIntact(s: System, s': System)
    requires Safe(s) && Intact(s) && Shapes(s')
    requires s'.slots == s.slots && s'.hist == s.hist && s'.flights == s.flights
    requires forall c | c in s'.cq && c.Done? :: c in s.cq
    ensures Intact(s')
  {
    forall j | 0 <= j < |s.slots| ensures SlotIntact(s', j) {
      assert SlotIntact(s, j);
    }
  }

  /** Every step keeps received and sent bytes intact. */
  lemma StepIntact(s: System, e: Event)
    requires Safe(s) && Intact(s) && Enabled(s, e)
    ensures Safe(Step(s, e)) && Intact(Step(s, e))
  {
    StepSafe(s, e);
    match e
    case Listen => SameSlotsIntact(s, Step(s, e));
    case Service(i) => HandleIntact(s, i);
    case Reap(resp) =>
      assert s.cq[0] in s.cq;
      if s.cq[0].Done? {
        ReapDoneIntact(s, resp);
      } else {
        var t := s.(cq := s.cq[1..]);
        DropAcceptSafe(s);
        assert forall c | c in t.cq :: c in s.cq;
        SameSlotsIntact(s, t);
        if s.cq[0].Accepted? {
          TakeAcceptedIntact(t, s.cq[0].fd, s.cq[0].more);
        } else {
          SameSlotsIntact(s, Step(s, e));
        }
      }
    case KernelAccept(fd, more) => SameSlotsIntact(s, Step(s, e));
    case KernelAcceptError => SameSlotsIntact(s, Step(s, e));
    case KernelDone(k, res, data) => FinishIntact(s, k, res, data);
  }

  /** When a write completion ends the reply, the kernel has taken every byte of it, in order and once. */
  lemma ReplySentWhole(s: System, resp: seq<byte>)
    requires Safe(s) && Intact(s) && Enabled(s, Reap(resp)) && s.cq[0].Done?
    requires var slot := s.slots[s.cq[0].slot];
             slot.phase == WriteCqe && s.cq[0].res >= 0 && ReapDone(s, resp).slots[s.cq[0].slot].phase != WriteSqe
    ensures s.hist[s.cq[0].slot].wire == s.slots[s.cq[0].slot].tx
  {
    var Done(i, res, _) := s.cq[0];
    assert s.cq[0] in s.cq;
    assert SlotIntact(s, i);
    assert s.slots[i].tx[..|s.slots[i].tx|] == s.slots[i].tx;
  }
}
