/** What every run of the event loop keeps. */
module LoopSafety {
  import opened Bytes
  import opened FastCgi
  import opened Reply
  import opened Engine
  import opened Counting
  import opened EventLoop

  // ----- one operation per slot -----

  function OnSlot(i: nat): Flight -> bool {
    (f: Flight) => f.slot == i
  }

  function DoneOn(i: nat): Cqe -> bool {
    (c: Cqe) => c.Done? && c.slot == i
  }

  /** Operations of slot `i` in flight or completed and not yet handled. */
  function Pending(s: System, i: nat): nat {
    Count(s.flights, OnSlot(i)) + Count(s.cq, DoneOn(i))
  }

  predicate InCqe(p: Phase) {
    p == ReadCqe || p == WriteCqe || p == CloseCqe
  }

  predicate SlotConsistent(slot: Slot) {
    SlotOk(slot) && (slot.inUse <==> slot.phase != Free) && (slot.phase != Free ==> slot.fd >= 0)
  }

  predicate Shapes(s: System) {
    |s.hist| == |s.slots|
    && (forall f | f in s.flights :: f.slot < |s.slots|)
    && (forall c | c in s.cq && c.Done? :: c.slot < |s.slots|)
    && (forall c | c in s.cq && c.Accepted? :: c.fd >= 0)
    && (forall i :: 0 <= i < |s.slots| ==> SlotConsistent(s.slots[i]))
  }

  predicate OneEach(s: System) {
    forall i :: 0 <= i < |s.slots| ==> Pending(s, i) == One(InCqe(s.slots[i].phase))
  }

  /** The operation is the one that the slot's phase calls for. */
  predicate FlightFits(slot: Slot, op: Op) {
    match op
    case Read(fd, room) => slot.phase == ReadCqe && fd == slot.fd && room == RX_SIZE - |slot.rx| > 0
    case Write(fd, bytes) => slot.phase == WriteCqe && fd == slot.fd && bytes == slot.tx[Min(slot.sent, |slot.tx|)..]
    case Close(fd) => slot.phase == CloseCqe && fd == slot.fd
  }

  predicate DoneFits(slot: Slot, res: int, data: seq<byte>) {
    match slot.phase
    case ReadCqe => |slot.rx| + |data| <= RX_SIZE && |data| == if res > 0 then res else 0
    case WriteCqe => res <= |slot.tx| - slot.sent && data == []
    case _ => true
  }

  predicate Fits(s: System)
    requires Shapes(s)
  {
    (forall f | f in s.flights :: FlightFits(s.slots[f.slot], f.op))
    && (forall c | c in s.cq && c.Done? :: DoneFits(s.slots[c.slot], c.res, c.data))
  }

  predicate Safe(s: System) {
    Shapes(s) && OneEach(s) && Fits(s)
  }

  /** A slot outside the CQE phases has nothing in flight and nothing to be handled. */
  lemma Idle(s: System, i: nat)
    requires Shapes(s) && OneEach(s) && i < |s.slots| && !InCqe(s.slots[i].phase)
    ensures forall f | f in s.flights :: f.slot != i
    ensures forall c | c in s.cq && c.Done? :: c.slot != i
  {
    assert Pending(s, i) == 0;
    CountZero(s.flights, OnSlot(i));
    CountZero(s.cq, DoneOn(i));
    assert forall f | f in s.flights :: !OnSlot(i)(f);
    assert forall c | c in s.cq :: !DoneOn(i)(c);
  }

  /** While the first completion is for slot `i`, nothing else is pending for it. */
  lemma OnlyFirst(s: System, i: nat)
    requires Shapes(s) && OneEach(s) && s.cq != [] && s.cq[0].Done? && s.cq[0].slot == i
    ensures InCqe(s.slots[i].phase)
    ensures forall f | f in s.flights :: f.slot != i
    ensures forall c | c in s.cq[1..] && c.Done? :: c.slot != i
  {
    assert s.cq[0] in s.cq;
    assert Pending(s, i) == One(InCqe(s.slots[i].phase));
    assert DoneOn(i)(s.cq[0]);
    CountZero(s.flights, OnSlot(i));
    CountZero(s.cq[1..], DoneOn(i));
    assert forall f | f in s.flights :: !OnSlot(i)(f);
    assert forall c | c in s.cq[1..] :: !DoneOn(i)(c);
  }

  /** While an operation of slot `i` is in flight, nothing else is pending for it. */
  lemma OnlyFlight(s: System, k: nat)
    requires Shapes(s) && OneEach(s) && k < |s.flights|
    ensures InCqe(s.slots[s.flights[k].slot].phase)
    ensures forall f | f in Remove(s.flights, k) :: f.slot != s.flights[k].slot
    ensures forall c | c in s.cq && c.Done? :: c.slot != s.flights[k].slot
  {
    var i := s.flights[k].slot;
    assert s.flights[k] in s.flights;
    assert Pending(s, i) == One(InCqe(s.slots[i].phase));
    CountRemove(s.flights, k, OnSlot(i));
    CountZero(Remove(s.flights, k), OnSlot(i));
    CountZero(s.cq, DoneOn(i));
    assert forall f | f in Remove(s.flights, k) :: !OnSlot(i)(f);
    assert forall c | c in s.cq :: !DoneOn(i)(c);
  }

  /** Submitting either starts an operation on an idle slot or does nothing. */
  lemma SubmitEffect(slot: Slot)
    requires SlotConsistent(slot)
    ensures var (t, op) := Submit(slot);
      SlotConsistent(t)
      && if op.Some? then !InCqe(slot.phase) && InCqe(t.phase) && FlightFits(t, op.value) else t == slot
  {
  }

  lemma HandleSafe(s: System, i: nat)
    requires Safe(s) && i < |s.slots|
    ensures Safe(HandleSlot(s, i))
  {
    SubmitEffect(s.slots[i]);
    var s' := HandleSlot(s, i);
    var (t, op) := Submit(s.slots[i]);
    if op.Some? {
      FlownSafe(s, s', i, t, op.value);
    } else {
      assert s'.slots == s.slots;
      SameSafe(s, s');
    }
  }

  lemma SameSafe(s: System, s': System)
    requires Safe(s) && s'.slots == s.slots && s'.hist == s.hist && s'.flights == s.flights && s'.cq == s.cq
    ensures Safe(s')
  {
    forall j | 0 <= j < |s.slots| ensures Pending(s', j) == One(InCqe(s'.slots[j].phase)) {
      assert Pending(s, j) == One(InCqe(s.slots[j].phase));
    }
  }

  /** An operation starts on an idle slot. */
  lemma FlownSafe(s: System, s': System, i: nat, t: Slot, op: Op)
    requires Safe(s) && i < |s.slots| && !InCqe(s.slots[i].phase)
    requires SlotConsistent(t) && InCqe(t.phase) && FlightFits(t, op)
    requires s'.slots == s.slots[i := t] && s'.hist == s.hist && s'.flights == s.flights + [Flight(i, op)]
            && s'.cq == s.cq
    ensures Safe(s')
  {
    Idle(s, i);
    FlownPending(s, s', i, t, op);
    assert forall f | f in s'.flights :: f in s.flights || f == Flight(i, op);
  }

  lemma FlownPending(s: System, s': System, i: nat, t: Slot, op: Op)
    requires Shapes(s) && OneEach(s) && i < |s.slots| && !InCqe(s.slots[i].phase) && InCqe(t.phase)
    requires s'.slots == s.slots[i := t] && s'.flights == s.flights + [Flight(i, op)] && s'.cq == s.cq
    ensures OneEach(s')
  {
    forall j | 0 <= j < |s.slots| ensures Pending(s', j) == One(InCqe(s'.slots[j].phase)) {
      assert Pending(s, j) == One(InCqe(s.slots[j].phase));
      CountAppend(s.flights, Flight(i, op), OnSlot(j));
    }
  }

  /** Publishing a completion of the listener. */
  lemma PublishAcceptSafe(s: System, c: Cqe, s': System)
    requires Safe(s) && !c.Done? && (c.Accepted? ==> c.fd >= 0)
    requires s'.cq == s.cq + [c] && s'.slots == s.slots && s'.hist == s.hist && s'.flights == s.flights
    ensures Safe(s')
  {
    forall j | 0 <= j < |s.slots| ensures Pending(s', j) == One(InCqe(s'.slots[j].phase)) {
      assert Pending(s, j) == One(InCqe(s.slots[j].phase));
      CountAppend(s.cq, c, DoneOn(j));
    }
  }

  lemma FinishSafe(s: System, k: nat, res: int, data: seq<byte>)
    requires Safe(s) && Enabled(s, KernelDone(k, res, data))
    ensures Safe(KernelFinish(s, k, res, data))
  {
    var s' := KernelFinish(s, k, res, data);
    var f := s.flights[k];
    assert f in s.flights;
    assert DoneFits(s.slots[f.slot], res, data);
    FinishPending(s, s', k, Done(f.slot, res, data));
    assert forall g | g in s'.flights :: g in s.flights;
    assert forall c | c in s'.cq :: c in s.cq || c == Done(f.slot, res, data);
  }

  lemma FinishPending(s: System, s': System, k: nat, c: Cqe)
    requires Shapes(s) && OneEach(s) && k < |s.flights| && c.Done? && c.slot == s.flights[k].slot
    requires s'.slots == s.slots && s'.flights == Remove(s.flights, k) && s'.cq == s.cq + [c]
    ensures OneEach(s')
  {
    forall j | 0 <= j < |s.slots| ensures Pending(s', j) == One(InCqe(s'.slots[j].phase)) {
      assert Pending(s, j) == One(InCqe(s.slots[j].phase));
      CountRemove(s.flights, k, OnSlot(j));
      CountAppend(s.cq, c, DoneOn(j));
    }
  }

  /** Handling a completion leaves an idle slot. */
  lemma CompleteEffect(slot: Slot, res: int, data: seq<byte>, resp: seq<byte>)
    requires SlotConsistent(slot) && InCqe(slot.phase) && DoneFits(slot, res, data)
    ensures var t := Complete(slot, res, data, resp); SlotConsistent(t) && !InCqe(t.phase)
  {
    CompleteKeepsRoom(slot, res, data, resp);
  }

  lemma ReapDoneSafe(s: System, resp: seq<byte>)
    requires Safe(s) && Enabled(s, Reap(resp)) && s.cq[0].Done?
    ensures Safe(ReapDone(s, resp))
  {
    var c := s.cq[0];
    assert c in s.cq;
    OnlyFirst(s, c.slot);
    CompleteEffect(s.slots[c.slot], c.res, c.data, resp);
    ReapedSafe(s, ReapDone(s, resp), c.slot, Complete(s.slots[c.slot], c.res, c.data, resp));
  }

  /** The first completion is handled and its slot is idle. */
  lemma ReapedSafe(s: System, s': System, i: nat, t: Slot)
    requires Safe(s) && s.cq != [] && s.cq[0].Done? && s.cq[0].slot == i && i < |s.slots|
    requires SlotConsistent(t) && !InCqe(t.phase)
    requires s'.slots == s.slots[i := t] && |s'.hist| == |s.hist| && s'.flights == s.flights && s'.cq == s.cq[1..]
    ensures Safe(s')
  {
    OnlyFirst(s, i);
    assert forall d | d in s'.cq :: d in s.cq;
    forall j | 0 <= j < |s.slots| ensures Pending(s', j) == One(InCqe(s'.slots[j].phase)) {
      assert Pending(s, j) == One(InCqe(s.slots[j].phase));
    }
  }

  lemma DropAcceptSafe(s: System)
    requires Safe(s) && s.cq != [] && !s.cq[0].Done?
    ensures Safe(s.(cq := s.cq[1..]))
  {
    var s' := s.(cq := s.cq[1..]);
    assert forall d | d in s'.cq :: d in s.cq;
    forall j | 0 <= j < |s.slots| ensures Pending(s', j) == One(InCqe(s'.slots[j].phase)) {
      assert Pending(s, j) == One(InCqe(s.slots[j].phase));
    }
  }

  lemma TakeAcceptedSafe(s: System, fd: int, more: bool)
    requires Safe(s) && fd >= 0
    ensures Safe(TakeAccepted(s, fd, more))
  {
    var s' := TakeAccepted(s, fd, more);
    if s.listening && FirstFree(s.slots).Some? {
      var i := FirstFree(s.slots).value;
      TakenSafe(s, s', i, Open(s.slots[i], fd));
    } else {
      SameSafe(s, s');
    }
  }

  /** An idle slot is replaced by an idle slot. */
  lemma TakenSafe(s: System, s': System, i: nat, t: Slot)
    requires Safe(s) && i < |s.slots| && !InCqe(s.slots[i].phase) && SlotConsistent(t) && !InCqe(t.phase)
    requires s'.slots == s.slots[i := t] && |s'.hist| == |s.hist| && s'.flights == s.flights && s'.cq == s.cq
    ensures Safe(s')
  {
    Idle(s, i);
    forall j | 0 <= j < |s.slots| ensures Pending(s', j) == One(InCqe(s'.slots[j].phase)) {
      assert Pending(s, j) == One(InCqe(s.slots[j].phase));
    }
  }

  /** Every step keeps the slots safe. */
  lemma StepSafe(s: System, e: Event)
    requires Safe(s) && Enabled(s, e)
    ensures Safe(Step(s, e))
  {
    match e
    case Listen => SameSafe(s, Step(s, e));
    case Service(i) => HandleSafe(s, i);
    case Reap(resp) =>
      assert s.cq[0] in s.cq;
      if s.cq[0].Done? {
        ReapDoneSafe(s, resp);
      } else {
        DropAcceptSafe(s);
        if s.cq[0].Accepted? {
          TakeAcceptedSafe(s.(cq := s.cq[1..]), s.cq[0].fd, s.cq[0].more);
        } else {
          SameSafe(s.(cq := s.cq[1..]), Step(s, e));
        }
      }
    case KernelAccept(fd, more) => PublishAcceptSafe(s, Accepted(fd, more), Step(s, e));
    case KernelAcceptError => PublishAcceptSafe(s, AcceptFailed, Step(s, e));
    case KernelDone(k, res, data) => FinishSafe(s, k, res, data);
  }
}
