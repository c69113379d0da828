/** Listener and sockets over every run of the event loop: each accepted socket has one owner and is closed once. */
module LoopSockets {
  import opened Bytes
  import opened FastCgi
  import opened Engine
  import opened Counting
  import opened EventLoop
  import opened LoopSafety

  // ----- the listener -----

  /** The last completion of an accept operation. */
  predicate Final(c: Cqe) {
    c.AcceptFailed? || (c.Accepted? && !c.more)
  }

  predicate NoAccepts(cq: seq<Cqe>) {
    forall c | c in cq :: c.Done?
  }

  predicate Listener(s: System) {
    (s.armed || !NoAccepts(s.cq) ==> s.listening)
    && (forall p :: 0 <= p < |s.cq| && Final(s.cq[p]) ==> !s.armed && NoAccepts(s.cq[p + 1..]))
    && (!s.armed && !NoAccepts(s.cq) ==> exists p :: 0 <= p < |s.cq| && Final(s.cq[p]))
  }

  /** The loop believes that it listens, but no accept is in flight or yet to be handled. */
  predicate Deaf(s: System) {
    s.listening && !s.armed && NoAccepts(s.cq)
  }

  lemma PublishKeepsListener(s: System, c: Cqe, s': System)
    requires Listener(s) && (c.Done? || s.armed)
    requires s'.cq == s.cq + [c] && s'.listening == s.listening
    requires s'.armed == if c.Done? then s.armed else !Final(c)
    ensures Listener(s') && !Deaf(s') == !Deaf(s)
  {
    forall p | 0 <= p < |s'.cq| && Final(s'.cq[p]) ensures !s'.armed && NoAccepts(s'.cq[p + 1..]) {
      if p < |s.cq| {
        assert s'.cq[p + 1..] == s.cq[p + 1..] + [c];
      }
    }
    assert c in s'.cq && s'.cq[|s.cq|] == c;
    assert forall d | d in s.cq :: d in s'.cq;
    assert forall d | d in s'.cq :: d in s.cq || d == c;
    if exists p :: 0 <= p < |s.cq| && Final(s.cq[p]) {
      var p :| 0 <= p < |s.cq| && Final(s.cq[p]);
      assert Final(s'.cq[p]);
    }
  }

  lemma DropKeepsListener(s: System, s': System)
    requires Listener(s) && s.cq != [] && s'.cq == s.cq[1..] && s'.armed == s.armed
    requires s'.listening == (s.listening && !(Final(s.cq[0]) && !s'.listening))
    ensures Listener(s')
  {
    var c := s.cq[0];
    assert c in s.cq;
    forall p | 0 <= p < |s'.cq| && Final(s'.cq[p]) ensures !s'.armed && NoAccepts(s'.cq[p + 1..]) {
      assert s.cq[p + 1] == s'.cq[p] && s.cq[p + 2..] == s'.cq[p + 1..];
    }
    assert forall d | d in s'.cq :: d in s.cq;
    if Final(c) {
      assert NoAccepts(s.cq[1..]);
    } else if exists p :: 0 <= p < |s.cq| && Final(s.cq[p]) {
      var p :| 0 <= p < |s.cq| && Final(s.cq[p]);
      assert Final(s'.cq[p - 1]);
    }
  }

  lemma ReapListener(s: System, resp: seq<byte>)
    requires Safe(s) && Listener(s) && Enabled(s, Reap(resp))
    ensures Listener(Step(s, Reap(resp)))
  {
    DropKeepsListener(s, Step(s, Reap(resp)));
  }

  /** Every step keeps the listener's bookkeeping. */
  lemma StepListener(s: System, e: Event)
    requires Safe(s) && Listener(s) && Enabled(s, e)
    ensures Listener(Step(s, e))
  {
    var s' := Step(s, e);
    match e
    case Listen =>
      assert !s.listening ==> forall p :: 0 <= p < |s.cq| ==> s.cq[p] in s.cq && s.cq[p].Done?;
    case Service(i) =>
    case Reap(resp) => ReapListener(s, resp);
    case KernelAccept(fd, more) => PublishKeepsListener(s, Accepted(fd, more), s');
    case KernelAcceptError => PublishKeepsListener(s, AcceptFailed, s');
    case KernelDone(k, res, data) => PublishKeepsListener(s, Done(s.flights[k].slot, res, data), s');
  }

  lemma ReapDoneDeaf(s: System, resp: seq<byte>)
    requires Listener(s) && Enabled(s, Reap(resp)) && s.cq[0].Done? && !Deaf(s)
    ensures !Deaf(ReapDone(s, resp))
  {
    assert forall c | c in s.cq :: c == s.cq[0] || c in s.cq[1..];
  }

  lemma ReapAcceptDeaf(s: System)
    requires Safe(s) && Listener(s) && s.cq != [] && !s.cq[0].Done?
    ensures Deaf(ReapAccept(s)) <==> s.cq[0].Accepted? && !s.cq[0].more && FirstFree(s.slots).None?
  {
    var c := s.cq[0];
    assert c in s.cq;
    if Final(c) {
      assert NoAccepts(s.cq[1..]);
    } else if !s.armed {
      var p :| 0 <= p < |s.cq| && Final(s.cq[p]);
      assert s.cq[1..][p - 1] in s.cq[1..];
    }
  }

  /** The loop goes deaf exactly when it handles the last completion of an accept while no slot is free. */
  lemma GoesDeafIff(s: System, e: Event)
    requires Safe(s) && Listener(s) && Enabled(s, e) && !Deaf(s)
    ensures Deaf(Step(s, e))
       <==> e.Reap? && s.cq[0].Accepted? && !s.cq[0].more && FirstFree(s.slots).None?
  {
    var s' := Step(s, e);
    match e
    case Listen =>
    case Service(i) =>
    case Reap(resp) => if s.cq[0].Done? { ReapDoneDeaf(s, resp); } else { ReapAcceptDeaf(s); }
    case KernelAccept(fd, more) => PublishKeepsListener(s, Accepted(fd, more), s');
    case KernelAcceptError => PublishKeepsListener(s, AcceptFailed, s');
    case KernelDone(k, res, data) => PublishKeepsListener(s, Done(s.flights[k].slot, res, data), s');
  }

  /** Once deaf, the loop stays deaf. */
  lemma StaysDeaf(s: System, e: Event)
    requires Listener(s) && Enabled(s, e) && Deaf(s)
    ensures Deaf(Step(s, e))
  {
    if e.Reap? {
      assert s.cq[0] in s.cq;
    } else if e.KernelDone? {
      PublishKeepsListener(s, Done(s.flights[e.k].slot, e.res, e.data), Step(s, e));
    }
  }

  // ----- sockets -----

  function AcceptOf(fd: int): Cqe -> bool {
    (c: Cqe) => c.Accepted? && c.fd == fd
  }

  /** The slot owns the socket: no close has been requested yet. */
  predicate Holds(slot: Slot, fd: int) {
    slot.fd == fd && slot.phase != Free && slot.phase != CloseCqe
  }

  function HeldFd(fd: int): Slot -> bool {
    (slot: Slot) => Holds(slot, fd)
  }

  function ClosingFd(fd: int): Flight -> bool {
    (f: Flight) => f.op.Close? && f.op.fd == fd
  }

  /** Owners of a socket: an accept yet to be handled, or a slot. */
  function Owners(s: System, fd: int): nat {
    Count(s.cq, AcceptOf(fd)) + Count(s.slots, HeldFd(fd))
  }

  predicate SocketKept(s: System, fd: int) {
    s.accepted[fd] == s.closed[fd] + Owners(s, fd)
    && Owners(s, fd) + Count(s.flights, ClosingFd(fd)) == One(fd in s.open)
  }

  /** Every accept of a socket is matched by one close request or by its one owner, and the kernel
      holds it open exactly while it has an owner or its close is in flight. */
  ghost predicate Sockets(s: System) {
    forall fd :: SocketKept(s, fd)
  }

  lemma HandleSockets(s: System, i: nat, fd: int)
    requires Safe(s) && i < |s.slots| && SocketKept(s, fd)
    ensures SocketKept(HandleSlot(s, i), fd)
  {
    var (slot, op) := Submit(s.slots[i]);
    CountUpdate(s.slots, i, slot, HeldFd(fd));
    if op.Some? {
      CountAppend(s.flights, Flight(i, op.value), ClosingFd(fd));
    }
  }

  /** Handling a completion does not change which socket the slot owns. */
  lemma CompleteHolds(slot: Slot, res: int, data: seq<byte>, resp: seq<byte>, fd: int)
    requires SlotOk(slot) && InCqe(slot.phase)
    ensures Holds(Complete(slot, res, data, resp), fd) <==> Holds(slot, fd)
  {
  }

  lemma ReapDoneSockets(s: System, resp: seq<byte>, fd: int)
    requires Safe(s) && Enabled(s, Reap(resp)) && s.cq[0].Done? && SocketKept(s, fd)
    ensures SocketKept(ReapDone(s, resp), fd)
  {
    var Done(i, res, data) := s.cq[0];
    var t := Complete(s.slots[i], res, data, resp);
    OnlyFirst(s, i);
    CompleteHolds(s.slots[i], res, data, resp, fd);
    CountUpdate(s.slots, i, t, HeldFd(fd));
    SameOwners(s, ReapDone(s, resp), s.slots[i := t], fd);
  }

  lemma SameOwners(s: System, s': System, slots: seq<Slot>, fd: int)
    requires SocketKept(s, fd) && s.cq != [] && s.cq[0].Done?
    requires Count(slots, HeldFd(fd)) == Count(s.slots, HeldFd(fd))
    requires s' == s.(cq := s.cq[1..], slots := slots, hist := s'.hist)
    ensures SocketKept(s', fd)
  {
  }

  lemma ReapAcceptSockets(s: System, fd: int)
    requires Safe(s) && Listener(s) && s.cq != [] && !s.cq[0].Done? && SocketKept(s, fd)
    ensures SocketKept(ReapAccept(s), fd)
  {
    assert s.cq[0] in s.cq;
    if s.cq[0].Accepted? && FirstFree(s.slots).Some? {
      OpenSockets(s, FirstFree(s.slots).value, fd);
    }
  }

  lemma OpenSockets(s: System, i: nat, fd: int)
    requires Safe(s) && i < |s.slots| && !s.slots[i].inUse && s.cq != [] && s.cq[0].Accepted?
    ensures Count(s.slots[i := Open(s.slots[i], s.cq[0].fd)], HeldFd(fd))
            == Count(s.slots, HeldFd(fd)) + One(s.cq[0].fd == fd)
  {
    CountUpdate(s.slots, i, Open(s.slots[i], s.cq[0].fd), HeldFd(fd));
  }

  lemma FinishSockets(s: System, k: nat, res: int, data: seq<byte>, fd: int)
    requires Safe(s) && Enabled(s, KernelDone(k, res, data)) && SocketKept(s, fd)
    ensures SocketKept(KernelFinish(s, k, res, data), fd)
  {
    CountRemove(s.flights, k, ClosingFd(fd));
    CountAppend(s.cq, Done(s.flights[k].slot, res, data), AcceptOf(fd));
  }

  /** Every step keeps the sockets' bookkeeping. */
  lemma StepSockets(s: System, e: Event)
    requires Safe(s) && Listener(s) && Sockets(s) && Enabled(s, e)
    ensures Sockets(Step(s, e))
  {
    forall fd ensures SocketKept(Step(s, e), fd) {
      assert SocketKept(s, fd);
      match e
      case Listen =>
      case Service(i) => HandleSockets(s, i, fd);
      case Reap(resp) => if s.cq[0].Done? { ReapDoneSockets(s, resp, fd); } else { ReapAcceptSockets(s, fd); }
      case KernelAccept(a, more) => CountAppend(s.cq, Accepted(a, more), AcceptOf(fd));
      case KernelAcceptError => CountAppend(s.cq, AcceptFailed, AcceptOf(fd));
      case KernelDone(k, res, data) => FinishSockets(s, k, res, data, fd);
    }
  }
}
