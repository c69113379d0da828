/** The event loop of src/app/cg_app.c against the kernel, as a state machine: every enqueued operation
    is in flight until the kernel completes it with any legal result, and the completion waits in the
    queue until the loop takes it up. */
module EventLoop {
  import opened Bytes
  import opened FastCgi
  import opened Reply
  import opened Engine
  import opened Counting

  datatype Flight = Flight(slot: nat, op: Op)

  datatype Cqe =
    | Accepted(fd: int, more: bool)
    | AcceptFailed
    | Done(slot: nat, res: int, data: seq<byte>)

  /** What happened to a slot's connection since its current request began: the parser state it began
      in, the bytes received, what the route handler answered, and the bytes that the kernel took of the reply. */
  datatype History = History(base: ParserState, recvd: seq<byte>, answer: seq<byte>, wire: seq<byte>)

  /** `listening` is the listener's ACCEPT_CQE state, `armed` whether an accept is in flight, `open`
      the sockets the kernel holds open; `accepted` and `closed` count accepts and close requests. */
  datatype System = System(listening: bool, armed: bool, slots: seq<Slot>, hist: seq<History>,
                           flights: seq<Flight>, cq: seq<Cqe>, open: set<int>,
                           accepted: multiset<int>, closed: multiset<int>)

  datatype Event =
    | Listen                                   // cg_main_fastcgi_state_handle
    | Service(slot: nat)                       // cg_main_client_state_handle
    | Reap(resp: seq<byte>)                    // the first completion is handled and discarded
    | KernelAccept(fd: int, more: bool)
    | KernelAcceptError
    | KernelDone(k: nat, res: int, data: seq<byte>)

  // ----- steps -----

  /** First free slot: `cg_client_alloc`. */
  function FirstFree(slots: seq<Slot>): (r: Option<nat>)
    ensures r.Some? ==> r.value < |slots| && !slots[r.value].inUse && forall j :: 0 <= j < r.value ==> slots[j].inUse
    ensures r.None? ==> forall j :: 0 <= j < |slots| ==> slots[j].inUse
  {
    if slots == [] then None
    else if !slots[0].inUse then Some(0)
    else match FirstFree(slots[1..]) case None => None case Some(i) => Some(i + 1)
  }

  predicate LegalResult(op: Op, res: int, data: seq<byte>) {
    match op
    case Read(_, room) => res <= room && |data| == (if res > 0 then res else 0)
    case Write(_, bytes) => res <= |bytes| && data == []
    case Close(_) => data == []
  }

  predicate Enabled(s: System, e: Event) {
    match e
    case Listen => true
    case Service(i) => i < |s.slots| && SlotOk(s.slots[i])
    case Reap(resp) =>
      s.cq != [] && |resp| <= MAX_RESPONSE
      && (s.cq[0].Done? ==> s.cq[0].slot < |s.slots| && s.cq[0].slot < |s.hist| && SlotOk(s.slots[s.cq[0].slot]))
    case KernelAccept(fd, _) => s.armed && fd >= 0 && fd !in s.open
    case KernelAcceptError => s.armed
    case KernelDone(k, res, data) =>
      k < |s.flights| && s.flights[k].slot < |s.hist| && LegalResult(s.flights[k].op, res, data)
  }

  /** `cg_main_fastcgi_cqe_handle` on a successful accept. */
  function TakeAccepted(s: System, fd: int, more: bool): System {
    if !s.listening then s
    else match FirstFree(s.slots)
      case None => s.(open := s.open - {fd}, closed := s.closed + multiset{fd})
      case Some(i) =>
        s.(slots := s.slots[i := Open(s.slots[i], fd)], listening := more,
           hist := if i < |s.hist| then s.hist[i := History(s.slots[i].parser, [], [], [])] else s.hist)
  }

  /** The slot's history once a completion has been handled. */
  function NextHistory(h: History, before: Slot, after: Slot, data: seq<byte>, resp: seq<byte>): History {
    if before.phase == ReadCqe then h.(recvd := h.recvd + data, answer := resp)
    else if before.phase == WriteCqe && after.phase == ReadSqe then History(after.parser, [], [], [])
    else h
  }

  function HandleSlot(s: System, i: nat): System
    requires i < |s.slots| && SlotOk(s.slots[i])
  {
    var (slot, op) := Submit(s.slots[i]);
    s.(slots := s.slots[i := slot],
       flights := if op.Some? then s.flights + [Flight(i, op.value)] else s.flights,
       closed := if op.Some? && op.value.Close? then s.closed + multiset{op.value.fd} else s.closed)
  }

  /** The first completion, of a client operation, is handled and discarded. */
  function ReapDone(s: System, resp: seq<byte>): System
    requires Enabled(s, Reap(resp)) && s.cq[0].Done?
  {
    var Done(i, res, data) := s.cq[0];
    var slot := Complete(s.slots[i], res, data, resp);
    s.(cq := s.cq[1..], slots := s.slots[i := slot],
        hist := s.hist[i := NextHistory(s.hist[i], s.slots[i], slot, data, resp)])
  }

  /** The first completion, of the listener, is handled and discarded. */
  function ReapAccept(s: System): System
    requires s.cq != [] && !s.cq[0].Done?
  {
    var t := s.(cq := s.cq[1..]);
    match s.cq[0]
    case Accepted(fd, more) => TakeAccepted(t, fd, more)
    case AcceptFailed => t.(listening := false)
  }

  function KernelFinish(s: System, k: nat, res: int, data: seq<byte>): System
    requires Enabled(s, KernelDone(k, res, data))
  {
    var Flight(i, op) := s.flights[k];
    s.(flights := Remove(s.flights, k), cq := s.cq + [Done(i, res, data)],
       open := if op.Close? then s.open - {op.fd} else s.open,
       hist := if op.Write? && res > 0
               then s.hist[i := s.hist[i].(wire := s.hist[i].wire + op.bytes[..res])] else s.hist)
  }

  function Step(s: System, e: Event): System
    requires Enabled(s, e)
  {
    match e
    case Listen => if s.listening then s else s.(listening := true, armed := true)
    case Service(i) => HandleSlot(s, i)
    case Reap(resp) => if s.cq[0].Done? then ReapDone(s, resp) else ReapAccept(s)
    case KernelAccept(fd, more) =>
      s.(armed := more, cq := s.cq + [Accepted(fd, more)], open := s.open + {fd}, accepted := s.accepted + multiset{fd})
    case KernelAcceptError => s.(armed := false, cq := s.cq + [AcceptFailed])
    case KernelDone(k, res, data) => KernelFinish(s, k, res, data)
  }
}
