/** One client slot of src/app/cg_app.c: what the two handlers do to it, as functions on values. */
module Engine {
  import opened Bytes
  import opened FastCgi
  import opened Reply
  import opened WideMemory

  datatype Phase = Free | ReadSqe | ReadCqe | WriteSqe | WriteCqe | CloseSqe | CloseCqe

  /** A slot between two handler calls: `rx` is the unparsed rest in the receive buffer, `tx` the
      reply in the transmit buffer and `sent` its position. */
  datatype Slot = Slot(inUse: bool, phase: Phase, fd: int, parser: ParserState,
                       rx: seq<byte>, tx: seq<byte>, sent: nat)

  /** An operation handed to the kernel. */
  datatype Op =
    | Read(fd: int, room: int)
    | Write(fd: int, bytes: seq<byte>)
    | Close(fd: int)

  predicate SlotOk(s: Slot) {
    |s.rx| <= RX_SIZE && s.sent <= |s.tx| && (s.phase == ReadSqe || s.phase == ReadCqe ==> |s.rx| < RX_SIZE)
  }

  /** `cg_main_client_state_handle`. */
  function Submit(s: Slot): (Slot, Option<Op>)
    requires SlotOk(s)
  {
    match s.phase
    case ReadSqe => (s.(phase := ReadCqe), Some(Read(s.fd, RX_SIZE - |s.rx|)))
    case WriteSqe => (s.(phase := WriteCqe), Some(Write(s.fd, s.tx[s.sent..])))
    case CloseSqe =>
      if s.fd < 0 then (s.(phase := Free, inUse := false), None)
      else (s.(phase := CloseCqe), Some(Close(s.fd)))
    case _ => (s, None)
  }

  /** A read completion: parse, slide the rest to the front, and answer a finished request with `resp`. */
  function OnRead(s: Slot, data: seq<byte>, resp: seq<byte>): Slot
    requires SlotOk(s)
  {
    match Parse(s.parser, s.rx + data)
    case Ready(st, rest) =>
      s.(parser := st, rx := rest, sent := 0, phase := WriteSqe,
         tx := ReplyBytes(st.req.reqId, resp))
    case More(st, rest, _) => s.(parser := st, rx := rest, phase := ReadSqe)
  }

  /** A write completion: go on, take the next request on a kept connection, or close. */
  function OnWrite(s: Slot, res: nat): Slot {
    if s.sent + res < |s.tx| then s.(sent := s.sent + res, phase := WriteSqe)
    else if s.parser.req.keepAlive then
      s.(parser := s.parser.(hdr := s.parser.hdr.(typ := 0)), rx := [], tx := [], sent := 0, phase := ReadSqe)
    else s.(sent := s.sent + res, phase := CloseSqe)
  }

  /** `cg_main_client_cqe_handle` on a completion with result `res`; `data` is what a read put in the buffer. */
  function Complete(s: Slot, res: int, data: seq<byte>, resp: seq<byte>): Slot
    requires SlotOk(s)
  {
    match s.phase
    case ReadCqe => if res <= 0 then s.(phase := CloseSqe) else OnRead(s, data, resp)
    case WriteCqe => if res < 0 then s.(phase := CloseSqe) else OnWrite(s, res)
    case CloseCqe => s.(fd := -1, phase := Free, inUse := false)
    case _ => s
  }

  /** `cg_client_alloc` and `cg_fastcgi_client_init` for an accepted socket; the saved header stays as it was. */
  function Open(s: Slot, fd: int): Slot {
    s.(inUse := true, phase := ReadSqe, fd := fd, rx := [], tx := [], sent := 0)
  }

  /** A completion leaves a slot whose next read has room, however much the kernel delivered. */
  lemma CompleteKeepsRoom(s: Slot, res: int, data: seq<byte>, resp: seq<byte>)
    requires SlotOk(s) && (s.phase == ReadCqe ==> |s.rx| + |data| <= RX_SIZE)
    requires s.phase == WriteCqe ==> res <= |s.tx| - s.sent
    ensures SlotOk(Complete(s, res, data, resp))
  {
    NoStall(s.parser, s.rx + data);
  }

  /** The same read completion with the leftover slid to the front by the block copy, in a receive buffer at `addr`. */
  function OnReadAt(addr: nat, s: Slot, data: seq<byte>, resp: seq<byte>): Slot
    requires SlotOk(s)
  {
    NoStall(s.parser, s.rx + data);
    var next := OnRead(s, data, resp);
    next.(rx := Slid(s.rx + data, addr, |next.rx|))
  }

  lemma OnReadAtIs(addr: nat, s: Slot, data: seq<byte>, resp: seq<byte>, m: seq<byte>, o: Outcome)
    requires SlotOk(s) && m == s.rx + data && o == Parse(s.parser, m)
    ensures |o.rest| <= |m|
    ensures OnReadAt(addr, s, data, resp)
         == var t := s.(parser := o.st, rx := Slid(m, addr, |o.rest|));
            if o.Ready? then t.(sent := 0, phase := WriteSqe, tx := ReplyBytes(o.st.req.reqId, resp))
                else t.(phase := ReadSqe)
  {
    NoStall(s.parser, m);
  }

  function CompleteAt(addr: nat, s: Slot, res: int, data: seq<byte>, resp: seq<byte>): Slot
    requires SlotOk(s)
  {
    if s.phase == ReadCqe && res > 0 then OnReadAt(addr, s, data, resp) else Complete(s, res, data, resp)
  }

  /** The two agree exactly when the copy moves this leftover unchanged, as it does under its guard. */
  lemma CompleteAtExact(addr: nat, s: Slot, res: int, data: seq<byte>, resp: seq<byte>, m: seq<byte>, left: nat)
    requires SlotOk(s) && s.phase == ReadCqe && res > 0
    requires m == s.rx + data && left == |Parse(s.parser, m).rest| <= |m|
    ensures CompleteAt(addr, s, res, data, resp) == Complete(s, res, data, resp) <==> SlidesExactly(m, addr, left)
    ensures SlideExact(addr, 0, |m| - left, left) ==> SlidesExactly(m, addr, left)
  {
    RestIsSuffix(s.parser, m);
    var next := OnRead(s, data, resp);
    assert next.rx == m[|m| - left..] && OnReadAt(addr, s, data, resp) == next.(rx := Slid(m, addr, left));
    if SlideExact(addr, 0, |m| - left, left) {
      SlidWhenExact(m, addr, left);
    }
  }
}
