/** The client context with its buffers, updated in place as src/core/cg_fastcgi.c and src/app/cg_app.c
    do it, proved against the functions of FastCgi and Engine. */
module Client {
  import opened Bytes
  import opened NameValue
  import opened FastCgi
  import opened WideMemory
  import opened Reply
  import opened Engine

  /** `struct cg_client_req`. */
  class ClientRequest {
    const uri: array<byte>
    const verb: array<byte>
    const session: array<byte>
    const stdin: array<byte>
    var reqId: word
    var keepAlive: bool
    var stdinLen: nat

    constructor ()
      ensures Valid() && fresh(uri) && fresh(verb) && fresh(session) && fresh(stdin)
      ensures Value() == Request([], [], [], 0, false, [])
    {
      uri := new byte[128](_ => 0);
      verb := new byte[16](_ => 0);
      session := new byte[32](_ => 0);
      stdin := new byte[MAX_STDIN](_ => 0);
      reqId, keepAlive, stdinLen := 0, false, 0;
    }

    ghost predicate Valid()
      reads this
    {
      uri.Length == 128 && verb.Length == 16 && session.Length == 32
      && stdin.Length == MAX_STDIN && stdinLen < MAX_STDIN
    }

    ghost function Value(): Request
      reads this, uri, verb, session, stdin
      requires Valid()
    {
      Request(CString(uri[..]), CString(verb[..]), CString(session[..]), reqId, keepAlive, stdin[..stdinLen])
    }

    method HandleBegin(h: Header, payload: seq<byte>)
      requires Valid() && |payload| > 2
      modifies this, session, stdin
      ensures Valid() && Value() == BeginRequest(old(Value()), h, payload)
    {
      keepAlive := payload[2] % 2 == 1;
      reqId := Load16(h.id1, h.id0);
      stdinLen := 0;
      stdin[0] := 0;
      session[0] := 0;
      BeforeUnique(session[..], 0, 0);
    }

    /** `cg_fastcgi_len`: the length at `off`, and the offset behind it. */
    static method LengthAt(buf: seq<byte>, off: nat) returns (len: nat, next: nat)
      requires off <= |buf|
      ensures (len, next) == LengthFrom(buf, off)
    {
      if off >= |buf| {
        return 0, off;
      }
      len := buf[off];
      if len < 128 {
        next := off + 1;
      } else {
        if off + 4 > |buf| {
          return 0, off;
        }
        len := BigEndian32(buf[off] as int - 128, buf[off + 1], buf[off + 2], buf[off + 3]);
        next := off + 4;
      }
    }

    static lemma SliceOfSlice(s: seq<byte>, off: nat, a: nat, b: nat)
      requires off + a <= off + b <= |s|
      ensures s[off..][a..b] == s[off + a..off + b] && s[off..][b..] == s[off + b..]
    {
    }

    /** One round of the loop up to the comparison of the name. Behind a wrapped sum the name is longer than any
        that is compared, so neither it nor the value is looked at. */
    static method ReadPair(payload: seq<byte>, off: nat) returns (r: Round)
      requires off < |payload| < 0x1_0000
      ensures r == RoundAt(payload, off)
    {
      var nLen, off1 := LengthAt(payload, off);
      var vLen, off2 := LengthAt(payload, off1);
      SumIs(off2, nLen, vLen);
      var sum := (off2 + nLen + vLen) % WRAP;
      if sum > |payload| {
        return Overrun;
      }
      if off2 + nLen + vLen >= WRAP {
        WrappedIsLong(off2, nLen, vLen);
        assert nLen > 14;
        return Wrapped(sum);
      }
      return Visit(payload[off2..off2 + nLen], payload[off2 + nLen..off2 + nLen + vLen], sum);
    }

    /** The loop over the pairs of a PARAMS record; it needs to leave. */
    method HandleParams(payload: seq<byte>)
      requires Valid() && |payload| < 0x1_0000 && LeavesWithin(payload, 0, |payload|)
      modifies uri, verb, session
      ensures Valid() && Value() == Params(old(Value()), payload)
    {
      var off: nat, left := 0, false;
      ghost var goal, k: nat := Params(Value(), payload), |payload|;
      while off < |payload| && !left
        invariant Valid() && (left ==> Value() == goal)
        invariant !left ==> LeavesWithin(payload, off, k) && ApplyAll(Value(), VisitsFrom(payload, off, k)) == goal
        decreases k, !left
      {
        left, off := HandlePair(payload, off, k);
        k := if left then k else k - 1;
      }
    }

    /** The body of the loop. */
    method HandlePair(payload: seq<byte>, off: nat, ghost k: nat) returns (left: bool, next: nat)
      requires Valid() && off < |payload| < 0x1_0000 && LeavesWithin(payload, off, k)
      modifies uri, verb, session
      ensures Valid()
      ensures ApplyAll(old(Value()), VisitsFrom(payload, off, k))
           == if left then Value() else ApplyAll(Value(), VisitsFrom(payload, next, if k > 0 then k - 1 else 0))
      ensures !left ==> k > 0 && LeavesWithin(payload, next, k - 1)
    {
      var r := ReadPair(payload, off);
      OneRound(Value(), payload, off, k, r);
      left, next := r.Overrun?, off;
      if r.Wrapped? {
        next := r.next;
      } else if r.Visit? {
        TakePair(r.name, r.value);
        next := r.next;
      }
    }

    static lemma OneRound(req: Request, payload: seq<byte>, off: nat, k: nat, r: Round)
      requires off < |payload| && LeavesWithin(payload, off, k) && r == RoundAt(payload, off)
      ensures k > 0 && (!r.Overrun? ==> LeavesWithin(payload, r.next, k - 1))
      ensures ApplyAll(req, VisitsFrom(payload, off, k))
           == if r.Overrun? then req
              else if r.Wrapped? then ApplyAll(req, VisitsFrom(payload, r.next, k - 1))
              else ApplyAll(ApplyPair(req, r.name, r.value), VisitsFrom(payload, r.next, k - 1))
    {
      if r.Visit? {
        ApplyFirst(req, Param(r.name, r.value), VisitsFrom(payload, r.next, k - 1));
      }
    }

    /** Length check and comparison with a known name. */
    static method Is(name: seq<byte>, known: seq<byte>) returns (same: bool)
      ensures same == (name == known)
    {
      if |name| != |known| {
        return false;
      }
      var c := MemcmpAvx2(name, known);
      return c == 0;
    }

    method TakePair(name: seq<byte>, val: seq<byte>)
      requires Valid()
      modifies uri, verb, session
      ensures Valid() && Value() == ApplyPair(old(Value()), name, val)
    {
      var isUri := Is(name, Ascii("REQUEST_URI"));
      var isVerb := Is(name, Ascii("REQUEST_METHOD"));
      var isCookie := Is(name, Ascii("HTTP_COOKIE"));
      if isUri {
        StoreUri(val);
      } else if isVerb {
        StoreText(verb, val[..Min(|val|, 15)]);
      } else if isCookie {
        StoreSession(val);
      }
    }

    /** Copies a text into a field and terminates it. */
    static method StoreText(field: array<byte>, text: seq<byte>)
      requires |text| < field.Length
      modifies field
      ensures CString(field[..]) == CString(text)
      ensures field[..|text| + 1] == text + [0]
    {
      forall i | 0 <= i < |text| {
        field[i] := text[i];
      }
      field[|text|] := 0;
      assert field[..] == text + [0] + field[|text| + 1..];
      CStringTerminated(text, field[|text| + 1..]);
    }

    method StoreUri(val: seq<byte>)
      requires Valid()
      modifies uri
      ensures CString(uri[..]) == UriOf(val)
    {
      var n := Min(|val|, 127);
      StoreText(uri, val[..n]);
      CutQuery(n, val[..n]);
    }

    /** The loop that ends the URI at its first `?`. */
    method CutQuery(n: nat, ghost text: seq<byte>)
      requires Valid() && n == |text| <= 127 && uri[..n + 1] == text + [0] && CString(uri[..]) == CString(text)
      modifies uri
      ensures CString(uri[..]) == CString(Before(text, '?' as byte))
    {
      var i := FindQuery(n, text);
      if i < n {
        assert uri[..n + 1][..i] == text[..i];
        EndAt(i, text[..i]);
      } else {
        assert text[..i] == text;
      }
    }

    method FindQuery(n: nat, ghost text: seq<byte>) returns (i: nat)
      requires Valid() && n == |text| <= 127 && uri[..n + 1] == text + [0]
      ensures i <= n && Before(text, '?' as byte) == text[..i]
    {
      i := 0;
      while i < n && uri[i] != '?' as byte
        invariant i <= n && '?' as byte !in text[..i]
      {
        assert uri[i] == uri[..n + 1][i] == text[i];
        assert text[..i + 1] == text[..i] + [text[i]];
        i := i + 1;
      }
      assert i < n ==> uri[i] == uri[..n + 1][i] == text[i];
      BeforeUnique(text, '?' as byte, i);
    }

    /** Ends the text in the URI field at `i`. */
    method EndAt(i: nat, ghost head: seq<byte>)
      requires Valid() && i < uri.Length && uri[..i] == head
      modifies uri
      ensures CString(uri[..]) == CString(head)
    {
      uri[i] := 0;
      assert uri[..] == head + [0] + uri[i + 1..];
      CStringTerminated(head, uri[i + 1..]);
    }

    /** End of the cookie value that starts at `from`. */
    static method ValueEnd(cookie: seq<byte>, from: nat) returns (j: nat)
      requires from <= |cookie|
      ensures from <= j <= |cookie| && cookie[from..j] == Before(cookie[from..], ';' as byte)
    {
      j := from;
      while j < |cookie| && cookie[j] != ';' as byte
        invariant from <= j <= |cookie| && forall k :: from <= k < j ==> cookie[k] != ';' as byte
      {
        j := j + 1;
      }
      assert cookie[from..][..j - from] == cookie[from..j];
      BeforeUnique(cookie[from..], ';' as byte, j - from);
    }

    /** What the search sees at position `i` of a cookie. */
    static lemma SessionAt(cookie: seq<byte>, i: nat)
      requires i < |cookie|
      ensures |cookie| - i < 8 ==> SessionOf(cookie[i..]).None? && SessionOf(cookie[i + 1..]).None?
      ensures |cookie| - i >= 8 && cookie[i..i + 8] == Ascii("SESSION=") ==>
                var text := Before(cookie[i + 8..], ';' as byte);
                SessionOf(cookie[i..]) == Some(CString(text[..Min(|text|, 31)]))
      ensures |cookie| - i >= 8 && cookie[i..i + 8] != Ascii("SESSION=") ==>
              SessionOf(cookie[i..]) == SessionOf(cookie[i + 1..])
    {
      if |cookie| - i >= 8 {
        SliceOfSlice(cookie, i, 0, 8);
      }
      SliceOfSlice(cookie, i, 0, 1);
    }

    /** The search for `SESSION=` in a cookie: where it first stands, or the end. */
    static method FindToken(cookie: seq<byte>) returns (i: nat)
      ensures i <= |cookie| && (i == |cookie| ==> SessionOf(cookie).None?)
      ensures i < |cookie| ==> i + 8 <= |cookie| && cookie[i..i + 8] == Ascii("SESSION=")
      ensures i < |cookie| ==> SessionOf(cookie) == SessionOf(cookie[i..])
    {
      i := 0;
      assert cookie[0..] == cookie;
      while i < |cookie|
        invariant i <= |cookie| && SessionOf(cookie) == SessionOf(cookie[i..])
      {
        SessionAt(cookie, i);
        if |cookie| - i >= 8 {
          var c := MemcmpAvx2(cookie[i..i + 8], Ascii("SESSION="));
          if c == 0 {
            return;
          }
        }
        i := i + 1;
      }
    }

    /** The session of a cookie, if it has one. */
    method StoreSession(cookie: seq<byte>)
      requires Valid()
      modifies session
      ensures Valid()
      ensures CString(session[..])
           == if SessionOf(cookie).Some? then SessionOf(cookie).value else old(CString(session[..]))
    {
      var i := FindToken(cookie);
      if i < |cookie| {
        SessionAt(cookie, i);
        StoreValue(cookie, i + 8);
      }
    }

    method StoreValue(cookie: seq<byte>, from: nat)
      requires Valid() && from <= |cookie|
      modifies session
      ensures Valid()
      ensures var text := Before(cookie[from..], ';' as byte); CString(session[..]) == CString(text[..Min(|text|, 31)])
    {
      var j := ValueEnd(cookie, from);
      var n := Min(j - from, 31);
      assert cookie[from..j][..n] == cookie[from..from + n];
      StoreText(session, cookie[from..from + n]);
    }

    /** `cg_fastcgi_handle_stdin`: true on the empty record that ends the request. */
    method HandleStdin(content: seq<byte>) returns (ready: bool)
      requires Valid()
      modifies this`stdinLen, stdin
      ensures Valid() && ready == (content == [])
      ensures Value() == if content == [] then old(Value()) else Stdin(old(Value()), content)
    {
      if |content| == 0 {
        return true;
      }
      if stdinLen + |content| < MAX_STDIN {
        ghost var before := stdin[..stdinLen];
        forall i | 0 <= i < |content| {
          stdin[stdinLen + i] := content[i];
        }
        stdinLen := stdinLen + |content|;
        stdin[stdinLen] := 0;
        assert stdin[..stdinLen] == before + content;
        assert uri[..] == old(uri[..]) && verb[..] == old(verb[..]) && session[..] == old(session[..]);
      }
      return false;
    }
  }

  /** `struct cg_client_ctx`: a slot of the pool with its socket, parser and buffers. `rxAddr` is the
      address of the receive buffer, on which only the block routines depend. */
  class ClientContext {
    const rx: array<byte>
    const rxAddr: nat
    const req: ClientRequest
    const tx: TxBuffer
    var inUse: bool
    var phase: Phase
    var fd: int
    var hdr: Header
    var rxValid: nat
    var rxPos: nat

    constructor (rxAddr: nat)
      ensures Valid() && fresh(Repr()) && rxPos == 0 && this.rxAddr == rxAddr
      ensures Value() == Slot(false, Free, -1,
              ParserState(Header(0, 0, 0, 0, 0, 0, 0, 0), Request([], [], [], 0, false, [])), [], [], 0)
    {
      this.rxAddr := rxAddr;
      rx := new byte[RX_SIZE](_ => 0);
      req := new ClientRequest();
      tx := new TxBuffer();
      inUse, phase, fd, rxValid, rxPos := false, Free, -1, 0, 0;
      hdr := Header(0, 0, 0, 0, 0, 0, 0, 0);
    }

    ghost function Repr(): set<object>
      reads this
    {
      {this, rx, req, req.uri, req.verb, req.session, req.stdin, tx, tx.buf}
    }

    ghost predicate Valid()
      reads Repr()
    {
      rx.Length == RX_SIZE && rxPos <= rxValid <= RX_SIZE && req.Valid() && tx.Valid() && tx.buf != rx
    }

    ghost function Parser(): ParserState
      reads Repr()
      requires Valid()
    {
      ParserState(hdr, req.Value())
    }

    ghost function Value(): Slot
      reads Repr()
      requires Valid()
    {
      Slot(inUse, phase, fd, Parser(), rx[..rxValid], tx.Text(), tx.pos)
    }

    /** The bytes that the parser has not consumed. */
    ghost function Unread(): seq<byte>
      reads Repr()
      requires Valid()
    {
      rx[rxPos..rxValid]
    }

    /** `cg_fastcgi_parse` on the unread bytes of the receive buffer. */
    method ParseRecords() returns (ready: bool)
      requires Valid() && Regular(Parser(), Unread())
      modifies this`hdr, this`rxPos, req, req.uri, req.verb, req.session, req.stdin
      ensures Valid()
      ensures var o := Parse(old(Parser()), old(Unread()));
              ready == o.Ready? && Parser() == o.st && Unread() == o.rest
    {
      ghost var goal := Parse(Parser(), Unread());
      while rxPos < rxValid
        invariant Valid() && Regular(Parser(), Unread()) && Parse(Parser(), Unread()) == goal
        decreases rxValid - rxPos, if hdr.typ == 0 then 0 else 1
      {
        var loaded := LoadHeader();
        if !loaded {
          return false;
        }
        var total := TotalPayload(hdr);
        if rxValid - rxPos < total {
          return false;
        }
        var ends := TakeRecord(total);
        if ends {
          return true;
        }
      }
      return false;
    }

    /** Makes sure that a header is at hand: the saved one or the next eight bytes. */
    method LoadHeader() returns (loaded: bool)
      requires Valid() && rxPos < rxValid
      modifies this`hdr, this`rxPos
      ensures Valid() && loaded == !Waits(old(Parser()), old(Unread()))
      ensures loaded ==> (Parser(), Unread()) == Load(old(Parser()), old(Unread()))
      ensures !loaded ==> Parser() == old(Parser()) && Unread() == old(Unread())
      ensures old(hdr).typ == 0 && loaded ==> rxPos > old(rxPos)
      ensures old(hdr).typ != 0 || !loaded ==> rxPos == old(rxPos)
    {
      if hdr.typ == 0 {
        if rxValid - rxPos < HEADER_SIZE {
          return false;
        }
        assert Unread()[HEADER_SIZE..] == rx[rxPos + HEADER_SIZE..rxValid];
        hdr := ReadHeader(rx[rxPos..rxPos + HEADER_SIZE]);
        rxPos := rxPos + HEADER_SIZE;
      }
      return true;
    }

    /** Dispatches the record of `total` payload bytes at hand. */
    method TakeRecord(total: nat) returns (ends: bool)
      requires Valid() && total == TotalPayload(hdr) <= |Unread()| && RegularRecord(hdr, Unread()[..total])
      modifies this`hdr, this`rxPos, req, req.uri, req.verb, req.session, req.stdin
      ensures Valid() && ends == EndsRequest(old(hdr)) && rxPos == old(rxPos) + total
      ensures Parser() == Handle(old(Parser()), old(Unread())) && Unread() == old(Unread())[total..]
    {
      ghost var data := Unread();
      assert rx[rxPos..rxPos + total] == data[..total];
      ends := DispatchRecord(rx[rxPos..rxPos + total]);
      rxPos := rxPos + total;
      hdr := hdr.(typ := 0);
      assert rx[rxPos..rxValid] == data[total..];
    }

    /** The switch over the record type; true when the request is complete. */
    method DispatchRecord(payload: seq<byte>) returns (ends: bool)
      requires Valid() && |payload| == TotalPayload(hdr) && RegularRecord(hdr, payload)
      modifies req, req.uri, req.verb, req.session, req.stdin
      ensures Valid() && ends == EndsRequest(hdr)
      ensures req.Value() == Dispatch(old(req.Value()), hdr, payload)
    {
      var content := payload[..ContentLength(hdr)];
      ends := false;
      if hdr.typ == BEGIN_REQUEST {
        req.HandleBegin(hdr, payload);
      } else if hdr.typ == PARAMS {
        req.HandleParams(content);
      } else if hdr.typ == STDIN {
        ends := req.HandleStdin(content);
      }
    }

    /** `cg_fastcgi_client_init` for an accepted socket, on an allocated slot. */
    method OpenSocket(fd: int)
      requires Valid()
      modifies this`inUse, this`phase, this`fd, this`rxValid, this`rxPos, tx
      ensures Valid() && rxPos == 0 && Value() == Open(old(Value()), fd)
    {
      rxValid, rxPos := 0, 0;
      tx.valid, tx.pos := 0, 0;
      this.fd := fd;
      phase, inUse := ReadSqe, true;
    }

    /** `cg_main_client_state_handle`: the operation it enqueues, if any. */
    method StateHandle() returns (op: Option<Op>)
      requires Valid() && SlotOk(Value())
      modifies this`phase, this`inUse
      ensures Valid() && (Value(), op) == Submit(old(Value()))
    {
      op := None;
      match phase {
        case ReadSqe =>
          op := Some(Read(fd, RX_SIZE - rxValid));
          phase := ReadCqe;
        case WriteSqe =>
          op := Some(Write(fd, tx.buf[tx.pos..tx.valid]));
          assert tx.Text()[tx.pos..] == tx.buf[tx.pos..tx.valid];
          phase := WriteCqe;
        case CloseSqe =>
          if fd < 0 {
            phase, inUse := Free, false;
          } else {
            op := Some(Close(fd));
            phase := CloseCqe;
          }
        case _ =>
      }
    }

    /** `cg_main_client_cqe_handle`. A read of `res` bytes has put them behind the valid ones; `resp` is
        what the route handler answers. */
    method CqeHandle(res: int, resp: seq<byte>)
      requires Valid() && rxPos == 0 && SlotOk(Value())
      requires phase == ReadCqe && res > 0 ==>
                 rxValid + res <= RX_SIZE && Regular(Parser(), rx[..rxValid + res]) && |resp| <= MAX_RESPONSE
      requires phase == WriteCqe ==> res <= |Value().tx| - Value().sent
      modifies Repr()
      ensures Valid() && rxPos == 0
      ensures var data := if old(phase) == ReadCqe && res > 0 then old(rx[rxValid..rxValid + res]) else [];
              Value() == CompleteAt(rxAddr, old(Value()), res, data, resp)
    {
      match phase {
        case ReadCqe =>
          if res <= 0 {
            phase := CloseSqe;
          } else {
            FinishRead(res, resp);
          }
        case WriteCqe =>
          if res < 0 {
            phase := CloseSqe;
          } else {
            FinishWrite(res);
          }
        case CloseCqe =>
          fd, phase, inUse := -1, Free, false;
        case _ =>
      }
    }

    /** Parses what is there after a read of `res` bytes, and answers a finished request. */
    method FinishRead(res: nat, resp: seq<byte>)
      requires Valid() && rxPos == 0 && SlotOk(Value()) && rxValid + res <= RX_SIZE
      requires Regular(Parser(), rx[..rxValid + res]) && |resp| <= MAX_RESPONSE
      modifies Repr()
      ensures Valid() && rxPos == 0
      ensures Value() == OnReadAt(rxAddr, old(Value()), old(rx[rxValid..rxValid + res]), resp)
    {
      ghost var s, data, m, o := Value(), rx[rxValid..rxValid + res], rx[..rxValid + res],
          Parse(Parser(), rx[..rxValid + res]);
      assert m == s.rx + data;
      OnReadAtIs(rxAddr, s, data, resp, m, o);
      var ready := ParseAndSlide(res, o);
      Conclude(ready, resp);
    }

    /** Answers a finished request, or goes on reading. */
    method Conclude(ready: bool, resp: seq<byte>)
      requires Valid() && |resp| <= MAX_RESPONSE
      modifies this`phase, tx, tx.buf
      ensures Valid() && rxPos == old(rxPos)
      ensures Value()
           == var s := old(Value());
              if ready then s.(tx := ReplyBytes(s.parser.req.reqId, resp), sent := 0, phase := WriteSqe)
              else s.(phase := ReadSqe)
    {
      if ready {
        Answer(resp);
      } else {
        phase := ReadSqe;
      }
    }

    /** The route handler's reply, from the start of the transmit buffer. */
    method Answer(resp: seq<byte>)
      requires Valid() && |resp| <= MAX_RESPONSE
      modifies this`phase, tx, tx.buf
      ensures Valid() && rxPos == old(rxPos)
      ensures Value() == old(Value()).(tx := ReplyBytes(req.Value().reqId, resp), sent := 0, phase := WriteSqe)
    {
      tx.RouteReply(req.reqId, resp);
      phase := WriteSqe;
    }

    method ParseAndSlide(res: nat, ghost o: Outcome) returns (ready: bool)
      requires Valid() && rxPos == 0 && rxValid + res <= RX_SIZE && o == Parse(Parser(), rx[..rxValid + res])
      requires Regular(Parser(), rx[..rxValid + res]) && |o.rest| <= rxValid + res
      modifies this`hdr, this`rxPos, this`rxValid, rx, req, req.uri, req.verb, req.session, req.stdin
      ensures Valid() && rxPos == 0 && ready == o.Ready?
      ensures Value() == old(Value()).(parser := o.st, rx := Slid(old(rx[..rxValid + res]), rxAddr, |o.rest|))
    {
      ready := ParseRead(res, o);
      SlideLeftover();
    }

    method ParseRead(res: nat, ghost o: Outcome) returns (ready: bool)
      requires Valid() && rxPos == 0 && rxValid + res <= RX_SIZE && o == Parse(Parser(), rx[..rxValid + res])
      requires Regular(Parser(), rx[..rxValid + res])
      modifies this`hdr, this`rxPos, this`rxValid, req, req.uri, req.verb, req.session, req.stdin
      ensures Valid() && ready == o.Ready? && rxPos == rxValid - |o.rest|
      ensures Value() == old(Value()).(parser := o.st, rx := old(rx[..rxValid + res]))
    {
      rxValid := rxValid + res;
      ready := ParseNew(o);
    }

    /** The parse of everything that is in the buffer. */
    method ParseNew(ghost o: Outcome) returns (ready: bool)
      requires Valid() && rxPos == 0 && o == Parse(Parser(), rx[..rxValid]) && Regular(Parser(), rx[..rxValid])
      modifies this`hdr, this`rxPos, req, req.uri, req.verb, req.session, req.stdin
      ensures Valid() && ready == o.Ready? && rxPos == rxValid - |o.rest|
      ensures Value() == old(Value()).(parser := o.st)
    {
      assert {req.uri, req.verb, req.session, req.stdin} !! {rx, tx.buf};
      assert Unread() == rx[..rxValid];
      ready := ParseRecords();
      assert |Unread()| == |o.rest|;
    }

    /** Moves the unread bytes to the front of the receive buffer. */
    method SlideLeftover()
      requires Valid()
      modifies this`rxPos, this`rxValid, rx
      ensures Valid() && rxPos == 0
      ensures Value() == old(Value()).(rx := Slid(old(Value()).rx, rxAddr, old(rxValid - rxPos)))
    {
      assert {req.uri, req.verb, req.session, req.stdin, tx.buf} !! {rx};
      var left := rxValid - rxPos;
      SlideBytes(left);
      rxValid, rxPos := left, 0;
    }

    /** The copy itself, if there is anything to move. */
    method SlideBytes(left: nat)
      requires Valid() && left == rxValid - rxPos
      modifies rx
      ensures rx[..left] == Slid(old(rx[..rxValid]), rxAddr, left)
    {
      ghost var m, was := rx[..], rx[..rxValid];
      assert m[..rxPos + left] == was;
      CopiedInFront(m, rxAddr, rxPos, left);
      if left > 0 && rxPos > 0 {
        CopyAvx2(rx, rxAddr, 0, rxPos, left);
        assert rx[..left] == rx[..][..left];
      } else {
        SlidWhenExact(was, rxAddr, left);
        assert rx[..left] == was[rxPos..];
      }
    }

    /** What a successful write of `res` bytes leads to. */
    method FinishWrite(res: nat)
      requires Valid() && rxPos == 0 && res <= |Value().tx| - Value().sent
      modifies this, tx
      ensures Valid() && rxPos == 0 && Value() == OnWrite(old(Value()), res)
    {
      tx.pos := tx.pos + res;
      if tx.pos < tx.valid {
        phase := WriteSqe;
      } else if req.keepAlive {
        rxValid, rxPos := 0, 0;
        tx.valid, tx.pos := 0, 0;
        hdr := hdr.(typ := 0);
        phase := ReadSqe;
      } else {
        phase := CloseSqe;
      }
    }
  }

  /** `cg_client_alloc`: claims the first slot that is not in use and changes no other. */
  method Alloc(pool: array<ClientContext>) returns (r: Option<nat>)
    requires forall i, j :: 0 <= i < j < pool.Length ==> pool[i] != pool[j]
    modifies set i | 0 <= i < pool.Length :: pool[i]`inUse
    ensures r.None? ==> forall i :: 0 <= i < pool.Length ==> old(pool[i].inUse)
    ensures r.Some? ==> r.value < pool.Length && !old(pool[r.value].inUse) && pool[r.value].inUse
                        && forall i :: 0 <= i < r.value ==> old(pool[i].inUse)
    ensures forall i :: 0 <= i < pool.Length && r != Some(i) ==> pool[i].inUse == old(pool[i].inUse)
  {
    for i := 0 to pool.Length
      invariant forall j :: 0 <= j < i ==> old(pool[j].inUse)
      invariant forall j :: 0 <= j < pool.Length ==> pool[j].inUse == old(pool[j].inUse)
    {
      if !pool[i].inUse {
        pool[i].inUse := true;
        return Some(i);
      }
    }
    return None;
  }
}
