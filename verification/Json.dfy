/** JSON text of src/services/cg_router.c: escaping, and the appending of pieces to a response buffer. */
module Json {
  import opened Bytes
  import opened Division
  import Decimal

  const QUOTE: byte := '"' as byte
  const BACKSLASH: byte := '\\' as byte

  // ----- escaping -----

  /** The letter of a two-character escape, if the byte has one. */
  function ShortEscape(b: byte): Option<byte> {
    if b == QUOTE then Some(QUOTE)
    else if b == BACKSLASH then Some(BACKSLASH)
    else if b == 8 then Some('b' as byte)
    else if b == 12 then Some('f' as byte)
    else if b == 10 then Some('n' as byte)
    else if b == 13 then Some('r' as byte)
    else if b == 9 then Some('t' as byte)
    else None
  }

  function EscapeByte(b: byte): (r: seq<byte>)
    ensures |r| <= 2
  {
    match ShortEscape(b)
    case Some(c) => [BACKSLASH, c]
    case None => if b >= 0x20 then [b] else []
  }

  function Escape(s: seq<byte>): (r: seq<byte>)
    ensures |r| <= 2 * |s|
  {
    if s == [] then [] else EscapeByte(s[0]) + Escape(s[1..])
  }

  /** Any byte that is no control byte, and backspace, tab, newline, form feed and carriage return. */
  predicate IsKept(b: byte) {
    b >= 0x20 || b in {8, 9, 10, 12, 13}
  }

  /** The source without the control bytes that have no short escape. */
  function Kept(s: seq<byte>): seq<byte> {
    if s == [] then [] else (if IsKept(s[0]) then [s[0]] else []) + Kept(s[1..])
  }

  // ----- reading a string back -----

  /** The byte that a two-character escape of RFC 8259, section 7, stands for. */
  function Unescaped(c: byte): Option<byte> {
    if c == QUOTE || c == BACKSLASH || c == '/' as byte then Some(c)
    else if c == 'b' as byte then Some(8)
    else if c == 'f' as byte then Some(12)
    else if c == 'n' as byte then Some(10)
    else if c == 'r' as byte then Some(13)
    else if c == 't' as byte then Some(9)
    else None
  }

  /** Reads a string behind its opening quote: its value and what follows the closing quote. None for raw
      control bytes, a missing end, and escapes other than the two-character ones. */
  function TakeString(t: seq<byte>): (r: Option<(seq<byte>, seq<byte>)>)
    ensures r.Some? ==> |r.value.1| < |t|
    decreases |t|
  {
    if t == [] || t[0] < 0x20 then None
    else if t[0] == QUOTE then Some(([], t[1..]))
    else if t[0] == BACKSLASH then
      if |t| < 2 || Unescaped(t[1]).None? then None
      else match TakeString(t[2..])
        case None => None
        case Some((v, rest)) => Some(([Unescaped(t[1]).value] + v, rest))
    else match TakeString(t[1..])
      case None => None
      case Some((v, rest)) => Some(([t[0]] + v, rest))
  }

  /** What escaping makes of a byte: a two-character escape that stands for it, the byte itself, or nothing. */
  lemma EscapeReadBack(b: byte)
    ensures ShortEscape(b).Some? ==> Unescaped(ShortEscape(b).value) == Some(b) && IsKept(b)
    ensures ShortEscape(b).None? ==> b != QUOTE && b != BACKSLASH && (IsKept(b) <==> b >= 0x20)
  {
  }

  /** An escaped text between quotes is read back as the source without those control bytes, and the string
      ends at the quote behind it, whatever the text contains. */
  lemma {:induction false} EscapeRoundTrip(s: seq<byte>, rest: seq<byte>)
    ensures TakeString(Escape(s) + [QUOTE] + rest) == Some((Kept(s), rest))
  {
    if s == [] {
      assert Escape(s) + [QUOTE] + rest == [QUOTE] + rest;
    } else {
      var more := Escape(s[1..]) + [QUOTE] + rest;
      var t := Escape(s) + [QUOTE] + rest;
      assert t == EscapeByte(s[0]) + more;
      EscapeRoundTrip(s[1..], rest);
      EscapeReadBack(s[0]);
      if ShortEscape(s[0]).Some? {
        assert t[2..] == more;
      } else if s[0] >= 0x20 {
        assert t[1..] == more;
      } else {
        assert t == more && Kept(s) == Kept(s[1..]);
      }
    }
  }

  // ----- appending -----

  /** `append_str`: puts a text at `p` and moves `p` behind it. */
  method AppendStr(buf: array<byte>, p: nat, text: seq<byte>) returns (q: nat)
    requires p + |text| <= buf.Length
    modifies buf
    ensures q == p + |text| && buf[..q] == old(buf[..p]) + text
  {
    forall i | 0 <= i < |text| {
      buf[p + i] := text[i];
    }
    q := p + |text|;
  }

  /** One round of the escaping switch. */
  method AppendEscape(buf: array<byte>, p: nat, b: byte) returns (q: nat)
    requires p + |EscapeByte(b)| <= buf.Length
    modifies buf
    ensures q == p + |EscapeByte(b)| && buf[..q] == old(buf[..p]) + EscapeByte(b)
  {
    q := p;
    match ShortEscape(b) {
      case Some(c) =>
        buf[q], buf[q + 1] := BACKSLASH, c;
        q := q + 2;
      case None =>
        if b >= 0x20 {
          buf[q] := b;
          q := q + 1;
        }
    }
  }

  /** `append_json_escaped`, character by character. */
  method AppendJsonEscaped(buf: array<byte>, p: nat, s: seq<byte>) returns (q: nat)
    requires p + |Escape(s)| <= buf.Length
    modifies buf
    ensures q == p + |Escape(s)| && buf[..q] == old(buf[..p]) + Escape(s)
  {
    q := p;
    ghost var goal := buf[..p] + Escape(s);
    assert s[0..] == s;
    for i := 0 to |s|
      invariant q + |Escape(s[i..])| == |goal| && buf[..q] + Escape(s[i..]) == goal
    {
      assert s[i..][1..] == s[i + 1..];
      ghost var done, more := buf[..q], Escape(s[i + 1..]);
      q := AppendEscape(buf, q, s[i]);
      assert done + EscapeByte(s[i]) + more == done + (EscapeByte(s[i]) + more);
    }
    assert buf[..q] + [] == buf[..q];
  }

  /** `append_uint`. */
  method AppendUint(buf: array<byte>, p: nat, val: u64) returns (q: nat)
    requires p + |Decimal.Text(val)| <= buf.Length
    modifies buf
    ensures q == p + |Decimal.Text(val)| && buf[..q] == old(buf[..p]) + Decimal.Text(val)
  {
    var tmp := new byte[32];
    var ptr, len := Decimal.Utoa(val, tmp);
    q := AppendStr(buf, p, tmp[ptr..ptr + len]);
  }
}
