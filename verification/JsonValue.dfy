/** JSON values (RFC 8259): a reader for them, and the text that reads back as a given value. */
module JsonValue {
  import opened Bytes
  import opened Decimal
  import opened Json

  datatype Value =
    | Str(text: seq<byte>)
    | Num(n: nat)
    | Bool(b: bool)
    | List(items: seq<Value>)
    | Obj(members: seq<Member>)

  datatype Member = Member(name: seq<byte>, val: Value)

  const COMMA: byte := ',' as byte
  const COLON: byte := ':' as byte
  const OPEN: byte := '[' as byte
  const CLOSE: byte := ']' as byte
  const OPEN_BRACE: byte := '{' as byte
  const CLOSE_BRACE: byte := '}' as byte

  // ----- reading -----

  function Digits(t: seq<byte>): (s: seq<byte>)
    ensures s <= t && forall b | b in s :: IsDigit(b)
  {
    if t == [] || !IsDigit(t[0]) then [] else [t[0]] + Digits(t[1..])
  }

  lemma {:induction false} DigitsCount(s: seq<byte>)
    requires forall b | b in s :: IsDigit(b)
    ensures Decimal.Value(s) >= 0
  {
    if s != [] {
      assert s[|s| - 1] in s && forall b | b in s[..|s| - 1] :: b in s;
      DigitsCount(s[..|s| - 1]);
    }
  }

  function Expect(t: seq<byte>, lit: seq<byte>): (r: Option<seq<byte>>)
    ensures r.Some? ==> |r.value| + |lit| == |t|
  {
    if lit <= t then Some(t[|lit|..]) else None
  }

  /** Reads one value without blanks: strings, natural numbers, truth values, lists and objects. */
  function ReadValue(t: seq<byte>): (r: Option<(Value, seq<byte>)>)
    ensures r.Some? ==> |r.value.1| < |t|
    decreases |t|, 0
  {
    if t == [] then None
    else if t[0] == QUOTE then
      (match TakeString(t[1..]) case None => None case Some((s, rest)) => Some((Str(s), rest)))
    else if IsDigit(t[0]) then DigitsCount(Digits(t)); Some((Num(Decimal.Value(Digits(t))), t[|Digits(t)|..]))
    else if t[0] == 't' as byte then
      (match Expect(t, Ascii("true")) case None => None case Some(rest) => Some((Bool(true), rest)))
    else if t[0] == 'f' as byte then
      (match Expect(t, Ascii("false")) case None => None case Some(rest) => Some((Bool(false), rest)))
    else if t[0] == OPEN then
      (match ReadItems(t[1..], true) case None => None case Some((vs, rest)) => Some((List(vs), rest)))
    else if t[0] == OPEN_BRACE then
      (match ReadMembers(t[1..], true) case None => None case Some((ms, rest)) => Some((Obj(ms), rest)))
    else None
  }

  /** Skips the comma in front of every element but the first. */
  function Separated(t: seq<byte>, first: bool): (r: Option<seq<byte>>)
    ensures r.Some? ==> |r.value| <= |t|
  {
    if first then Some(t) else Expect(t, [COMMA])
  }

  /** The elements of a list, up to its bracket. */
  function ReadItems(t: seq<byte>, first: bool): (r: Option<(seq<Value>, seq<byte>)>)
    ensures r.Some? ==> |r.value.1| < |t|
    decreases |t|, 1
  {
    if t != [] && t[0] == CLOSE then Some(([], t[1..]))
    else match Separated(t, first)
      case None => None
      case Some(t') =>
        match ReadValue(t')
        case None => None
        case Some((v, t'')) =>
          match ReadItems(t'', false)
          case None => None
          case Some((vs, rest)) => Some(([v] + vs, rest))
  }

  /** A name in quotes and its colon. */
  function ReadName(t: seq<byte>): (r: Option<(seq<byte>, seq<byte>)>)
    ensures r.Some? ==> |r.value.1| < |t|
  {
    if t == [] || t[0] != QUOTE then None
    else match TakeString(t[1..])
      case None => None
      case Some((name, t')) => if t' != [] && t'[0] == COLON then Some((name, t'[1..])) else None
  }

  /** The members of an object, up to its brace. */
  function ReadMembers(t: seq<byte>, first: bool): (r: Option<(seq<Member>, seq<byte>)>)
    ensures r.Some? ==> |r.value.1| < |t|
    decreases |t|, 1
  {
    if t != [] && t[0] == CLOSE_BRACE then Some(([], t[1..]))
    else match Separated(t, first)
      case None => None
      case Some(t1) =>
        match ReadName(t1)
        case None => None
        case Some((name, t2)) =>
          match ReadValue(t2)
          case None => None
          case Some((v, t3)) =>
            match ReadMembers(t3, false)
            case None => None
            case Some((ms, rest)) => Some(([Member(name, v)] + ms, rest))
  }

  // ----- writing -----

  function Comma(first: bool): (s: seq<byte>)
    ensures |s| <= 1
  {
    if first then [] else [COMMA]
  }

  /** The text of a value in front of `rest`, with its strings escaped as the server escapes them. */
  function ValueText(v: Value, rest: seq<byte>): seq<byte>
    decreases v, 0
  {
    match v
    case Str(s) => [QUOTE] + (Escape(s) + [QUOTE] + rest)
    case Num(n) => Text(n) + rest
    case Bool(b) => (if b then Ascii("true") else Ascii("false")) + rest
    case List(vs) => [OPEN] + ItemsText(vs, true, rest)
    case Obj(ms) => [OPEN_BRACE] + MembersText(ms, true, rest)
  }

  function ItemsText(vs: seq<Value>, first: bool, rest: seq<byte>): seq<byte>
    decreases vs, 1
  {
    if vs == [] then [CLOSE] + rest else Comma(first) + ValueText(vs[0], ItemsText(vs[1..], false, rest))
  }

  function NameText(name: seq<byte>, rest: seq<byte>): seq<byte> {
    [QUOTE] + (Escape(name) + [QUOTE] + ([COLON] + rest))
  }

  function MembersText(ms: seq<Member>, first: bool, rest: seq<byte>): seq<byte>
    decreases ms, 1
  {
    if ms == [] then [CLOSE_BRACE] + rest
    else Comma(first) + NameText(ms[0].name, ValueText(ms[0].val, MembersText(ms[1..], false, rest)))
  }

  /** The value without the control bytes that the escaping drops. */
  function KeptValue(v: Value): Value
    decreases v, 0
  {
    match v
    case Str(s) => Str(Kept(s))
    case List(vs) => List(KeptItems(vs))
    case Obj(ms) => Obj(KeptMembers(ms))
    case _ => v
  }

  function KeptItems(vs: seq<Value>): seq<Value>
    decreases vs, 1
  {
    if vs == [] then [] else [KeptValue(vs[0])] + KeptItems(vs[1..])
  }

  function KeptMembers(ms: seq<Member>): seq<Member>
    decreases ms, 1
  {
    if ms == [] then [] else [Member(Kept(ms[0].name), KeptValue(ms[0].val))] + KeptMembers(ms[1..])
  }

  // ----- reading back -----

  /** No digit follows, so that a number ends where it ends. */
  predicate Ends(rest: seq<byte>) {
    rest == [] || !IsDigit(rest[0])
  }

  lemma {:induction false} DigitsStop(s: seq<byte>, rest: seq<byte>)
    requires (forall b | b in s :: IsDigit(b)) && Ends(rest)
    ensures Digits(s + rest) == s
  {
    if s == [] {
      assert s + rest == rest;
    } else {
      assert (s + rest)[1..] == s[1..] + rest;
      assert forall b | b in s[1..] :: b in s;
      DigitsStop(s[1..], rest);
    }
  }

  lemma StrReadsBack(s: seq<byte>, rest: seq<byte>)
    ensures ReadValue(ValueText(Str(s), rest)) == Some((Str(Kept(s)), rest))
  {
    var t := ValueText(Str(s), rest);
    assert t[1..] == Escape(s) + [QUOTE] + rest;
    EscapeRoundTrip(s, rest);
  }

  lemma NumReadsBack(n: nat, rest: seq<byte>)
    requires Ends(rest)
    ensures ReadValue(ValueText(Num(n), rest)) == Some((Num(n), rest))
  {
    var t := ValueText(Num(n), rest);
    DigitsStop(Text(n), rest);
    TextIsDecimal(n);
    assert t[0] == Text(n)[0] && IsDigit(t[0]);
  }

  lemma BoolReadsBack(b: bool, rest: seq<byte>)
    ensures ReadValue(ValueText(Bool(b), rest)) == Some((Bool(b), rest))
  {
    var lit := if b then Ascii("true") else Ascii("false");
    assert lit <= lit + rest && (lit + rest)[|lit|..] == rest && (lit + rest)[0] == lit[0];
  }

  lemma NameReadsBack(name: seq<byte>, rest: seq<byte>)
    ensures ReadName(NameText(name, rest)) == Some((Kept(name), rest))
    ensures NameText(name, rest)[0] == QUOTE
  {
    var t := NameText(name, rest);
    assert t[1..] == Escape(name) + [QUOTE] + ([COLON] + rest);
    EscapeRoundTrip(name, [COLON] + rest);
    assert ([COLON] + rest)[1..] == rest;
  }

  lemma CommaReadsBack(first: bool, t: seq<byte>)
    ensures Separated(Comma(first) + t, first) == Some(t)
    ensures !first ==> (Comma(first) + t)[0] == COMMA
    ensures first ==> Comma(first) + t == t
  {
    assert [] + t == t;
    var u := [COMMA] + t;
    assert u[..1] == [COMMA] && u[1..] == t && u[0] == COMMA;
    assert Expect(u, [COMMA]) == Some(t);
  }

  lemma {:induction false} ValueReadsBack(v: Value, rest: seq<byte>)
    requires Ends(rest)
    ensures ReadValue(ValueText(v, rest)) == Some((KeptValue(v), rest))
    ensures ValueText(v, rest) != [] && ValueText(v, rest)[0] != CLOSE
    decreases v, 0
  {
    match v
    case Str(s) => StrReadsBack(s, rest);
    case Num(n) =>
      NumReadsBack(n, rest);
      assert ValueText(v, rest)[0] == Text(n)[0];
    case Bool(b) => BoolReadsBack(b, rest);
    case List(vs) =>
      ItemsReadBack(vs, true, rest);
      assert ValueText(v, rest)[1..] == ItemsText(vs, true, rest);
    case Obj(ms) =>
      MembersReadBack(ms, true, rest);
      assert ValueText(v, rest)[1..] == MembersText(ms, true, rest);
  }

  lemma {:induction false} ItemsReadBack(vs: seq<Value>, first: bool, rest: seq<byte>)
    ensures ReadItems(ItemsText(vs, first, rest), first) == Some((KeptItems(vs), rest))
    ensures !first ==> Ends(ItemsText(vs, first, rest))
    decreases vs, 1
  {
    if vs == [] {
      assert ([CLOSE] + rest)[1..] == rest;
    } else {
      var more := ItemsText(vs[1..], false, rest);
      ItemsReadBack(vs[1..], false, rest);
      ValueReadsBack(vs[0], more);
      CommaReadsBack(first, ValueText(vs[0], more));
    }
  }

  lemma {:induction false} MembersReadBack(ms: seq<Member>, first: bool, rest: seq<byte>)
    ensures ReadMembers(MembersText(ms, first, rest), first) == Some((KeptMembers(ms), rest))
    ensures !first ==> Ends(MembersText(ms, first, rest))
    decreases ms, 1
  {
    if ms == [] {
      assert ([CLOSE_BRACE] + rest)[1..] == rest;
    } else {
      var more := MembersText(ms[1..], false, rest);
      var val := ValueText(ms[0].val, more);
      MembersReadBack(ms[1..], false, rest);
      ValueReadsBack(ms[0].val, more);
      NameReadsBack(ms[0].name, val);
      CommaReadsBack(first, NameText(ms[0].name, val));
    }
  }

  /** Every value's text reads back as the value, less the dropped control bytes. */
  lemma TextReadsBack(v: Value)
    ensures ReadValue(ValueText(v, [])) == Some((KeptValue(v), []))
  {
    ValueReadsBack(v, []);
  }

  // ----- plain texts -----

  /** Written as it is. */
  predicate Plain(s: seq<byte>) {
    forall b | b in s :: b >= 0x20 && b != QUOTE && b != BACKSLASH
  }

  lemma {:induction false} PlainKept(s: seq<byte>)
    requires Plain(s)
    ensures Escape(s) == s && Kept(s) == s
  {
    if s != [] {
      var b, more := s[0], s[1..];
      assert b in s && forall c | c in more :: c in s;
      PlainByte(b);
      PlainKept(more);
      assert s == [b] + more;
    }
  }

  lemma PlainByte(b: byte)
    requires b >= 0x20 && b != QUOTE && b != BACKSLASH
    ensures EscapeByte(b) == [b] && IsKept(b)
  {
  }

  lemma MemberFirst(m: Member, ms: seq<Member>, first: bool, rest: seq<byte>)
    ensures MembersText([m] + ms, first, rest)
         == Comma(first) + NameText(m.name, ValueText(m.val, MembersText(ms, false, rest)))
    ensures KeptMembers([m] + ms) == [Member(Kept(m.name), KeptValue(m.val))] + KeptMembers(ms)
  {
    assert ([m] + ms)[1..] == ms;
  }
}
