/** Form values: `cg_get_form_value` of src/services/cg_router.c, and the application/x-www-form-urlencoded
    serializer (URL Standard, section 5.2) that it undoes. */
module Form {
  import opened Bytes

  const PERCENT: byte := '%' as byte
  const PLUS: byte := '+' as byte
  const AND: byte := '&' as byte
  const EQUALS: byte := '=' as byte

  // ----- decoding -----

  function BitOr(a: nat, b: nat): nat {
    if a == 0 then b else if b == 0 then a
    else (if a % 2 == 1 || b % 2 == 1 then 1 else 0) + 2 * BitOr(a / 2, b / 2)
  }

  /** A character as the signed `char` it is. */
  function Signed(b: byte): int {
    if b < 128 then b else b as int - 256
  }

  /** The number that one escape character contributes; meaningful for hexadecimal digits. */
  function Nibble(b: byte): int {
    if Signed(b) <= 57 then Signed(b) - 48
    else BitOr(Signed(b), 0x20) - 97 + 10
  }

  function EscapedByte(high: byte, low: byte): byte {
    BitOr(Nibble(high) * 16 % 256, Nibble(low) % 256) % 256
  }

  /** The value that starts `p`, up to `&` or the end: never more bytes than are read. */
  function DecodeValue(p: seq<byte>): (r: seq<byte>)
    ensures |r| <= |p|
    decreases |p|
  {
    if p == [] || p[0] == AND then []
    else if p[0] == PLUS then [0x20] + DecodeValue(p[1..])
    else if p[0] == PERCENT && |p| > 2 then [EscapedByte(p[1], p[2])] + DecodeValue(p[3..])
    else [p[0]] + DecodeValue(p[1..])
  }

  /** What follows the next `&`. */
  function SkipPair(p: seq<byte>): (r: seq<byte>)
    ensures p != [] ==> |r| < |p|
  {
    var k := |Before(p, AND)|;
    if k < |p| then p[k + 1..] else []
  }

  predicate KeyAt(p: seq<byte>, key: seq<byte>) {
    key <= p && |key| < |p| && p[|key|] == EQUALS
  }

  /** `cg_get_form_value` on the text of a form. */
  function FormValue(p: seq<byte>, key: seq<byte>): (r: Option<seq<byte>>)
    ensures r.Some? ==> |r.value| < |p|
    decreases |p|
  {
    if p == [] then None
    else if KeyAt(p, key) then Some(DecodeValue(p[|key| + 1..]))
    else FormValue(SkipPair(p), key)
  }

  // ----- the serializer -----

  /** Bytes that the serializer leaves as they are. */
  predicate Unescaped(b: byte) {
    48 <= b <= 57 || 65 <= b <= 90 || 97 <= b <= 122
    || b == '*' as byte || b == '-' as byte || b == '.' as byte || b == '_' as byte
  }

  function HexDigit(n: nat): byte
    requires n < 16
  {
    if n < 10 then 48 + n else 55 + n
  }

  function EncodeByte(b: byte): (r: seq<byte>)
    ensures |r| >= 1
    ensures forall c | c in r :: c != 0 && c != AND && c != EQUALS
  {
    if b == 0x20 then [PLUS]
    else if Unescaped(b) then [b]
    else [PERCENT, HexDigit(b / 16), HexDigit(b % 16)]
  }

  function Encode(s: seq<byte>): (r: seq<byte>)
    ensures |r| >= |s|
    ensures forall c | c in r :: c != 0 && c != AND && c != EQUALS
  {
    if s == [] then [] else EncodeByte(s[0]) + Encode(s[1..])
  }

  datatype Field = Field(name: seq<byte>, value: seq<byte>)

  function EncodeField(f: Field): seq<byte> {
    Encode(f.name) + [EQUALS] + Encode(f.value)
  }

  function Serialize(fs: seq<Field>): seq<byte> {
    if fs == [] then []
    else if |fs| == 1 then EncodeField(fs[0])
    else EncodeField(fs[0]) + [AND] + Serialize(fs[1..])
  }

  /** The value of the first field with that name. */
  function FirstNamed(fs: seq<Field>, name: seq<byte>): Option<seq<byte>> {
    if fs == [] then None
    else if fs[0].name == name then Some(fs[0].value)
    else FirstNamed(fs[1..], name)
  }

  // ----- round trip -----

  lemma {:induction false} OrShifted(h: nat, l: nat, k: nat, p: nat)
    requires p == Power2(k) && l < p
    ensures BitOr(h * p, l) == h * p + l
    decreases k
  {
    if k == 0 || h == 0 || l == 0 {
      assert h * 1 == h;
    } else {
      var q := Power2(k - 1);
      assert h * p == 2 * (h * q);
      assert h * p > 0;
      OrShifted(h, l / 2, k - 1, q);
    }
  }

  function Power2(k: nat): (p: nat)
    ensures p > 0
  {
    if k == 0 then 1 else 2 * Power2(k - 1)
  }

  /** Setting a bit that is clear adds it. */
  lemma {:induction false} OrClearBit(hi: nat, lo: nat, j: nat, p: nat)
    requires p == Power2(j) && lo < p
    ensures BitOr(2 * (p * hi) + lo, p) == 2 * (p * hi) + lo + p
    decreases j
  {
    if j > 0 {
      var q := Power2(j - 1);
      assert p * hi == 2 * (q * hi);
      OrClearBit(hi, lo / 2, j - 1, q);
    } else {
      assert BitOr(hi, 0) == hi;
    }
  }

  lemma NibbleOfDigit(n: nat)
    requires n < 16
    ensures Nibble(HexDigit(n)) == n
  {
    if n >= 10 {
      assert Power2(5) == 32;
      OrClearBit(1, n - 9, 5, 32);
    }
  }

  lemma EscapeRoundTrip(b: byte, h: nat, l: nat)
    requires b as int == h * 16 + l && h < 16 && l < 16
    ensures EscapedByte(HexDigit(h), HexDigit(l)) == b
  {
    NibbleOfDigit(h);
    NibbleOfDigit(l);
    assert Power2(4) == 16;
    OrShifted(h, l, 4, 16);
    SmallByte(h, l);
  }

  lemma SmallByte(h: nat, l: nat)
    requires h < 16 && l < 16
    ensures h * 16 % 256 == h * 16 && l % 256 == l && (h * 16 + l) % 256 == h * 16 + l
  {
  }

  lemma DecodeByte(b: byte, rest: seq<byte>)
    ensures DecodeValue(EncodeByte(b) + rest) == [b] + DecodeValue(rest)
  {
    var p := EncodeByte(b) + rest;
    if b == 0x20 || Unescaped(b) {
      assert p[1..] == rest;
    } else {
      var h, l := b as int / 16, b as int % 16;
      EscapeRoundTrip(b, h, l);
      assert p[0] == PERCENT && p[1] == HexDigit(h) && p[2] == HexDigit(l) && p[3..] == rest;
    }
  }

  lemma {:induction false} DecodeEncode(s: seq<byte>, tail: seq<byte>)
    requires tail == [] || tail[0] == AND
    ensures DecodeValue(Encode(s) + tail) == s
  {
    if s == [] {
      assert Encode(s) + tail == tail;
    } else {
      var rest := Encode(s[1..]) + tail;
      assert Encode(s) + tail == EncodeByte(s[0]) + rest;
      DecodeByte(s[0], rest);
      DecodeEncode(s[1..], tail);
    }
  }

  /** Different texts are encoded differently. */
  lemma EncodeInjective(s: seq<byte>, t: seq<byte>)
    requires Encode(s) == Encode(t)
    ensures s == t
  {
    DecodeEncode(s, []);
    DecodeEncode(t, []);
    assert Encode(s) + [] == Encode(t) + [];
  }

  /** A key without `=` matches exactly when it is what stands before the first `=`. */
  lemma KeyBeforeEquals(p: seq<byte>, key: seq<byte>)
    requires EQUALS !in key
    ensures KeyAt(p, key) <==> EQUALS in p && Before(p, EQUALS) == key
  {
    if KeyAt(p, key) {
      BeforeUnique(p, EQUALS, |key|);
    }
  }

  lemma NamePart(name: seq<byte>, rest: seq<byte>, key: seq<byte>)
    requires EQUALS !in name && EQUALS !in key
    ensures var p := name + ([EQUALS] + rest);
            (KeyAt(p, key) <==> name == key) && (name == key ==> p[|key| + 1..] == rest)
  {
    var p := name + ([EQUALS] + rest);
    assert p[..|name|] == name && p[|name|] == EQUALS;
    BeforeUnique(p, EQUALS, |name|);
    KeyBeforeEquals(p, key);
  }

  /** Where a field starts, the key matches exactly when it is the field's name. */
  lemma KeyMatches(f: Field, tail: seq<byte>, key: seq<byte>)
    requires Encode(key) == key
    ensures KeyAt(EncodeField(f) + tail, key) <==> f.name == key
    ensures f.name == key ==> (EncodeField(f) + tail)[|key| + 1..] == Encode(f.value) + tail
  {
    PlainName(f.name, key);
    Regroup(Encode(f.name), Encode(f.value), tail);
    NamePart(Encode(f.name), Encode(f.value) + tail, key);
  }

  lemma PlainName(name: seq<byte>, key: seq<byte>)
    requires Encode(key) == key
    ensures EQUALS !in key && EQUALS !in Encode(name) && (Encode(name) == key <==> name == key)
  {
    if Encode(name) == key {
      EncodeInjective(name, key);
    }
  }

  lemma Regroup(name: seq<byte>, value: seq<byte>, tail: seq<byte>)
    ensures name + [EQUALS] + value + tail == name + ([EQUALS] + (value + tail))
  {
  }

  lemma FieldSkipped(f: Field, tail: seq<byte>)
    requires tail == [] || tail[0] == AND
    ensures SkipPair(EncodeField(f) + tail) == if tail == [] then [] else tail[1..]
  {
    var p := EncodeField(f) + tail;
    BeforeConcat(EncodeField(f), tail, AND);
    assert Before(p, AND) == EncodeField(f);
  }

  /** A field looked up by a plain name in a serialized form comes back with its exact bytes, the first
      one when the name repeats, and nothing is found exactly when no field has that name. */
  lemma {:induction false} FormRoundTrip(fs: seq<Field>, key: seq<byte>)
    requires Encode(key) == key
    ensures FormValue(Serialize(fs), key) == FirstNamed(fs, key)
    decreases |fs|
  {
    if fs != [] {
      var tail := if |fs| == 1 then [] else [AND] + Serialize(fs[1..]);
      var p := Serialize(fs);
      assert p == EncodeField(fs[0]) + tail;
      KeyMatches(fs[0], tail, key);
      if fs[0].name == key {
        DecodeEncode(fs[0].value, tail);
      } else {
        FieldSkipped(fs[0], tail);
        FormRoundTrip(fs[1..], key);
      }
    }
  }

  // ----- escapes in either case, and stray percent signs -----

  /** The value of a hexadecimal digit of either case. */
  function HexValue(b: byte): Option<nat> {
    if '0' as byte <= b <= '9' as byte then Some(b - '0' as byte)
    else if 'A' as byte <= b <= 'F' as byte then Some(b - 'A' as byte + 10)
    else if 'a' as byte <= b <= 'f' as byte then Some(b - 'a' as byte + 10)
    else None
  }

  lemma NibbleIsHex(b: byte)
    requires HexValue(b).Some?
    ensures Nibble(b) == HexValue(b).value < 16
  {
    if 'a' as byte <= b {
      LowerCaseStays(b - 96);
    } else if 'A' as byte <= b {
      assert Power2(5) == 32;
      OrClearBit(1, b - 64, 5, 32);
    }
  }

  /** The bit that makes a letter lower-case is set in one that is. */
  lemma LowerCaseStays(n: nat)
    requires 1 <= n <= 6
    ensures BitOr(96 + n, 0x20) == 96 + n
  {
    assert Power2(5) == 32;
    OrSetBit(1, n, 5, 32);
  }

  /** Setting a bit that is set changes nothing. */
  lemma {:induction false} OrSetBit(hi: nat, lo: nat, j: nat, p: nat)
    requires p == Power2(j) && lo < p
    ensures BitOr(2 * (p * hi) + p + lo, p) == 2 * (p * hi) + p + lo
    decreases j
  {
    if j > 0 {
      var q := Power2(j - 1);
      assert p * hi == 2 * (q * hi);
      OrSetBit(hi, lo / 2, j - 1, q);
    } else {
      assert BitOr(hi, 0) == hi;
    }
  }

  /** Percent-decoding of the URL Standard (section 1.3), with `+` for a space: an escape is a percent sign and two
      hexadecimal digits, anything else stands for itself. */
  function PercentDecoded(v: seq<byte>): seq<byte>
    decreases |v|
  {
    if v == [] then []
    else if v[0] == PLUS then [0x20] + PercentDecoded(v[1..])
    else if v[0] == PERCENT && |v| > 2 && HexValue(v[1]).Some? && HexValue(v[2]).Some? then
      [(HexValue(v[1]).value * 16 + HexValue(v[2]).value) % 256] + PercentDecoded(v[3..])
    else [v[0]] + PercentDecoded(v[1..])
  }

  /** Every percent sign of a value has two hexadecimal digits behind it, or stands too near the end of the form. */
  predicate WellEscaped(p: seq<byte>)
    decreases |p|
  {
    p == [] || p[0] == AND
    || (if p[0] == PERCENT && |p| > 2 then HexValue(p[1]).Some? && HexValue(p[2]).Some? && WellEscaped(p[3..])
        else WellEscaped(p[1..]))
  }

  lemma EscapeIs(high: byte, low: byte)
    requires HexValue(high).Some? && HexValue(low).Some?
    ensures EscapedByte(high, low) == (HexValue(high).value * 16 + HexValue(low).value) % 256
  {
    NibbleIsHex(high);
    NibbleIsHex(low);
    assert Power2(4) == 16;
    OrShifted(HexValue(high).value, HexValue(low).value, 4, 16);
    SmallByte(HexValue(high).value, HexValue(low).value);
  }

  /** A well-escaped value is decoded as the standard does, up to its `&`; escapes may be in either case. */
  lemma {:induction false} DecodesAsStandard(p: seq<byte>)
    requires WellEscaped(p)
    ensures DecodeValue(p) == PercentDecoded(Before(p, AND))
    decreases |p|
  {
    if p != [] && p[0] != AND {
      var v := Before(p, AND);
      BeforeRest(p);
      if p[0] == PERCENT && |p| > 2 {
        BeforeRest(p[1..]);
        BeforeRest(p[2..]);
        assert p[2..][1..] == p[3..] && p[1..][1..] == p[2..];
        assert v == [p[0], p[1], p[2]] + Before(p[3..], AND);
        assert v[3..] == Before(p[3..], AND);
        EscapeIs(p[1], p[2]);
        DecodesAsStandard(p[3..]);
      } else {
        assert v[1..] == Before(p[1..], AND);
        DecodesAsStandard(p[1..]);
      }
    }
  }

  lemma BeforeRest(p: seq<byte>)
    requires p != [] && p[0] != AND
    ensures Before(p, AND) == [p[0]] + Before(p[1..], AND)
  {
  }

  // ----- the loops -----

  /** The buffer holds a string of length `z`. */
  predicate Terminated(s: seq<byte>, z: nat) {
    z < |s| && s[z] == 0 && forall i :: 0 <= i < z ==> s[i] != 0
  }

  /** Compares the key with the text at `p`. */
  method MatchKey(qs: array<byte>, p: nat, key: seq<byte>, ghost z: nat) returns (m: bool)
    requires Terminated(qs[..], z) && p <= z && 0 !in key
    ensures m <==> KeyAt(qs[p..z], key)
  {
    ghost var text := qs[p..z];
    var i := 0;
    while i < |key|
      invariant i <= |key| && p + i <= z && text[..i] == key[..i]
    {
      if qs[p + i] != key[i] {
        assert p + i < z ==> text[i] == qs[p + i];
        return false;
      }
      assert text[..i + 1] == text[..i] + [text[i]] && key[..i + 1] == key[..i] + [key[i]];
      i := i + 1;
    }
    return qs[p + |key|] == EQUALS;
  }

  /** Decodes one character of a value. */
  method DecodeOne(qs: array<byte>, q: nat, ghost z: nat) returns (b: byte, next: nat)
    requires Terminated(qs[..], z) && q < z && qs[q] != AND
    ensures q < next <= z && DecodeValue(qs[q..z]) == [b] + DecodeValue(qs[next..z])
  {
    ghost var t := qs[q..z];
    next := q;
    if qs[q] == PLUS {
      b := 0x20;
    } else if qs[q] == PERCENT && qs[q + 1] != 0 && qs[q + 2] != 0 {
      b := EscapedByte(qs[q + 1], qs[q + 2]);
      next := q + 2;
      assert t[3..] == qs[q + 3..z];
    } else {
      b := qs[q];
    }
    next := next + 1;
    assert t[1..] == qs[q + 1..z];
  }

  lemma OneDecoded(v: seq<byte>, done: seq<byte>, b: byte, more: seq<byte>)
    requires v == done + ([b] + more)
    ensures v == done + [b] + more && |done| < |v|
  {
  }

  /** Decodes the value at `p` into `out` and terminates it. */
  method DecodeInto(qs: array<byte>, p: nat, out: array<byte>, ghost z: nat)
    requires Terminated(qs[..], z) && p <= z && qs != out && |DecodeValue(qs[p..z])| < out.Length
    modifies out
    ensures var v := DecodeValue(qs[p..z]); out[..|v|] == v && out[|v|] == 0
  {
    ghost var text, v := qs[..], DecodeValue(qs[p..z]);
    var q, d := p, 0;
    while qs[q] != 0 && qs[q] != AND
      invariant p <= q <= z && d <= |v| && text == qs[..]
      invariant v == out[..d] + DecodeValue(text[q..z])
      decreases z - q
    {
      ghost var done := out[..d];
      assert text[q..z] == qs[q..z];
      var b, next := DecodeOne(qs, q, z);
      assert text[next..z] == qs[next..z];
      OneDecoded(v, done, b, DecodeValue(text[next..z]));
      out[d] := b;
      q, d := next, d + 1;
      assert out[..d] == done + [b];
    }
    assert DecodeValue(text[q..z]) == [];
    out[d] := 0;
  }

  /** The search for the key: where its first value starts. */
  method FindField(qs: array<byte>, key: seq<byte>, ghost z: nat) returns (found: bool, p: nat)
    requires Terminated(qs[..], z) && 0 !in key
    ensures p <= z && FormValue(qs[..z], key) == if found then Some(DecodeValue(qs[p..z])) else None
  {
    ghost var r := FormValue(qs[..z], key);
    p := 0;
    assert qs[0..z] == qs[..z];
    while qs[p] != 0
      invariant p <= z && r == FormValue(qs[p..z], key)
      decreases z - p
    {
      FormStep(qs[..], p, z, key);
      var m := MatchKey(qs, p, key, z);
      if m {
        return true, p + |key| + 1;
      }
      p := SkipAnd(qs, p, z);
    }
    return false, p;
  }

  /** `cg_get_form_value`: decodes the first value of the key into `out`, which must have room for it. */
  method GetFormValue(qs: array<byte>, key: seq<byte>, out: array<byte>, ghost z: nat) returns (found: bool)
    requires Terminated(qs[..], z) && 0 !in key && qs != out && out.Length > 0
    requires FormValue(qs[..z], key).Some? ==> |FormValue(qs[..z], key).value| < out.Length
    modifies out
    ensures var r := FormValue(qs[..z], key);
            found == r.Some? && (if found then out[..|r.value|] == r.value && out[|r.value|] == 0 else out[0] == 0)
  {
    var p;
    found, p := FindField(qs, key, z);
    if found {
      DecodeInto(qs, p, out, z);
    } else {
      out[0] := 0;
    }
  }

  lemma FormStep(text: seq<byte>, p: nat, z: nat, key: seq<byte>)
    requires p < z <= |text|
    ensures var t := text[p..z];
      if KeyAt(t, key) then p + |key| < z && FormValue(t, key) == Some(DecodeValue(text[p + |key| + 1..z]))
      else FormValue(t, key) == FormValue(SkipPair(t), key)
  {
    if KeyAt(text[p..z], key) {
      assert text[p..z][|key| + 1..] == text[p + |key| + 1..z];
    }
  }

  /** Moves behind the next `&`, or to the end. */
  method SkipAnd(qs: array<byte>, p: nat, ghost z: nat) returns (q: nat)
    requires Terminated(qs[..], z) && p < z
    ensures p < q <= z && qs[q..z] == SkipPair(qs[p..z])
  {
    ghost var t := qs[p..z];
    q := p;
    while qs[q] != 0 && qs[q] != AND
      invariant p <= q <= z && AND !in t[..q - p]
      decreases z - q
    {
      assert t[q - p] == qs[q] && t[..q - p + 1] == t[..q - p] + [t[q - p]];
      q := q + 1;
    }
    BeforeUnique(t, AND, q - p);
    if qs[q] == AND {
      q := q + 1;
    }
  }
}
