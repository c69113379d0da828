/** Decimal text: `cg_utoa` and `cg_itoa` of src/arch/x86_64/cg_util.asm, and the session id that is
    written with them and read back from a cookie by src/services/cg_router.c. */
module Decimal {
  import opened Bytes
  import opened Division
  import FastCgi
  import RequestContents

  const LIMIT64: nat := 0x1_0000_0000_0000_0000

  predicate IsDigit(b: byte) {
    48 <= b <= 57
  }

  /** The decimal digits of a number, without leading zeros. */
  function Text(n: nat): (s: seq<byte>)
    ensures |s| > 0 && forall b | b in s :: IsDigit(b)
  {
    if n < 10 then [48 + n] else Text(n / 10) + [48 + n % 10]
  }

  function SignedText(n: int): seq<byte> {
    if n < 0 then ['-' as byte] + Text(-n) else Text(n)
  }

  function Pow10(k: nat): nat {
    if k == 0 then 1 else 10 * Pow10(k - 1)
  }

  lemma {:induction false} TextLength(n: nat, k: nat)
    requires k > 0 && n < Pow10(k)
    ensures |Text(n)| <= k
    decreases k
  {
    if n >= 10 {
      assert Pow10(k) == 10 * Pow10(k - 1) && Pow10(0) == 1;
      TextLength(n / 10, k - 1);
    }
  }

  lemma Pow10Values()
    ensures Pow10(10) == 10000000000 && Pow10(19) == 10000000000000000000 && Pow10(20) == 100000000000000000000
  {
    assert Pow10(5) == 100000;
    assert Pow10(10) == 10000000000;
    assert Pow10(15) == 1000000000000000;
  }

  /** The number that decimal digits stand for. */
  function Value(s: seq<byte>): int {
    if s == [] then 0 else 10 * Value(s[..|s| - 1]) + (s[|s| - 1] as int - 48)
  }

  /** The digits stand for the number, and only zero starts with a zero. */
  lemma {:induction false} TextIsDecimal(n: nat)
    ensures Value(Text(n)) == n && (n > 0 ==> Text(n)[0] != 48)
  {
    if n >= 10 {
      TextIsDecimal(n / 10);
      var s := Text(n);
      assert s[..|s| - 1] == Text(n / 10) && s[0] == Text(n / 10)[0];
    } else {
      assert Text(n)[..0] == [];
    }
  }

  // ----- printing -----

  /** The digit loop of both routines: the text of `n` ends before `buf[20]`, which becomes NUL. */
  method WriteDigits(n: u64, buf: array<byte>) returns (rcx: nat)
    requires buf.Length >= 21
    modifies buf
    ensures rcx <= 20 && buf[rcx..20] == Text(n) && buf[20] == 0
    ensures buf[..rcx] == old(buf[..rcx]) && buf[21..] == old(buf[21..])
  {
    Pow10Values();
    TextLength(n, 20);
    rcx := 20;
    buf[rcx] := 0;
    var rax: u64 := n;
    while true
      invariant rcx <= 20 && Text(n) == Text(rax) + buf[rcx..20] && buf[20] == 0
      invariant buf[..rcx] == old(buf[..rcx]) && buf[21..] == old(buf[21..])
      decreases rax
    {
      var quotient := Div10Wide(rax);
      assert rcx >= |Text(rax)| > 0;
      rcx := rcx - 1;
      ghost var tail := buf[rcx + 1..20];
      buf[rcx] := 48 + (rax - 10 * quotient);
      assert buf[rcx..20] == [buf[rcx]] + tail;
      OneDigitLess(rax, quotient, buf[rcx], tail);
      if quotient == 0 {
        return;
      }
      rax := quotient;
    }
  }

  lemma OneDigitLess(n: nat, quotient: nat, digit: byte, tail: seq<byte>)
    requires quotient == n / 10 && digit as int == 48 + (n - 10 * quotient)
    ensures Text(n) + tail == if quotient == 0 then [digit] + tail else Text(quotient) + ([digit] + tail)
  {
    if quotient > 0 {
      assert Text(quotient) + [digit] + tail == Text(quotient) + ([digit] + tail);
    }
  }

  /** `cg_utoa`: the exact decimal of every 64-bit number, in at most 20 characters. */
  method Utoa(n: u64, buf: array<byte>) returns (ptr: nat, len: nat)
    requires buf.Length >= 21
    modifies buf
    ensures ptr + len == 20 && buf[ptr..ptr + len] == Text(n) && buf[ptr + len] == 0
    ensures buf[..ptr] == old(buf[..ptr]) && buf[21..] == old(buf[21..])
  {
    ptr := WriteDigits(n, buf);
    len := 20 - ptr;
  }

  /** `cg_itoa`: the same for every signed 64-bit number, the smallest included. */
  method Itoa(n: int, buf: array<byte>) returns (ptr: nat, len: nat)
    requires buf.Length >= 21 && -0x8000_0000_0000_0000 <= n < 0x8000_0000_0000_0000
    modifies buf
    ensures ptr + len == 20 && buf[ptr..ptr + len] == SignedText(n) && buf[ptr + len] == 0
    ensures buf[..ptr] == old(buf[..ptr]) && buf[21..] == old(buf[21..])
  {
    var rax: u64 := if n < 0 then -n else n;
    ptr := WriteDigits(rax, buf);
    if n < 0 {
      Pow10Values();
      TextLength(rax, 19);
      ghost var digits := buf[ptr..20];
      ptr := ptr - 1;
      buf[ptr] := '-' as byte;
      assert buf[ptr..20] == ['-' as byte] + digits;
    }
    len := 20 - ptr;
  }

  // ----- session ids -----

  /** Reading digits on top of what was read: 64-bit arithmetic, up to the first other character. */
  function ReadDigits(s: seq<byte>, acc: u64): u64 {
    if s == [] || !IsDigit(s[0]) then acc
    else ReadDigits(s[1..], Accumulated(acc, s[0]))
  }

  /** `get_session_id` on the text of the session field. */
  method GetSessionId(field: array<byte>) returns (sid: u64)
    requires 0 in field[..]
    ensures sid == ReadDigits(CString(field[..]), 0)
  {
    ghost var text := CString(field[..]);
    sid := 0;
    var i := 0;
    assert text[0..] == text;
    while field[i] != 0
      invariant i <= |text| < field.Length && text == field[..|text|] && field[|text|] == 0
      invariant ReadDigits(text, 0) == ReadDigits(text[i..], sid)
      decreases |text| - i
    {
      assert field[i] == field[..][i];
      assert i < |text| && text[i] == field[i];
      if 48 <= field[i] && field[i] <= 57 {
        sid := (sid as int * 10 + (field[i] as int - 48)) % LIMIT64;
      } else {
        return;
      }
      assert text[i..][1..] == text[i + 1..];
      i := i + 1;
    }
    assert 0 !in text;
  }

  /** The accumulator after one more digit. */
  function Accumulated(acc: u64, digit: byte): u64
    requires IsDigit(digit)
  {
    (acc as int * 10 + (digit as int - 48)) % LIMIT64
  }

  lemma LastDigit(n: nat)
    requires n < LIMIT64
    ensures Accumulated(n / 10, 48 + n % 10) == n
  {
  }

  lemma {:induction false} ReadText(n: nat, tail: seq<byte>)
    requires n < LIMIT64
    ensures ReadDigits(Text(n) + tail, 0) == ReadDigits(tail, n)
    decreases n
  {
    LastDigit(n);
    if n < 10 {
      assert (Text(n) + tail)[1..] == tail;
    } else {
      var rest := [48 + n % 10] + tail;
      assert Text(n) + tail == Text(n / 10) + rest;
      ReadText(n / 10, rest);
      assert rest[1..] == tail;
    }
  }

  predicate TokenAt(cookie: seq<byte>, i: nat) {
    i + 8 <= |cookie| && cookie[i..i + 8] == Ascii("SESSION=")
  }

  predicate FirstToken(cookie: seq<byte>, k: nat) {
    TokenAt(cookie, k) && forall i: nat :: i < k ==> !TokenAt(cookie, i)
  }

  /** A cookie whose first `SESSION=` carries the digits of an id, ended by `;` or the end, is read back as that id. */
  lemma SessionRoundTrip(id: u64, cookie: seq<byte>, k: nat, post: seq<byte>)
    requires FirstToken(cookie, k) && cookie[k + 8..] == Text(id) + post && (post == [] || post[0] == ';' as byte)
    ensures FastCgi.SessionOf(cookie) == Some(Text(id)) && ReadDigits(Text(id), 0) == id
  {
    TokenFound(cookie, k);
    TextEnds(id, post);
    assert Text(id) + [] == Text(id);
    ReadText(id, []);
  }

  lemma TextEnds(id: u64, post: seq<byte>)
    requires post == [] || post[0] == ';' as byte
    ensures Before(Text(id) + post, ';' as byte) == Text(id) && |Text(id)| <= 20 && CString(Text(id)) == Text(id)
  {
    BeforeConcat(Text(id), post, ';' as byte);
    assert Text(id) + [] == Text(id);
    Pow10Values();
    TextLength(id, 20);
    assert Text(id)[..|Text(id)|] == Text(id);
    BeforeUnique(Text(id), 0, |Text(id)|);
  }

  lemma {:induction false} TokenFound(cookie: seq<byte>, k: nat)
    requires FirstToken(cookie, k)
    ensures var text := Before(cookie[k + 8..], ';' as byte);
            FastCgi.SessionOf(cookie) == Some(CString(text[..Min(|text|, 31)]))
    decreases k
  {
    if k > 0 {
      assert !TokenAt(cookie, 0);
      forall i: nat ensures TokenAt(cookie[1..], i) <==> TokenAt(cookie, i + 1) {
        TokenShift(cookie, i);
      }
      TokenFound(cookie[1..], k - 1);
      assert cookie[1..][k - 1 + 8..] == cookie[k + 8..];
    }
  }

  lemma TokenShift(cookie: seq<byte>, i: nat)
    requires cookie != []
    ensures TokenAt(cookie[1..], i) <==> TokenAt(cookie, i + 1)
  {
    if i + 9 <= |cookie| {
      assert cookie[1..][i..i + 8] == cookie[i + 1..i + 1 + 8];
    }
  }

  /** A session field is the longest beginning of what stands behind the first `SESSION=` of the cookie that has at most
      31 bytes and neither `;` nor NUL; a cookie without the token has none. */
  lemma SessionIsCut(cookie: seq<byte>, k: nat)
    requires FirstToken(cookie, k)
    ensures FastCgi.SessionOf(cookie).Some?
    ensures RequestContents.CutAt(FastCgi.SessionOf(cookie).value, cookie[k + 8..], 31, {0, ';' as byte})
  {
    TokenFound(cookie, k);
    var text := Before(cookie[k + 8..], ';' as byte);
    var head := text[..Min(|text|, 31)];
    assert CString(head) <= head;
    assert forall b | b in CString(head) :: b in head;
    assert forall b | b in head :: b in text;
    if |CString(head)| < |head| {
      assert head[|CString(head)|] == cookie[k + 8..][|CString(head)|];
    }
  }

  lemma {:induction false} NoSession(cookie: seq<byte>)
    requires forall i: nat :: !TokenAt(cookie, i)
    ensures FastCgi.SessionOf(cookie).None?
    decreases |cookie|
  {
    if |cookie| >= 8 {
      assert !TokenAt(cookie, 0);
      forall i: nat ensures !TokenAt(cookie[1..], i) {
        TokenShift(cookie, i);
      }
      NoSession(cookie[1..]);
    }
  }

  /** Behind the digits everything is ignored. */
  lemma ReadStops(id: u64, tail: seq<byte>)
    requires tail == [] || !IsDigit(tail[0])
    ensures ReadDigits(Text(id) + tail, 0) == id
  {
    ReadText(id, tail);
  }

  /** The signed text is the sign and the digits of the magnitude. */
  lemma SignedTextIs(n: int)
    ensures var s := SignedText(n);
      if n < 0 then s[0] == '-' as byte && Value(s[1..]) == -n && (forall b | b in s[1..] :: IsDigit(b)) && s[1] != 48
      else Value(s) == n && forall b | b in s :: IsDigit(b)
  {
    if n < 0 {
      TextIsDecimal(-n);
      assert SignedText(n)[1..] == Text(-n);
    } else {
      TextIsDecimal(n);
    }
  }
}
