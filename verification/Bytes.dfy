/** Bytes, NUL-terminated strings and 16-bit words as the C sources see them. */
module Bytes {

  type byte = x: int | 0 <= x < 256

  datatype Option<+T> = None | Some(value: T)

  /** The bytes of an ASCII literal. */
  function Ascii(s: string): (r: seq<byte>)
    ensures |r| == |s|
    ensures forall i :: 0 <= i < |s| ==> r[i] == s[i] as int % 256
  {
    seq(|s|, i requires 0 <= i < |s| => s[i] as int % 256)
  }

  /** The part of `s` before the first `stop`; all of `s` when there is none. */
  function Before(s: seq<byte>, stop: byte): (r: seq<byte>)
    ensures r <= s
    ensures stop !in r
    ensures |r| < |s| ==> s[|r|] == stop
  {
    if s == [] || s[0] == stop then [] else [s[0]] + Before(s[1..], stop)
  }

  /** The C string that starts at the beginning of a buffer. */
  function CString(s: seq<byte>): seq<byte> {
    Before(s, 0)
  }

  lemma {:induction false} BeforeUnique(s: seq<byte>, stop: byte, k: nat)
    requires k <= |s|
    requires stop !in s[..k]
    requires k < |s| ==> s[k] == stop
    ensures Before(s, stop) == s[..k]
  {
    if s != [] && k > 0 {
      assert s[0] == s[..k][0];
      assert forall b :: b in s[1..][..k - 1] ==> b in s[..k];
      BeforeUnique(s[1..], stop, k - 1);
    }
  }

  lemma BeforeConcat(a: seq<byte>, b: seq<byte>, stop: byte)
    ensures Before(a + b, stop) == if stop in a then Before(a, stop) else a + Before(b, stop)
  {
    if stop in a {
      var k := |Before(a, stop)|;
      assert (a + b)[..k] == a[..k];
      BeforeUnique(a + b, stop, k);
    } else {
      var k := |a| + |Before(b, stop)|;
      assert (a + b)[..k] == a + b[..|Before(b, stop)|];
      BeforeUnique(a + b, stop, k);
    }
  }

  /** Text stored in front of a terminator reads back as the text up to its own first NUL. */
  lemma CStringTerminated(text: seq<byte>, rest: seq<byte>)
    ensures CString(text + [0] + rest) == CString(text)
  {
    BeforeConcat(text + [0], rest, 0);
    BeforeConcat(text, [0], 0);
  }

  function Min(a: int, b: int): int {
    if a <= b then a else b
  }

  /** The number whose big-endian bytes are `a`, `b`, `c` and `d`. */
  function BigEndian32(a: int, b: int, c: int, d: int): int {
    a * 0x100_0000 + b * 0x1_0000 + c * 0x100 + d
  }

  type word = x: int | 0 <= x < 0x1_0000

  /** A 16-bit load of two bytes on a little-endian machine. */
  function Load16(first: byte, second: byte): word {
    first as int + 256 * second as int
  }

  /** Reversal of the two bytes of a 16-bit word. */
  function Bswap16(v: word): word {
    v as int % 256 * 256 + v as int / 256
  }
}
