/** Characters and their UTF-8 bytes, as far as the program looks into texts. */
module Unicode {
  import opened Prelude

  /** unicode.IsSpace. */
  predicate IsSpace(c: char) {
    var n := c as int;
    || 0x9 <= n <= 0xd || n == 0x20 || n == 0x85 || n == 0xa0 || n == 0x1680 || 0x2000 <= n <= 0x200a
    || n == 0x2028 || n == 0x2029 || n == 0x202f || n == 0x205f || n == 0x3000
  }

  predicate IsDigit(c: char) {
    '0' <= c <= '9'
  }

  predicate AllDigits(s: string) {
    forall i :: 0 <= i < |s| ==> IsDigit(s[i])
  }

  /** The number that a text of digits stands for. */
  function Value(s: string): nat
    requires AllDigits(s)
  {
    if s == [] then 0
    else
      var c := s[|s| - 1];
      assert IsDigit(c);
      10 * Value(s[..|s| - 1]) + (c as int - 48)
  }

  /** The UTF-8 form of a character. */
  function Utf8(c: char): (b: Bytes)
    ensures b != []
  {
    var n := c as int;
    if n < 0x80 then [n as byte]
    else if n < 0x800 then [(0xc0 + n / 64) as byte, (0x80 + n % 64) as byte]
    else if n < 0x1_0000 then [(0xe0 + n / 4096) as byte, (0x80 + n / 64 % 64) as byte, (0x80 + n % 64) as byte]
    else
      [(0xf0 + n / 0x4_0000) as byte, (0x80 + n / 4096 % 64) as byte, (0x80 + n / 64 % 64) as byte, (0x80 + n % 64) as byte]
  }

  /** The bits that a continuation byte carries. */
  function Bits(b: byte): int {
    b as int - 0x80
  }

  /** The bytes can be read back, and the form is the shortest that holds the character. */
  lemma Utf8RoundTrip(c: char)
    ensures var b, n := Utf8(c), c as int;
            match |b|
            case 1 => n < 0x80 && n == b[0] as int
            case 2 => 0x80 <= n < 0x800 && n == (b[0] as int - 0xc0) * 64 + Bits(b[1])
            case 3 => 0x800 <= n < 0x1_0000 && n == (b[0] as int - 0xe0) * 4096 + Bits(b[1]) * 64 + Bits(b[2])
            case 4 => 0x1_0000 <= n && n == (b[0] as int - 0xf0) * 0x4_0000 + Bits(b[1]) * 4096 + Bits(b[2]) * 64 + Bits(b[3])
            case _ => false
    ensures forall k :: 1 <= k < |Utf8(c)| ==> 0x80 <= Utf8(c)[k] < 0xc0
  {
    var n := c as int;
    assert n == 64 * (n / 64) + n % 64;
    assert n / 64 == 64 * (n / 64 / 64) + n / 64 % 64 && n / 64 / 64 == n / 4096;
    assert n / 4096 == 64 * (n / 4096 / 64) + n / 4096 % 64 && n / 4096 / 64 == n / 0x4_0000;
  }

  function Encode(s: string): Bytes {
    if s == [] then [] else Utf8(s[0]) + Encode(s[1..])
  }

  lemma {:induction false} EncodeAppend(a: string, b: string)
    ensures Encode(a + b) == Encode(a) + Encode(b)
  {
    if a == [] {
      assert a + b == b;
    } else {
      assert (a + b)[1..] == a[1..] + b;
      EncodeAppend(a[1..], b);
      Associative(Utf8(a[0]), Encode(a[1..]), Encode(b));
    }
  }

  predicate IsAscii(s: string) {
    forall i :: 0 <= i < |s| ==> s[i] as int < 0x80
  }

  /** An ASCII text has one byte for each character. */
  lemma {:induction false} EncodeAscii(s: string)
    requires IsAscii(s)
    ensures |Encode(s)| == |s| && forall i :: 0 <= i < |s| ==> Encode(s)[i] as int == s[i] as int
  {
    if s != [] {
      EncodeAscii(s[1..]);
    }
  }
}
