/**
 Bytes and Node's `buffer.toString('hex')`: two lower-case hexadecimal digits
 per byte, most significant nibble first.
 */
module Hex {

  newtype byte = x: int | 0 <= x < 256

  predicate IsHexDigit(c: char) {
    '0' <= c <= '9' || 'a' <= c <= 'f'
  }

  predicate IsHexString(s: string) {
    forall i :: 0 <= i < |s| ==> IsHexDigit(s[i])
  }

  function Digit(n: int): (c: char)
    requires 0 <= n < 16
    ensures IsHexDigit(c)
  {
    if n < 10 then ('0' as int + n) as char else ('a' as int + n - 10) as char
  }

  /** Digits are distinct for distinct nibbles. */
  lemma DigitInjective(m: int, n: int)
    requires 0 <= m < 16 && 0 <= n < 16
    requires Digit(m) == Digit(n)
    ensures m == n
  {
  }

  function ByteToHex(b: byte): (r: string)
    ensures |r| == 2 && IsHexString(r)
  {
    [Digit(b as int / 16), Digit(b as int % 16)]
  }

  /** `Buffer.from(bytes).toString('hex')`. */
  function ToHex(bytes: seq<byte>): (r: string)
    ensures |r| == 2 * |bytes|
    ensures IsHexString(r)
  {
    if bytes == [] then [] else ByteToHex(bytes[0]) + ToHex(bytes[1..])
  }

  /** No separator character that the site uses ever appears in hex output. */
  lemma HexHasNoColon(s: string)
    requires IsHexString(s)
    ensures ':' !in s
  {
  }

  /** Hex encoding loses nothing: equal encodings come from equal bytes. */
  lemma {:induction false} ToHexInjective(a: seq<byte>, b: seq<byte>)
    requires ToHex(a) == ToHex(b)
    ensures a == b
  {
    if a != [] {
      assert |b| == |a|;
      var ha := ToHex(a);
      assert ha[..2] == ByteToHex(a[0]) && ha[..2] == ByteToHex(b[0]);
      DigitInjective(a[0] as int / 16, b[0] as int / 16);
      DigitInjective(a[0] as int % 16, b[0] as int % 16);
      assert ha[2..] == ToHex(a[1..]) && ha[2..] == ToHex(b[1..]);
      ToHexInjective(a[1..], b[1..]);
      assert a == [a[0]] + a[1..] && b == [b[0]] + b[1..];
    }
  }
}
