/**
 * Lower-case hexadecimal text of a byte sequence, as Node's
 * `Buffer.toString("hex")` and `Hash.digest("hex")` produce it: two digits
 * per byte, high nibble first. The decoder is its partner: it is what makes
 * the encoding injective.
 */
module Hex {
  import opened Wrappers

  type Byte = b: int | 0 <= b < 256

  predicate IsDigit(c: char) {
    '0' <= c <= '9' || 'a' <= c <= 'f'
  }

  /** The digit for a nibble. */
  function DigitFor(n: int): (c: char)
    requires 0 <= n < 16
    ensures IsDigit(c)
  {
    if n < 10 then ('0' as int + n) as char else ('a' as int + (n - 10)) as char
  }

  /** The nibble a digit stands for; `None` for any other character. */
  function ValueOf(c: char): (v: Option<int>)
    ensures v.Some? <==> IsDigit(c)
    ensures v.Some? ==> 0 <= v.value < 16 && DigitFor(v.value) == c
  {
    if '0' <= c <= '9' then Some(c as int - '0' as int)
    else if 'a' <= c <= 'f' then Some(c as int - 'a' as int + 10)
    else None
  }

  function Encode(bytes: seq<Byte>): (s: string)
    ensures |s| == 2 * |bytes|
    ensures forall i :: 0 <= i < |s| ==> IsDigit(s[i])
  {
    if bytes == [] then []
    else [DigitFor(bytes[0] / 16), DigitFor(bytes[0] % 16)] + Encode(bytes[1..])
  }

  /** Reads back two digits per byte; `None` on an odd length or a non-digit. */
  function Decode(s: string): (r: Option<seq<Byte>>)
    ensures r.Some? ==> 2 * |r.value| == |s|
  {
    if s == [] then Some([])
    else if |s| == 1 then None
    else
      match (ValueOf(s[0]), ValueOf(s[1]), Decode(s[2..]))
      case (Some(hi), Some(lo), Some(rest)) => Some([hi * 16 + lo] + rest)
      case _ => None
  }

  lemma {:induction false} DecodeEncode(bytes: seq<Byte>)
    ensures Decode(Encode(bytes)) == Some(bytes)
  {
    if bytes != [] {
      var b := bytes[0];
      var s := Encode(bytes);
      assert s[2..] == Encode(bytes[1..]);
      DecodeEncode(bytes[1..]);
      assert ValueOf(s[0]) == Some(b / 16);
      assert ValueOf(s[1]) == Some(b % 16);
      assert [b] + bytes[1..] == bytes;
    }
  }

  /** Distinct byte sequences have distinct hexadecimal texts. */
  lemma EncodeInjective(a: seq<Byte>, b: seq<Byte>)
    requires Encode(a) == Encode(b)
    ensures a == b
  {
    DecodeEncode(a);
    DecodeEncode(b);
  }
}
