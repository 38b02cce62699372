/** Lowercase Base16, the text `hashlib`'s `hexdigest()` returns
    (section 8 of RFC 4648, with the lowercase alphabet). */
module Base16 {
  import opened Wrappers
  import opened Bytes
  import Utf8

  /** The digit for a nibble: `0`-`9`, then `a`-`f`. */
  function Digit(v: nat): (c: char)
    requires v < 16
    ensures IsLowerHexDigit(c)
  {
    if v < 10 then ('0' as int + v) as char else ('a' as int + v - 10) as char
  }

  predicate IsLowerHexDigit(c: char)
  {
    ('0' <= c <= '9') || ('a' <= c <= 'f')
  }

  function DigitValue(c: char): (v: Option<nat>)
    ensures v.Some? <==> IsLowerHexDigit(c)
    ensures v.Some? ==> v.value < 16 && Digit(v.value) == c
  {
    if '0' <= c <= '9' then Some(c as int - '0' as int)
    else if 'a' <= c <= 'f' then Some(c as int - 'a' as int + 10)
    else None
  }

  /** Two digits per byte, high nibble first. */
  function Encode(d: seq<byte>): (r: string)
    ensures |r| == 2 * |d|
    ensures forall i :: 0 <= i < |r| ==> IsLowerHexDigit(r[i])
  {
    if d == [] then [] else [Digit(d[0] / 16), Digit(d[0] % 16)] + Encode(d[1..])
  }

  function Decode(t: string): Option<seq<byte>>
  {
    if t == [] then Some([])
    else if |t| < 2 then None
    else match (DigitValue(t[0]), DigitValue(t[1]), Decode(t[2..]))
      case (Some(hi), Some(lo), Some(rest)) => Some([hi * 16 + lo] + rest)
      case _ => None
  }

  /** Decoding the hex text gives the digest back, so hex rendering loses nothing. */
  lemma {:induction false} DecodeEncode(d: seq<byte>)
    ensures Decode(Encode(d)) == Some(d)
  {
    if d != [] {
      var t := Encode(d);
      assert t[2..] == Encode(d[1..]);
      DecodeEncode(d[1..]);
      assert DigitValue(t[0]) == Some(d[0] / 16);
      assert DigitValue(t[1]) == Some(d[0] % 16);
      assert (d[0] / 16) * 16 + d[0] % 16 == d[0];
      assert Decode(t) == Some([d[0]] + d[1..]);
      assert [d[0]] + d[1..] == d;
    }
  }

  lemma EncodeInjective(a: seq<byte>, b: seq<byte>)
    requires Encode(a) == Encode(b)
    ensures a == b
  {
    DecodeEncode(a);
    DecodeEncode(b);
  }

  lemma EncodeIsAscii(d: seq<byte>)
    ensures Utf8.IsAscii(Encode(d))
  {
  }
}
