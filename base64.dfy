/** `base64.urlsafe_b64encode` and `base64.urlsafe_b64decode`: the URL- and
    filename-safe alphabet of section 5 of RFC 4648, with `=` padding. Both
    work on bytes, so symbols are given as their ASCII codes. */
module Base64Url {
  import opened Wrappers
  import opened Bytes

  /** ASCII code of the padding character `=`. */
  const Pad: byte := 61

  /** The symbol for a 6-bit value: `A`-`Z`, `a`-`z`, `0`-`9`, `-`, `_`. */
  function Symbol(v: nat): (c: byte)
    requires v < 64
    ensures c != Pad && c < 128
  {
    if v < 26 then 65 + v
    else if v < 52 then 97 + (v - 26)
    else if v < 62 then 48 + (v - 52)
    else if v == 62 then 45
    else 95
  }

  function Value(c: byte): (v: Option<nat>)
    ensures v.Some? ==> v.value < 64 && Symbol(v.value) == c
  {
    if 65 <= c <= 90 then Some(c - 65)
    else if 97 <= c <= 122 then Some(c - 97 + 26)
    else if 48 <= c <= 57 then Some(c - 48 + 52)
    else if c == 45 then Some(62)
    else if c == 95 then Some(63)
    else None
  }

  lemma ValueOfSymbol(v: nat)
    requires v < 64
    ensures Value(Symbol(v)) == Some(v)
  {
  }

  /** The four symbols for one, two or three bytes; a short group is padded
      with `=` to four. */
  function Group(g: seq<byte>): (r: seq<byte>)
    requires 1 <= |g| <= 3
    ensures |r| == 4 && IsAsciiBytes(r)
  {
    if |g| == 1 then
      [Symbol(g[0] / 4), Symbol((g[0] % 4) * 16), Pad, Pad]
    else if |g| == 2 then
      [Symbol(g[0] / 4), Symbol((g[0] % 4) * 16 + g[1] / 16), Symbol((g[1] % 16) * 4), Pad]
    else
      [Symbol(g[0] / 4), Symbol((g[0] % 4) * 16 + g[1] / 16),
       Symbol((g[1] % 16) * 4 + g[2] / 64), Symbol(g[2] % 64)]
  }

  function Encode(s: seq<byte>): (r: seq<byte>)
    ensures |r| == 4 * ((|s| + 2) / 3)
    ensures IsAsciiBytes(r)
  {
    if |s| == 0 then []
    else if |s| <= 2 then Group(s)
    else
      var head, rest := Group(s[..3]), Encode(s[3..]);
      assert (|s| + 2) / 3 == (|s[3..]| + 2) / 3 + 1;
      assert forall i :: 0 <= i < |head + rest| ==> (head + rest)[i] == if i < 4 then head[i] else rest[i - 4];
      head + rest
  }

  /** The bytes of one group of four symbols; `=` stands only in the last one
      or two places. */
  function Quad(q: seq<byte>): Option<seq<byte>>
    requires |q| == 4
  {
    match (Value(q[0]), Value(q[1]))
    case (Some(a), Some(b)) =>
      if q[2] == Pad && q[3] == Pad then Some([a * 4 + b / 16])
      else if q[3] == Pad then
        (match Value(q[2])
         case Some(c) => Some([a * 4 + b / 16, (b % 16) * 16 + c / 4])
         case None => None)
      else
        (match (Value(q[2]), Value(q[3]))
         case (Some(c), Some(d)) => Some([a * 4 + b / 16, (b % 16) * 16 + c / 4, (c % 4) * 64 + d])
         case _ => None)
    case _ => None
  }

  /** Decodes groups of four symbols; only the last group may be padded. */
  function Decode(t: seq<byte>): Option<seq<byte>>
  {
    if |t| == 0 then Some([])
    else if |t| < 4 then None
    else
      match Quad(t[..4])
      case None => None
      case Some(g) =>
        if |g| < 3 && |t| > 4 then None
        else
          match Decode(t[4..])
          case None => None
          case Some(rest) => Some(g + rest)
  }

  /** The bit arithmetic of one group: the three bytes come back from their
      four 6-bit values. */
  lemma GroupArithmetic(x: byte, y: byte, z: byte)
    ensures (x / 4) * 4 + ((x % 4) * 16 + y / 16) / 16 == x
    ensures (((x % 4) * 16 + y / 16) % 16) * 16 + ((y % 16) * 4 + z / 64) / 4 == y
    ensures (((y % 16) * 4 + z / 64) % 4) * 64 + z % 64 == z
  {
  }

  lemma QuadGroup(g: seq<byte>)
    requires 1 <= |g| <= 3
    ensures Quad(Group(g)) == Some(g)
  {
    if |g| == 1 {
      QuadGroupOne(g[0]);
      assert [g[0]] == g;
    } else if |g| == 2 {
      QuadGroupTwo(g[0], g[1]);
      assert [g[0], g[1]] == g;
    } else {
      QuadGroupThree(g[0], g[1], g[2]);
      assert [g[0], g[1], g[2]] == g;
    }
  }

  lemma QuadGroupOne(x: byte)
    ensures Quad(Group([x])) == Some([x])
  {
    var a, b := x / 4, (x % 4) * 16;
    assert Group([x]) == [Symbol(a), Symbol(b), Pad, Pad];
    QuadOfSymbols(Group([x]), a, b, 0, 0);
    GroupArithmetic(x, 0, 0);
  }

  lemma QuadGroupTwo(x: byte, y: byte)
    ensures Quad(Group([x, y])) == Some([x, y])
  {
    var a, b, c := x / 4, (x % 4) * 16 + y / 16, (y % 16) * 4;
    assert Group([x, y]) == [Symbol(a), Symbol(b), Symbol(c), Pad];
    QuadOfSymbols(Group([x, y]), a, b, c, 0);
    GroupArithmetic(x, y, 0);
  }

  lemma QuadGroupThree(x: byte, y: byte, z: byte)
    ensures Quad(Group([x, y, z])) == Some([x, y, z])
  {
    var a, b, c, d := x / 4, (x % 4) * 16 + y / 16, (y % 16) * 4 + z / 64, z % 64;
    assert Group([x, y, z]) == [Symbol(a), Symbol(b), Symbol(c), Symbol(d)];
    QuadOfSymbols(Group([x, y, z]), a, b, c, d);
    GroupArithmetic(x, y, z);
  }

  /** A group of four symbols, the last one or two possibly padding,
      decodes by the bit layout of its 6-bit values. */
  lemma QuadOfSymbols(q: seq<byte>, a: nat, b: nat, c: nat, d: nat)
    requires |q| == 4 && a < 64 && b < 64 && c < 64 && d < 64
    requires q[0] == Symbol(a) && q[1] == Symbol(b)
    requires q[2] == Pad ==> q[3] == Pad
    requires q[2] != Pad ==> q[2] == Symbol(c)
    requires q[3] != Pad ==> q[3] == Symbol(d)
    ensures Quad(q) == Some(
      if q[2] == Pad then [a * 4 + b / 16]
      else if q[3] == Pad then [a * 4 + b / 16, (b % 16) * 16 + c / 4]
      else [a * 4 + b / 16, (b % 16) * 16 + c / 4, (c % 4) * 64 + d])
  {
    ValueOfSymbol(a);
    ValueOfSymbol(b);
    if q[2] != Pad {
      ValueOfSymbol(c);
    }
    if q[3] != Pad {
      ValueOfSymbol(d);
    }
  }

  lemma {:induction false} DecodeEncode(s: seq<byte>)
    ensures Decode(Encode(s)) == Some(s)
  {
    var t := Encode(s);
    if 1 <= |s| <= 2 {
      QuadGroup(s);
      assert t[..4] == t;
      assert t[4..] == [];
      assert s + [] == s;
    } else if |s| >= 3 {
      QuadGroup(s[..3]);
      assert t[..4] == Group(s[..3]);
      assert t[4..] == Encode(s[3..]);
      DecodeEncode(s[3..]);
      assert s[..3] + s[3..] == s;
    }
  }
}
