/** Base 64 encoding as `Convert.ToBase64String` performs it (section 4 of RFC 4648):
    every three bytes become four characters of the alphabet `A`-`Z`, `a`-`z`, `0`-`9`,
    `+`, `/`, and a last group of one or two bytes is padded with `=`. */
module Base64 {
  import opened Wrappers

  /** An 8-bit byte. */
  type byte = b: int | 0 <= b < 256

  /** The character for the 6-bit value `i`. */
  function Digit(i: int): (c: char)
    requires 0 <= i < 64
    ensures DigitValue(c) == i
  {
    if i < 26 then ('A' as int + i) as char
    else if i < 52 then ('a' as int + i - 26) as char
    else if i < 62 then ('0' as int + i - 52) as char
    else if i == 62 then '+'
    else '/'
  }

  /** The 6-bit value of a character of the alphabet, or -1 for any other character. */
  function DigitValue(c: char): (i: int)
    ensures -1 <= i < 64
  {
    if 'A' <= c <= 'Z' then c as int - 'A' as int
    else if 'a' <= c <= 'z' then c as int - 'a' as int + 26
    else if '0' <= c <= '9' then c as int - '0' as int + 52
    else if c == '+' then 62
    else if c == '/' then 63
    else -1
  }

  /** A character of the alphabet or the padding character. */
  predicate IsBase64Char(c: char)
  {
    DigitValue(c) >= 0 || c == '='
  }

  /** One group of one to three bytes as four characters, padded with `=`. */
  function EncodeGroup(bs: seq<byte>): (s: string)
    requires 1 <= |bs| <= 3
    ensures |s| == 4
    ensures forall i :: 0 <= i < 4 ==> IsBase64Char(s[i])
  {
    var b0 := bs[0];
    var b1 := if |bs| > 1 then bs[1] else 0;
    var b2 := if |bs| > 2 then bs[2] else 0;
    var c0 := Digit(b0 / 4);
    var c1 := Digit((b0 % 4) * 16 + b1 / 16);
    var c2 := if |bs| > 1 then Digit((b1 % 16) * 4 + b2 / 64) else '=';
    var c3 := if |bs| > 2 then Digit(b2 % 64) else '=';
    [c0, c1, c2, c3]
  }

  /** `Convert.ToBase64String(bs)`. */
  function Encode(bs: seq<byte>): (s: string)
    ensures forall i :: 0 <= i < |s| ==> IsBase64Char(s[i])
    decreases |bs|
  {
    if bs == [] then []
    else if |bs| <= 3 then EncodeGroup(bs)
    else
      var rest := Encode(bs[3..]);
      var s := EncodeGroup(bs[..3]) + rest;
      assert forall i :: 4 <= i < |s| ==> s[i] == rest[i - 4];
      s
  }

  /** Four characters for every started group of three bytes. */
  lemma {:induction false} EncodeLength(bs: seq<byte>)
    ensures |Encode(bs)| == 4 * ((|bs| + 2) / 3)
    decreases |bs|
  {
    if |bs| > 3 {
      EncodeLength(bs[3..]);
      var n := |bs| - 3;
      assert (n + 3 + 2) / 3 == (n + 2) / 3 + 1;
    } else if bs != [] {
      assert (|bs| + 2) / 3 == 1;
    }
  }

  /** When the bytes end in a group of two, the third character of the last group stands
      for the last byte's low four bits, shifted up by two. */
  lemma {:induction false} EncodeEndsWithPair(bs: seq<byte>)
    requires |bs| % 3 == 2
    ensures |Encode(bs)| >= 4
    ensures Encode(bs)[|Encode(bs)| - 2] == Digit((bs[|bs| - 1] % 16) * 4)
    decreases |bs|
  {
    if |bs| > 3 {
      EncodeEndsWithPair(bs[3..]);
      var rest := Encode(bs[3..]);
      assert Encode(bs) == EncodeGroup(bs[..3]) + rest;
      assert bs[3..][|bs[3..]| - 1] == bs[|bs| - 1];
    } else {
      assert bs == [bs[0], bs[1]];
    }
  }

  /** Four characters back into one to three bytes; `None` for a character outside the
      alphabet or a misplaced `=`. */
  function DecodeGroup(s: string): (r: Option<seq<byte>>)
    requires |s| == 4
    ensures r.Some? ==> 1 <= |r.value| <= 3
  {
    var i0 := DigitValue(s[0]);
    var i1 := DigitValue(s[1]);
    var i2 := DigitValue(s[2]);
    var i3 := DigitValue(s[3]);
    if i0 < 0 || i1 < 0 then None
    else if s[2] == '=' && s[3] == '=' then Some([i0 * 4 + i1 / 16])
    else if i2 < 0 then None
    else if s[3] == '=' then Some([i0 * 4 + i1 / 16, (i1 % 16) * 16 + i2 / 4])
    else if i3 < 0 then None
    else Some([i0 * 4 + i1 / 16, (i1 % 16) * 16 + i2 / 4, (i2 % 4) * 64 + i3])
  }

  /** The inverse of `Encode`: groups of four characters back into bytes. */
  function Decode(s: string): Option<seq<byte>>
    decreases |s|
  {
    if s == [] then Some([])
    else if |s| < 4 then None
    else
      match (DecodeGroup(s[..4]), Decode(s[4..]))
      case (Some(g), Some(rest)) => Some(g + rest)
      case _ => None
  }

  /** A value put together from a high part and a low part below 16 splits back into them. */
  lemma Recombine16(hi: int, lo: int)
    requires 0 <= lo < 16
    ensures (hi * 16 + lo) / 16 == hi && (hi * 16 + lo) % 16 == lo
  {
  }

  /** A value put together from a high part and a low part below 4 splits back into them. */
  lemma Recombine4(hi: int, lo: int)
    requires 0 <= lo < 4
    ensures (hi * 4 + lo) / 4 == hi && (hi * 4 + lo) % 4 == lo
  {
  }

  /** The first two characters of a group decode to its first byte, and the leftover
      bits of the second character combine with the second byte's high bits. */
  lemma SplitFirstByte(b0: byte, b1: byte)
    ensures var i1 := (b0 % 4) * 16 + b1 / 16;
      (b0 / 4) * 4 + i1 / 16 == b0 && i1 % 16 == b1 / 16
  {
    Recombine16(b0 % 4, b1 / 16);
  }

  /** The second and third characters of a group decode to its second byte. */
  lemma SplitSecondByte(b1: byte, b2: byte)
    ensures var i2 := (b1 % 16) * 4 + b2 / 64;
      (b1 / 16) * 16 + i2 / 4 == b1 && i2 % 4 == b2 / 64
  {
    Recombine4(b1 % 16, b2 / 64);
  }

  /** A group of one byte decodes back. */
  lemma DecodeEncodeOne(b0: byte)
    ensures DecodeGroup(EncodeGroup([b0])) == Some([b0])
  {
    SplitFirstByte(b0, 0);
    var i0, i1 := b0 / 4, (b0 % 4) * 16;
    assert EncodeGroup([b0]) == [Digit(i0), Digit(i1), '=', '='];
  }

  /** A group of two bytes decodes back. */
  lemma DecodeEncodeTwo(b0: byte, b1: byte)
    ensures DecodeGroup(EncodeGroup([b0, b1])) == Some([b0, b1])
  {
    SplitFirstByte(b0, b1);
    SplitSecondByte(b1, 0);
    var i0, i1, i2 := b0 / 4, (b0 % 4) * 16 + b1 / 16, (b1 % 16) * 4;
    assert EncodeGroup([b0, b1]) == [Digit(i0), Digit(i1), Digit(i2), '='];
  }

  /** A group of three bytes decodes back. */
  lemma DecodeEncodeThree(b0: byte, b1: byte, b2: byte)
    ensures DecodeGroup(EncodeGroup([b0, b1, b2])) == Some([b0, b1, b2])
  {
    var i0, i1 := b0 / 4, (b0 % 4) * 16 + b1 / 16;
    var i2, i3 := (b1 % 16) * 4 + b2 / 64, b2 % 64;
    assert EncodeGroup([b0, b1, b2]) == [Digit(i0), Digit(i1), Digit(i2), Digit(i3)];
    RecombineThree(b0, b1, b2, i0, i1, i2, i3);
    DecodeFourDigits(i0, i1, i2, i3, [b0, b1, b2]);
  }

  /** Four characters of the alphabet decode to the three bytes their 24 bits spell. */
  lemma DecodeFourDigits(i0: int, i1: int, i2: int, i3: int, bs: seq<byte>)
    requires 0 <= i0 < 64 && 0 <= i1 < 64 && 0 <= i2 < 64 && 0 <= i3 < 64
    requires bs == [i0 * 4 + i1 / 16, (i1 % 16) * 16 + i2 / 4, (i2 % 4) * 64 + i3]
    ensures DecodeGroup([Digit(i0), Digit(i1), Digit(i2), Digit(i3)]) == Some(bs)
  {
  }

  /** The 6-bit pieces of three bytes put back together give the bytes. */
  lemma RecombineThree(b0: byte, b1: byte, b2: byte, i0: int, i1: int, i2: int, i3: int)
    requires i0 == b0 / 4 && i1 == (b0 % 4) * 16 + b1 / 16
    requires i2 == (b1 % 16) * 4 + b2 / 64 && i3 == b2 % 64
    ensures [i0 * 4 + i1 / 16, (i1 % 16) * 16 + i2 / 4, (i2 % 4) * 64 + i3] == [b0, b1, b2]
  {
    SplitFirstByte(b0, b1);
    SplitSecondByte(b1, b2);
    assert (i2 % 4) * 64 + i3 == b2;
  }

  /** Each group decodes to the bytes it encodes. */
  lemma DecodeEncodeGroup(bs: seq<byte>)
    requires 1 <= |bs| <= 3
    ensures DecodeGroup(EncodeGroup(bs)) == Some(bs)
  {
    if |bs| == 1 {
      assert bs == [bs[0]];
      DecodeEncodeOne(bs[0]);
    } else if |bs| == 2 {
      assert bs == [bs[0], bs[1]];
      DecodeEncodeTwo(bs[0], bs[1]);
    } else {
      assert bs == [bs[0], bs[1], bs[2]];
      DecodeEncodeThree(bs[0], bs[1], bs[2]);
    }
  }

  /** Round trip: decoding what `Encode` produced gives the bytes back. */
  lemma {:induction false} DecodeEncode(bs: seq<byte>)
    ensures Decode(Encode(bs)) == Some(bs)
    decreases |bs|
  {
    if bs == [] {
    } else if |bs| <= 3 {
      var s := EncodeGroup(bs);
      DecodeEncodeGroup(bs);
      assert s[..4] == s && s[4..] == [];
      assert Decode(s[4..]) == Some([]);
      assert bs + [] == bs;
    } else {
      var s := Encode(bs);
      var g := EncodeGroup(bs[..3]);
      EncodeLength(bs[3..]);
      assert s == g + Encode(bs[3..]);
      assert s[..4] == g && s[4..] == Encode(bs[3..]);
      DecodeEncodeGroup(bs[..3]);
      DecodeEncode(bs[3..]);
      assert bs[..3] + bs[3..] == bs;
    }
  }
}
