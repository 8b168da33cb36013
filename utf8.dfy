/** UTF-8 as Rust strings use it: `String::into_bytes` gives the encoding of
    the scalar values, and `String::from_utf8` accepts exactly the well-formed
    encodings (no overlong forms, no surrogates, nothing above U+10FFFF). */
module Utf8 {
  import opened Wrappers

  type byte = b: int | 0 <= b < 256

  predicate IsContinuation(b: byte) {
    0x80 <= b < 0xC0
  }

  /** The one to four bytes that encode c. */
  function EncodeChar(c: char): (bs: seq<byte>)
    ensures 1 <= |bs| <= 4
  {
    var cp := c as int;
    if cp < 0x80 then [cp]
    else if cp < 0x800 then [0xC0 + cp / 64, 0x80 + cp % 64]
    else if cp < 0x1_0000 then [0xE0 + cp / 4096, 0x80 + cp / 64 % 64, 0x80 + cp % 64]
    else [0xF0 + cp / 0x4_0000, 0x80 + cp / 4096 % 64, 0x80 + cp / 64 % 64, 0x80 + cp % 64]
  }

  /** Decodes the scalar value at the front of bs and says how many bytes it
      took, or None when bs does not start with a well-formed encoding. */
  function DecodeChar(bs: seq<byte>): (r: Option<(char, nat)>)
    ensures r.Some? ==> 1 <= r.value.1 <= |bs| && r.value.1 <= 4
  {
    if |bs| == 0 then None
    else if bs[0] < 0x80 then Some((bs[0] as char, 1))
    else if bs[0] < 0xC2 then None
    else if bs[0] < 0xE0 then
      if |bs| < 2 || !IsContinuation(bs[1]) then None
      else Some((((bs[0] as int - 0xC0) * 64 + (bs[1] as int - 0x80)) as char, 2))
    else if bs[0] < 0xF0 then
      if |bs| < 3 || !IsContinuation(bs[1]) || !IsContinuation(bs[2]) then None
      else
        var cp := (bs[0] as int - 0xE0) * 4096 + (bs[1] as int - 0x80) * 64 + (bs[2] as int - 0x80);
        if cp < 0x800 || (0xD800 <= cp < 0xE000) then None else Some((cp as char, 3))
    else if bs[0] < 0xF5 then
      if |bs| < 4 || !IsContinuation(bs[1]) || !IsContinuation(bs[2]) || !IsContinuation(bs[3]) then None
      else
        var cp := (bs[0] as int - 0xF0) * 0x4_0000 + (bs[1] as int - 0x80) * 4096 + (bs[2] as int - 0x80) * 64 + (bs[3] as int - 0x80);
        if cp < 0x1_0000 || cp >= 0x11_0000 then None else Some((cp as char, 4))
    else None
  }

  /** The UTF-8 bytes of a string. */
  function Encode(s: string): (bs: seq<byte>)
    ensures |s| <= |bs| <= 4 * |s|
  {
    if s == [] then [] else EncodeChar(s[0]) + Encode(s[1..])
  }

  /** The string whose UTF-8 encoding is bs, or None when bs is not well formed. */
  function Decode(bs: seq<byte>): (r: Option<string>)
    decreases |bs|
  {
    if bs == [] then Some([])
    else
      match DecodeChar(bs)
      case None => None
      case Some((c, n)) =>
        match Decode(bs[n..])
        case None => None
        case Some(rest) => Some([c] + rest)
  }

  lemma DivMod64(q: int, r: int)
    requires 0 <= r < 64
    ensures (q * 64 + r) / 64 == q && (q * 64 + r) % 64 == r
  {
  }

  lemma DivMod4096(q: int, r: int)
    requires 0 <= r < 4096
    ensures (q * 4096 + r) / 4096 == q
  {
  }

  lemma DivMod262144(q: int, r: int)
    requires 0 <= r < 0x4_0000
    ensures (q * 0x4_0000 + r) / 0x4_0000 == q
  {
  }

  /** The three six-bit groups EncodeChar takes out of a code point below
      U+10000 put it back together. */
  lemma ThreeDigits(cp: nat)
    ensures cp == (cp / 4096) * 4096 + (cp / 64 % 64) * 64 + cp % 64
  {
    var h := cp / 64;
    assert cp == h * 64 + cp % 64;
    assert h == (h / 64) * 64 + h % 64;
    DivMod4096(h / 64, (h % 64) * 64 + cp % 64);
  }

  /** The same for the four groups of a code point from U+10000 on. */
  lemma FourDigits(cp: nat)
    ensures cp == (cp / 0x4_0000) * 0x4_0000 + (cp / 4096 % 64) * 4096 + (cp / 64 % 64) * 64 + cp % 64
  {
    var t := cp / 4096;
    ThreeDigits(cp);
    assert t == (t / 64) * 64 + t % 64;
    DivMod262144(t / 64, (t % 64) * 4096 + (cp / 64 % 64) * 64 + cp % 64);
  }

  /** A two-byte sequence with a valid lead and continuation byte holds a
      code point from U+0080 to U+07FF whose encoding is those two bytes. */
  lemma TwoByteValue(b0: int, b1: int)
    requires 0xC2 <= b0 < 0xE0 && 0x80 <= b1 < 0xC0
    ensures var cp := (b0 - 0xC0) * 64 + (b1 - 0x80);
      0x80 <= cp < 0x800 && 0xC0 + cp / 64 == b0 && 0x80 + cp % 64 == b1
  {
    DivMod64(b0 - 0xC0, b1 - 0x80);
  }

  /** The same for three bytes, given that the code point is not overlong. */
  lemma ThreeByteValue(b0: int, b1: int, b2: int)
    requires 0xE0 <= b0 < 0xF0 && 0x80 <= b1 < 0xC0 && 0x80 <= b2 < 0xC0
    ensures var cp := (b0 - 0xE0) * 4096 + (b1 - 0x80) * 64 + (b2 - 0x80);
      cp < 0x1_0000 && 0xE0 + cp / 4096 == b0 && 0x80 + cp / 64 % 64 == b1 && 0x80 + cp % 64 == b2
  {
    var mid := (b0 - 0xE0) * 64 + (b1 - 0x80);
    var cp := mid * 64 + (b2 - 0x80);
    DivMod64(mid, b2 - 0x80);
    DivMod64(b0 - 0xE0, b1 - 0x80);
    assert cp / 64 == mid;
    assert cp / 4096 == b0 - 0xE0 by {
      DivMod4096(b0 - 0xE0, (b1 - 0x80) * 64 + (b2 - 0x80));
    }
  }

  /** The same for four bytes. */
  lemma FourByteValue(b0: int, b1: int, b2: int, b3: int)
    requires 0xF0 <= b0 < 0xF5 && 0x80 <= b1 < 0xC0 && 0x80 <= b2 < 0xC0 && 0x80 <= b3 < 0xC0
    ensures var cp := (b0 - 0xF0) * 0x4_0000 + (b1 - 0x80) * 4096 + (b2 - 0x80) * 64 + (b3 - 0x80);
      0xF0 + cp / 0x4_0000 == b0 && 0x80 + cp / 4096 % 64 == b1 &&
      0x80 + cp / 64 % 64 == b2 && 0x80 + cp % 64 == b3
  {
    var top := (b0 - 0xF0) * 64 + (b1 - 0x80);
    var mid := top * 64 + (b2 - 0x80);
    var cp := mid * 64 + (b3 - 0x80);
    DivMod64(mid, b3 - 0x80);
    DivMod64(top, b2 - 0x80);
    DivMod64(b0 - 0xF0, b1 - 0x80);
    assert cp / 64 == mid;
    assert cp / 4096 == top by {
      DivMod4096(top, (b2 - 0x80) * 64 + (b3 - 0x80));
    }
    assert cp / 0x4_0000 == b0 - 0xF0 by {
      DivMod262144(b0 - 0xF0, (b1 - 0x80) * 4096 + (b2 - 0x80) * 64 + (b3 - 0x80));
    }
  }

  lemma DecodeEncodedTwo(c: char, rest: seq<byte>)
    requires 0x80 <= c as int < 0x800
    ensures DecodeChar(EncodeChar(c) + rest) == Some((c, 2))
  {
    var cp := c as int;
    var bs := EncodeChar(c) + rest;
    assert bs[0] == 0xC0 + cp / 64 && bs[1] == 0x80 + cp % 64;
    assert cp == (cp / 64) * 64 + cp % 64;
  }

  lemma DecodeEncodedThree(c: char, rest: seq<byte>)
    requires 0x800 <= c as int < 0x1_0000
    ensures DecodeChar(EncodeChar(c) + rest) == Some((c, 3))
  {
    var cp := c as int;
    var bs := EncodeChar(c) + rest;
    assert bs[0] == 0xE0 + cp / 4096 && bs[1] == 0x80 + cp / 64 % 64 && bs[2] == 0x80 + cp % 64;
    ThreeDigits(cp);
  }

  lemma DecodeEncodedFour(c: char, rest: seq<byte>)
    requires 0x1_0000 <= c as int
    ensures DecodeChar(EncodeChar(c) + rest) == Some((c, 4))
  {
    var cp := c as int;
    var bs := EncodeChar(c) + rest;
    assert bs[0] == 0xF0 + cp / 0x4_0000 && bs[1] == 0x80 + cp / 4096 % 64;
    assert bs[2] == 0x80 + cp / 64 % 64 && bs[3] == 0x80 + cp % 64;
    FourDigits(cp);
  }

  /** Decoding the encoding of c, whatever follows it, gives back c and the
      width of its encoding. */
  lemma DecodeEncodedChar(c: char, rest: seq<byte>)
    ensures DecodeChar(EncodeChar(c) + rest) == Some((c, |EncodeChar(c)|))
  {
    var cp := c as int;
    if cp < 0x80 {
      assert (EncodeChar(c) + rest)[0] == cp;
    } else if cp < 0x800 {
      DecodeEncodedTwo(c, rest);
    } else if cp < 0x1_0000 {
      DecodeEncodedThree(c, rest);
    } else {
      DecodeEncodedFour(c, rest);
    }
  }

  lemma EncodeTwo(bs: seq<byte>)
    requires |bs| >= 2 && 0xC2 <= bs[0] < 0xE0 && IsContinuation(bs[1])
    ensures var cp := (bs[0] as int - 0xC0) * 64 + (bs[1] as int - 0x80);
      0x80 <= cp < 0x800 && EncodeChar(cp as char) == bs[..2]
  {
    TwoByteValue(bs[0], bs[1]);
    assert bs[..2] == [bs[0], bs[1]];
  }

  lemma EncodeThree(bs: seq<byte>)
    requires |bs| >= 3 && 0xE0 <= bs[0] < 0xF0 && IsContinuation(bs[1]) && IsContinuation(bs[2])
    requires var cp := (bs[0] as int - 0xE0) * 4096 + (bs[1] as int - 0x80) * 64 + (bs[2] as int - 0x80);
      0x800 <= cp && !(0xD800 <= cp < 0xE000)
    ensures var cp := (bs[0] as int - 0xE0) * 4096 + (bs[1] as int - 0x80) * 64 + (bs[2] as int - 0x80);
      EncodeChar(cp as char) == bs[..3]
  {
    ThreeByteValue(bs[0], bs[1], bs[2]);
    assert bs[..3] == [bs[0], bs[1], bs[2]];
  }

  lemma EncodeFour(bs: seq<byte>)
    requires |bs| >= 4 && 0xF0 <= bs[0] < 0xF5
    requires IsContinuation(bs[1]) && IsContinuation(bs[2]) && IsContinuation(bs[3])
    requires var cp := (bs[0] as int - 0xF0) * 0x4_0000 + (bs[1] as int - 0x80) * 4096 + (bs[2] as int - 0x80) * 64 + (bs[3] as int - 0x80);
      0x1_0000 <= cp < 0x11_0000
    ensures var cp := (bs[0] as int - 0xF0) * 0x4_0000 + (bs[1] as int - 0x80) * 4096 + (bs[2] as int - 0x80) * 64 + (bs[3] as int - 0x80);
      EncodeChar(cp as char) == bs[..4]
  {
    FourByteValue(bs[0], bs[1], bs[2], bs[3]);
    assert bs[..4] == [bs[0], bs[1], bs[2], bs[3]];
  }

  /** Whatever DecodeChar accepts is exactly the encoding of the char it returns. */
  lemma EncodeDecodedChar(bs: seq<byte>)
    requires DecodeChar(bs).Some?
    ensures EncodeChar(DecodeChar(bs).value.0) == bs[..DecodeChar(bs).value.1]
  {
    if bs[0] < 0x80 {
      assert bs[..1] == [bs[0]];
    } else if bs[0] < 0xE0 {
      EncodeTwo(bs);
    } else if bs[0] < 0xF0 {
      EncodeThree(bs);
    } else {
      EncodeFour(bs);
    }
  }

  /** Round trip: decoding the encoding of any string gives the string back. */
  lemma {:induction false} DecodeEncode(s: string)
    ensures Decode(Encode(s)) == Some(s)
  {
    if s != [] {
      var e, bs := EncodeChar(s[0]), Encode(s);
      assert bs == e + Encode(s[1..]);
      DecodeEncodedChar(s[0], Encode(s[1..]));
      assert bs[|e|..] == Encode(s[1..]);
      DecodeEncode(s[1..]);
      assert [s[0]] + s[1..] == s;
    }
  }

  lemma EncodeCons(c: char, s: string)
    ensures Encode([c] + s) == EncodeChar(c) + Encode(s)
  {
    assert ([c] + s)[1..] == s;
  }

  /** One step of a successful Decode: a char at the front, then the rest. */
  lemma DecodeStep(bs: seq<byte>)
    requires bs != [] && Decode(bs).Some?
    ensures DecodeChar(bs).Some?
    ensures Decode(bs[DecodeChar(bs).value.1..]).Some?
    ensures Decode(bs).value == [DecodeChar(bs).value.0] + Decode(bs[DecodeChar(bs).value.1..]).value
  {
  }

  /** A successful Decode, split at its first char: the char's encoding,
      then the bytes that decode to the rest of the string. */
  lemma SplitDecoded(bs: seq<byte>) returns (c: char, n: nat, tail: string)
    requires bs != [] && Decode(bs).Some?
    ensures 1 <= n <= |bs| && Decode(bs).value == [c] + tail
    ensures EncodeChar(c) == bs[..n] && Decode(bs[n..]) == Some(tail)
  {
    DecodeStep(bs);
    c, n := DecodeChar(bs).value.0, DecodeChar(bs).value.1;
    tail := Decode(bs[n..]).value;
    EncodeDecodedChar(bs);
  }

  lemma ConsEncoding(bs: seq<byte>, c: char, n: nat, tail: string)
    requires n <= |bs| && EncodeChar(c) == bs[..n] && Encode(tail) == bs[n..]
    ensures Encode([c] + tail) == bs
  {
    EncodeCons(c, tail);
    assert bs == bs[..n] + bs[n..];
  }

  /** Decoding is exact: whatever it accepts is the encoding of its result,
      so no two byte sequences decode to the same string. */
  lemma {:induction false} EncodeDecode(bs: seq<byte>)
    requires Decode(bs).Some?
    ensures Encode(Decode(bs).value) == bs
    decreases |bs|
  {
    if bs != [] {
      var c, n, tail := SplitDecoded(bs);
      EncodeDecode(bs[n..]);
      ConsEncoding(bs, c, n, tail);
    }
  }
}
