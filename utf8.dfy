/** UTF-8 (RFC 3629) between Unicode scalar values and bytes: the
    `toString("utf-8")` step of the handler, for well-formed input. */
module Utf8 {
  import opened Wrappers
  import opened Octets

  predicate IsContinuation(b: Byte) {
    0x80 <= b < 0xC0
  }

  /** The shortest encoding of one scalar value. */
  function EncodeChar(c: char): (bs: seq<Byte>)
    ensures 1 <= |bs| <= 4
  {
    var cp := c as int;
    if cp < 0x80 then [cp]
    else if cp < 0x800 then [0xC0 + cp / 64, 0x80 + cp % 64]
    else if cp < 0x1_0000 then [0xE0 + cp / 4096, 0x80 + cp / 64 % 64, 0x80 + cp % 64]
    else [0xF0 + cp / 262144, 0x80 + cp / 4096 % 64, 0x80 + cp / 64 % 64, 0x80 + cp % 64]
  }

  function Encode(s: string): seq<Byte>
    decreases |s|
  {
    if |s| == 0 then [] else EncodeChar(s[0]) + Encode(s[1..])
  }

  /** The scalar value at the start of `b` and how many bytes it takes, or
      `None` when `b` does not start with a well-formed sequence: a stray
      continuation byte, a truncated sequence, an overlong form, a
      surrogate or a value beyond U+10FFFF. */
  function DecodeChar(b: seq<Byte>): (r: Option<(char, nat)>)
    requires |b| > 0
    ensures r.Some? ==> 1 <= r.value.1 <= |b| && r.value.1 <= 4
  {
    var b0: int := b[0];
    if b0 < 0x80 then Some((b0 as char, 1))
    else if 0xC0 <= b0 < 0xE0 then
      if |b| >= 2 && IsContinuation(b[1]) then
        var cp := (b0 - 0xC0) * 64 + (b[1] as int - 0x80);
        if 0x80 <= cp then Some((cp as char, 2)) else None
      else None
    else if 0xE0 <= b0 < 0xF0 then
      if |b| >= 3 && IsContinuation(b[1]) && IsContinuation(b[2]) then
        var cp := (b0 - 0xE0) * 4096 + (b[1] as int - 0x80) * 64 + (b[2] as int - 0x80);
        if 0x800 <= cp && !(0xD800 <= cp < 0xE000) then Some((cp as char, 3)) else None
      else None
    else if 0xF0 <= b0 < 0xF8 then
      if |b| >= 4 && IsContinuation(b[1]) && IsContinuation(b[2]) && IsContinuation(b[3]) then
        var cp := (b0 - 0xF0) * 262144 + (b[1] as int - 0x80) * 4096 + (b[2] as int - 0x80) * 64 + (b[3] as int - 0x80);
        if 0x1_0000 <= cp < 0x11_0000 then Some((cp as char, 4)) else None
      else None
    else None
  }

  /** The text `b` encodes, or `None` when `b` is not well-formed UTF-8. */
  function Decode(b: seq<Byte>): (r: Option<string>)
    ensures r.Some? ==> |r.value| <= |b| <= 4 * |r.value|
    decreases |b|
  {
    if |b| == 0 then Some([])
    else
      match DecodeChar(b)
      case None => None
      case Some((c, n)) =>
        match Decode(b[n..])
        case None => None
        case Some(rest) => Some([c] + rest)
  }

  lemma DecodeEncodeTwo(c: char, rest: seq<Byte>)
    requires 0x80 <= c as int < 0x800
    ensures DecodeChar(EncodeChar(c) + rest) == Some((c, 2))
  {
    var cp := c as int;
    var b := EncodeChar(c) + rest;
    assert b[0] == 0xC0 + cp / 64 && b[1] == 0x80 + cp % 64;
    assert (b[0] as int - 0xC0) * 64 + (b[1] as int - 0x80) == cp;
  }

  lemma DecodeEncodeThree(c: char, rest: seq<Byte>)
    requires 0x800 <= c as int < 0x1_0000
    ensures DecodeChar(EncodeChar(c) + rest) == Some((c, 3))
  {
    var cp := c as int;
    var b := EncodeChar(c) + rest;
    assert b[0] == 0xE0 + cp / 4096 && b[1] == 0x80 + cp / 64 % 64 && b[2] == 0x80 + cp % 64;
    assert (b[0] as int - 0xE0) * 4096 + (b[1] as int - 0x80) * 64 + (b[2] as int - 0x80) == cp;
  }

  /** A value of at most 21 bits as its four fields of the 4-byte form. */
  lemma Recompose4(cp: int)
    requires 0 <= cp
    ensures cp == cp / 262144 * 262144 + cp / 4096 % 64 * 4096 + cp / 64 % 64 * 64 + cp % 64
  {
    var q1, r0 := cp / 64, cp % 64;
    var q2, r1 := q1 / 64, q1 % 64;
    var q3, r2 := q2 / 64, q2 % 64;
    assert cp == q1 * 64 + r0;
    assert q1 == q2 * 64 + r1;
    assert q2 == q3 * 64 + r2;
    assert cp == q3 * 262144 + r2 * 4096 + r1 * 64 + r0;
    assert cp / 4096 == q2 by {
      assert cp == q2 * 4096 + (r1 * 64 + r0);
    }
    assert cp / 262144 == q3 by {
      assert cp == q3 * 262144 + (r2 * 4096 + r1 * 64 + r0);
    }
  }

  lemma DecodeEncodeFour(c: char, rest: seq<Byte>)
    requires 0x1_0000 <= c as int
    ensures DecodeChar(EncodeChar(c) + rest) == Some((c, 4))
  {
    var cp := c as int;
    var b := EncodeChar(c) + rest;
    var x0, x1, x2, x3 := cp / 262144, cp / 4096 % 64, cp / 64 % 64, cp % 64;
    assert b[0] == 0xF0 + x0 && b[1] == 0x80 + x1 && b[2] == 0x80 + x2 && b[3] == 0x80 + x3;
    Recompose4(cp);
    assert x0 * 262144 + x1 * 4096 + x2 * 64 + x3 == cp;
  }

  lemma DecodeEncodeChar(c: char, rest: seq<Byte>)
    ensures DecodeChar(EncodeChar(c) + rest) == Some((c, |EncodeChar(c)|))
  {
    var cp := c as int;
    if cp < 0x80 {
    } else if cp < 0x800 {
      DecodeEncodeTwo(c, rest);
    } else if cp < 0x1_0000 {
      DecodeEncodeThree(c, rest);
    } else {
      DecodeEncodeFour(c, rest);
    }
  }

  /** Decoding undoes encoding. */
  lemma {:induction false} DecodeEncode(s: string)
    ensures Decode(Encode(s)) == Some(s)
    decreases |s|
  {
    if |s| > 0 {
      DecodeEncode(s[1..]);
      DecodeEncodeStep(s);
    }
  }

  lemma DecodeEncodeStep(s: string)
    requires |s| > 0 && Decode(Encode(s[1..])) == Some(s[1..])
    ensures Decode(Encode(s)) == Some(s)
  {
    var e, t := EncodeChar(s[0]), Encode(s[1..]);
    assert Encode(s) == e + t;
    DecodeEncodeChar(s[0], t);
    assert (e + t)[|e|..] == t;
    assert [s[0]] + s[1..] == s;
  }

  lemma SplitTwo(x0: int, x1: int)
    requires 0 <= x1 < 64
    ensures var cp := x0 * 64 + x1; cp / 64 == x0 && cp % 64 == x1
  {
    DivMod64(x0, x1);
  }

  lemma SplitThree(x0: int, x1: int, x2: int)
    requires 0 <= x0 < 16 && 0 <= x1 < 64 && 0 <= x2 < 64
    ensures var cp := x0 * 4096 + x1 * 64 + x2; cp / 4096 == x0 && cp / 64 % 64 == x1 && cp % 64 == x2
  {
    DivMod64(x0 * 64 + x1, x2);
    DivMod64(x0, x1);
  }

  lemma SplitFour(x0: int, x1: int, x2: int, x3: int)
    requires 0 <= x0 < 8 && 0 <= x1 < 64 && 0 <= x2 < 64 && 0 <= x3 < 64
    ensures var cp := x0 * 262144 + x1 * 4096 + x2 * 64 + x3;
      cp / 262144 == x0 && cp / 4096 % 64 == x1 && cp / 64 % 64 == x2 && cp % 64 == x3
  {
    var cp := x0 * 262144 + x1 * 4096 + x2 * 64 + x3;
    DivMod64(x0 * 4096 + x1 * 64 + x2, x3);
    assert cp / 64 == x0 * 4096 + x1 * 64 + x2;
    DivMod64(x0 * 64 + x1, x2);
    assert cp / 64 / 64 == x0 * 64 + x1;
    DivMod64(x0, x1);
  }

  lemma EncodeDecodeTwoBytes(b: seq<Byte>, c: char)
    requires |b| >= 2 && DecodeChar(b) == Some((c, 2))
    ensures EncodeChar(c) == [b[0], b[1]]
  {
    SplitTwo(b[0] as int - 0xC0, b[1] as int - 0x80);
  }

  lemma EncodeDecodeThreeBytes(b: seq<Byte>, c: char)
    requires |b| >= 3 && DecodeChar(b) == Some((c, 3))
    ensures EncodeChar(c) == [b[0], b[1], b[2]]
  {
    SplitThree(b[0] as int - 0xE0, b[1] as int - 0x80, b[2] as int - 0x80);
  }

  lemma EncodeDecodeFourBytes(b: seq<Byte>, c: char)
    requires |b| >= 4 && DecodeChar(b) == Some((c, 4))
    ensures EncodeChar(c) == [b[0], b[1], b[2], b[3]]
  {
    SplitFour(b[0] as int - 0xF0, b[1] as int - 0x80, b[2] as int - 0x80, b[3] as int - 0x80);
  }

  lemma EncodeDecodeChar(b: seq<Byte>)
    requires |b| > 0 && DecodeChar(b).Some?
    ensures EncodeChar(DecodeChar(b).value.0) == b[..DecodeChar(b).value.1]
  {
    var d := DecodeChar(b).value;
    var c, n := d.0, d.1;
    if n == 1 {
      assert b[..1] == [b[0]];
    } else if n == 2 {
      EncodeDecodeTwoBytes(b, c);
      assert b[..2] == [b[0], b[1]];
    } else if n == 3 {
      EncodeDecodeThreeBytes(b, c);
      assert b[..3] == [b[0], b[1], b[2]];
    } else {
      EncodeDecodeFourBytes(b, c);
      assert b[..4] == [b[0], b[1], b[2], b[3]];
    }
  }

  /** Decoding accepts only well-formed UTF-8: whatever it accepts is exactly
      the encoding of what it returns. */
  lemma {:induction false} EncodeDecode(b: seq<Byte>)
    requires Decode(b).Some?
    ensures Encode(Decode(b).value) == b
    decreases |b|
  {
    if |b| > 0 {
      DecodeStep(b);
      var d := DecodeChar(b).value;
      var r := Decode(b[d.1..]).value;
      EncodeDecode(b[d.1..]);
      EncodeDecodeStep(b, d.0, d.1, r);
    }
  }

  lemma EncodeDecodeStep(b: seq<Byte>, c: char, n: nat, r: string)
    requires |b| > 0 && DecodeChar(b) == Some((c, n)) && Encode(r) == b[n..]
    ensures Encode([c] + r) == b
  {
    EncodeCons(c, r);
    EncodeDecodeChar(b);
    assert b[..n] + b[n..] == b;
  }

  lemma EncodeCons(c: char, s: string)
    ensures Encode([c] + s) == EncodeChar(c) + Encode(s)
  {
    assert ([c] + s)[1..] == s;
  }

  lemma DecodeStep(b: seq<Byte>)
    requires |b| > 0 && Decode(b).Some?
    ensures DecodeChar(b).Some? && Decode(b[DecodeChar(b).value.1..]).Some?
    ensures Decode(b).value == [DecodeChar(b).value.0] + Decode(b[DecodeChar(b).value.1..]).value
  {
  }
}
