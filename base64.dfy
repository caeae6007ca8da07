/** Base 64 encoding with the alphabet of section 4 of RFC 4648: `A`-`Z`,
    `a`-`z`, `0`-`9`, `+`, `/`, with `=` padding. Decoding accepts exactly the
    canonical texts (section 3.5 of RFC 4648): length a multiple of four,
    padding only at the end, and zero pad bits. */
module Base64 {
  import opened Wrappers
  import opened Octets

  predicate IsAlphabetChar(c: char) {
    'A' <= c <= 'Z' || 'a' <= c <= 'z' || '0' <= c <= '9' || c == '+' || c == '/'
  }

  /** The 6-bit value a character of the alphabet stands for. */
  function ValueOf(c: char): (v: int)
    requires IsAlphabetChar(c)
    ensures 0 <= v < 64
  {
    if 'A' <= c <= 'Z' then c as int - 'A' as int
    else if 'a' <= c <= 'z' then c as int - 'a' as int + 26
    else if '0' <= c <= '9' then c as int - '0' as int + 52
    else if c == '+' then 62
    else 63
  }

  /** The character of the alphabet for a 6-bit value. */
  function CharOf(v: int): (c: char)
    requires 0 <= v < 64
    ensures IsAlphabetChar(c) && ValueOf(c) == v
  {
    if v < 26 then ('A' as int + v) as char
    else if v < 52 then ('a' as int + v - 26) as char
    else if v < 62 then ('0' as int + v - 52) as char
    else if v == 62 then '+'
    else '/'
  }

  lemma CharOfValueOf(c: char)
    requires IsAlphabetChar(c)
    ensures CharOf(ValueOf(c)) == c
  {
  }

  /** Three bytes as four characters. */
  function EncodeQuantum(b0: Byte, b1: Byte, b2: Byte): string {
    [CharOf(b0 / 4), CharOf(b0 % 4 * 16 + b1 / 16), CharOf(b1 % 16 * 4 + b2 / 64), CharOf(b2 % 64)]
  }

  /** The padded encoding of `b`. */
  function Encode(b: seq<Byte>): (s: string)
    ensures |s| == 4 * ((|b| + 2) / 3)
    decreases |b|
  {
    if |b| == 0 then ""
    else if |b| == 1 then [CharOf(b[0] / 4), CharOf(b[0] % 4 * 16), '=', '=']
    else if |b| == 2 then [CharOf(b[0] / 4), CharOf(b[0] % 4 * 16 + b[1] / 16), CharOf(b[1] % 16 * 4), '=']
    else EncodeQuantum(b[0], b[1], b[2]) + Encode(b[3..])
  }

  /** An encoding holds only alphabet characters and padding; in particular
      no space. */
  lemma {:induction false} EncodeAlphabet(b: seq<Byte>)
    ensures forall i :: 0 <= i < |Encode(b)| ==> IsAlphabetChar(Encode(b)[i]) || Encode(b)[i] == '='
    decreases |b|
  {
    if |b| >= 3 {
      EncodeAlphabet(b[3..]);
      var q, t := EncodeQuantum(b[0], b[1], b[2]), Encode(b[3..]);
      assert Encode(b) == q + t;
      forall i | 0 <= i < |Encode(b)| ensures IsAlphabetChar(Encode(b)[i]) || Encode(b)[i] == '=' {
        if i >= 4 {
          assert Encode(b)[i] == t[i - 4];
        }
      }
    }
  }

  predicate AllAlphabet(q: string) {
    forall i :: 0 <= i < |q| ==> IsAlphabetChar(q[i])
  }

  /** Four characters of the alphabet as three bytes. */
  function DecodeQuantum(q: string): (r: Option<seq<Byte>>)
    requires |q| == 4
    ensures r.Some? ==> |r.value| == 3
  {
    if AllAlphabet(q) then
      var v0, v1, v2, v3 := ValueOf(q[0]), ValueOf(q[1]), ValueOf(q[2]), ValueOf(q[3]);
      Some([v0 * 4 + v1 / 16, v1 % 16 * 16 + v2 / 4, v2 % 4 * 64 + v3])
    else None
  }

  /** The last quantum: full, or one or two `=` standing for two or one
      missing bytes, whose unused low bits must be zero. */
  function DecodeFinal(q: string): (r: Option<seq<Byte>>)
    requires |q| == 4
    ensures r.Some? ==> 1 <= |r.value| <= 3
  {
    if AllAlphabet(q) then DecodeQuantum(q)
    else if AllAlphabet(q[..2]) && q[2] == '=' && q[3] == '=' then
      var v0, v1 := ValueOf(q[0]), ValueOf(q[1]);
      if v1 % 16 == 0 then Some([v0 * 4 + v1 / 16]) else None
    else if AllAlphabet(q[..3]) && q[3] == '=' then
      var v0, v1, v2 := ValueOf(q[0]), ValueOf(q[1]), ValueOf(q[2]);
      if v2 % 4 == 0 then Some([v0 * 4 + v1 / 16, v1 % 16 * 16 + v2 / 4]) else None
    else None
  }

  /** The bytes a canonical text stands for, `None` for any other text. */
  function Decode(s: string): (r: Option<seq<Byte>>)
    ensures r.Some? ==> |s| == 4 * ((|r.value| + 2) / 3)
    decreases |s|
  {
    if |s| == 0 then Some([])
    else if |s| < 4 then None
    else if |s| == 4 then DecodeFinal(s)
    else
      match DecodeQuantum(s[..4])
      case None => None
      case Some(q) =>
        match Decode(s[4..])
        case None => None
        case Some(rest) => Some(q + rest)
  }

  /** The four 6-bit values of three bytes give those bytes back. */
  lemma BytesToSextetsToBytes(b0: Byte, b1: Byte, b2: Byte)
    ensures var v1, v2 := b0 % 4 * 16 + b1 / 16, b1 % 16 * 4 + b2 / 64;
      b0 / 4 * 4 + v1 / 16 == b0 && v1 % 16 * 16 + v2 / 4 == b1 && v2 % 4 * 64 + b2 % 64 == b2
  {
    DivMod16(b0 % 4, b1 / 16);
    DivMod4(b1 % 16, b2 / 64);
  }

  /** The three bytes of four 6-bit values give those values back. */
  lemma SextetsToBytesToSextets(v0: int, v1: int, v2: int, v3: int)
    requires 0 <= v0 < 64 && 0 <= v1 < 64 && 0 <= v2 < 64 && 0 <= v3 < 64
    ensures var b0, b1, b2 := v0 * 4 + v1 / 16, v1 % 16 * 16 + v2 / 4, v2 % 4 * 64 + v3;
      b0 / 4 == v0 && b0 % 4 * 16 + b1 / 16 == v1 && b1 % 16 * 4 + b2 / 64 == v2 && b2 % 64 == v3
  {
    DivMod4(v0, v1 / 16);
    DivMod16(v1 % 16, v2 / 4);
    DivMod64(v2 % 4, v3);
  }

  lemma DecodeQuantumOfValues(v0: int, v1: int, v2: int, v3: int)
    requires 0 <= v0 < 64 && 0 <= v1 < 64 && 0 <= v2 < 64 && 0 <= v3 < 64
    ensures AllAlphabet([CharOf(v0), CharOf(v1), CharOf(v2), CharOf(v3)])
    ensures DecodeQuantum([CharOf(v0), CharOf(v1), CharOf(v2), CharOf(v3)]) ==
      Some([v0 * 4 + v1 / 16, v1 % 16 * 16 + v2 / 4, v2 % 4 * 64 + v3])
  {
    var q := [CharOf(v0), CharOf(v1), CharOf(v2), CharOf(v3)];
    assert AllAlphabet(q);
    assert ValueOf(q[0]) == v0 && ValueOf(q[1]) == v1 && ValueOf(q[2]) == v2 && ValueOf(q[3]) == v3;
  }

  lemma DecodeEncodeQuantum(b0: Byte, b1: Byte, b2: Byte)
    ensures AllAlphabet(EncodeQuantum(b0, b1, b2))
    ensures DecodeQuantum(EncodeQuantum(b0, b1, b2)) == Some([b0, b1, b2])
  {
    var v0, v1, v2, v3 := b0 / 4, b0 % 4 * 16 + b1 / 16, b1 % 16 * 4 + b2 / 64, b2 % 64;
    assert EncodeQuantum(b0, b1, b2) == [CharOf(v0), CharOf(v1), CharOf(v2), CharOf(v3)];
    DecodeQuantumOfValues(v0, v1, v2, v3);
    BytesToSextetsToBytes(b0, b1, b2);
  }

  lemma DecodeEncodeOne(b0: Byte)
    ensures DecodeFinal(Encode([b0])) == Some([b0])
  {
    var s := Encode([b0]);
    assert !AllAlphabet(s) by { assert !IsAlphabetChar(s[3]); }
    assert AllAlphabet(s[..2]);
    DivMod16(b0 % 4, 0);
    assert ValueOf(s[0]) == b0 / 4 && ValueOf(s[1]) == b0 % 4 * 16;
    assert ValueOf(s[1]) % 16 == 0;
  }

  lemma DecodeEncodeTwo(b0: Byte, b1: Byte)
    ensures DecodeFinal(Encode([b0, b1])) == Some([b0, b1])
  {
    var s := Encode([b0, b1]);
    assert !AllAlphabet(s) by { assert !IsAlphabetChar(s[3]); }
    assert AllAlphabet(s[..3]);
    assert s[2] != '=';
    BytesToSextetsToBytes(b0, b1, 0);
    DivMod4(b1 % 16, 0);
    assert ValueOf(s[0]) == b0 / 4 && ValueOf(s[1]) == b0 % 4 * 16 + b1 / 16 && ValueOf(s[2]) == b1 % 16 * 4;
    assert ValueOf(s[2]) % 4 == 0;
  }

  /** Decoding a text longer than one quantum: its first quantum, then the rest. */
  lemma DecodeLong(q: string, t: string)
    requires |q| == 4 && |t| > 0
    ensures Decode(q + t) ==
      if DecodeQuantum(q).Some? && Decode(t).Some? then Some(DecodeQuantum(q).value + Decode(t).value) else None
  {
    var s := q + t;
    assert s[..4] == q && s[4..] == t;
  }

  lemma FirstThree(b: seq<Byte>)
    requires |b| >= 3
    ensures [b[0], b[1], b[2]] + b[3..] == b
  {
  }

  lemma DecodeEncodeStep(b: seq<Byte>)
    requires |b| > 3 && Decode(Encode(b[3..])) == Some(b[3..])
    ensures Decode(Encode(b)) == Some(b)
  {
    var q := EncodeQuantum(b[0], b[1], b[2]);
    var t := Encode(b[3..]);
    assert Encode(b) == q + t;
    DecodeEncodeQuantum(b[0], b[1], b[2]);
    DecodeLong(q, t);
    FirstThree(b);
  }

  lemma DecodeEncodeShort(b: seq<Byte>)
    requires 1 <= |b| <= 3
    ensures Decode(Encode(b)) == Some(b)
  {
    if |b| == 1 {
      DecodeEncodeLen1(b);
    } else if |b| == 2 {
      DecodeEncodeLen2(b);
    } else {
      DecodeEncodeLen3(b);
    }
  }

  lemma DecodeEncodeLen1(b: seq<Byte>)
    requires |b| == 1
    ensures Decode(Encode(b)) == Some(b)
  {
    DecodeEncodeOne(b[0]);
    assert [b[0]] == b;
  }

  lemma DecodeEncodeLen2(b: seq<Byte>)
    requires |b| == 2
    ensures Decode(Encode(b)) == Some(b)
  {
    DecodeEncodeTwo(b[0], b[1]);
    assert [b[0], b[1]] == b;
  }

  lemma DecodeEncodeLen3(b: seq<Byte>)
    requires |b| == 3
    ensures Decode(Encode(b)) == Some(b)
  {
    var q := EncodeQuantum(b[0], b[1], b[2]);
    DecodeEncodeQuantum(b[0], b[1], b[2]);
    assert Encode(b[3..]) == [];
    assert Encode(b) == q;
    assert DecodeFinal(q) == DecodeQuantum(q);
    assert b == [b[0], b[1], b[2]];
  }

  /** Decoding undoes encoding. */
  lemma {:induction false} DecodeEncode(b: seq<Byte>)
    ensures Decode(Encode(b)) == Some(b)
    decreases |b|
  {
    if |b| == 0 {
    } else if |b| <= 3 {
      DecodeEncodeShort(b);
    } else {
      DecodeEncode(b[3..]);
      DecodeEncodeStep(b);
    }
  }

  lemma EncodeQuantumOfSextets(b0: Byte, b1: Byte, b2: Byte, v0: int, v1: int, v2: int, v3: int)
    requires b0 / 4 == v0 && b0 % 4 * 16 + b1 / 16 == v1 && b1 % 16 * 4 + b2 / 64 == v2 && b2 % 64 == v3
    ensures EncodeQuantum(b0, b1, b2) == [CharOf(v0), CharOf(v1), CharOf(v2), CharOf(v3)]
  {
  }

  lemma EncodeDecodeQuantum(q: string)
    requires |q| == 4 && DecodeQuantum(q).Some?
    ensures var d := DecodeQuantum(q).value; EncodeQuantum(d[0], d[1], d[2]) == q
  {
    var v0, v1, v2, v3 := ValueOf(q[0]), ValueOf(q[1]), ValueOf(q[2]), ValueOf(q[3]);
    CharOfValueOf(q[0]);
    CharOfValueOf(q[1]);
    CharOfValueOf(q[2]);
    CharOfValueOf(q[3]);
    SextetsToBytesToSextets(v0, v1, v2, v3);
    var d := DecodeQuantum(q).value;
    var b0, b1, b2 := v0 * 4 + v1 / 16, v1 % 16 * 16 + v2 / 4, v2 % 4 * 64 + v3;
    assert d == [b0, b1, b2];
    assert b0 / 4 == v0 && b0 % 4 * 16 + b1 / 16 == v1 && b1 % 16 * 4 + b2 / 64 == v2 && b2 % 64 == v3;
    EncodeQuantumOfSextets(b0, b1, b2, v0, v1, v2, v3);
  }

  lemma EncodeOneOfSextets(b0: Byte, v0: int, v1: int)
    requires 0 <= v0 < 64 && 0 <= v1 < 64 && v1 % 16 == 0 && b0 == v0 * 4 + v1 / 16
    ensures Encode([b0]) == [CharOf(v0), CharOf(v1), '=', '=']
  {
    DivMod4(v0, v1 / 16);
    assert b0 / 4 == v0 && b0 % 4 * 16 == v1;
  }

  lemma EncodeTwoOfSextets(b0: Byte, b1: Byte, v0: int, v1: int, v2: int)
    requires 0 <= v0 < 64 && 0 <= v1 < 64 && 0 <= v2 < 64 && v2 % 4 == 0
    requires b0 == v0 * 4 + v1 / 16 && b1 == v1 % 16 * 16 + v2 / 4
    ensures Encode([b0, b1]) == [CharOf(v0), CharOf(v1), CharOf(v2), '=']
  {
    DivMod4(v0, v1 / 16);
    DivMod16(v1 % 16, v2 / 4);
    assert b0 / 4 == v0 && b0 % 4 * 16 + b1 / 16 == v1 && b1 % 16 * 4 == v2;
    EncodeTwoOfBytes(b0, b1, v0, v1, v2);
  }

  lemma EncodeTwoOfBytes(b0: Byte, b1: Byte, v0: int, v1: int, v2: int)
    requires b0 / 4 == v0 && b0 % 4 * 16 + b1 / 16 == v1 && b1 % 16 * 4 == v2
    ensures Encode([b0, b1]) == [CharOf(v0), CharOf(v1), CharOf(v2), '=']
  {
  }

  /** A final quantum is the characters of its own values. */
  lemma QuantumOfValues(q: string, n: nat)
    requires |q| == 4 && n <= 4
    requires forall i :: 0 <= i < n ==> IsAlphabetChar(q[i])
    ensures forall i :: 0 <= i < n ==> CharOf(ValueOf(q[i])) == q[i]
  {
    forall i | 0 <= i < n ensures CharOf(ValueOf(q[i])) == q[i] {
      CharOfValueOf(q[i]);
    }
  }

  lemma EncodeDecodeOnePadded(q: string)
    requires |q| == 4 && DecodeFinal(q).Some? && !AllAlphabet(q)
    requires AllAlphabet(q[..2]) && q[2] == '=' && q[3] == '='
    ensures Encode(DecodeFinal(q).value) == q
  {
    var d := DecodeFinal(q).value;
    assert IsAlphabetChar(q[..2][0]) && IsAlphabetChar(q[..2][1]);
    var v0, v1 := ValueOf(q[0]), ValueOf(q[1]);
    assert d == [v0 * 4 + v1 / 16];
    QuantumOfValues(q, 2);
    EncodeOneOfSextets(d[0], v0, v1);
    assert d == [d[0]];
    assert q == [CharOf(v0), CharOf(v1), '=', '='];
  }

  lemma EncodeDecodeTwoPadded(q: string)
    requires |q| == 4 && DecodeFinal(q).Some? && !AllAlphabet(q)
    requires !(AllAlphabet(q[..2]) && q[2] == '=' && q[3] == '=')
    ensures Encode(DecodeFinal(q).value) == q
  {
    var d := DecodeFinal(q).value;
    assert AllAlphabet(q[..3]) && q[3] == '=';
    assert IsAlphabetChar(q[..3][0]) && IsAlphabetChar(q[..3][1]) && IsAlphabetChar(q[..3][2]);
    var v0, v1, v2 := ValueOf(q[0]), ValueOf(q[1]), ValueOf(q[2]);
    assert d == [v0 * 4 + v1 / 16, v1 % 16 * 16 + v2 / 4];
    QuantumOfValues(q, 3);
    EncodeTwoOfSextets(d[0], d[1], v0, v1, v2);
    assert d == [d[0], d[1]];
    assert q == [CharOf(v0), CharOf(v1), CharOf(v2), '='];
  }

  lemma EncodeDecodeFinal(q: string)
    requires |q| == 4 && DecodeFinal(q).Some?
    ensures Encode(DecodeFinal(q).value) == q
  {
    if AllAlphabet(q) {
      var d := DecodeFinal(q).value;
      EncodeDecodeQuantum(q);
      assert Encode(d) == EncodeQuantum(d[0], d[1], d[2]) + Encode(d[3..]);
    } else if AllAlphabet(q[..2]) && q[2] == '=' && q[3] == '=' {
      EncodeDecodeOnePadded(q);
    } else {
      EncodeDecodeTwoPadded(q);
    }
  }

  /** Decoding accepts only canonical texts: whatever it accepts is exactly
      the encoding of what it returns. */
  lemma {:induction false} EncodeDecode(s: string)
    requires Decode(s).Some?
    ensures Encode(Decode(s).value) == s
    decreases |s|
  {
    if |s| == 0 {
    } else if |s| == 4 {
      EncodeDecodeFinal(s);
    } else {
      var q := DecodeQuantum(s[..4]).value;
      var rest := Decode(s[4..]).value;
      EncodeDecodeQuantum(s[..4]);
      EncodeDecode(s[4..]);
      var d := q + rest;
      assert d[3..] == rest;
      assert d[..3] == q;
      assert |d| > 3 ==> Encode(d) == EncodeQuantum(d[0], d[1], d[2]) + Encode(d[3..]);
      assert s == s[..4] + s[4..];
    }
  }
}
