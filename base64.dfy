/**
 * Standard Base64 (RFC 4648, section 4): the alphabet A-Z a-z 0-9 + /,
 * with '=' padding of the final partial group and no line breaks.
 * Encode is what the Base64Encode UDF returns; Decode is a strict decoder
 * that accepts exactly the canonical encodings and serves as its specification.
 */
module Base64 {
  import opened Wrappers
  import opened Bytes

  /** A 6-bit value, the index of one alphabet character. */
  type sextet = v: int | 0 <= v < 64

  const Pad: char := '='

  /** The character for value v (Table 1 of RFC 4648). */
  function Digit(v: sextet): char
  {
    if v < 26 then ('A' as int + v) as char
    else if v < 52 then ('a' as int + (v - 26)) as char
    else if v < 62 then ('0' as int + (v - 52)) as char
    else if v == 62 then '+'
    else '/'
  }

  /** Membership in the 64-character standard alphabet. */
  predicate IsDigit(c: char)
  {
    ('A' <= c <= 'Z') || ('a' <= c <= 'z') || ('0' <= c <= '9') || c == '+' || c == '/'
  }

  /** The value of an alphabet character: the inverse of Digit. */
  function Value(c: char): (v: sextet)
    requires IsDigit(c)
    ensures Digit(v) == c
  {
    if 'A' <= c <= 'Z' then c as int - 'A' as int
    else if 'a' <= c <= 'z' then c as int - 'a' as int + 26
    else if '0' <= c <= '9' then c as int - '0' as int + 52
    else if c == '+' then 62
    else 63
  }

  lemma DigitInverse(v: sextet)
    ensures IsDigit(Digit(v)) && Digit(v) != Pad
    ensures Value(Digit(v)) == v
  {
  }

  // The four 6-bit values of a group of three bytes b0 b1 b2, most significant bits first.
  function Hi0(b0: byte): sextet { b0 / 4 }
  function Hi1(b0: byte, b1: byte): sextet { (b0 % 4) * 16 + b1 / 16 }
  function Hi2(b1: byte, b2: byte): sextet { (b1 % 16) * 4 + b2 / 64 }
  function Hi3(b2: byte): sextet { b2 % 64 }

  // The three bytes of a group of four 6-bit values v0 v1 v2 v3.
  function Lo0(v0: sextet, v1: sextet): byte { (v0 as int) * 4 + (v1 as int) / 16 }
  function Lo1(v1: sextet, v2: sextet): byte { ((v1 as int) % 16) * 16 + (v2 as int) / 4 }
  function Lo2(v2: sextet, v3: sextet): byte { ((v2 as int) % 4) * 64 + (v3 as int) }

  /** Three bytes become four characters. */
  function EncodeGroup(b0: byte, b1: byte, b2: byte): string
  {
    [Digit(Hi0(b0)), Digit(Hi1(b0, b1)), Digit(Hi2(b1, b2)), Digit(Hi3(b2))]
  }

  /** A final group of one byte: two characters and two pad characters. */
  function EncodeFinal1(b0: byte): string
  {
    [Digit(Hi0(b0)), Digit(Hi1(b0, 0)), Pad, Pad]
  }

  /** A final group of two bytes: three characters and one pad character. */
  function EncodeFinal2(b0: byte, b1: byte): string
  {
    [Digit(Hi0(b0)), Digit(Hi1(b0, b1)), Digit(Hi2(b1, 0)), Pad]
  }

  /** Base64 of a byte sequence: 4 characters per started group of 3 bytes. */
  function Encode(b: seq<byte>): (r: string)
    ensures |r| == 4 * ((|b| + 2) / 3)
    decreases |b|
  {
    if |b| == 0 then []
    else if |b| == 1 then EncodeFinal1(b[0])
    else if |b| == 2 then EncodeFinal2(b[0], b[1])
    else
      assert (|b| + 2) / 3 == (|b[3..]| + 2) / 3 + 1;
      EncodeGroup(b[0], b[1], b[2]) + Encode(b[3..])
  }

  /** Four alphabet characters, no padding, become three bytes. */
  function DecodeGroup(q: string): Option<seq<byte>>
    requires |q| == 4
  {
    if IsDigit(q[0]) && IsDigit(q[1]) && IsDigit(q[2]) && IsDigit(q[3]) then
      var v0, v1, v2, v3 := Value(q[0]), Value(q[1]), Value(q[2]), Value(q[3]);
      Some([Lo0(v0, v1), Lo1(v1, v2), Lo2(v2, v3)])
    else None
  }

  /**
   * The last group of an encoding, which may end in "==" or "=".
   * Pad bits that are not zero are rejected (section 3.5 of RFC 4648),
   * so that every accepted string is the encoding of what it decodes to.
   */
  function DecodeFinal(q: string): Option<seq<byte>>
    requires |q| == 4
  {
    if q[2] == Pad && q[3] == Pad then
      if IsDigit(q[0]) && IsDigit(q[1]) && Value(q[1]) % 16 == 0 then
        Some([Lo0(Value(q[0]), Value(q[1]))])
      else None
    else if q[3] == Pad then
      if IsDigit(q[0]) && IsDigit(q[1]) && IsDigit(q[2]) && Value(q[2]) % 4 == 0 then
        Some([Lo0(Value(q[0]), Value(q[1])), Lo1(Value(q[1]), Value(q[2]))])
      else None
    else DecodeGroup(q)
  }

  /** Strict decoder: None unless s is a canonical padded Base64 string. */
  function Decode(s: string): Option<seq<byte>>
    decreases |s|
  {
    if |s| == 0 then Some([])
    else if |s| < 4 then None
    else if |s| == 4 then DecodeFinal(s)
    else
      match DecodeGroup(s[..4])
      case None => None
      case Some(g) =>
        match Decode(s[4..])
        case None => None
        case Some(rest) => Some(g + rest)
  }

  /** Number of pad characters at the end of the encoding of n bytes. */
  function PadCount(n: nat): nat
  {
    if n % 3 == 0 then 0 else 3 - n % 3
  }

  // ---------------------------------------------------------------------
  // Arithmetic of one group

  // Each byte is recovered from the two 6-bit values that share its bits.
  lemma Split0(b0: byte, b1: byte)
    ensures Lo0(Hi0(b0), Hi1(b0, b1)) == b0
  {
    assert Hi1(b0, b1) / 16 == b0 % 4;
  }

  lemma Split1(b0: byte, b1: byte, b2: byte)
    ensures Lo1(Hi1(b0, b1), Hi2(b1, b2)) == b1
  {
    assert Hi1(b0, b1) % 16 == b1 / 16 && Hi2(b1, b2) / 4 == b1 % 16;
  }

  lemma Split2(b1: byte, b2: byte)
    ensures Lo2(Hi2(b1, b2), Hi3(b2)) == b2
  {
    assert Hi2(b1, b2) % 4 == b2 / 64;
  }

  /** The bits of a final group not covered by input bytes are zero. */
  lemma PadBitsZero(b0: byte, b1: byte)
    ensures Hi1(b0, 0) % 16 == 0 && Hi2(b1, 0) % 4 == 0
  {
  }

  // Each 6-bit value is recovered from the bytes that hold its bits.
  lemma Join0(v0: sextet, v1: sextet)
    ensures Hi0(Lo0(v0, v1)) == v0
  {
  }

  lemma Join1(v0: sextet, v1: sextet, v2: sextet)
    ensures Hi1(Lo0(v0, v1), Lo1(v1, v2)) == v1
  {
    assert Lo0(v0, v1) % 4 == v1 / 16 && Lo1(v1, v2) / 16 == v1 % 16;
  }

  lemma Join2(v1: sextet, v2: sextet, v3: sextet)
    ensures Hi2(Lo1(v1, v2), Lo2(v2, v3)) == v2
  {
    assert Lo1(v1, v2) % 16 == v2 / 4 && Lo2(v2, v3) / 64 == v2 % 4;
  }

  lemma Join3(v2: sextet, v3: sextet)
    ensures Hi3(Lo2(v2, v3)) == v3
  {
  }

  /** With zero pad bits, the last 6-bit value of a final group is recovered from fewer bytes. */
  lemma JoinFinal(v0: sextet, v1: sextet, v2: sextet)
    ensures v1 % 16 == 0 ==> Hi1(Lo0(v0, v1), 0) == v1
    ensures v2 % 4 == 0 ==> Hi2(Lo1(v1, v2), 0) == v2
  {
    assert Lo0(v0, v1) % 4 == v1 / 16;
    assert Lo1(v1, v2) % 16 == v2 / 4;
  }

  // Laws of the encoding

  /**
   * The shape RFC 4648 prescribes for an encoding ending in `pad` pad
   * characters: '=' occupies exactly the last `pad` positions and every
   * other character is in the alphabet.
   */
  ghost predicate Padded(r: string, pad: nat)
  {
    forall i :: 0 <= i < |r| ==>
      && (r[i] == Pad <==> i >= |r| - pad)
      && (r[i] != Pad ==> IsDigit(r[i]))
  }

  lemma PaddedPrepend(g: string, rest: string, pad: nat)
    requires |g| == 4 && forall i :: 0 <= i < 4 ==> IsDigit(g[i]) && g[i] != Pad
    requires Padded(rest, pad) && pad <= |rest|
    ensures Padded(g + rest, pad)
  {
    var r := g + rest;
    forall i | 0 <= i < |r|
      ensures (r[i] == Pad <==> i >= |r| - pad) && (r[i] != Pad ==> IsDigit(r[i]))
    {
      if i < 4 {
        assert r[i] == g[i];
      } else {
        assert r[i] == rest[i - 4];
      }
    }
  }

  /** The four characters of a full group are alphabet characters. */
  lemma GroupDigits(b0: byte, b1: byte, b2: byte)
    ensures var g := EncodeGroup(b0, b1, b2);
      forall i :: 0 <= i < 4 ==> IsDigit(g[i]) && g[i] != Pad
  {
    DigitInverse(Hi0(b0));
    DigitInverse(Hi1(b0, b1));
    DigitInverse(Hi2(b1, b2));
    DigitInverse(Hi3(b2));
  }

  lemma Final1Padded(b0: byte)
    ensures Padded(EncodeFinal1(b0), 2)
  {
    DigitInverse(Hi0(b0));
    DigitInverse(Hi1(b0, 0));
  }

  lemma Final2Padded(b0: byte, b1: byte)
    ensures Padded(EncodeFinal2(b0, b1), 1)
  {
    DigitInverse(Hi0(b0));
    DigitInverse(Hi1(b0, b1));
    DigitInverse(Hi2(b1, 0));
  }

  lemma EncodeUnfold(b: seq<byte>)
    requires |b| >= 3
    ensures Encode(b) == EncodeGroup(b[0], b[1], b[2]) + Encode(b[3..])
  {
  }

  /**
   * Every character of an encoding is in the alphabet or is '=', and '='
   * fills exactly the last PadCount(|b|) positions: none when |b| mod 3 is 0,
   * one when it is 2, two when it is 1.
   */
  lemma {:induction false} EncodeShape(b: seq<byte>)
    ensures Padded(Encode(b), PadCount(|b|))
    decreases |b|
  {
    if |b| == 1 {
      Final1Padded(b[0]);
    } else if |b| == 2 {
      Final2Padded(b[0], b[1]);
    } else if |b| >= 3 {
      EncodeShape(b[3..]);
      EncodeShapeStep(b);
    }
  }

  lemma EncodeShapeStep(b: seq<byte>)
    requires |b| >= 3 && Padded(Encode(b[3..]), PadCount(|b| - 3))
    ensures Padded(Encode(b), PadCount(|b|))
  {
    var g, rest := EncodeGroup(b[0], b[1], b[2]), Encode(b[3..]);
    EncodeUnfold(b);
    GroupDigits(b[0], b[1], b[2]);
    assert PadCount(|b|) == PadCount(|b| - 3) <= |rest|;
    PaddedPrepend(g, rest, PadCount(|b|));
  }

  // What the decoder does with four given characters, stated without
  // looking inside Digit and Value.
  lemma DecodeGroupOf(c0: char, c1: char, c2: char, c3: char)
    requires IsDigit(c0) && IsDigit(c1) && IsDigit(c2) && IsDigit(c3)
    ensures DecodeGroup([c0, c1, c2, c3])
      == Some([Lo0(Value(c0), Value(c1)), Lo1(Value(c1), Value(c2)), Lo2(Value(c2), Value(c3))])
    ensures DecodeFinal([c0, c1, c2, c3]) == DecodeGroup([c0, c1, c2, c3])
  {
  }

  lemma DecodeFinal1Of(c0: char, c1: char)
    requires IsDigit(c0) && IsDigit(c1) && Value(c1) % 16 == 0
    ensures DecodeFinal([c0, c1, Pad, Pad]) == Some([Lo0(Value(c0), Value(c1))])
  {
  }

  lemma DecodeFinal2Of(c0: char, c1: char, c2: char)
    requires IsDigit(c0) && IsDigit(c1) && IsDigit(c2) && Value(c2) % 4 == 0
    ensures DecodeFinal([c0, c1, c2, Pad]) == Some([Lo0(Value(c0), Value(c1)), Lo1(Value(c1), Value(c2))])
  {
  }

  lemma DecodeFinal1(b0: byte)
    ensures DecodeFinal(EncodeFinal1(b0)) == Some([b0])
  {
    var v0, v1 := Hi0(b0), Hi1(b0, 0);
    DigitInverse(v0);
    DigitInverse(v1);
    PadBitsZero(b0, 0);
    DecodeFinal1Of(Digit(v0), Digit(v1));
    Split0(b0, 0);
  }

  lemma DecodeFinal2(b0: byte, b1: byte)
    ensures DecodeFinal(EncodeFinal2(b0, b1)) == Some([b0, b1])
  {
    var v0, v1, v2 := Hi0(b0), Hi1(b0, b1), Hi2(b1, 0);
    DigitInverse(v0);
    DigitInverse(v1);
    DigitInverse(v2);
    PadBitsZero(b0, b1);
    DecodeFinal2Of(Digit(v0), Digit(v1), Digit(v2));
    Split0(b0, b1);
    Split1(b0, b1, 0);
  }

  lemma DecodeFullGroup(b0: byte, b1: byte, b2: byte)
    ensures DecodeGroup(EncodeGroup(b0, b1, b2)) == Some([b0, b1, b2])
  {
    var v0, v1, v2, v3 := Hi0(b0), Hi1(b0, b1), Hi2(b1, b2), Hi3(b2);
    DigitInverse(v0);
    DigitInverse(v1);
    DigitInverse(v2);
    DigitInverse(v3);
    DecodeGroupOf(Digit(v0), Digit(v1), Digit(v2), Digit(v3));
    Split0(b0, b1);
    Split1(b0, b1, b2);
    Split2(b1, b2);
  }

  lemma DecodeLastGroup(b0: byte, b1: byte, b2: byte)
    ensures DecodeFinal(EncodeGroup(b0, b1, b2)) == Some([b0, b1, b2])
  {
    var v0, v1, v2, v3 := Hi0(b0), Hi1(b0, b1), Hi2(b1, b2), Hi3(b2);
    DigitInverse(v0);
    DigitInverse(v1);
    DigitInverse(v2);
    DigitInverse(v3);
    DecodeGroupOf(Digit(v0), Digit(v1), Digit(v2), Digit(v3));
    DecodeFullGroup(b0, b1, b2);
  }

  /** Decoding a string longer than one group: its first group, then the rest. */
  lemma DecodeUnfold(g: string, rest: string)
    requires |g| == 4 && |rest| > 0
    ensures Decode(g + rest) ==
      match DecodeGroup(g)
      case None => None
      case Some(x) =>
        match Decode(rest)
        case None => None
        case Some(y) => Some(x + y)
  {
    assert (g + rest)[..4] == g;
    assert (g + rest)[4..] == rest;
  }

  lemma DecodeConcat(g: string, rest: string, b: seq<byte>)
    requires |g| == 4 && |rest| > 0 && |b| >= 3
    requires DecodeGroup(g) == Some(b[..3]) && Decode(rest) == Some(b[3..])
    ensures Decode(g + rest) == Some(b)
  {
    DecodeUnfold(g, rest);
    assert b == b[..3] + b[3..];
  }

  lemma DecodeFirstGroup(b: seq<byte>)
    requires |b| >= 3
    ensures DecodeGroup(EncodeGroup(b[0], b[1], b[2])) == Some(b[..3])
  {
    DecodeFullGroup(b[0], b[1], b[2]);
    assert b[..3] == [b[0], b[1], b[2]];
  }

  lemma DecodeEncodeStep(b: seq<byte>)
    requires |b| > 3 && Decode(Encode(b[3..])) == Some(b[3..])
    ensures Decode(Encode(b)) == Some(b)
  {
    var g, rest := EncodeGroup(b[0], b[1], b[2]), Encode(b[3..]);
    EncodeUnfold(b);
    DecodeFirstGroup(b);
    DecodeConcat(g, rest, b);
  }

  // Sequences of at most three bytes: one final group.
  lemma DecodeEncode1(b: seq<byte>)
    requires |b| == 1
    ensures Decode(Encode(b)) == Some(b)
  {
    DecodeFinal1(b[0]);
    assert b == [b[0]];
  }

  lemma DecodeEncode2(b: seq<byte>)
    requires |b| == 2
    ensures Decode(Encode(b)) == Some(b)
  {
    DecodeFinal2(b[0], b[1]);
    assert b == [b[0], b[1]];
  }

  lemma DecodeEncode3(b: seq<byte>)
    requires |b| == 3
    ensures Decode(Encode(b)) == Some(b)
  {
    var g := EncodeGroup(b[0], b[1], b[2]);
    EncodeUnfold(b);
    assert Encode(b) == g;
    DecodeLastGroup(b[0], b[1], b[2]);
    assert b == [b[0], b[1], b[2]];
  }

  /** Decoding an encoding recovers the bytes. */
  lemma {:induction false} DecodeEncode(b: seq<byte>)
    ensures Decode(Encode(b)) == Some(b)
    decreases |b|
  {
    if |b| == 1 {
      DecodeEncode1(b);
    } else if |b| == 2 {
      DecodeEncode2(b);
    } else if |b| == 3 {
      DecodeEncode3(b);
    } else if |b| > 3 {
      DecodeEncode(b[3..]);
      DecodeEncodeStep(b);
    }
  }

  // Encoding the bytes that four 6-bit values stand for gives back their characters.
  lemma EncodeGroupOf(v0: sextet, v1: sextet, v2: sextet, v3: sextet)
    ensures EncodeGroup(Lo0(v0, v1), Lo1(v1, v2), Lo2(v2, v3)) == [Digit(v0), Digit(v1), Digit(v2), Digit(v3)]
  {
    Join0(v0, v1);
    Join1(v0, v1, v2);
    Join2(v1, v2, v3);
    Join3(v2, v3);
  }

  lemma EncodeFinal1Of(v0: sextet, v1: sextet)
    requires v1 % 16 == 0
    ensures EncodeFinal1(Lo0(v0, v1)) == [Digit(v0), Digit(v1), Pad, Pad]
  {
    Join0(v0, v1);
    JoinFinal(v0, v1, 0);
  }

  lemma EncodeFinal2Of(v0: sextet, v1: sextet, v2: sextet)
    requires v2 % 4 == 0
    ensures EncodeFinal2(Lo0(v0, v1), Lo1(v1, v2)) == [Digit(v0), Digit(v1), Digit(v2), Pad]
  {
    Join0(v0, v1);
    Join1(v0, v1, v2);
    JoinFinal(v0, v1, v2);
  }

  lemma DecodeGroupEncodes(q: string)
    requires |q| == 4 && DecodeGroup(q).Some?
    ensures |DecodeGroup(q).value| == 3
    ensures var g := DecodeGroup(q).value; EncodeGroup(g[0], g[1], g[2]) == q
  {
    EncodeGroupOf(Value(q[0]), Value(q[1]), Value(q[2]), Value(q[3]));
    assert q == [q[0], q[1], q[2], q[3]];
  }

  lemma DecodeFinalEncodes(q: string)
    requires |q| == 4 && DecodeFinal(q).Some?
    ensures Encode(DecodeFinal(q).value) == q
  {
    assert q == [q[0], q[1], q[2], q[3]];
    if q[2] == Pad && q[3] == Pad {
      EncodeFinal1Of(Value(q[0]), Value(q[1]));
    } else if q[3] == Pad {
      EncodeFinal2Of(Value(q[0]), Value(q[1]), Value(q[2]));
    } else {
      DecodeGroupEncodes(q);
      var g := DecodeGroup(q).value;
      assert Encode(g) == EncodeGroup(g[0], g[1], g[2]) + Encode(g[3..]);
    }
  }

  lemma EncodeDecodeStep(s: string, b: seq<byte>)
    requires |s| > 4 && Decode(s) == Some(b)
    ensures DecodeGroup(s[..4]).Some? && Decode(s[4..]).Some?
    ensures b == DecodeGroup(s[..4]).value + Decode(s[4..]).value
  {
  }

  /** Whatever the strict decoder accepts is the encoding of what it returns. */
  lemma {:induction false} EncodeDecode(s: string, b: seq<byte>)
    requires Decode(s) == Some(b)
    ensures Encode(b) == s
    decreases |s|
  {
    if |s| == 4 {
      DecodeFinalEncodes(s);
    } else if |s| > 4 {
      EncodeDecodeStep(s, b);
      var g, rest := DecodeGroup(s[..4]).value, Decode(s[4..]).value;
      DecodeGroupEncodes(s[..4]);
      EncodeDecode(s[4..], rest);
      EncodeUnfold(b);
      assert b[..3] == g && b[3..] == rest;
      assert s == s[..4] + s[4..];
    }
  }

  /** The strict decoder is exactly the inverse of Encode. */
  lemma DecodeIff(s: string, b: seq<byte>)
    ensures Decode(s) == Some(b) <==> s == Encode(b)
  {
    if Decode(s) == Some(b) {
      EncodeDecode(s, b);
    }
    if s == Encode(b) {
      DecodeEncode(b);
    }
  }

  /** Distinct byte sequences have distinct encodings. */
  lemma EncodeInjective(a: seq<byte>, b: seq<byte>)
    requires Encode(a) == Encode(b)
    ensures a == b
  {
    DecodeEncode(a);
    DecodeEncode(b);
  }
}
