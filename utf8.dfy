/**
 * UTF-8 (RFC 3629, section 3): each Unicode scalar value becomes one to
 * four bytes. Dafny's char is exactly a Unicode scalar value, so a string
 * here is what String.getBytes(UTF-8) sees once surrogate pairs are joined.
 * Decode is a strict decoder (no overlong forms, no surrogates, nothing above
 * U+10FFFF) that serves as the specification of Encode.
 */
module Utf8 {
  import opened Wrappers
  import opened Bytes

  /** A continuation byte 10xxxxxx. */
  predicate IsCont(b: byte)
  {
    0x80 <= b < 0xC0
  }

  /** The bytes of one scalar value, per the table of RFC 3629 section 3. */
  function EncodeScalar(c: char): (r: seq<byte>)
    ensures 1 <= |r| <= 4
  {
    var n := c as int;
    if n < 0x80 then [n]
    else if n < 0x800 then [0xC0 + n / 64, 0x80 + n % 64]
    else if n < 0x10000 then [0xE0 + n / 4096, 0x80 + n / 64 % 64, 0x80 + n % 64]
    else [0xF0 + n / 262144, 0x80 + n / 4096 % 64, 0x80 + n / 64 % 64, 0x80 + n % 64]
  }

  /** The UTF-8 bytes of a string: the encodings of its scalar values, in order. */
  function Encode(s: string): (r: seq<byte>)
    ensures |s| <= |r| <= 4 * |s|
  {
    if s == [] then [] else EncodeScalar(s[0]) + Encode(s[1..])
  }

  // The code point a lead byte and its continuation bytes spell out.
  function Join2(b0: byte, b1: byte): int
  {
    (b0 as int - 0xC0) * 64 + (b1 as int - 0x80)
  }

  function Join3(b0: byte, b1: byte, b2: byte): int
  {
    (b0 as int - 0xE0) * 4096 + (b1 as int - 0x80) * 64 + (b2 as int - 0x80)
  }

  function Join4(b0: byte, b1: byte, b2: byte, b3: byte): int
  {
    (b0 as int - 0xF0) * 262144 + (b1 as int - 0x80) * 4096 + (b2 as int - 0x80) * 64 + (b3 as int - 0x80)
  }

  /**
   * The scalar value that b starts with and the number of bytes it takes,
   * or None if b does not start with a well-formed UTF-8 sequence.
   */
  function DecodeScalar(b: seq<byte>): (r: Option<(char, nat)>)
    ensures r.Some? ==> 1 <= r.value.1 <= |b| && r.value.1 <= 4
  {
    if |b| == 0 then None
    else if b[0] < 0x80 then Some((b[0] as char, 1))
    else if 0xC0 <= b[0] < 0xE0 then
      if |b| < 2 || !IsCont(b[1]) then None
      else
        var n := Join2(b[0], b[1]);
        if n < 0x80 then None else Some((n as char, 2))
    else if 0xE0 <= b[0] < 0xF0 then
      if |b| < 3 || !IsCont(b[1]) || !IsCont(b[2]) then None
      else
        var n := Join3(b[0], b[1], b[2]);
        if n < 0x800 || (0xD800 <= n < 0xE000) then None else Some((n as char, 3))
    else if 0xF0 <= b[0] < 0xF8 then
      if |b| < 4 || !IsCont(b[1]) || !IsCont(b[2]) || !IsCont(b[3]) then None
      else
        var n := Join4(b[0], b[1], b[2], b[3]);
        if n < 0x10000 || n > 0x10FFFF then None else Some((n as char, 4))
    else None
  }

  /** Strict decoder: None unless b is a sequence of well-formed UTF-8 encodings. */
  function Decode(b: seq<byte>): Option<string>
    decreases |b|
  {
    if |b| == 0 then Some([])
    else
      match DecodeScalar(b)
      case None => None
      case Some((c, k)) =>
        match Decode(b[k..])
        case None => None
        case Some(rest) => Some([c] + rest)
  }

  // ---------------------------------------------------------------------
  // One scalar value

  lemma Digits2(n: int)
    requires 0 <= n < 0x800
    ensures n == (n / 64) * 64 + n % 64
  {
  }

  lemma Digits3(n: int)
    requires 0 <= n < 0x10000
    ensures n == (n / 4096) * 4096 + (n / 64 % 64) * 64 + n % 64
  {
    assert n / 64 == (n / 4096) * 64 + n / 64 % 64;
  }

  lemma Digits4(n: int)
    requires 0 <= n < 0x110000
    ensures n == (n / 262144) * 262144 + (n / 4096 % 64) * 4096 + (n / 64 % 64) * 64 + n % 64
  {
    assert n / 4096 == (n / 262144) * 64 + n / 4096 % 64;
    assert n / 64 == (n / 4096) * 64 + n / 64 % 64;
  }

  /** Decoding the encoding of c, followed by anything, yields c and the length of its encoding. */
  lemma DecodeScalarEncode(c: char, rest: seq<byte>)
    ensures DecodeScalar(EncodeScalar(c) + rest) == Some((c, |EncodeScalar(c)|))
  {
    var n := c as int;
    var e := EncodeScalar(c);
    var b := e + rest;
    if n < 0x80 {
      assert b[0] == n;
    } else if n < 0x800 {
      Digits2(n);
      assert b[0] == e[0] && b[1] == e[1];
    } else if n < 0x10000 {
      Digits3(n);
      assert b[0] == e[0] && b[1] == e[1] && b[2] == e[2];
    } else {
      Digits4(n);
      assert b[0] == e[0] && b[1] == e[1] && b[2] == e[2] && b[3] == e[3];
    }
  }

  // A code point spelled out by well-formed bytes is encoded back to those bytes.
  lemma Split2(b0: byte, b1: byte)
    requires 0xC0 <= b0 < 0xE0 && IsCont(b1) && 0x80 <= Join2(b0, b1)
    ensures EncodeScalar(Join2(b0, b1) as char) == [b0, b1]
  {
    var n := Join2(b0, b1);
    assert n / 64 == b0 - 0xC0 && n % 64 == b1 - 0x80;
  }

  lemma Split3(b0: byte, b1: byte, b2: byte)
    requires 0xE0 <= b0 < 0xF0 && IsCont(b1) && IsCont(b2)
    requires var n := Join3(b0, b1, b2); 0x800 <= n && !(0xD800 <= n < 0xE000)
    ensures EncodeScalar(Join3(b0, b1, b2) as char) == [b0, b1, b2]
  {
    var n := Join3(b0, b1, b2);
    assert n / 64 == (b0 - 0xE0) * 64 + (b1 - 0x80);
    assert n / 4096 == b0 - 0xE0 && n / 64 % 64 == b1 - 0x80 && n % 64 == b2 - 0x80;
  }

  lemma Split4(b0: byte, b1: byte, b2: byte, b3: byte)
    requires 0xF0 <= b0 < 0xF8 && IsCont(b1) && IsCont(b2) && IsCont(b3)
    requires 0x10000 <= Join4(b0, b1, b2, b3) <= 0x10FFFF
    ensures EncodeScalar(Join4(b0, b1, b2, b3) as char) == [b0, b1, b2, b3]
  {
    var n := Join4(b0, b1, b2, b3);
    assert n / 64 == (b0 - 0xF0) * 4096 + (b1 - 0x80) * 64 + (b2 - 0x80);
    assert n / 4096 == (b0 - 0xF0) * 64 + (b1 - 0x80);
    assert n / 262144 == b0 - 0xF0 && n / 4096 % 64 == b1 - 0x80;
    assert n / 64 % 64 == b2 - 0x80 && n % 64 == b3 - 0x80;
  }

  /** What DecodeScalar accepts is the encoding of the value it returns. */
  lemma EncodeDecodeScalar(b: seq<byte>)
    requires DecodeScalar(b).Some?
    ensures EncodeScalar(DecodeScalar(b).value.0) == b[..DecodeScalar(b).value.1]
  {
    var k := DecodeScalar(b).value.1;
    if k == 1 {
      assert b[..1] == [b[0]];
    } else if k == 2 {
      Split2(b[0], b[1]);
      assert b[..2] == [b[0], b[1]];
    } else if k == 3 {
      Split3(b[0], b[1], b[2]);
      assert b[..3] == [b[0], b[1], b[2]];
    } else {
      Split4(b[0], b[1], b[2], b[3]);
      assert b[..4] == [b[0], b[1], b[2], b[3]];
    }
  }

  // ---------------------------------------------------------------------
  // Whole strings

  lemma EncodeUnfold(s: string)
    requires s != []
    ensures Encode(s) == EncodeScalar(s[0]) + Encode(s[1..])
  {
  }

  lemma DecodeEncodeStep(s: string)
    requires s != [] && Decode(Encode(s[1..])) == Some(s[1..])
    ensures Decode(Encode(s)) == Some(s)
  {
    var e := EncodeScalar(s[0]);
    EncodeUnfold(s);
    DecodeScalarEncode(s[0], Encode(s[1..]));
    assert (e + Encode(s[1..]))[|e|..] == Encode(s[1..]);
    assert s == [s[0]] + s[1..];
  }

  /** Decoding the UTF-8 encoding of a string gives the string back. */
  lemma {:induction false} DecodeEncode(s: string)
    ensures Decode(Encode(s)) == Some(s)
    decreases |s|
  {
    if s != [] {
      DecodeEncode(s[1..]);
      DecodeEncodeStep(s);
    }
  }

  lemma EncodeDecodeStep(b: seq<byte>, s: string)
    requires |b| > 0 && Decode(b) == Some(s)
    ensures DecodeScalar(b).Some?
    ensures var k := DecodeScalar(b).value.1;
      Decode(b[k..]).Some? && s == [DecodeScalar(b).value.0] + Decode(b[k..]).value
  {
  }

  lemma EncodeConcat(b: seq<byte>, k: nat, s: string)
    requires 0 < k <= |b| && s != []
    requires EncodeScalar(s[0]) == b[..k] && Encode(s[1..]) == b[k..]
    ensures Encode(s) == b
  {
    EncodeUnfold(s);
    assert b == b[..k] + b[k..];
  }

  /** Whatever the strict decoder accepts is the encoding of what it returns. */
  lemma {:induction false} EncodeDecode(b: seq<byte>, s: string)
    requires Decode(b) == Some(s)
    ensures Encode(s) == b
    decreases |b|
  {
    if |b| > 0 {
      EncodeDecodeStep(b, s);
      var k := DecodeScalar(b).value.1;
      EncodeDecodeScalar(b);
      EncodeDecode(b[k..], s[1..]);
      EncodeConcat(b, k, s);
    }
  }

  /** The strict decoder is exactly the inverse of Encode. */
  lemma DecodeIff(b: seq<byte>, s: string)
    ensures Decode(b) == Some(s) <==> b == Encode(s)
  {
    if Decode(b) == Some(s) {
      EncodeDecode(b, s);
    }
    if b == Encode(s) {
      DecodeEncode(s);
    }
  }

  /** Distinct strings have distinct UTF-8 encodings. */
  lemma EncodeInjective(s: string, t: string)
    requires Encode(s) == Encode(t)
    ensures s == t
  {
    DecodeEncode(s);
    DecodeEncode(t);
  }

  /** A string of ASCII characters is its own UTF-8 encoding, byte for byte. */
  lemma {:induction false} EncodeAscii(s: string)
    requires forall i :: 0 <= i < |s| ==> s[i] < 0x80 as char
    ensures |Encode(s)| == |s|
    ensures forall i :: 0 <= i < |s| ==> Encode(s)[i] == s[i] as int
    decreases |s|
  {
    if s != [] {
      EncodeAscii(s[1..]);
      EncodeUnfold(s);
    }
  }
}
