/**
 * Strict UTF-8, as Python's `bytes.decode('utf-8')` applies it: a byte
 * string decodes exactly when it is a sequence of the well-formed byte
 * sequences of Table 3-7 of the Unicode Standard (no overlong forms, no
 * surrogates, nothing above U+10FFFF); anything else is a decode error.
 */
module Utf8 {
  import opened Wrappers
  import opened ByteSeq

  predicate IsScalar(cp: int) {
    0 <= cp < 0xD800 || 0xE000 <= cp < 0x11_0000
  }

  predicate IsCont(b: byte) {
    0x80 <= b <= 0xBF
  }

  /** The length of the well-formed sequence that `b` starts with, or 0 if it starts with none. */
  function SeqLength(b: Bytes): (n: nat)
    requires |b| > 0
    ensures n <= 4 && n <= |b|
  {
    var b0 := b[0];
    if b0 <= 0x7F then 1
    else if 0xC2 <= b0 <= 0xDF then
      if |b| >= 2 && IsCont(b[1]) then 2 else 0
    else if 0xE0 <= b0 <= 0xEF then
      var lo := if b0 == 0xE0 then 0xA0 else 0x80;
      var hi := if b0 == 0xED then 0x9F else 0xBF;
      if |b| >= 3 && lo <= b[1] <= hi && IsCont(b[2]) then 3 else 0
    else if 0xF0 <= b0 <= 0xF4 then
      var lo := if b0 == 0xF0 then 0x90 else 0x80;
      var hi := if b0 == 0xF4 then 0x8F else 0xBF;
      if |b| >= 4 && lo <= b[1] <= hi && IsCont(b[2]) && IsCont(b[3]) then 4 else 0
    else 0
  }

  /** The code point the leading well-formed sequence of `b` stands for. */
  function ScalarAt(b: Bytes): (cp: int)
    requires |b| > 0 && SeqLength(b) > 0
    ensures IsScalar(cp)
  {
    var n := SeqLength(b);
    if n == 1 then b[0] as int
    else if n == 2 then (b[0] as int - 0xC0) * 64 + (b[1] as int - 0x80)
    else if n == 3 then
      (b[0] as int - 0xE0) * 4096 + (b[1] as int - 0x80) * 64 + (b[2] as int - 0x80)
    else
      (b[0] as int - 0xF0) * 262144 + (b[1] as int - 0x80) * 4096
        + (b[2] as int - 0x80) * 64 + (b[3] as int - 0x80)
  }

  /** The length of a well-formed sequence is fixed by the range its code point lies in. */
  lemma ScalarRange(b: Bytes)
    requires |b| > 0 && SeqLength(b) > 0
    ensures SeqLength(b) == 1 <==> ScalarAt(b) < 0x80
    ensures SeqLength(b) == 2 <==> 0x80 <= ScalarAt(b) < 0x800
    ensures SeqLength(b) == 3 <==> 0x800 <= ScalarAt(b) < 0x1_0000
    ensures SeqLength(b) == 4 <==> 0x1_0000 <= ScalarAt(b)
  {
  }

  /** `bytes.decode('utf-8')`: the decoded text, or None where Python raises UnicodeDecodeError. */
  function Decode(b: Bytes): Option<string>
    decreases |b|
  {
    if |b| == 0 then Some([])
    else
      var n := SeqLength(b);
      if n == 0 then None
      else
        match Decode(b[n..])
        case None => None
        case Some(rest) => Some([ScalarAt(b) as char] + rest)
  }

  /** The UTF-8 encoding of one character. */
  function EncodeChar(c: char): (r: Bytes)
    ensures 1 <= |r| <= 4
  {
    var cp := c as int;
    if cp < 0x80 then [cp as byte]
    else if cp < 0x800 then [(0xC0 + cp / 64) as byte, (0x80 + cp % 64) as byte]
    else if cp < 0x1_0000 then
      [(0xE0 + cp / 4096) as byte, (0x80 + cp / 64 % 64) as byte, (0x80 + cp % 64) as byte]
    else
      [(0xF0 + cp / 262144) as byte, (0x80 + cp / 4096 % 64) as byte,
       (0x80 + cp / 64 % 64) as byte, (0x80 + cp % 64) as byte]
  }

  /** `str.encode('utf-8')`. */
  function Encode(s: string): Bytes {
    if |s| == 0 then [] else EncodeChar(s[0]) + Encode(s[1..])
  }

  /** The base-64 digits of a code point, which the byte layouts above are built from. */
  lemma Digits(cp: int)
    requires 0 <= cp
    ensures cp == 64 * (cp / 64) + cp % 64 && 0 <= cp % 64 < 64
    ensures cp / 64 == 64 * (cp / 4096) + cp / 64 % 64 && 0 <= cp / 64 % 64 < 64
    ensures cp / 4096 == 64 * (cp / 262144) + cp / 4096 % 64 && 0 <= cp / 4096 % 64 < 64
  {
  }

  /** The encoding of a character is one well-formed sequence, and it stands for that character. */
  lemma EncodeCharWellFormed(c: char, rest: Bytes)
    ensures SeqLength(EncodeChar(c) + rest) == |EncodeChar(c)|
    ensures ScalarAt(EncodeChar(c) + rest) == c as int
  {
    var e := EncodeChar(c);
    var b := e + rest;
    var cp := c as int;
    Digits(cp);
    assert b[0] == e[0];
    if |e| >= 2 {
      assert b[1] == e[1];
    }
    if |e| >= 3 {
      assert b[2] == e[2];
    }
    if |e| >= 4 {
      assert b[3] == e[3];
    }
  }

  /** A well-formed sequence is the encoding of the character it stands for. */
  lemma WellFormedIsEncoding(b: Bytes)
    requires |b| > 0 && SeqLength(b) > 0
    ensures EncodeChar(ScalarAt(b) as char) == b[..SeqLength(b)]
  {
    var n := SeqLength(b);
    var cp := ScalarAt(b);
    ScalarRange(b);
    Digits(cp);
    var e := EncodeChar(cp as char);
    if n == 2 {
      assert cp / 64 == b[0] as int - 0xC0;
    } else if n == 3 {
      assert cp / 64 == (b[0] as int - 0xE0) * 64 + (b[1] as int - 0x80);
      assert cp / 4096 == b[0] as int - 0xE0;
    } else if n == 4 {
      assert cp / 64 == (b[0] as int - 0xF0) * 4096 + (b[1] as int - 0x80) * 64 + (b[2] as int - 0x80);
      assert cp / 4096 == (b[0] as int - 0xF0) * 64 + (b[1] as int - 0x80);
      assert cp / 262144 == b[0] as int - 0xF0;
    }
    assert e == b[..n];
  }

  /** Decoding inverts encoding. */
  lemma {:induction false} DecodeEncode(s: string)
    ensures Decode(Encode(s)) == Some(s)
  {
    if |s| > 0 {
      var e := EncodeChar(s[0]);
      EncodeCharWellFormed(s[0], Encode(s[1..]));
      var b := e + Encode(s[1..]);
      assert Encode(s) == b;
      assert b[|e|..] == Encode(s[1..]);
      DecodeEncode(s[1..]);
      assert ScalarAt(b) as char == s[0];
      assert [s[0]] + s[1..] == s;
    }
  }

  /** A decodable string starts with a well-formed sequence, and the rest decodes too. */
  lemma DecodeStep(b: Bytes)
    requires |b| > 0 && Decode(b).Some?
    ensures SeqLength(b) > 0 && Decode(b[SeqLength(b)..]).Some?
    ensures Decode(b).value == [ScalarAt(b) as char] + Decode(b[SeqLength(b)..]).value
  {
  }

  lemma EncodeCons(c: char, s: string, whole: string)
    requires whole == [c] + s
    ensures Encode(whole) == EncodeChar(c) + Encode(s)
  {
    assert whole[0] == c && whole[1..] == s;
  }

  /** Whatever decodes is the encoding of its decoded text, so `Decode(b) == Some(s)` exactly when `b == Encode(s)`. */
  lemma {:induction false} EncodeDecode(b: Bytes)
    requires Decode(b).Some?
    decreases |b|
    ensures Encode(Decode(b).value) == b
  {
    if |b| > 0 {
      var n := SeqLength(b);
      DecodeStep(b);
      EncodeDecode(b[n..]);
      WellFormedIsEncoding(b);
      EncodeCons(ScalarAt(b) as char, Decode(b[n..]).value, Decode(b).value);
      assert b == b[..n] + b[n..];
    }
  }
}
