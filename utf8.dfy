/** UTF-8 as the cell's disclosure paths use it.

    `Decode` is lossy decoding of a byte buffer into text: every well-formed
    UTF-8 sequence becomes its scalar value, and every maximal ill-formed
    subpart (the longest prefix of a well-formed sequence that is not itself
    complete, or a single bad byte) becomes one U+FFFD REPLACEMENT CHARACTER.
    Decoding never fails. `Encode` is standard UTF-8 encoding of text; it is
    how a caller's text secret becomes bytes (on ASCII text, the Python `bytes`
    literal; on other text, `str.encode("utf-8")`), and it is the inverse that
    `Decode` is proved against. */
module Utf8 {

  /** An octet, as Rust's `u8`. */
  newtype byte = x: int | 0 <= x < 0x100

  /** U+FFFD, substituted for each ill-formed subpart. */
  const Replacement: char := '\U{FFFD}'

  predicate IsContinuation(x: int) {
    0x80 <= x <= 0xBF
  }

  /** Number of bytes announced by a lead byte; 0 for a byte that cannot start a sequence. */
  function Width(lead: int): nat {
    if lead < 0x80 then 1
    else if 0xC2 <= lead <= 0xDF then 2
    else if 0xE0 <= lead <= 0xEF then 3
    else if 0xF0 <= lead <= 0xF4 then 4
    else 0
  }

  /** Legal second bytes after a multi-byte lead: these bounds exclude overlong
      forms, the surrogate range and values beyond U+10FFFF. */
  predicate SecondByteOk(lead: int, y: int) {
    if lead == 0xE0 then 0xA0 <= y <= 0xBF
    else if lead == 0xED then 0x80 <= y <= 0x9F
    else if lead == 0xF0 then 0x90 <= y <= 0xBF
    else if lead == 0xF4 then 0x80 <= y <= 0x8F
    else IsContinuation(y)
  }

  /** What one step of the decoder finds at the head of the input: a scalar
      value and the bytes it took, or an ill-formed subpart and its length. */
  datatype Scan = Char(c: char, len: nat) | Invalid(len: nat)

  function Scan2(x: int, y: int): (c: char)
    requires 0xC2 <= x <= 0xDF && IsContinuation(y)
    ensures 0x80 <= c as int < 0x800
  {
    ((x - 0xC0) * 64 + (y - 0x80)) as char
  }

  function Scan3(x: int, y: int, z: int): (c: char)
    requires 0xE0 <= x <= 0xEF && SecondByteOk(x, y) && IsContinuation(z)
    ensures 0x800 <= c as int < 0x10000
  {
    ((x - 0xE0) * 4096 + (y - 0x80) * 64 + (z - 0x80)) as char
  }

  function Scan4(x: int, y: int, z: int, w: int): (c: char)
    requires 0xF0 <= x <= 0xF4 && SecondByteOk(x, y) && IsContinuation(z) && IsContinuation(w)
    ensures 0x10000 <= c as int
  {
    ((x - 0xF0) * 262144 + (y - 0x80) * 4096 + (z - 0x80) * 64 + (w - 0x80)) as char
  }

  /** One decoding step over a non-empty input. */
  function ScanChar(b: seq<byte>): (s: Scan)
    requires b != []
    ensures 1 <= s.len <= |b| && s.len <= 4
    ensures s.Invalid? ==> s.len < 4
  {
    var x := b[0] as int;
    var w := Width(x);
    if w == 1 then Char(x as char, 1)
    else if w == 0 || |b| < 2 || !SecondByteOk(x, b[1] as int) then Invalid(1)
    else if w == 2 then Char(Scan2(x, b[1] as int), 2)
    else if |b| < 3 || !IsContinuation(b[2] as int) then Invalid(2)
    else if w == 3 then Char(Scan3(x, b[1] as int, b[2] as int), 3)
    else if |b| < 4 || !IsContinuation(b[3] as int) then Invalid(3)
    else Char(Scan4(x, b[1] as int, b[2] as int, b[3] as int), 4)
  }

  /** Lossy decoding: total, and never longer (in characters) than its input (in bytes). */
  function Decode(b: seq<byte>): (s: string)
    ensures |s| <= |b|
    ensures s == [] <==> b == []
    decreases |b|
  {
    if b == [] then []
    else
      var sc := ScanChar(b);
      [if sc.Char? then sc.c else Replacement] + Decode(b[sc.len..])
  }

  function EncodeChar(c: char): (e: seq<byte>)
    ensures 1 <= |e| <= 4
  {
    var v := c as int;
    if v < 0x80 then [v as byte]
    else if v < 0x800 then [(0xC0 + v / 64) as byte, (0x80 + v % 64) as byte]
    else if v < 0x10000 then
      [(0xE0 + v / 64 / 64) as byte, (0x80 + v / 64 % 64) as byte, (0x80 + v % 64) as byte]
    else
      [(0xF0 + v / 64 / 64 / 64) as byte, (0x80 + v / 64 / 64 % 64) as byte,
       (0x80 + v / 64 % 64) as byte, (0x80 + v % 64) as byte]
  }

  function Encode(s: string): (b: seq<byte>)
    ensures |s| <= |b| <= 4 * |s|
  {
    if s == [] then [] else EncodeChar(s[0]) + Encode(s[1..])
  }

  predicate IsAscii(b: seq<byte>) {
    forall i :: 0 <= i < |b| ==> b[i] < 0x80
  }

  /** Decoding the encoding of one scalar value finds exactly that value,
      whatever bytes follow it. */
  lemma ScanEncodeChar(c: char, rest: seq<byte>)
    ensures ScanChar(EncodeChar(c) + rest) == Char(c, |EncodeChar(c)|)
  {
  }

  /** Round trip: lossy decoding loses nothing on well-formed UTF-8. */
  lemma {:induction false} DecodeEncode(s: string)
    ensures Decode(Encode(s)) == s
  {
    if s != [] {
      var e := EncodeChar(s[0]);
      ScanEncodeChar(s[0], Encode(s[1..]));
      assert (e + Encode(s[1..]))[|e|..] == Encode(s[1..]);
      DecodeEncode(s[1..]);
    }
  }

  /** Encoding is a homomorphism from text concatenation to byte concatenation. */
  lemma {:induction false} EncodeAppend(s: string, t: string)
    ensures Encode(s + t) == Encode(s) + Encode(t)
  {
    if s != [] {
      assert (s + t)[0] == s[0];
      assert (s + t)[1..] == s[1..] + t;
      EncodeAppend(s[1..], t);
      assert Encode(s + t) == EncodeChar(s[0]) + (Encode(s[1..]) + Encode(t));
    } else {
      assert s + t == t;
    }
  }

  /** On ASCII text, encoding is byte-for-byte the character codes. */
  lemma {:induction false} EncodeAscii(s: string)
    requires forall i :: 0 <= i < |s| ==> s[i] as int < 0x80
    ensures |Encode(s)| == |s|
    ensures forall i :: 0 <= i < |s| ==> Encode(s)[i] as int == s[i] as int
  {
    if s != [] {
      EncodeAscii(s[1..]);
    }
  }

  /** On ASCII bytes, lossy decoding is the identity: one character per byte, same code. */
  lemma {:induction false} DecodeAscii(b: seq<byte>)
    requires IsAscii(b)
    ensures |Decode(b)| == |b|
    ensures forall i :: 0 <= i < |b| ==> Decode(b)[i] as int == b[i] as int
  {
    if b != [] {
      assert ScanChar(b) == Char(b[0] as int as char, 1);
      DecodeAscii(b[1..]);
    }
  }
}
