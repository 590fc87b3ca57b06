/** What the encodings mean, independently of any converter: the octet grammar of section 4 of
    RFC 3629 and the surrogate pairs of sections 2.1 and 2.2 of RFC 2781. */
module Unicode {
  import opened Conversion

  const MAX_CODE: bv64 := 0x10FFFF

  /** Code points other than the surrogates. */
  predicate Scalar(c: bv32) {
    c <= 0x10FFFF && !(0xD800 <= c <= 0xDFFF)
  }

  // ----- UTF-8

  predicate Tail(b: bv8) {
    0x80 <= b <= 0xBF
  }

  predicate Utf8Two(a: bv8, b: bv8) {
    0xC2 <= a <= 0xDF && Tail(b)
  }

  predicate Utf8Three(a: bv8, b: bv8, c: bv8) {
    || (a == 0xE0 && 0xA0 <= b <= 0xBF && Tail(c))
    || (0xE1 <= a <= 0xEC && Tail(b) && Tail(c))
    || (a == 0xED && 0x80 <= b <= 0x9F && Tail(c))
    || (0xEE <= a <= 0xEF && Tail(b) && Tail(c))
  }

  predicate Utf8Four(a: bv8, b: bv8, c: bv8, d: bv8) {
    || (a == 0xF0 && 0x90 <= b <= 0xBF && Tail(c) && Tail(d))
    || (0xF1 <= a <= 0xF3 && Tail(b) && Tail(c) && Tail(d))
    || (a == 0xF4 && 0x80 <= b <= 0x8F && Tail(c) && Tail(d))
  }

  /** The rule UTF8-char. */
  predicate Utf8Char(p: seq<bv8>) {
    || (|p| == 1 && p[0] <= 0x7F)
    || (|p| == 2 && Utf8Two(p[0], p[1]))
    || (|p| == 3 && Utf8Three(p[0], p[1], p[2]))
    || (|p| == 4 && Utf8Four(p[0], p[1], p[2], p[3]))
  }

  function Two(a: bv8, b: bv8): bv32 {
    ((a - 0xC0) as bv32 << 6) + (b - 0x80) as bv32
  }

  function Three(a: bv8, b: bv8, c: bv8): bv32 {
    ((a - 0xE0) as bv32 << 12) + ((b - 0x80) as bv32 << 6) + (c - 0x80) as bv32
  }

  function Four(a: bv8, b: bv8, c: bv8, d: bv8): bv32 {
    ((a - 0xF0) as bv32 << 18) + ((b - 0x80) as bv32 << 12) + ((c - 0x80) as bv32 << 6) + (d - 0x80) as bv32
  }

  /** The code point that a UTF8-char stands for. */
  function Utf8Value(p: seq<bv8>): bv32
    requires Utf8Char(p)
  {
    if |p| == 1 then p[0] as bv32
    else if |p| == 2 then Two(p[0], p[1])
    else if |p| == 3 then Three(p[0], p[1], p[2])
    else Four(p[0], p[1], p[2], p[3])
  }

  /** p is the UTF8-char of the code point c. */
  ghost predicate Utf8Meaning(p: seq<bv8>, c: bv32) {
    Utf8Char(p) && Utf8Value(p) == c
  }

  /** The same, worded so that the verifier looks inside only where Utf8Meaning is mentioned. */
  ghost predicate Utf8Spells(p: seq<bv8>, c: bv32) {
    forall q | q == p :: Utf8Meaning(q, c)
  }

  /** parts are the UTF8-chars of the code points cs. */
  ghost predicate Utf8Chars(parts: seq<seq<bv8>>, cs: seq<bv32>) {
    |parts| == |cs| && forall i | 0 <= i < |parts| :: Utf8Spells(parts[i], cs[i])
  }

  /** s is well-formed UTF-8 and stands for the code points cs. */
  ghost predicate IsUtf8(s: seq<bv8>, cs: seq<bv32>) {
    exists parts :: Utf8Chars(parts, cs) && Concat(parts) == s
  }

  lemma SpellsIsMeaning(p: seq<bv8>, c: bv32)
    ensures Utf8Spells(p, c) <==> Utf8Meaning(p, c)
  {
  }

  // ----- UTF-16

  predicate HighSurrogate(u: bv16) {
    0xD800 <= u <= 0xDBFF
  }

  predicate LowSurrogate(u: bv16) {
    0xDC00 <= u <= 0xDFFF
  }

  /** One unit that is no surrogate, or a high surrogate followed by a low one. */
  predicate Utf16Char(p: seq<bv16>) {
    || (|p| == 1 && !HighSurrogate(p[0]) && !LowSurrogate(p[0]))
    || (|p| == 2 && HighSurrogate(p[0]) && LowSurrogate(p[1]))
  }

  function Pair(hi: bv16, lo: bv16): bv32 {
    0x10000 + ((hi - 0xD800) as bv32 << 10) + (lo - 0xDC00) as bv32
  }

  function Utf16Value(p: seq<bv16>): bv32
    requires Utf16Char(p)
  {
    if |p| == 1 then p[0] as bv32 else Pair(p[0], p[1])
  }

  /** p is the UTF-16 of the code point c; again with the meaning kept behind a name. */
  ghost predicate Utf16Meaning(p: seq<bv16>, c: bv32) {
    Utf16Char(p) && Utf16Value(p) == c
  }

  ghost predicate Utf16Spells(p: seq<bv16>, c: bv32) {
    forall q | q == p :: Utf16Meaning(q, c)
  }

  ghost predicate Utf16Chars(parts: seq<seq<bv16>>, cs: seq<bv32>) {
    |parts| == |cs| && forall i | 0 <= i < |parts| :: Utf16Spells(parts[i], cs[i])
  }

  /** u is well-formed UTF-16 and stands for the code points cs. */
  ghost predicate IsUtf16(u: seq<bv16>, cs: seq<bv32>) {
    exists parts :: Utf16Chars(parts, cs) && Concat(parts) == u
  }

  lemma Spells16IsMeaning(p: seq<bv16>, c: bv32)
    ensures Utf16Spells(p, c) <==> Utf16Meaning(p, c)
  {
  }

  // ----- one-element outputs

  function Singles<T>(cs: seq<T>): seq<seq<T>> {
    seq(|cs|, i requires 0 <= i < |cs| => [cs[i]])
  }

  lemma {:induction false} ConcatSingles<T>(cs: seq<T>)
    ensures Concat(Singles(cs)) == cs
  {
    if cs != [] {
      ConcatSingles(cs[1..]);
      assert Singles(cs)[1..] == Singles(cs[1..]);
    }
  }

  /** Every output part is one code point, so the output is read off part by part. */
  lemma {:induction false} SinglesOf<T>(outs: seq<seq<T>>)
    requires forall i | 0 <= i < |outs| :: |outs[i]| == 1
    ensures |Concat(outs)| == |outs| && forall i | 0 <= i < |outs| :: Concat(outs)[i] == outs[i][0]
  {
    if outs != [] {
      SinglesOf(outs[1..]);
    }
  }
}
