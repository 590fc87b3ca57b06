/** The converters between UCS-4 and the byte serialisations of UTF-16 in libc++'s locale.cpp, and
    their length functions. The big-endian and little-endian functions differ only in byte order. */
module Utf16 {
  import opened Conversion
  import opened Unicode
  import opened Utf8

  datatype Endian = Big | Little

  function Unit(e: Endian, b0: bv8, b1: bv8): bv16 {
    if e == Big then (b0 as bv16 << 8) | b1 as bv16 else (b1 as bv16 << 8) | b0 as bv16
  }

  function Bytes(e: Endian, t: bv16): seq<bv8> {
    var hi, lo := (t >> 8) as bv8, (t & 0xFF) as bv8;
    if e == Big then [hi, lo] else [lo, hi]
  }

  /** static_cast<uint16_t>. */
  function Low16(x: bv32): bv16 {
    (x & 0xFFFF) as bv16
  }

  // ----- loop bodies

  /** ucs4_to_utf16be and ucs4_to_utf16le, one code point. */
  function EncodeChar(wc: bv32, room: nat, maxcode: bv64, e: Endian): Step<bv8> {
    if (wc & 0xFFFFF800) == 0xD800 || wc as bv64 > maxcode then Bad
    else if wc < 0x10000 then
      if room < 2 then Short else Take(1, Bytes(e, Low16(wc)))
    else
      if room < 4 then Short
      else Take(1, Bytes(e, HighOf(wc)) + Bytes(e, LowOf(wc)))
  }

  function HighOf(wc: bv32): bv16 {
    Low16(0xD800 | ((((wc & 0x1F0000) >> 16) - 1) << 6) | ((wc & 0xFC00) >> 10))
  }

  function LowOf(wc: bv32): bv16 {
    Low16(0xDC00 | (wc & 0x3FF))
  }

  function Ucs4ToUtf16Step(s: seq<bv32>, room: nat, maxcode: bv64, e: Endian): Step<bv8> {
    if s == [] then Short else EncodeChar(s[0], room, maxcode, e)
  }

  function Joined(c1: bv16, c2: bv16): bv32 {
    ((((c1 & 0x03C0) >> 6) as bv32 + 1) << 16) | ((c1 & 0x003F) as bv32 << 10) | (c2 & 0x03FF) as bv32
  }

  /** utf16be_to_ucs4 and utf16le_to_ucs4. */
  function Utf16ToUcs4Step(s: seq<bv8>, room: nat, maxcode: bv64, e: Endian): Step<bv32> {
    if |s| < 2 || room == 0 then Short
    else
      var c1 := Unit(e, s[0], s[1]);
      if (c1 & 0xFC00) == 0xDC00 then Bad
      else if (c1 & 0xFC00) != 0xD800 then Within(2, c1 as bv32, maxcode)
      else if |s| < 4 then Short
      else
        var c2 := Unit(e, s[2], s[3]);
        if (c2 & 0xFC00) != 0xDC00 then Bad else Within(4, Joined(c1, c2), maxcode)
  }

  /** utf16be_to_ucs4_length and utf16le_to_ucs4_length. */
  function Utf16ToUcs4LengthStep(s: seq<bv8>, room: nat, maxcode: bv64, e: Endian): Advance {
    if |s| < 2 || room == 0 then Stop
    else
      var c1 := Unit(e, s[0], s[1]);
      if (c1 & 0xFC00) == 0xDC00 then Stop
      else if (c1 & 0xFC00) != 0xD800 then
        if c1 as bv64 > maxcode then Stop else Move(2, 1)
      else if |s| < 4 then Stop
      else
        var c2 := Unit(e, s[2], s[3]);
        if (c2 & 0xFC00) != 0xDC00 || Joined(c1, c2) as bv64 > maxcode then Stop else Move(4, 1)
  }

  function ToUtf16(maxcode: bv64, e: Endian): (step: (seq<bv32>, nat) -> Step<bv8>)
    ensures Sane(step)
  {
    (s: seq<bv32>, room: nat) => Ucs4ToUtf16Step(s, room, maxcode, e)
  }

  function FromUtf16(maxcode: bv64, e: Endian): (step: (seq<bv8>, nat) -> Step<bv32>)
    ensures Sane(step)
  {
    (s: seq<bv8>, room: nat) => Utf16ToUcs4Step(s, room, maxcode, e)
  }

  function FromUtf16Length(maxcode: bv64, e: Endian): (step: (seq<bv8>, nat) -> Advance)
    ensures SaneLength(step)
  {
    (s: seq<bv8>, room: nat) => Utf16ToUcs4LengthStep(s, room, maxcode, e)
  }

  /** The byte order mark in either order. */
  function Mark(e: Endian): seq<bv8> {
    if e == Big then [0xFE, 0xFF] else [0xFF, 0xFE]
  }

  function SkipMark(s: seq<bv8>, e: Endian, consumeHeader: bool): (n: nat)
    ensures n <= |s|
  {
    if consumeHeader && |s| >= 2 && s[0] == Mark(e)[0] && s[1] == Mark(e)[1] then 2 else 0
  }

  // ----- the functions

  method Utf16ToUcs4(frm: seq<bv8>, to: array<bv32>, maxcode: bv64, e: Endian, consumeHeader: bool)
    returns (verdict: Verdict, frmNxt: nat, toNxt: nat)
    modifies to
    ensures var start := SkipMark(frm, e, consumeHeader);
            var c := Convert(FromUtf16(maxcode, e), frm[start..], to.Length);
            && verdict == c.verdict && frmNxt == start + c.used
            && toNxt == |c.out| <= to.Length && to[..toNxt] == c.out && to[toNxt..] == old(to[toNxt..])
  {
    var start := SkipMark(frm, e, consumeHeader);
    verdict, frmNxt, toNxt := DriveFrom(FromUtf16(maxcode, e), frm, start, to);
  }

  method Ucs4ToUtf16(frm: seq<bv32>, to: array<bv8>, maxcode: bv64, e: Endian, generateHeader: bool)
    returns (verdict: Verdict, frmNxt: nat, toNxt: nat)
    modifies to
    ensures generateHeader && to.Length < 2 ==>
      verdict == Partial && frmNxt == 0 && toNxt == 0 && to[..] == old(to[..])
    ensures !generateHeader || to.Length >= 2 ==>
      var header := if generateHeader then Mark(e) else [];
      var c := Convert(ToUtf16(maxcode, e), frm, to.Length - |header|);
      && verdict == c.verdict && frmNxt == c.used && toNxt == |header + c.out| <= to.Length
      && to[..toNxt] == header + c.out && to[toNxt..] == old(to[toNxt..])
  {
    verdict, frmNxt, toNxt := DriveAfter(ToUtf16(maxcode, e), frm, to, if generateHeader then Mark(e) else []);
  }

  method Utf16ToUcs4Length(frm: seq<bv8>, mx: nat, maxcode: bv64, e: Endian, consumeHeader: bool) returns (n: int)
    ensures var start := SkipMark(frm, e, consumeHeader);
            n == ToInt(start + Convert(FromUtf16(maxcode, e), frm[start..], mx).used)
  {
    var start := SkipMark(frm, e, consumeHeader);
    var frmNxt := DriveLength(FromUtf16Length(maxcode, e), frm, start, mx);
    LengthIsUsed16(frm, start, mx, maxcode, e);
    n := ToInt(frmNxt);
  }

  lemma LengthIsUsed16(frm: seq<bv8>, start: nat, mx: nat, maxcode: bv64, e: Endian)
    requires start <= |frm|
    ensures Measure(FromUtf16Length(maxcode, e), frm, start, mx)
         == Convert(FromUtf16(maxcode, e), frm[start..], mx).used
  {
    LengthMirrors16(maxcode, e);
    MeasureIsUsed(FromUtf16Length(maxcode, e), FromUtf16(maxcode, e), frm, start, mx);
    ConvertShift(FromUtf16(maxcode, e), frm, start, 0, mx);
  }

  lemma LengthMirrors16(maxcode: bv64, e: Endian)
    ensures Mirrors(FromUtf16Length(maxcode, e), FromUtf16(maxcode, e))
  {
  }

  // ----- bytes and units

  function Units(e: Endian, s: seq<bv8>): (u: seq<bv16>)
    requires |s| % 2 == 0
    ensures 2 * |u| == |s|
  {
    if s == [] then [] else [Unit(e, s[0], s[1])] + Units(e, s[2..])
  }

  lemma {:induction false} UnitsAppend(e: Endian, a: seq<bv8>, b: seq<bv8>)
    requires |a| % 2 == 0 && |b| % 2 == 0
    ensures Units(e, a + b) == Units(e, a) + Units(e, b)
  {
    if a == [] {
      assert a + b == b;
    } else {
      UnitsAppend(e, a[2..], b);
      UnitsFirst(e, a, b);
    }
  }

  lemma UnitsFirst(e: Endian, a: seq<bv8>, b: seq<bv8>)
    requires |a| % 2 == 0 && |b| % 2 == 0 && a != []
    ensures Units(e, a + b) == [Unit(e, a[0], a[1])] + Units(e, a[2..] + b)
    ensures Units(e, a) == [Unit(e, a[0], a[1])] + Units(e, a[2..])
  {
    assert (a + b)[0] == a[0] && (a + b)[1] == a[1];
    assert (a + b)[2..] == a[2..] + b;
  }

  /** s is well-formed UTF-16 in the given byte order and stands for the code points cs. */
  ghost predicate IsUtf16Bytes(e: Endian, s: seq<bv8>, cs: seq<bv32>) {
    |s| % 2 == 0 && IsUtf16(Units(e, s), cs)
  }

  /** The bytes p are the UTF-16 of the code point c. */
  ghost predicate BytesSpell(e: Endian, p: seq<bv8>, c: bv32) {
    |p| > 0 && |p| % 2 == 0 && Utf16Spells(Units(e, p), c)
  }

  ghost predicate BytesChars(e: Endian, parts: seq<seq<bv8>>, cs: seq<bv32>) {
    |parts| == |cs| && forall i | 0 <= i < |parts| :: BytesSpell(e, parts[i], cs[i])
  }

  lemma {:induction false} JoinChars(e: Endian, parts: seq<seq<bv8>>, cs: seq<bv32>) returns (units: seq<seq<bv16>>)
    requires BytesChars(e, parts, cs)
    ensures |Concat(parts)| % 2 == 0 && Utf16Chars(units, cs) && Concat(units) == Units(e, Concat(parts))
  {
    if parts == [] {
      units := [];
    } else {
      var rest := JoinChars(e, parts[1..], cs[1..]);
      units := [Units(e, parts[0])] + rest;
      assert units[1..] == rest;
      UnitsAppend(e, parts[0], Concat(parts[1..]));
    }
  }

  lemma {:induction false} SplitChars(e: Endian, s: seq<bv8>, units: seq<seq<bv16>>, cs: seq<bv32>)
    returns (parts: seq<seq<bv8>>)
    requires |s| % 2 == 0 && Utf16Chars(units, cs) && Concat(units) == Units(e, s)
    ensures BytesChars(e, parts, cs) && Concat(parts) == s
    decreases |units|
  {
    if units == [] {
      parts := [];
      assert s == [];
    } else {
      Spells16Nonempty(units[0], cs[0]);
      var n := 2 * |units[0]|;
      var p, rest := s[..n], s[n..];
      assert p + rest == s;
      UnitsAppend(e, p, rest);
      assert Units(e, p) == Units(e, s)[..|units[0]|] == units[0];
      assert Units(e, rest) == Units(e, s)[|units[0]|..] == Concat(units[1..]);
      var tail := SplitChars(e, rest, units[1..], cs[1..]);
      parts := [p] + tail;
      assert parts[1..] == tail;
    }
  }

  lemma Spells16Nonempty(p: seq<bv16>, c: bv32)
    requires Utf16Spells(p, c)
    ensures 1 <= |p| <= 2
  {
    assert Utf16Meaning(p, c);
  }

  /** Byte parts and unit parts say the same. */
  lemma BytesByParts(e: Endian, s: seq<bv8>, cs: seq<bv32>)
    ensures IsUtf16Bytes(e, s, cs) <==> exists parts :: BytesChars(e, parts, cs) && Concat(parts) == s
  {
    if IsUtf16Bytes(e, s, cs) {
      var units :| Utf16Chars(units, cs) && Concat(units) == Units(e, s);
      var parts := SplitChars(e, s, units, cs);
    }
    if exists parts :: BytesChars(e, parts, cs) && Concat(parts) == s {
      var parts :| BytesChars(e, parts, cs) && Concat(parts) == s;
      var units := JoinChars(e, parts, cs);
    }
  }

  // ----- the bit patterns agree with the surrogate ranges

  lemma SurrogatesByBits(u: bv16)
    ensures HighSurrogate(u) <==> (u & 0xFC00) == 0xD800
    ensures LowSurrogate(u) <==> (u & 0xFC00) == 0xDC00
  {
  }

  lemma JoinedIsPair(hi: bv16, lo: bv16)
    requires HighSurrogate(hi) && LowSurrogate(lo)
    ensures Joined(hi, lo) == Pair(hi, lo) && 0x10000 <= Pair(hi, lo) <= 0x10FFFF
    ensures HighOf(Pair(hi, lo)) == hi && LowOf(Pair(hi, lo)) == lo
  {
  }

  lemma PairOfHalves(c: bv32)
    requires 0x10000 <= c <= 0x10FFFF
    ensures HighSurrogate(HighOf(c)) && LowSurrogate(LowOf(c)) && Pair(HighOf(c), LowOf(c)) == c
  {
    HalvesJoin(c);
    JoinedIsPair(HighOf(c), LowOf(c));
  }

  lemma HalvesJoin(c: bv32)
    requires 0x10000 <= c <= 0x10FFFF
    ensures HighSurrogate(HighOf(c)) && LowSurrogate(LowOf(c)) && Joined(HighOf(c), LowOf(c)) == c
  {
    HighHalf(c);
    LowHalf(c);
    HalvesValue(c);
  }

  lemma HighHalf(c: bv32)
    requires 0x10000 <= c <= 0x10FFFF
    ensures HighSurrogate(HighOf(c))
  {
  }

  lemma LowHalf(c: bv32)
    ensures LowSurrogate(LowOf(c))
  {
  }

  lemma HalvesValue(c: bv32)
    requires 0x10000 <= c <= 0x10FFFF
    ensures Joined(HighOf(c), LowOf(c)) == c
  {
  }

  lemma HalfBytes(t: bv16)
    ensures (((t >> 8) as bv8) as bv16 << 8) | ((t & 0xFF) as bv8) as bv16 == t
  {
  }

  lemma UnitOfBytes(e: Endian, t: bv16)
    ensures Unit(e, Bytes(e, t)[0], Bytes(e, t)[1]) == t
  {
    HalfBytes(t);
    if e == Big {
      assert Bytes(e, t)[0] == (t >> 8) as bv8 && Bytes(e, t)[1] == (t & 0xFF) as bv8;
    } else {
      assert Bytes(e, t)[1] == (t >> 8) as bv8 && Bytes(e, t)[0] == (t & 0xFF) as bv8;
    }
  }

  lemma BytesOfUnit(e: Endian, b0: bv8, b1: bv8)
    ensures Bytes(e, Unit(e, b0, b1)) == [b0, b1]
  {
    if e == Big {
      BytesOfJoined(e, b0, b1);
    } else {
      BytesOfJoined(e, b1, b0);
    }
  }

  lemma BytesOfJoined(e: Endian, hi: bv8, lo: bv8)
    ensures Bytes(e, (hi as bv16 << 8) | lo as bv16) == if e == Big then [hi, lo] else [lo, hi]
  {
    JoinedHigh(hi, lo);
    JoinedLow(hi, lo);
  }

  lemma JoinedHigh(hi: bv8, lo: bv8)
    ensures (((hi as bv16 << 8) | lo as bv16) >> 8) as bv8 == hi
  {
  }

  lemma JoinedLow(hi: bv8, lo: bv8)
    ensures (((hi as bv16 << 8) | lo as bv16) & 0xFF) as bv8 == lo
  {
  }

  // ----- one step

  lemma OneUnitSpells(u: bv16)
    requires !HighSurrogate(u) && !LowSurrogate(u)
    ensures Utf16Spells([u], u as bv32)
  {
    Spells16IsMeaning([u], u as bv32);
  }

  lemma TwoUnitsSpell(hi: bv16, lo: bv16)
    requires HighSurrogate(hi) && LowSurrogate(lo)
    ensures Utf16Spells([hi, lo], Pair(hi, lo))
  {
    Spells16IsMeaning([hi, lo], Pair(hi, lo));
  }

  lemma UnitsOfTwo(e: Endian, s: seq<bv8>)
    requires |s| == 2
    ensures Units(e, s) == [Unit(e, s[0], s[1])]
  {
  }

  lemma UnitsOfFour(e: Endian, s: seq<bv8>)
    requires |s| == 4
    ensures Units(e, s) == [Unit(e, s[0], s[1]), Unit(e, s[2], s[3])]
  {
    UnitsOfTwo(e, s[2..]);
  }

  ghost predicate TakesSpelled16(s: seq<bv8>, t: Step<bv32>, maxcode: bv64, e: Endian) {
    t.Take? ==> t.len <= |s| && |t.out| == 1 && BytesSpell(e, s[..t.len], t.out[0]) && t.out[0] as bv64 <= maxcode
  }

  lemma TakenIsSpelled16(s: seq<bv8>, r: nat, maxcode: bv64, e: Endian)
    ensures TakesSpelled16(s, Utf16ToUcs4Step(s, r, maxcode, e), maxcode, e)
  {
    if |s| >= 2 && r >= 1 {
      var c1 := Unit(e, s[0], s[1]);
      if HighSurrogate(c1) {
        TakenPairIsSpelled(s, r, maxcode, e);
      } else if LowSurrogate(c1) {
        StepRefuses(s, r, maxcode, e);
      } else {
        TakenUnitIsSpelled(s, r, maxcode, e);
      }
    }
  }

  lemma StepRefuses(s: seq<bv8>, r: nat, maxcode: bv64, e: Endian)
    requires |s| >= 2 && r >= 1 && LowSurrogate(Unit(e, s[0], s[1]))
    ensures Utf16ToUcs4Step(s, r, maxcode, e) == Bad
  {
    SurrogatesByBits(Unit(e, s[0], s[1]));
  }

  lemma TakenUnitIsSpelled(s: seq<bv8>, r: nat, maxcode: bv64, e: Endian)
    requires |s| >= 2 && r >= 1
    requires var u := Unit(e, s[0], s[1]); !HighSurrogate(u) && !LowSurrogate(u)
    ensures TakesSpelled16(s, Utf16ToUcs4Step(s, r, maxcode, e), maxcode, e)
  {
    var c1 := Unit(e, s[0], s[1]);
    StepTakesUnit(s, r, maxcode, e);
    OneUnitSpells(c1);
    UnitsOfTwo(e, s[..2]);
    WithinTakesSpelled16(s, 2, c1 as bv32, maxcode, e);
  }

  lemma TakenPairIsSpelled(s: seq<bv8>, r: nat, maxcode: bv64, e: Endian)
    requires |s| >= 2 && r >= 1 && HighSurrogate(Unit(e, s[0], s[1]))
    ensures TakesSpelled16(s, Utf16ToUcs4Step(s, r, maxcode, e), maxcode, e)
  {
    SurrogatesByBits(Unit(e, s[0], s[1]));
    if |s| >= 4 {
      var c1, c2 := Unit(e, s[0], s[1]), Unit(e, s[2], s[3]);
      SurrogatesByBits(c2);
      if LowSurrogate(c2) {
        StepTakesPair(s, r, maxcode, e);
        TwoUnitsSpell(c1, c2);
        UnitsOfFour(e, s[..4]);
        WithinTakesSpelled16(s, 4, Pair(c1, c2), maxcode, e);
      }
    }
  }

  lemma WithinTakesSpelled16(s: seq<bv8>, n: nat, v: bv32, maxcode: bv64, e: Endian)
    requires n <= |s| && BytesSpell(e, s[..n], v)
    ensures TakesSpelled16(s, Within(n, v, maxcode), maxcode, e)
  {
  }

  lemma StepHasRead16(p: seq<bv8>, o: seq<bv32>, maxcode: bv64, e: Endian)
    requires HasRead(FromUtf16(maxcode, e), p, o)
    ensures |o| == 1 && BytesSpell(e, p, o[0]) && o[0] as bv64 <= maxcode
  {
    assert ReadSomewhere(FromUtf16(maxcode, e), p, o);
    var more, r: nat :| FromUtf16(maxcode, e)(p + more, r) == Take(|p|, o);
    TakenIsSpelled16(p + more, r, maxcode, e);
    assert (p + more)[..|p|] == p;
  }

  lemma StepReads16(p: seq<bv8>, c: bv32, maxcode: bv64, e: Endian)
    requires BytesSpell(e, p, c) && c as bv64 <= maxcode
    ensures Reads(FromUtf16(maxcode, e), p, [c])
  {
    if |p| == 2 {
      StepReadsUnit(p, c, maxcode, e);
    } else {
      Spells16Nonempty(Units(e, p), c);
      StepReadsPair(p, c, maxcode, e);
    }
  }

  lemma StepReadsUnit(p: seq<bv8>, c: bv32, maxcode: bv64, e: Endian)
    requires |p| == 2 && Utf16Spells(Units(e, p), c) && c as bv64 <= maxcode
    ensures Reads(FromUtf16(maxcode, e), p, [c])
  {
    var u := UnitMeaning(p, c, e);
    forall more, r: nat | r >= 1
      ensures FromUtf16(maxcode, e)(p + more, r) == Take(2, [c])
    {
      StepReadsOne(p + more, u, r, c, maxcode, e);
    }
  }

  lemma UnitMeaning(p: seq<bv8>, c: bv32, e: Endian) returns (u: bv16)
    requires |p| == 2 && Utf16Spells(Units(e, p), c)
    ensures u == Unit(e, p[0], p[1]) && c == u as bv32 && !HighSurrogate(u) && !LowSurrogate(u)
  {
    u := Unit(e, p[0], p[1]);
    UnitsOfTwo(e, p);
    OneUnitMeaning(u, c);
  }

  lemma StepReadsOne(s: seq<bv8>, u: bv16, r: nat, c: bv32, maxcode: bv64, e: Endian)
    requires |s| >= 2 && r >= 1 && c as bv64 <= maxcode
    requires u == Unit(e, s[0], s[1]) && c == u as bv32 && !HighSurrogate(u) && !LowSurrogate(u)
    ensures Utf16ToUcs4Step(s, r, maxcode, e) == Take(2, [c])
  {
    StepTakesUnit(s, r, maxcode, e);
    WithinTakes(2, c, maxcode);
  }

  lemma WithinTakes(n: nat, c: bv32, maxcode: bv64)
    requires c as bv64 <= maxcode
    ensures Within(n, c, maxcode) == Take(n, [c])
  {
  }

  lemma StepReadsPair(p: seq<bv8>, c: bv32, maxcode: bv64, e: Endian)
    requires |p| == 4 && Utf16Spells(Units(e, p), c) && c as bv64 <= maxcode
    ensures Reads(FromUtf16(maxcode, e), p, [c])
  {
    UnitsOfFour(e, p);
    TwoUnitMeaning(Unit(e, p[0], p[1]), Unit(e, p[2], p[3]), c);
    forall more, r: nat | r >= 1
      ensures FromUtf16(maxcode, e)(p + more, r) == Take(4, [c])
    {
      StepTakesPair(p + more, r, maxcode, e);
      assert Within(4, c, maxcode) == Take(4, [c]);
    }
  }

  lemma OneUnitMeaning(u: bv16, c: bv32)
    requires Utf16Spells([u], c)
    ensures !HighSurrogate(u) && !LowSurrogate(u) && c == u as bv32
  {
    assert Utf16Meaning([u], c);
  }

  lemma TwoUnitMeaning(hi: bv16, lo: bv16, c: bv32)
    requires Utf16Spells([hi, lo], c)
    ensures HighSurrogate(hi) && LowSurrogate(lo) && c == Pair(hi, lo)
  {
    assert Utf16Meaning([hi, lo], c);
  }

  lemma StepTakesUnit(s: seq<bv8>, r: nat, maxcode: bv64, e: Endian)
    requires |s| >= 2 && r >= 1
    requires var u := Unit(e, s[0], s[1]); !HighSurrogate(u) && !LowSurrogate(u)
    ensures Utf16ToUcs4Step(s, r, maxcode, e) == Within(2, Unit(e, s[0], s[1]) as bv32, maxcode)
  {
    SurrogatesByBits(Unit(e, s[0], s[1]));
  }

  lemma StepTakesPair(s: seq<bv8>, r: nat, maxcode: bv64, e: Endian)
    requires |s| >= 4 && r >= 1
    requires HighSurrogate(Unit(e, s[0], s[1])) && LowSurrogate(Unit(e, s[2], s[3]))
    ensures Utf16ToUcs4Step(s, r, maxcode, e)
         == Within(4, Pair(Unit(e, s[0], s[1]), Unit(e, s[2], s[3])), maxcode)
  {
    SurrogatesByBits(Unit(e, s[0], s[1]));
    SurrogatesByBits(Unit(e, s[2], s[3]));
    JoinedIsPair(Unit(e, s[0], s[1]), Unit(e, s[2], s[3]));
  }

  // ----- what the decoder decides

  lemma AllRead16(parts: seq<seq<bv8>>, outs: seq<seq<bv32>>, maxcode: bv64, e: Endian)
    requires |parts| == |outs| && forall i | 0 <= i < |parts| :: HasRead(FromUtf16(maxcode, e), parts[i], outs[i])
    ensures IsUtf16Bytes(e, Concat(parts), Concat(outs)) && AllWithin(Concat(outs), maxcode)
  {
    forall i | 0 <= i < |parts|
      ensures |outs[i]| == 1 && BytesSpell(e, parts[i], outs[i][0]) && outs[i][0] as bv64 <= maxcode
    {
      StepHasRead16(parts[i], outs[i], maxcode, e);
    }
    SinglesOf(outs);
    assert BytesChars(e, parts, Concat(outs));
    BytesByParts(e, Concat(parts), Concat(outs));
  }

  lemma DecodeAccepts16(s: seq<bv8>, room: nat, maxcode: bv64, e: Endian, cs: seq<bv32>)
    requires IsUtf16Bytes(e, s, cs) && |cs| <= room && AllWithin(cs, maxcode)
    ensures Convert(FromUtf16(maxcode, e), s, room) == Converted(Ok, |s|, cs)
  {
    BytesByParts(e, s, cs);
    var parts :| BytesChars(e, parts, cs) && Concat(parts) == s;
    ConcatSingles(cs);
    forall i | 0 <= i < |parts|
      ensures Reads(FromUtf16(maxcode, e), parts[i], Singles(cs)[i])
    {
      StepReads16(parts[i], cs[i], maxcode, e);
    }
    ConvertParts(FromUtf16(maxcode, e), parts, Singles(cs), room);
  }

  /** The decoder returns ok exactly on well-formed UTF-16 whose code points are within the limit,
      and its output is exactly those code points. */
  lemma DecodeExact16(s: seq<bv8>, room: nat, maxcode: bv64, e: Endian, cs: seq<bv32>)
    ensures Convert(FromUtf16(maxcode, e), s, room) == Converted(Ok, |s|, cs)
       <==> IsUtf16Bytes(e, s, cs) && |cs| <= room && AllWithin(cs, maxcode)
  {
    if Convert(FromUtf16(maxcode, e), s, room) == Converted(Ok, |s|, cs) {
      var parts, outs := ConvertSplits(FromUtf16(maxcode, e), s, 0, room);
      assert s[0..|s|] == s;
      AllRead16(parts, outs, maxcode, e);
    } else if IsUtf16Bytes(e, s, cs) && |cs| <= room && AllWithin(cs, maxcode) {
      DecodeAccepts16(s, room, maxcode, e, cs);
    }
  }

  /** The input ends inside a unit or after a high surrogate. */
  predicate EndsInside16(s: seq<bv8>, e: Endian) {
    |s| < 2 || (|s| < 4 && HighSurrogate(Unit(e, s[0], s[1])))
  }

  lemma ShortMeans16(s: seq<bv8>, r: nat, maxcode: bv64, e: Endian)
    requires r >= 1 && Utf16ToUcs4Step(s, r, maxcode, e) == Short
    ensures EndsInside16(s, e)
  {
    if |s| >= 2 {
      SurrogatesByBits(Unit(e, s[0], s[1]));
    }
  }

  /** Partial means that the output is full or that the input ends so. */
  lemma DecodePartial16(s: seq<bv8>, room: nat, maxcode: bv64, e: Endian)
    requires Convert(FromUtf16(maxcode, e), s, room).verdict == Partial
    ensures var c := Convert(FromUtf16(maxcode, e), s, room);
            |c.out| == room || EndsInside16(s[c.used..], e)
  {
    var c := Convert(FromUtf16(maxcode, e), s, room);
    PartialStop(FromUtf16(maxcode, e), s, room);
    if |c.out| < room {
      ShortMeans16(s[c.used..], room - |c.out|, maxcode, e);
    }
  }

  /** Error means that no continuation of the input has an acceptable character at this place. */
  lemma DecodeError16(s: seq<bv8>, room: nat, maxcode: bv64, e: Endian, p: seq<bv8>, v: bv32, more: seq<bv8>)
    requires Convert(FromUtf16(maxcode, e), s, room).verdict == Error
    requires BytesSpell(e, p, v) && v as bv64 <= maxcode
    ensures !(p <= s[Convert(FromUtf16(maxcode, e), s, room).used..] + more)
  {
    var c := Convert(FromUtf16(maxcode, e), s, room);
    ErrorStop(FromUtf16(maxcode, e), s, room);
    if p <= s[c.used..] + more {
      BadIsFinal16(s[c.used..], p, v, more, room - |c.out|, maxcode, e);
    }
  }

  lemma BadIsFinal16(rest: seq<bv8>, p: seq<bv8>, v: bv32, more: seq<bv8>, r: nat, maxcode: bv64, e: Endian)
    requires BytesSpell(e, p, v) && v as bv64 <= maxcode && p <= rest + more
    ensures Utf16ToUcs4Step(rest, r, maxcode, e) != Bad
  {
    Spells16Nonempty(Units(e, p), v);
    if r >= 1 && |p| <= |rest| {
      StepReads16(p, v, maxcode, e);
      assert rest == p + rest[|p|..];
      assert FromUtf16(maxcode, e)(p + rest[|p|..], r) == Take(|p|, [v]);
    } else if r >= 1 && |rest| >= 2 {
      PairBegins(e, p, v);
      assert rest[0] == (rest + more)[0] == p[0] && rest[1] == (rest + more)[1] == p[1];
      SurrogatesByBits(Unit(e, rest[0], rest[1]));
    }
  }

  lemma PairBegins(e: Endian, p: seq<bv8>, v: bv32)
    requires BytesSpell(e, p, v) && |p| > 2
    ensures |p| == 4 && HighSurrogate(Unit(e, p[0], p[1]))
  {
    Spells16Nonempty(Units(e, p), v);
    UnitsOfFour(e, p);
    TwoUnitMeaning(Unit(e, p[0], p[1]), Unit(e, p[2], p[3]), v);
  }

  // ----- what the encoder writes

  /** The units of one code point, by section 2.1 of RFC 2781. */
  function Utf16Of(c: bv32): (u: seq<bv16>)
    requires Scalar(c)
  {
    if c < 0x10000 then [Low16(c)]
    else [0xD800 + Low16((c - 0x10000) >> 10), 0xDC00 + Low16((c - 0x10000) & 0x3FF)]
  }

  lemma HalvesByArithmetic(c: bv32)
    requires 0x10000 <= c <= 0x10FFFF
    ensures HighOf(c) == 0xD800 + Low16((c - 0x10000) >> 10)
    ensures LowOf(c) == 0xDC00 + Low16((c - 0x10000) & 0x3FF)
  {
  }

  lemma OfUnit(c: bv32)
    requires c < 0x10000 && Scalar(c)
    ensures Utf16Of(c) == [Low16(c)] && !HighSurrogate(Low16(c)) && !LowSurrogate(Low16(c)) && Low16(c) as bv32 == c
  {
    SmallScalar(c);
  }

  lemma SmallScalar(c: bv32)
    requires c < 0x10000 && Scalar(c)
    ensures !HighSurrogate(Low16(c)) && !LowSurrogate(Low16(c)) && Low16(c) as bv32 == c
  {
    SmallValue(c);
    SmallNoSurrogate(c);
  }

  lemma SmallValue(c: bv32)
    requires c < 0x10000
    ensures Low16(c) as bv32 == c
  {
  }

  lemma SmallNoSurrogate(c: bv32)
    requires c < 0x10000 && Scalar(c)
    ensures !HighSurrogate(Low16(c)) && !LowSurrogate(Low16(c))
  {
  }

  lemma OfPair(c: bv32)
    requires 0x10000 <= c <= 0x10FFFF
    ensures Utf16Of(c) == [HighOf(c), LowOf(c)]
  {
    HalvesByArithmetic(c);
  }

  /** The units of a scalar value stand for it. */
  lemma Utf16OfSpells(c: bv32)
    requires Scalar(c)
    ensures Utf16Spells(Utf16Of(c), c) && |Utf16Of(c)| <= 2
  {
    if c < 0x10000 {
      OfUnit(c);
      OneUnitSpells(Low16(c));
    } else {
      OfPair(c);
      PairOfHalves(c);
      TwoUnitsSpell(HighOf(c), LowOf(c));
    }
  }

  lemma UnitUnique(u: bv16)
    requires !HighSurrogate(u) && !LowSurrogate(u)
    ensures Scalar(u as bv32) && Utf16Of(u as bv32) == [u]
  {
    UnitIsScalar(u);
    OfUnit(u as bv32);
  }

  lemma UnitIsScalar(u: bv16)
    requires !HighSurrogate(u) && !LowSurrogate(u)
    ensures Scalar(u as bv32) && u as bv32 < 0x10000 && Low16(u as bv32) == u
  {
  }

  lemma PairUnique(hi: bv16, lo: bv16)
    requires HighSurrogate(hi) && LowSurrogate(lo)
    ensures Scalar(Pair(hi, lo)) && Utf16Of(Pair(hi, lo)) == [hi, lo]
  {
    JoinedIsPair(hi, lo);
    OfPair(Pair(hi, lo));
  }

  /** They are the only units that do. */
  lemma Utf16OfUnique(p: seq<bv16>, c: bv32)
    requires Utf16Spells(p, c)
    ensures Scalar(c) && Utf16Of(c) == p
  {
    Spells16Nonempty(p, c);
    if |p| == 1 {
      assert p == [p[0]];
      OneUnitMeaning(p[0], c);
      UnitUnique(p[0]);
    } else {
      assert p == [p[0], p[1]];
      TwoUnitMeaning(p[0], p[1], c);
      PairUnique(p[0], p[1]);
    }
  }

  /** The bytes of a sequence of units. */
  function Serialize(e: Endian, u: seq<bv16>): (s: seq<bv8>)
    ensures |s| == 2 * |u|
  {
    if u == [] then [] else Bytes(e, u[0]) + Serialize(e, u[1..])
  }

  lemma {:induction false} UnitsOfSerialize(e: Endian, u: seq<bv16>)
    ensures Units(e, Serialize(e, u)) == u
  {
    if u != [] {
      UnitsOfSerialize(e, u[1..]);
      UnitOfBytes(e, u[0]);
      UnitsHead(e, Bytes(e, u[0]), u[0], Serialize(e, u[1..]));
    }
  }

  lemma {:induction false} UnitsHead(e: Endian, p: seq<bv8>, x: bv16, s: seq<bv8>)
    requires |p| == 2 && Unit(e, p[0], p[1]) == x && |s| % 2 == 0
    ensures Units(e, p + s) == [x] + Units(e, s)
  {
    assert (p + s)[0] == p[0] && (p + s)[1] == p[1] && (p + s)[2..] == s;
  }

  lemma {:induction false} SerializeOfUnits(e: Endian, s: seq<bv8>)
    requires |s| % 2 == 0
    ensures Serialize(e, Units(e, s)) == s
  {
    if s != [] {
      SerializeOfUnits(e, s[2..]);
      BytesOfUnit(e, s[0], s[1]);
      assert Units(e, s)[1..] == Units(e, s[2..]);
    }
  }

  lemma SerializeOne(e: Endian, a: bv16)
    ensures Serialize(e, [a]) == Bytes(e, a)
  {
    assert Serialize(e, [a][1..]) == [];
  }

  lemma SerializeTwo(e: Endian, a: bv16, b: bv16)
    ensures Serialize(e, [a, b]) == Bytes(e, a) + Bytes(e, b)
  {
    assert [a, b][1..] == [b];
    SerializeOne(e, b);
  }

  lemma EncodeCharIsUtf16Of(wc: bv32, r: nat, maxcode: bv64, e: Endian)
    requires Scalar(wc)
    ensures EncodeChar(wc, r, maxcode, e)
         == if wc as bv64 > maxcode then Bad
            else if r < 2 * |Utf16Of(wc)| then Short else Take(1, Serialize(e, Utf16Of(wc)))
  {
    NoSurrogateBits(wc);
    if wc < 0x10000 {
      OfUnit(wc);
      SerializeOne(e, Low16(wc));
    } else {
      OfPair(wc);
      SerializeTwo(e, HighOf(wc), LowOf(wc));
    }
  }

  lemma EncodeReads16(c: bv32, p: seq<bv8>, maxcode: bv64, e: Endian)
    requires BytesSpell(e, p, c) && c as bv64 <= maxcode
    ensures Reads(ToUtf16(maxcode, e), [c], p)
  {
    Utf16OfUnique(Units(e, p), c);
    SerializeOfUnits(e, p);
    forall more, r: nat | r >= |p|
      ensures ToUtf16(maxcode, e)([c] + more, r) == Take(1, p)
    {
      EncodeCharIsUtf16Of(c, r, maxcode, e);
    }
  }

  lemma EncodeAccepts16(cs: seq<bv32>, s: seq<bv8>, room: nat, maxcode: bv64, e: Endian)
    requires IsUtf16Bytes(e, s, cs) && |s| <= room && AllWithin(cs, maxcode)
    ensures Convert(ToUtf16(maxcode, e), cs, room) == Converted(Ok, |cs|, s)
  {
    BytesByParts(e, s, cs);
    var parts :| BytesChars(e, parts, cs) && Concat(parts) == s;
    ConcatSingles(cs);
    forall i | 0 <= i < |parts|
      ensures Reads(ToUtf16(maxcode, e), Singles(cs)[i], parts[i])
    {
      EncodeReads16(cs[i], parts[i], maxcode, e);
    }
    ConvertParts(ToUtf16(maxcode, e), Singles(cs), parts, room);
  }

  // ----- every code point, every limit

  /** The units that the encoders write for a code point that they do not refuse. */
  function Halves(wc: bv32): seq<bv16> {
    if wc < 0x10000 then [Low16(wc)] else [HighOf(wc), LowOf(wc)]
  }

  function Written16(e: Endian): bv32 -> seq<bv8> {
    (wc: bv32) => Serialize(e, Halves(wc))
  }

  lemma EncodeCharByRoom16(wc: bv32, r: nat, maxcode: bv64, e: Endian)
    ensures EncodeChar(wc, r, maxcode, e) == EncodeOne(Refused(wc, maxcode), Serialize(e, Halves(wc)), r)
  {
    SurrogateBits(wc);
    if wc < 0x10000 {
      SerializeOne(e, Low16(wc));
    } else {
      SerializeTwo(e, HighOf(wc), LowOf(wc));
    }
  }

  lemma ToUtf16Encodes(maxcode: bv64, e: Endian)
    ensures Encodes(ToUtf16(maxcode, e), Refuses(maxcode), Written16(e))
  {
    forall s: seq<bv32>, r: nat | s != []
      ensures ToUtf16(maxcode, e)(s, r) == EncodeOne(Refused(s[0], maxcode), Serialize(e, Halves(s[0])), r)
    {
      EncodeCharByRoom16(s[0], r, maxcode, e);
    }
  }

  /** Error means that the next code point is a surrogate or beyond the limit; partial, that it is
      neither and its units do not fit. */
  lemma EncodeStops16(cs: seq<bv32>, room: nat, maxcode: bv64, e: Endian)
    ensures var c := Convert(ToUtf16(maxcode, e), cs, room);
            && (forall i | 0 <= i < c.used :: !Refused(cs[i], maxcode))
            && (c.verdict == Error ==> Refused(cs[c.used], maxcode))
            && (c.verdict == Partial ==>
                  !Refused(cs[c.used], maxcode) && |c.out| + (if cs[c.used] < 0x10000 then 2 else 4) > room)
  {
    var c := Convert(ToUtf16(maxcode, e), cs, room);
    ToUtf16Encodes(maxcode, e);
    EncodesAll(ToUtf16(maxcode, e), Refuses(maxcode), Written16(e), cs, room);
    forall i | 0 <= i < c.used ensures !Refused(cs[i], maxcode) { assert !Refuses(maxcode)(cs[i]); }
  }

  /** The part of a code point that its units hold. */
  function Kept16(wc: bv32): bv32 {
    if wc < 0x10000 then wc else wc & 0x1FFFFF
  }

  /** The units are well-formed: the part kept needs as many of them and is not beyond 0x10FFFF. */
  predicate Keeps16(wc: bv32) {
    wc < 0x10000 || 0x10000 <= Kept16(wc) <= 0x10FFFF
  }

  lemma HighKept(wc: bv32)
    ensures HighOf(wc) == HighOf(wc & 0x1FFFFF)
  {
  }

  lemma LowKept(wc: bv32)
    ensures LowOf(wc) == LowOf(wc & 0x1FFFFF)
  {
  }

  lemma KeptSpelled16(wc: bv32)
    requires Keeps16(wc) && !(0xD800 <= wc <= 0xDFFF)
    ensures Utf16Spells(Halves(wc), Kept16(wc))
  {
    if wc < 0x10000 {
      UnitKept(wc);
    } else {
      PairKept(wc, Kept16(wc));
    }
  }

  lemma UnitKept(wc: bv32)
    requires wc < 0x10000 && Scalar(wc)
    ensures Utf16Spells(Halves(wc), wc)
  {
    OfUnit(wc);
    Utf16OfSpells(wc);
  }

  lemma PairKept(wc: bv32, k: bv32)
    requires wc >= 0x10000 && k == wc & 0x1FFFFF && 0x10000 <= k <= 0x10FFFF
    ensures Utf16Spells(Halves(wc), k)
  {
    HighKept(wc);
    LowKept(wc);
    PairOfHalves(k);
    TwoUnitsSpell(HighOf(k), LowOf(k));
  }

  lemma LostHigh(wc: bv32)
    requires !(0x10000 <= wc & 0x1FFFFF <= 0x10FFFF)
    ensures !HighSurrogate(HighOf(wc))
  {
  }

  lemma BytesPut(e: Endian, u: bv16, more: seq<bv8>)
    ensures var s := Bytes(e, u) + more; |s| >= 2 && Unit(e, s[0], s[1]) == u
  {
    UnitOfBytes(e, u);
    UnitAhead(e, Bytes(e, u), u, more);
  }

  lemma UnitAhead(e: Endian, p: seq<bv8>, u: bv16, more: seq<bv8>)
    requires |p| == 2 && Unit(e, p[0], p[1]) == u
    ensures Unit(e, (p + more)[0], (p + more)[1]) == u
  {
    assert (p + more)[0] == p[0] && (p + more)[1] == p[1];
  }

  /** A low surrogate at the start ends the decoding. */
  lemma LowBreaks(e: Endian, lo: bv16, more: seq<bv8>, r: nat)
    requires LowSurrogate(lo)
    ensures Convert(FromUtf16(NO_LIMIT, e), Bytes(e, lo) + more, r).verdict != Ok
  {
    var s := Bytes(e, lo) + more;
    BytesPut(e, lo, more);
    assert s[0..] == s;
    if r >= 1 {
      StepRefuses(s, r, NO_LIMIT, e);
    }
  }

  /** So does one that follows something else than a high surrogate. */
  lemma LoneLowBreaks(e: Endian, hi: bv16, lo: bv16, more: seq<bv8>, r: nat)
    requires !HighSurrogate(hi) && LowSurrogate(lo)
    ensures Convert(FromUtf16(NO_LIMIT, e), Bytes(e, hi) + (Bytes(e, lo) + more), r).verdict != Ok
  {
    var p, rest := Bytes(e, hi), Bytes(e, lo) + more;
    if LowSurrogate(hi) {
      LowBreaks(e, hi, rest, r);
    } else if r >= 1 {
      var o := UnitRead(e, hi, p, rest, r);
      ConvertFirst(FromUtf16(NO_LIMIT, e), p, rest, o, r);
      LowBreaks(e, lo, more, r - 1);
    } else {
      assert (p + rest)[0..] == p + rest;
    }
  }

  lemma UnitRead(e: Endian, u: bv16, p: seq<bv8>, more: seq<bv8>, r: nat) returns (o: seq<bv32>)
    requires !HighSurrogate(u) && !LowSurrogate(u) && p == Bytes(e, u) && r >= 1
    ensures |p| == 2 && |o| == 1 && FromUtf16(NO_LIMIT, e)(p + more, r) == Take(2, o)
  {
    o := [u as bv32];
    BytesPut(e, u, more);
    AnyWithin(u as bv32);
    StepReadsOne(p + more, u, r, u as bv32, NO_LIMIT, e);
  }

  lemma LostBreaks16(wc: bv32, e: Endian)
    requires wc >= 0x10000 && !Keeps16(wc)
    ensures Breaks(FromUtf16(NO_LIMIT, e), Serialize(e, Halves(wc)))
  {
    LostHigh(wc);
    LowHalf(wc);
    SerializeTwo(e, HighOf(wc), LowOf(wc));
    forall more, r: nat
      ensures Convert(FromUtf16(NO_LIMIT, e), Serialize(e, Halves(wc)) + more, r).verdict != Ok
    {
      LoneLowBreaks(e, HighOf(wc), LowOf(wc), more, r);
      assert Serialize(e, Halves(wc)) + more == Bytes(e, HighOf(wc)) + (Bytes(e, LowOf(wc)) + more);
    }
  }

  lemma HalvesUndone(wc: bv32, e: Endian)
    requires !(0xD800 <= wc <= 0xDFFF)
    ensures Undone(FromUtf16(NO_LIMIT, e), Serialize(e, Halves(wc)), Keeps16(wc), Kept16(wc))
  {
    if Keeps16(wc) {
      KeptSpelled16(wc);
      UnitsOfSerialize(e, Halves(wc));
      AnyWithin(Kept16(wc));
      StepReads16(Serialize(e, Halves(wc)), Kept16(wc), NO_LIMIT, e);
    } else {
      LostBreaks16(wc, e);
    }
  }

  /** For every limit, verdict and input: the output is well-formed exactly if the 21 bits kept of each
      code point beyond 0xFFFF are within 0x10000 and 0x10FFFF, and then stands for what was kept. */
  lemma EncodeMeans16(cs: seq<bv32>, xs: seq<bv32>, room: nat, maxcode: bv64, e: Endian)
    ensures var c := Convert(ToUtf16(maxcode, e), cs, room);
            IsUtf16Bytes(e, c.out, xs)
            <==> |xs| == c.used && forall i | 0 <= i < c.used :: Keeps16(cs[i]) && xs[i] == Kept16(cs[i])
  {
    var c := Convert(ToUtf16(maxcode, e), cs, room);
    EncodedText16(cs, room, maxcode, e);
    TextMeans16(cs[..c.used], xs, e);
  }

  /** The output is the texts of the code points consumed, none of which is a surrogate. */
  lemma EncodedText16(cs: seq<bv32>, room: nat, maxcode: bv64, e: Endian)
    ensures var c := Convert(ToUtf16(maxcode, e), cs, room);
            && c.out == Texts(Written16(e), cs[..c.used])
            && forall i | 0 <= i < |cs[..c.used]| :: !(0xD800 <= cs[..c.used][i] <= 0xDFFF)
  {
    EncodeStops16(cs, room, maxcode, e);
    ToUtf16Encodes(maxcode, e);
    EncodesAll(ToUtf16(maxcode, e), Refuses(maxcode), Written16(e), cs, room);
  }

  lemma TextMeans16(cs: seq<bv32>, xs: seq<bv32>, e: Endian)
    requires forall i | 0 <= i < |cs| :: !(0xD800 <= cs[i] <= 0xDFFF)
    ensures IsUtf16Bytes(e, Texts(Written16(e), cs), xs)
       <==> |xs| == |cs| && forall i | 0 <= i < |cs| :: Keeps16(cs[i]) && xs[i] == Kept16(cs[i])
  {
    forall i | 0 <= i < |cs|
      ensures Undone(FromUtf16(NO_LIMIT, e), Written16(e)(cs[i]), Keeps16(cs[i]), Kept16(cs[i]))
    {
      HalvesUndone(cs[i], e);
    }
    var room := |cs| + |xs|;
    UndoneExactly(FromUtf16(NO_LIMIT, e), Written16(e), Keeps16, Kept16, cs, xs, room);
    DecodeExact16(Texts(Written16(e), cs), room, NO_LIMIT, e, xs);
    forall i | 0 <= i < |xs| ensures xs[i] as bv64 <= NO_LIMIT { AnyWithin(xs[i]); }
  }

  /** The output is the UTF-16 of the input consumed exactly if that has no code point beyond 0x10FFFF. */
  lemma EncodeFaithful16(cs: seq<bv32>, room: nat, maxcode: bv64, e: Endian)
    ensures var c := Convert(ToUtf16(maxcode, e), cs, room);
            IsUtf16Bytes(e, c.out, cs[..c.used]) <==> forall i | 0 <= i < c.used :: cs[i] <= 0x10FFFF
  {
    var c := Convert(ToUtf16(maxcode, e), cs, room);
    EncodeMeans16(cs, cs[..c.used], room, maxcode, e);
    forall i | 0 <= i < c.used
      ensures Keeps16(cs[i]) && cs[i] == Kept16(cs[i]) <==> cs[i] <= 0x10FFFF
    {
      KeptWhole16(cs[i]);
    }
  }

  lemma KeptWhole16(wc: bv32)
    ensures Keeps16(wc) && wc == Kept16(wc) <==> wc <= 0x10FFFF
  {
    if wc <= 0x10FFFF {
      LowBits16(wc);
    }
  }

  lemma LowBits16(wc: bv32)
    requires wc <= 0x10FFFF
    ensures wc & 0x1FFFFF == wc
  {
  }

  /** With a limit of at most 0x10FFFF, ok means that the output is the UTF-16 of the input. */
  lemma EncodeExact16(cs: seq<bv32>, s: seq<bv8>, room: nat, maxcode: bv64, e: Endian)
    requires maxcode <= MAX_CODE
    ensures Convert(ToUtf16(maxcode, e), cs, room) == Converted(Ok, |cs|, s)
       <==> IsUtf16Bytes(e, s, cs) && |s| <= room && AllWithin(cs, maxcode)
  {
    if Convert(ToUtf16(maxcode, e), cs, room) == Converted(Ok, |cs|, s) {
      EncodeStops16(cs, room, maxcode, e);
      forall i | 0 <= i < |cs| ensures cs[i] as bv64 <= maxcode && cs[i] <= 0x10FFFF { WithinMax(cs[i], maxcode); }
      EncodeFaithful16(cs, room, maxcode, e);
      assert cs[..|cs|] == cs;
    } else if IsUtf16Bytes(e, s, cs) && |s| <= room && AllWithin(cs, maxcode) {
      EncodeAccepts16(cs, s, room, maxcode, e);
    }
  }

  /** Beyond 0x10FFFF the limit no longer keeps the output well-formed: 0x110000 is written as two low
      surrogates, which are the UTF-16 of nothing. */
  lemma EncodeBeyond16(maxcode: bv64, e: Endian, cs: seq<bv32>)
    requires maxcode > MAX_CODE
    ensures var s := Serialize(e, [0xDC00, 0xDC00]);
            Convert(ToUtf16(maxcode, e), [0x110000], 4) == Converted(Ok, 1, s) && !IsUtf16Bytes(e, s, cs)
  {
    var input: seq<bv32>, s := [0x110000], Serialize(e, [0xDC00, 0xDC00]);
    SerializeTwo(e, 0xDC00, 0xDC00);
    assert input[0..] == input && input[1..] == [];
    assert Ucs4ToUtf16Step(input, 4, maxcode, e) == Take(1, s);
    ConvertFirst(ToUtf16(maxcode, e), input, [], s, 4);
    EncodeMeans16(input, cs, 4, maxcode, e);
    assert !Keeps16(input[0]);
  }

  /** Encoding and then decoding is the identity on every sequence of scalar values. */
  lemma RoundTrip16(cs: seq<bv32>, room: nat, e: Endian)
    requires forall i | 0 <= i < |cs| :: Scalar(cs[i])
    requires room >= 4 * |cs|
    ensures var d := Convert(ToUtf16(MAX_CODE, e), cs, room);
            d.verdict == Ok && Convert(FromUtf16(MAX_CODE, e), d.out, |cs|) == Converted(Ok, |d.out|, cs)
  {
    var u := Utf16Exists(cs);
    var s := Serialize(e, u);
    UnitsOfSerialize(e, u);
    EncodeAccepts16(cs, s, room, MAX_CODE, e);
    DecodeAccepts16(s, |cs|, MAX_CODE, e, cs);
  }

  // ----- the byte order mark

  /** The mark is the bytes of U+FEFF in either order, and exactly a text that starts with it is decoded
      after it, if it is to be consumed. */
  lemma MarkMeaning(s: seq<bv8>, e: Endian, consume: bool)
    ensures Mark(e) == Bytes(e, 0xFEFF) == if e == Big then [0xFE, 0xFF] else [0xFF, 0xFE]
    ensures SkipMark(s, e, consume) == if consume && Mark(e) <= s then 2 else 0
  {
  }

  /** U+1D11E by section 2.1 of RFC 2781. */
  lemma PairExample()
    ensures Utf16Spells([0xD834, 0xDD1E], 0x1D11E)
  {
    Spells16IsMeaning([0xD834, 0xDD1E], 0x1D11E);
  }

  /** Through the buffers: any sequence of scalar values, written with or without a mark and read in the same
      mode, comes back. */
  method ThereAndBack16(cs: seq<bv32>, e: Endian, mark: bool) returns (there: Verdict, back: Verdict, got: seq<bv32>)
    requires forall i | 0 <= i < |cs| :: Scalar(cs[i])
    ensures there == back == Ok && got == cs
  {
    var octets;
    ghost var s;
    there, octets, s := There16(cs, e, mark);
    back, got := Back16From(octets, |cs|, e, mark, s, cs);
  }

  method There16(cs: seq<bv32>, e: Endian, mark: bool) returns (verdict: Verdict, written: seq<bv8>, ghost s: seq<bv8>)
    requires forall i | 0 <= i < |cs| :: Scalar(cs[i])
    ensures verdict == Ok && written == (if mark then Mark(e) else []) + s && IsUtf16Bytes(e, s, cs) && AllWithin(cs, MAX_CODE)
  {
    var octets := new bv8[4 * |cs| + 2];
    ghost var room := if mark then octets.Length - 2 else octets.Length;
    RoundTrip16(cs, room, e);
    s := Convert(ToUtf16(MAX_CODE, e), cs, room).out;
    EncodeExact16(cs, s, room, MAX_CODE, e);
    var used, n;
    verdict, used, n := Ucs4ToUtf16(cs, octets, MAX_CODE, e, mark);
    written := octets[..n];
  }

  method Back16From(octets: seq<bv8>, n: nat, e: Endian, mark: bool, ghost s: seq<bv8>, ghost cs: seq<bv32>)
    returns (verdict: Verdict, got: seq<bv32>)
    requires octets == (if mark then Mark(e) else []) + s && IsUtf16Bytes(e, s, cs) && n == |cs| && AllWithin(cs, MAX_CODE)
    ensures verdict == Ok && got == cs
  {
    var codes := new bv32[n];
    MarkSkipped16(s, e, mark);
    DecodeAccepts16(s, n, MAX_CODE, e, cs);
    var used, m;
    verdict, used, m := Utf16ToUcs4(octets, codes, MAX_CODE, e, mark);
    got := codes[..m];
  }

  lemma MarkSkipped16(s: seq<bv8>, e: Endian, mark: bool)
    ensures var t := (if mark then Mark(e) else []) + s; t[SkipMark(t, e, mark)..] == s
  {
  }

  /** Every sequence of scalar values has a UTF-16 form, of at most two units each. */
  lemma Utf16Exists(cs: seq<bv32>) returns (u: seq<bv16>)
    requires forall i | 0 <= i < |cs| :: Scalar(cs[i])
    ensures IsUtf16(u, cs) && |u| <= 2 * |cs| && AllWithin(cs, MAX_CODE)
  {
    var parts := seq(|cs|, i requires 0 <= i < |cs| => Utf16Of(cs[i]));
    forall i | 0 <= i < |cs|
      ensures Utf16Spells(parts[i], cs[i]) && |parts[i]| <= 2 && cs[i] as bv64 <= MAX_CODE
    {
      Utf16OfSpells(cs[i]);
    }
    assert Utf16Chars(parts, cs);
    ConcatBound(parts, 2);
    u := Concat(parts);
  }
}
