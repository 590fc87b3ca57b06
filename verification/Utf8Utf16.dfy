/** The converters of libc++'s locale.cpp that go between UTF-8 and UTF-16 directly, and their
    length function. Theirs is a second copy of the decoding logic, with surrogate halves cut
    straight out of the octets and the other way round. */
module Utf8Utf16 {
  import opened Conversion
  import opened Unicode
  import opened Utf8
  import opened Utf16

  // ----- loop bodies

  function Fits16(n: nat, t: bv16, maxcode: bv64): Step<bv16> {
    if t as bv64 > maxcode then Bad else Take(n, [t])
  }

  function Fits32(room: nat, sum: bv64, hi: bv16, lo: bv16, maxcode: bv64): Step<bv16> {
    if room < 2 then Short else if sum > maxcode then Bad else Take(4, [hi, lo])
  }

  /** The surrogate halves of a four-octet character. */
  function CutHigh(c1: bv8, c2: bv8, c3: bv8): bv16 {
    var top := ((c1 & 0x07) as bv32 << 2) | ((c2 & 0x30) >> 4) as bv32;
    Low16(0xD800 | ((top - 1) << 6) | ((c2 & 0x0F) as bv32 << 2) | ((c3 & 0x30) >> 4) as bv32)
  }

  function CutLow(c3: bv8, c4: bv8): bv16 {
    Low16(0xDC00 | ((c3 & 0x0F) as bv32 << 6) | (c4 & 0x3F) as bv32)
  }

  function Sum4(c1: bv8, c2: bv8, c3: bv8, c4: bv8): bv64 {
    ((c1 & 0x07) as bv64 << 18) + ((c2 & 0x3F) as bv64 << 12) + ((c3 & 0x3F) as bv64 << 6) + (c4 & 0x3F) as bv64
  }

  /** utf8_to_utf16. Unlike utf8_to_ucs4 it first compares the lead byte with the limit. */
  function Utf8ToUtf16Step(s: seq<bv8>, room: nat, maxcode: bv64): Step<bv16> {
    if s == [] || room == 0 then Short
    else
      var c1 := s[0];
      if c1 as bv64 > maxcode then Bad
      else if c1 < 0x80 then Take(1, [c1 as bv16])
      else if c1 < 0xC2 then Bad
      else if c1 < 0xE0 then
        if |s| < 2 then Short
        else if (s[1] & 0xC0) != 0x80 then Bad
        else Fits16(2, Low16(Bits2(c1, s[1])), maxcode)
      else if c1 < 0xF0 then
        if |s| < 3 then Short
        else if !SecondOfThree(c1, s[1]) || (s[2] & 0xC0) != 0x80 then Bad
        else Fits16(3, Low16(Bits3(c1, s[1], s[2])), maxcode)
      else if c1 < 0xF5 then
        if |s| < 4 then Short
        else if !SecondOfFour(c1, s[1]) || (s[2] & 0xC0) != 0x80 || (s[3] & 0xC0) != 0x80 then Bad
        else Fits32(room, Sum4(c1, s[1], s[2], s[3]), CutHigh(c1, s[1], s[2]), CutLow(s[2], s[3]), maxcode)
      else Bad
  }

  function Moves(n: nat, written: nat, t: bv64, maxcode: bv64): Advance {
    if t > maxcode then Stop else Move(n, written)
  }

  /** utf8_to_utf16_length. */
  function Utf8ToUtf16LengthStep(s: seq<bv8>, room: nat, maxcode: bv64): Advance {
    if s == [] || room == 0 then Stop
    else
      var c1 := s[0];
      if c1 as bv64 > maxcode then Stop
      else if c1 < 0x80 then Move(1, 1)
      else if c1 < 0xC2 then Stop
      else if c1 < 0xE0 then
        if |s| < 2 || (s[1] & 0xC0) != 0x80 then Stop
        else Moves(2, 1, Low16(Bits2(c1, s[1])) as bv64, maxcode)
      else if c1 < 0xF0 then
        if |s| < 3 || !SecondOfThree(c1, s[1]) || (s[2] & 0xC0) != 0x80 then Stop
        else Moves(3, 1, Bits3(c1, s[1], s[2]) as bv64, maxcode)
      else if c1 < 0xF5 then
        if |s| < 4 || room < 2 then Stop
        else if !SecondOfFour(c1, s[1]) || (s[2] & 0xC0) != 0x80 || (s[3] & 0xC0) != 0x80 then Stop
        else Moves(4, 2, Sum4(c1, s[1], s[2], s[3]), maxcode)
      else Stop
  }

  function PairSum(wc1: bv16, wc2: bv16): bv64 {
    ((((wc1 & 0x03C0) >> 6) as bv64 + 1) << 16) + ((wc1 & 0x003F) as bv64 << 10) + (wc2 & 0x03FF) as bv64
  }

  function Cut(x: bv16): bv8 {
    (x & 0xFF) as bv8
  }

  /** The four octets of a surrogate pair. */
  function PairOctets(wc1: bv16, wc2: bv16): seq<bv8> {
    var z := ((wc1 & 0x03C0) >> 6) + 1;
    [Cut(0xF0 | (z >> 2)),
     Cut(0x80 | ((z & 0x03) << 4) | ((wc1 & 0x003C) >> 2)),
     Cut(0x80 | ((wc1 & 0x0003) << 4) | ((wc2 & 0x03C0) >> 6)),
     Cut(0x80 | (wc2 & 0x003F))]
  }

  function ThreeOctets(wc1: bv16): seq<bv8> {
    [Cut(0xE0 | (wc1 >> 12)), Cut(0x80 | ((wc1 & 0x0FC0) >> 6)), Cut(0x80 | (wc1 & 0x003F))]
  }

  /** A unit that is no surrogate. */
  function UnitToUtf8(wc1: bv16, room: nat): Step<bv8> {
    if wc1 < 0x80 then
      if room < 1 then Short else Take(1, [Cut(wc1)])
    else if wc1 < 0x800 then
      if room < 2 then Short else Take(1, [Cut(0xC0 | (wc1 >> 6)), Cut(0x80 | (wc1 & 0x03F))])
    else
      if room < 3 then Short else Take(1, ThreeOctets(wc1))
  }

  /** A high surrogate and the unit after it. */
  function PairToUtf8(wc1: bv16, wc2: bv16, room: nat, maxcode: bv64): Step<bv8> {
    if (wc2 & 0xFC00) != 0xDC00 then Bad
    else FitsPair(room, PairSum(wc1, wc2), PairOctets(wc1, wc2), maxcode)
  }

  function FitsPair(room: nat, sum: bv64, o: seq<bv8>, maxcode: bv64): Step<bv8> {
    if room < 4 then Short else if sum > maxcode then Bad else Take(2, o)
  }

  /** The loop body of utf16_to_utf8, with the two ways of writing a code point as parameters. */
  function Utf16ToUtf8Step(unit: (bv16, nat) -> Step<bv8>, pair: (bv16, bv16, nat, bv64) -> Step<bv8>,
                           s: seq<bv16>, room: nat, maxcode: bv64): Step<bv8>
  {
    if s == [] then Short
    else
      var wc1 := s[0];
      if wc1 as bv64 > maxcode then Bad
      else if wc1 < 0xD800 then unit(wc1, room)
      else if wc1 < 0xDC00 then
        if |s| < 2 then Short else pair(wc1, s[1], room, maxcode)
      else if wc1 < 0xE000 then Bad
      else unit(wc1, room)
  }

  function Straight(maxcode: bv64): (step: (seq<bv8>, nat) -> Step<bv16>)
    ensures Sane(step)
  {
    (s: seq<bv8>, room: nat) => Utf8ToUtf16Step(s, room, maxcode)
  }

  function StraightLength(maxcode: bv64): (step: (seq<bv8>, nat) -> Advance)
    ensures SaneLength(step)
  {
    (s: seq<bv8>, room: nat) => Utf8ToUtf16LengthStep(s, room, maxcode)
  }

  function Back(maxcode: bv64): (step: (seq<bv16>, nat) -> Step<bv8>)
    ensures Sane(step)
  {
    (s: seq<bv16>, room: nat) => Utf16ToUtf8Step(UnitToUtf8, PairToUtf8, s, room, maxcode)
  }

  // ----- the functions

  method Utf8ToUtf16(frm: seq<bv8>, to: array<bv16>, maxcode: bv64, consumeHeader: bool)
    returns (verdict: Verdict, frmNxt: nat, toNxt: nat)
    modifies to
    ensures var start := SkipBom(frm, consumeHeader);
            var c := Convert(Straight(maxcode), frm[start..], to.Length);
            && verdict == c.verdict && frmNxt == start + c.used
            && toNxt == |c.out| <= to.Length && to[..toNxt] == c.out && to[toNxt..] == old(to[toNxt..])
  {
    var start := SkipBom(frm, consumeHeader);
    verdict, frmNxt, toNxt := DriveFrom(Straight(maxcode), frm, start, to);
  }

  method Utf16ToUtf8(frm: seq<bv16>, to: array<bv8>, maxcode: bv64, generateHeader: bool)
    returns (verdict: Verdict, frmNxt: nat, toNxt: nat)
    modifies to
    ensures generateHeader && to.Length < 3 ==>
      verdict == Partial && frmNxt == 0 && toNxt == 0 && to[..] == old(to[..])
    ensures !generateHeader || to.Length >= 3 ==>
      var header := if generateHeader then BOM else [];
      var c := Convert(Back(maxcode), frm, to.Length - |header|);
      && verdict == c.verdict && frmNxt == c.used && toNxt == |header + c.out| <= to.Length
      && to[..toNxt] == header + c.out && to[toNxt..] == old(to[toNxt..])
  {
    verdict, frmNxt, toNxt := DriveAfter(Back(maxcode), frm, to, if generateHeader then BOM else []);
  }

  method Utf8ToUtf16Length(frm: seq<bv8>, mx: nat, maxcode: bv64, consumeHeader: bool) returns (n: int)
    ensures var start := SkipBom(frm, consumeHeader);
            n == ToInt(start + Convert(Straight(maxcode), frm[start..], mx).used)
  {
    var start := SkipBom(frm, consumeHeader);
    var frmNxt := DriveLength(StraightLength(maxcode), frm, start, mx);
    StraightLengthIsUsed(frm, start, mx, maxcode);
    n := ToInt(frmNxt);
  }

  lemma StraightLengthIsUsed(frm: seq<bv8>, start: nat, mx: nat, maxcode: bv64)
    requires start <= |frm|
    ensures Measure(StraightLength(maxcode), frm, start, mx) == Convert(Straight(maxcode), frm[start..], mx).used
  {
    StraightLengthMirrors(maxcode);
    MeasureIsUsed(StraightLength(maxcode), Straight(maxcode), frm, start, mx);
    ConvertShift(Straight(maxcode), frm, start, 0, mx);
  }

  lemma StraightLengthMirrors(maxcode: bv64)
    ensures Mirrors(StraightLength(maxcode), Straight(maxcode))
  {
    forall s: seq<bv8>, room: nat | s != []
      ensures MovesWith(Utf8ToUtf16LengthStep(s, room, maxcode), Utf8ToUtf16Step(s, room, maxcode), room)
    {
      StraightMoves(s, room, maxcode);
    }
  }

  ghost predicate MovesWith(m: Advance, u: Step<bv16>, room: nat) {
    match u
    case Take(n, o) => room > 0 && m == Move(n, |o|)
    case _ => room > 0 ==> m == Stop
  }

  lemma StraightMoves(s: seq<bv8>, room: nat, maxcode: bv64)
    requires s != []
    ensures MovesWith(Utf8ToUtf16LengthStep(s, room, maxcode), Utf8ToUtf16Step(s, room, maxcode), room)
  {
    if 0xE0 <= s[0] < 0xF0 && |s| >= 3 {
      StraightMoves3(s, room, maxcode);
    }
  }

  lemma StraightMoves3(s: seq<bv8>, room: nat, maxcode: bv64)
    requires |s| >= 3 && 0xE0 <= s[0] < 0xF0
    ensures MovesWith(Utf8ToUtf16LengthStep(s, room, maxcode), Utf8ToUtf16Step(s, room, maxcode), room)
  {
    if room > 0 && s[0] as bv64 <= maxcode && SecondOfThree(s[0], s[1]) && (s[2] & 0xC0) == 0x80 {
      var m, u := Moved3(s, room, maxcode);
      assert StepsHere(m, u, s, room, maxcode);
    } else {
      Stopped3(s, room, maxcode);
    }
  }

  /** The two steps of this place; worded so that the verifier does not look inside at every mention. */
  ghost predicate StepsAre(m: Advance, u: Step<bv16>, s: seq<bv8>, room: nat, maxcode: bv64) {
    forall x | x == m :: StepsHere(x, u, s, room, maxcode)
  }

  ghost predicate StepsHere(m: Advance, u: Step<bv16>, s: seq<bv8>, room: nat, maxcode: bv64) {
    m == Utf8ToUtf16LengthStep(s, room, maxcode) && u == Utf8ToUtf16Step(s, room, maxcode)
  }

  lemma Stopped3(s: seq<bv8>, room: nat, maxcode: bv64)
    requires |s| >= 3 && 0xE0 <= s[0] < 0xF0
    requires !(room > 0 && s[0] as bv64 <= maxcode && SecondOfThree(s[0], s[1]) && (s[2] & 0xC0) == 0x80)
    ensures !Utf8ToUtf16Step(s, room, maxcode).Take? && Utf8ToUtf16LengthStep(s, room, maxcode) == Stop
  {
  }

  lemma Moved3(s: seq<bv8>, room: nat, maxcode: bv64) returns (m: Advance, u: Step<bv16>)
    requires |s| >= 3 && 0xE0 <= s[0] < 0xF0 && room > 0 && s[0] as bv64 <= maxcode
    requires SecondOfThree(s[0], s[1]) && (s[2] & 0xC0) == 0x80
    ensures StepsAre(m, u, s, room, maxcode) && MovesWith(m, u, room)
  {
    var v, w := Three16(s[0], s[1], s[2]);
    m, u := Moves(3, 1, w, maxcode), Fits16(3, v, maxcode);
    Steps3(s, room, maxcode, v, w);
    FitsMoves(v, room, maxcode);
  }

  /** The value of three octets in either width, worded like StepsAre. */
  ghost predicate ValuesAre(v: bv16, w: bv64, a: bv8, b: bv8, c: bv8) {
    forall x | x == v :: ValuesHere(x, w, a, b, c)
  }

  ghost predicate ValuesHere(v: bv16, w: bv64, a: bv8, b: bv8, c: bv8) {
    v == Low16(Bits3(a, b, c)) && w == Bits3(a, b, c) as bv64
  }

  lemma Three16(a: bv8, b: bv8, c: bv8) returns (v: bv16, w: bv64)
    ensures ValuesAre(v, w, a, b, c) && w == v as bv64
  {
    v, w := Low16(Bits3(a, b, c)), Bits3(a, b, c) as bv64;
    Known3(v, w, a, b, c);
    SameWidths(v, w, a, b, c);
  }

  lemma SameWidths(v: bv16, w: bv64, a: bv8, b: bv8, c: bv8)
    requires ValuesAre(v, w, a, b, c)
    ensures w == v as bv64
  {
    assert ValuesHere(v, w, a, b, c);
    ThreeFits(a, b, c);
  }

  lemma Known3(v: bv16, w: bv64, a: bv8, b: bv8, c: bv8)
    requires v == Low16(Bits3(a, b, c)) && w == Bits3(a, b, c) as bv64
    ensures ValuesAre(v, w, a, b, c)
  {
    assert ValuesHere(v, w, a, b, c);
  }

  lemma Steps3(s: seq<bv8>, room: nat, maxcode: bv64, v: bv16, w: bv64)
    requires |s| >= 3 && 0xE0 <= s[0] < 0xF0 && room > 0 && s[0] as bv64 <= maxcode
    requires SecondOfThree(s[0], s[1]) && (s[2] & 0xC0) == 0x80
    requires ValuesAre(v, w, s[0], s[1], s[2])
    ensures StepsAre(Moves(3, 1, w, maxcode), Fits16(3, v, maxcode), s, room, maxcode)
  {
    assert ValuesHere(v, w, s[0], s[1], s[2]);
    assert StepsHere(Moves(3, 1, w, maxcode), Fits16(3, v, maxcode), s, room, maxcode);
  }

  lemma FitsMoves(v: bv16, room: nat, maxcode: bv64)
    requires room > 0
    ensures MovesWith(Moves(3, 1, v as bv64, maxcode), Fits16(3, v, maxcode), room)
  {
  }

  lemma ThreeFits(a: bv8, b: bv8, c: bv8)
    ensures Low16(Bits3(a, b, c)) as bv64 == Bits3(a, b, c) as bv64
  {
  }

  lemma TwoFits(a: bv8, b: bv8)
    ensures Low16(Bits2(a, b)) as bv64 == Bits2(a, b) as bv64
  {
  }

  lemma FourSum(a: bv8, b: bv8, c: bv8, d: bv8)
    ensures Sum4(a, b, c, d) == Bits4(a, b, c, d) as bv64
  {
  }

  // ----- one step of the straight decoder against utf8_to_ucs4

  /** What the straight decoder makes of a step of utf8_to_ucs4, given m octets and room for r units. */
  ghost predicate Follows(t: Step<bv32>, u: Step<bv16>, m: nat, r: nat) {
    match t
    case Take(n, cs) => |cs| == 1 && Scalar(cs[0]) && u == if r < |Utf16Of(cs[0])| then Short else Take(n, Utf16Of(cs[0]))
    case Short => u == Short
    case Bad => !u.Take? && (r >= 2 || m < 4 ==> u == Bad)
  }

  lemma StraightFollows(s: seq<bv8>, r: nat, maxcode: bv64)
    requires s != [] && r >= 1 && s[0] as bv64 <= maxcode
    ensures Follows(Utf8ToUcs4Step(s, r, maxcode), Utf8ToUtf16Step(s, r, maxcode), |s|, r)
  {
    var n := Announced(s[0]);
    if n == 1 {
      Follow1(s, r, maxcode);
    } else if n == 2 && |s| >= 2 {
      Follow2(s, r, maxcode);
    } else if n == 3 && |s| >= 3 {
      Follow3(s, r, maxcode);
    } else if n == 4 && |s| >= 4 {
      Follow4(s, r, maxcode);
    }
  }

  lemma Follow1(s: seq<bv8>, r: nat, maxcode: bv64)
    requires s != [] && r >= 1 && s[0] as bv64 <= maxcode && s[0] < 0x80
    ensures Follows(Utf8ToUcs4Step(s, r, maxcode), Utf8ToUtf16Step(s, r, maxcode), |s|, r)
  {
    var u := s[0] as bv16;
    AsciiUnit(s[0]);
    UnitUnique(u);
    OctetWithin(s[0], maxcode);
  }

  lemma AsciiUnit(b: bv8)
    requires b < 0x80
    ensures !HighSurrogate(b as bv16) && !LowSurrogate(b as bv16) && (b as bv16) as bv32 == b as bv32
  {
  }

  lemma OctetWithin(b: bv8, maxcode: bv64)
    requires b as bv64 <= maxcode
    ensures Within(1, b as bv32, maxcode) == Take(1, [b as bv32])
  {
  }

  /** A code point that fits one unit. */
  lemma FollowsSmall(n: nat, c: bv32, m: nat, r: nat, maxcode: bv64)
    requires r >= 1 && c < 0x10000 && Scalar(c) && Low16(c) as bv64 == c as bv64
    ensures Follows(Within(n, c, maxcode), Fits16(n, Low16(c), maxcode), m, r)
  {
    OfUnit(c);
  }

  /** A code point that needs two. */
  lemma FollowsPair(c: bv32, sum: bv64, hi: bv16, lo: bv16, m: nat, r: nat, maxcode: bv64)
    requires m >= 4 && r >= 1 && 0x10000 <= c <= 0x10FFFF && sum == c as bv64 && hi == HighOf(c) && lo == LowOf(c)
    ensures Follows(Within(4, c, maxcode), Fits32(r, sum, hi, lo, maxcode), m, r)
  {
    OfPair(c);
  }

  lemma Follow2(s: seq<bv8>, r: nat, maxcode: bv64)
    requires |s| >= 2 && r >= 1 && s[0] as bv64 <= maxcode && 0xC2 <= s[0] < 0xE0
    ensures Follows(Utf8ToUcs4Step(s, r, maxcode), Utf8ToUtf16Step(s, r, maxcode), |s|, r)
  {
    if (s[1] & 0xC0) == 0x80 {
      SmallOfTwo(s[0], s[1]);
      TwoFits(s[0], s[1]);
      FollowsSmall(2, Bits2(s[0], s[1]), |s|, r, maxcode);
    }
  }

  lemma SmallOfTwo(a: bv8, b: bv8)
    requires 0xC2 <= a < 0xE0 && (b & 0xC0) == 0x80
    ensures Bits2(a, b) < 0x10000 && Scalar(Bits2(a, b))
  {
    TwoByBits(a, b);
    TwoInjective(a, b);
  }

  lemma Follow3(s: seq<bv8>, r: nat, maxcode: bv64)
    requires |s| >= 3 && r >= 1 && s[0] as bv64 <= maxcode && 0xE0 <= s[0] < 0xF0
    ensures Follows(Utf8ToUcs4Step(s, r, maxcode), Utf8ToUtf16Step(s, r, maxcode), |s|, r)
  {
    if SecondOfThree(s[0], s[1]) && (s[2] & 0xC0) == 0x80 {
      var t, u := Taken3(s, r, maxcode);
      assert DecodesHere(t, u, s, r, maxcode);
    } else {
      Bad3(s, r, maxcode);
    }
  }

  lemma Bad3(s: seq<bv8>, r: nat, maxcode: bv64)
    requires |s| >= 3 && r >= 1 && s[0] as bv64 <= maxcode && 0xE0 <= s[0] < 0xF0
    requires !(SecondOfThree(s[0], s[1]) && (s[2] & 0xC0) == 0x80)
    ensures Utf8ToUcs4Step(s, r, maxcode) == Bad && Utf8ToUtf16Step(s, r, maxcode) == Bad
  {
  }

  lemma Taken3(s: seq<bv8>, r: nat, maxcode: bv64) returns (t: Step<bv32>, u: Step<bv16>)
    requires |s| >= 3 && r >= 1 && s[0] as bv64 <= maxcode && 0xE0 <= s[0] < 0xF0
    requires SecondOfThree(s[0], s[1]) && (s[2] & 0xC0) == 0x80
    ensures DecodesAre(t, u, s, r, maxcode) && Follows(t, u, |s|, r)
  {
    var v := Small32(s[0], s[1], s[2]);
    t, u := Within(3, v, maxcode), Fits16(3, Low16(v), maxcode);
    Decode3(s, r, maxcode, v);
    LowFits(v);
    FollowsSmall(3, v, |s|, r, maxcode);
  }

  lemma Small32(a: bv8, b: bv8, c: bv8) returns (v: bv32)
    requires 0xE0 <= a < 0xF0 && SecondOfThree(a, b) && (c & 0xC0) == 0x80
    ensures v == Bits3(a, b, c) && v < 0x10000 && Scalar(v)
  {
    v := Bits3(a, b, c);
    SmallOfThree(a, b, c);
  }

  lemma LowFits(v: bv32)
    requires v < 0x10000
    ensures Low16(v) as bv64 == v as bv64
  {
  }

  lemma Decode3(s: seq<bv8>, r: nat, maxcode: bv64, v: bv32)
    requires |s| >= 3 && r >= 1 && s[0] as bv64 <= maxcode && 0xE0 <= s[0] < 0xF0
    requires SecondOfThree(s[0], s[1]) && (s[2] & 0xC0) == 0x80 && v == Bits3(s[0], s[1], s[2])
    ensures DecodesAre(Within(3, v, maxcode), Fits16(3, Low16(v), maxcode), s, r, maxcode)
  {
    assert DecodesHere(Within(3, v, maxcode), Fits16(3, Low16(v), maxcode), s, r, maxcode);
  }

  /** The two decoders' steps of this place, worded like StepsAre. */
  ghost predicate DecodesAre(t: Step<bv32>, u: Step<bv16>, s: seq<bv8>, r: nat, maxcode: bv64) {
    forall x | x == t :: DecodesHere(x, u, s, r, maxcode)
  }

  ghost predicate DecodesHere(t: Step<bv32>, u: Step<bv16>, s: seq<bv8>, r: nat, maxcode: bv64) {
    t == Utf8ToUcs4Step(s, r, maxcode) && u == Utf8ToUtf16Step(s, r, maxcode)
  }

  lemma SmallOfThree(a: bv8, b: bv8, c: bv8)
    requires 0xE0 <= a < 0xF0 && SecondOfThree(a, b) && (c & 0xC0) == 0x80
    ensures Bits3(a, b, c) < 0x10000 && Scalar(Bits3(a, b, c))
  {
    ThreeByBits(a, b, c);
    ThreeInjective(a, b, c);
  }

  lemma Follow4(s: seq<bv8>, r: nat, maxcode: bv64)
    requires |s| >= 4 && r >= 1 && s[0] as bv64 <= maxcode && 0xF0 <= s[0] < 0xF5
    ensures Follows(Utf8ToUcs4Step(s, r, maxcode), Utf8ToUtf16Step(s, r, maxcode), |s|, r)
  {
    if SecondOfFour(s[0], s[1]) && (s[2] & 0xC0) == 0x80 && (s[3] & 0xC0) == 0x80 {
      var t, u := Taken4(s, r, maxcode);
      assert DecodesHere(t, u, s, r, maxcode);
    } else {
      Bad4(s, r, maxcode);
    }
  }

  lemma Taken4(s: seq<bv8>, r: nat, maxcode: bv64) returns (t: Step<bv32>, u: Step<bv16>)
    requires |s| >= 4 && r >= 1 && s[0] as bv64 <= maxcode && 0xF0 <= s[0] < 0xF5
    requires SecondOfFour(s[0], s[1]) && (s[2] & 0xC0) == 0x80 && (s[3] & 0xC0) == 0x80
    ensures DecodesAre(t, u, s, r, maxcode) && Follows(t, u, |s|, r)
  {
    var v, sum, hi, lo := Four32(s[0], s[1], s[2], s[3]);
    t, u := Within(4, v, maxcode), Fits32(r, sum, hi, lo, maxcode);
    Steps4(s, r, maxcode, v, sum, hi, lo);
    FollowsPair(v, sum, hi, lo, |s|, r, maxcode);
  }

  lemma Four32(a: bv8, b: bv8, c: bv8, d: bv8) returns (v: bv32, sum: bv64, hi: bv16, lo: bv16)
    requires 0xF0 <= a < 0xF5 && SecondOfFour(a, b) && (c & 0xC0) == 0x80 && (d & 0xC0) == 0x80
    ensures v == Bits4(a, b, c, d) && sum == Sum4(a, b, c, d) && hi == CutHigh(a, b, c) && lo == CutLow(c, d)
    ensures 0x10000 <= v <= 0x10FFFF && sum == v as bv64 && hi == HighOf(v) && lo == LowOf(v)
  {
    v := LargeValue(a, b, c, d);
    sum, hi, lo := Sum4(a, b, c, d), CutHigh(a, b, c), CutLow(c, d);
    SumIs(a, b, c, d, v);
    HighIs(a, b, c, d, v);
    LowIs(a, b, c, d, v);
  }

  lemma LargeValue(a: bv8, b: bv8, c: bv8, d: bv8) returns (v: bv32)
    requires 0xF0 <= a < 0xF5 && SecondOfFour(a, b) && (c & 0xC0) == 0x80 && (d & 0xC0) == 0x80
    ensures v == Bits4(a, b, c, d) && 0x10000 <= v <= 0x10FFFF
  {
    v := Bits4(a, b, c, d);
    LargeOfFour(a, b, c, d);
  }

  lemma SumIs(a: bv8, b: bv8, c: bv8, d: bv8, v: bv32)
    requires v == Bits4(a, b, c, d)
    ensures Sum4(a, b, c, d) == v as bv64
  {
    FourSum(a, b, c, d);
  }

  lemma HighIs(a: bv8, b: bv8, c: bv8, d: bv8, v: bv32)
    requires v == Bits4(a, b, c, d) && v >= 0x10000
    ensures CutHigh(a, b, c) == HighOf(v)
  {
    CutIsHigh(a, b, c, d);
  }

  lemma LowIs(a: bv8, b: bv8, c: bv8, d: bv8, v: bv32)
    requires v == Bits4(a, b, c, d)
    ensures CutLow(c, d) == LowOf(v)
  {
    CutIsLow(a, b, c, d);
  }

  lemma Bad4(s: seq<bv8>, r: nat, maxcode: bv64)
    requires |s| >= 4 && r >= 1 && s[0] as bv64 <= maxcode && 0xF0 <= s[0] < 0xF5
    requires !(SecondOfFour(s[0], s[1]) && (s[2] & 0xC0) == 0x80 && (s[3] & 0xC0) == 0x80)
    ensures Utf8ToUcs4Step(s, r, maxcode) == Bad && Utf8ToUtf16Step(s, r, maxcode) == Bad
  {
  }

  lemma Steps4(s: seq<bv8>, r: nat, maxcode: bv64, v: bv32, sum: bv64, hi: bv16, lo: bv16)
    requires |s| >= 4 && r >= 1 && s[0] as bv64 <= maxcode && 0xF0 <= s[0] < 0xF5
    requires SecondOfFour(s[0], s[1]) && (s[2] & 0xC0) == 0x80 && (s[3] & 0xC0) == 0x80
    requires v == Bits4(s[0], s[1], s[2], s[3]) && sum == Sum4(s[0], s[1], s[2], s[3])
    requires hi == CutHigh(s[0], s[1], s[2]) && lo == CutLow(s[2], s[3])
    ensures DecodesAre(Within(4, v, maxcode), Fits32(r, sum, hi, lo, maxcode), s, r, maxcode)
  {
    assert DecodesHere(Within(4, v, maxcode), Fits32(r, sum, hi, lo, maxcode), s, r, maxcode);
  }

  lemma LargeOfFour(a: bv8, b: bv8, c: bv8, d: bv8)
    requires 0xF0 <= a < 0xF5 && SecondOfFour(a, b) && (c & 0xC0) == 0x80 && (d & 0xC0) == 0x80
    ensures 0x10000 <= Bits4(a, b, c, d) <= 0x10FFFF
  {
    FourByBits(a, b, c, d);
    FourInjective(a, b, c, d);
  }

  lemma CutIsHigh(a: bv8, b: bv8, c: bv8, d: bv8)
    requires Bits4(a, b, c, d) >= 0x10000
    ensures CutHigh(a, b, c) == HighOf(Bits4(a, b, c, d))
  {
  }

  lemma CutIsLow(a: bv8, b: bv8, c: bv8, d: bv8)
    ensures CutLow(c, d) == LowOf(Bits4(a, b, c, d))
  {
  }

  // ----- what the straight decoder decides

  predicate OctetsWithin(s: seq<bv8>, maxcode: bv64) {
    forall i | 0 <= i < |s| :: s[i] as bv64 <= maxcode
  }

  /** p is the UTF-8 and u the UTF-16 of the code point c. */
  ghost predicate Same(p: seq<bv8>, u: seq<bv16>, c: bv32) {
    Utf8Spells(p, c) && Utf16Spells(u, c)
  }

  lemma StraightReads(p: seq<bv8>, u: seq<bv16>, c: bv32, maxcode: bv64)
    requires Same(p, u, c) && c as bv64 <= maxcode && OctetsWithin(p, maxcode)
    ensures Reads(Straight(maxcode), p, u)
  {
    SpellsAnnounced(p, c);
    Utf16OfUnique(u, c);
    Spells16Nonempty(u, c);
    StepReads(p, c, maxcode);
    forall more, r: nat | r >= |u|
      ensures Straight(maxcode)(p + more, r) == Take(|p|, u)
    {
      assert FromUtf8(maxcode)(p + more, r) == Take(|p|, [c]);
      StraightFollows(p + more, r, maxcode);
    }
  }

  lemma StraightHasRead(p: seq<bv8>, u: seq<bv16>, maxcode: bv64) returns (c: bv32)
    requires HasRead(Straight(maxcode), p, u)
    ensures Same(p, u, c) && c as bv64 <= maxcode && OctetsWithin(p, maxcode)
  {
    assert ReadSomewhere(Straight(maxcode), p, u);
    var more, r: nat :| Straight(maxcode)(p + more, r) == Take(|p|, u);
    c := StraightTakes(p, more, r, u, maxcode);
  }

  lemma StraightTakes(p: seq<bv8>, more: seq<bv8>, r: nat, u: seq<bv16>, maxcode: bv64) returns (c: bv32)
    requires p != [] && Utf8ToUtf16Step(p + more, r, maxcode) == Take(|p|, u)
    ensures Same(p, u, c) && c as bv64 <= maxcode && OctetsWithin(p, maxcode)
  {
    c := TakesByUcs4(p + more, r, |p|, u, maxcode);
    ReadIsSpelled(p, more, r, [c], maxcode);
    LeadWithin(p, more, maxcode);
    TailsBelowLead(p, c, maxcode);
  }

  lemma LeadWithin(p: seq<bv8>, more: seq<bv8>, maxcode: bv64)
    requires p != [] && (p + more)[0] as bv64 <= maxcode
    ensures p[0] as bv64 <= maxcode
  {
    assert (p + more)[0] == p[0];
  }

  lemma TakesByUcs4(s: seq<bv8>, r: nat, n: nat, u: seq<bv16>, maxcode: bv64) returns (c: bv32)
    requires s != [] && Utf8ToUtf16Step(s, r, maxcode) == Take(n, u)
    ensures Utf8ToUcs4Step(s, r, maxcode) == Take(n, [c]) && Utf16Spells(u, c) && s[0] as bv64 <= maxcode
  {
    TakenLead(s, r, maxcode);
    StraightFollows(s, r, maxcode);
    c := FollowsTakes(Utf8ToUcs4Step(s, r, maxcode), n, u, |s|, r);
  }

  lemma TakenLead(s: seq<bv8>, r: nat, maxcode: bv64)
    requires Utf8ToUtf16Step(s, r, maxcode).Take?
    ensures r >= 1 && s != [] && s[0] as bv64 <= maxcode
  {
  }

  lemma FollowsTakes(t: Step<bv32>, n: nat, u: seq<bv16>, m: nat, r: nat) returns (c: bv32)
    requires Follows(t, Take(n, u), m, r)
    ensures t == Take(n, [c]) && Utf16Spells(u, c)
  {
    c := t.out[0];
    Utf16OfSpells(c);
  }

  lemma TailsBelowLead(p: seq<bv8>, c: bv32, maxcode: bv64)
    requires Utf8Spells(p, c) && p != [] && p[0] as bv64 <= maxcode
    ensures OctetsWithin(p, maxcode)
  {
    assert Utf8Meaning(p, c);
    forall i | 0 <= i < |p|
      ensures p[i] as bv64 <= maxcode
    {
      TailsLower(p, i);
      WideOrder(p[i], p[0], maxcode);
    }
  }

  lemma TailsLower(p: seq<bv8>, i: nat)
    requires Utf8Char(p) && i < |p|
    ensures p[i] <= p[0]
  {
  }

  lemma WideOrder(b: bv8, lead: bv8, maxcode: bv64)
    requires b <= lead && lead as bv64 <= maxcode
    ensures b as bv64 <= maxcode
  {
  }

  lemma {:induction false} OctetsOfParts(parts: seq<seq<bv8>>, maxcode: bv64)
    ensures OctetsWithin(Concat(parts), maxcode) <==> forall i | 0 <= i < |parts| :: OctetsWithin(parts[i], maxcode)
  {
    if parts != [] {
      OctetsOfParts(parts[1..], maxcode);
      OctetsOfTwo(parts[0], Concat(parts[1..]), maxcode);
      assert parts == [parts[0]] + parts[1..];
    }
  }

  lemma OctetsOfTwo(a: seq<bv8>, b: seq<bv8>, maxcode: bv64)
    ensures OctetsWithin(a + b, maxcode) <==> OctetsWithin(a, maxcode) && OctetsWithin(b, maxcode)
  {
    if OctetsWithin(a + b, maxcode) {
      forall i | 0 <= i < |a| ensures a[i] as bv64 <= maxcode { assert (a + b)[i] == a[i]; }
      forall i | 0 <= i < |b| ensures b[i] as bv64 <= maxcode { assert (a + b)[|a| + i] == b[i]; }
    }
  }

  /** Both texts stand for the code points cs. */
  ghost predicate SameText(s: seq<bv8>, u: seq<bv16>, cs: seq<bv32>) {
    IsUtf8(s, cs) && IsUtf16(u, cs)
  }

  lemma StraightAccepts(s: seq<bv8>, u: seq<bv16>, cs: seq<bv32>, room: nat, maxcode: bv64)
    requires SameText(s, u, cs) && |u| <= room && AllWithin(cs, maxcode) && OctetsWithin(s, maxcode)
    ensures Convert(Straight(maxcode), s, room) == Converted(Ok, |s|, u)
  {
    var parts :| Utf8Chars(parts, cs) && Concat(parts) == s;
    var units :| Utf16Chars(units, cs) && Concat(units) == u;
    OctetsOfParts(parts, maxcode);
    forall i | 0 <= i < |parts|
      ensures Reads(Straight(maxcode), parts[i], units[i])
    {
      StraightReads(parts[i], units[i], cs[i], maxcode);
    }
    ConvertParts(Straight(maxcode), parts, units, room);
  }

  lemma {:induction false} StraightParts(parts: seq<seq<bv8>>, units: seq<seq<bv16>>, maxcode: bv64) returns (cs: seq<bv32>)
    requires |parts| == |units| && forall i | 0 <= i < |parts| :: HasRead(Straight(maxcode), parts[i], units[i])
    ensures Utf8Chars(parts, cs) && Utf16Chars(units, cs) && AllWithin(cs, maxcode) && OctetsWithin(Concat(parts), maxcode)
  {
    cs := [];
    if parts != [] {
      var c := StraightHasRead(parts[0], units[0], maxcode);
      var rest := StraightParts(parts[1..], units[1..], maxcode);
      cs := [c] + rest;
      OctetsOfTwo(parts[0], Concat(parts[1..]), maxcode);
      CharsGrow(parts, units, c, rest, maxcode);
    }
  }

  lemma CharsGrow(parts: seq<seq<bv8>>, units: seq<seq<bv16>>, c: bv32, rest: seq<bv32>, maxcode: bv64)
    requires |parts| == |units| > 0 && Same(parts[0], units[0], c) && c as bv64 <= maxcode
    requires Utf8Chars(parts[1..], rest) && Utf16Chars(units[1..], rest) && AllWithin(rest, maxcode)
    ensures Utf8Chars(parts, [c] + rest) && Utf16Chars(units, [c] + rest) && AllWithin([c] + rest, maxcode)
  {
    Chars8Grow(parts, c, rest);
    Chars16Grow(units, c, rest);
    WithinGrow(c, rest, maxcode);
  }

  lemma Chars8Grow(parts: seq<seq<bv8>>, c: bv32, rest: seq<bv32>)
    requires parts != [] && Utf8Spells(parts[0], c) && Utf8Chars(parts[1..], rest)
    ensures Utf8Chars(parts, [c] + rest)
  {
    var cs := [c] + rest;
    forall i | 0 <= i < |cs| ensures Utf8Spells(parts[i], cs[i]) {
      if i > 0 { assert parts[i] == parts[1..][i - 1] && cs[i] == rest[i - 1]; }
    }
  }

  lemma Chars16Grow(units: seq<seq<bv16>>, c: bv32, rest: seq<bv32>)
    requires units != [] && Utf16Spells(units[0], c) && Utf16Chars(units[1..], rest)
    ensures Utf16Chars(units, [c] + rest)
  {
    var cs := [c] + rest;
    forall i | 0 <= i < |cs| ensures Utf16Spells(units[i], cs[i]) {
      if i > 0 { assert units[i] == units[1..][i - 1] && cs[i] == rest[i - 1]; }
    }
  }

  lemma AllGrow<T>(c: T, rest: seq<T>, ok: T -> bool)
    requires ok(c) && forall i | 0 <= i < |rest| :: ok(rest[i])
    ensures forall i | 0 <= i < |[c] + rest| :: ok(([c] + rest)[i])
  {
  }

  predicate CodeWithin(c: bv32, maxcode: bv64) {
    c as bv64 <= maxcode
  }

  lemma WithinGrow(c: bv32, rest: seq<bv32>, maxcode: bv64)
    requires c as bv64 <= maxcode && AllWithin(rest, maxcode)
    ensures AllWithin([c] + rest, maxcode)
  {
    var ok := (x: bv32) => CodeWithin(x, maxcode);
    assert forall i | 0 <= i < |rest| :: ok(rest[i]);
    AllGrow(c, rest, ok);
    assert forall i | 0 <= i < |[c] + rest| :: ok(([c] + rest)[i]);
  }

  /** The straight decoder returns ok exactly when the input is well-formed UTF-8, the output is the
      UTF-16 of the same code points and fits, and neither a code point nor an octet exceeds the limit. */
  lemma StraightExact(s: seq<bv8>, u: seq<bv16>, room: nat, maxcode: bv64)
    ensures Convert(Straight(maxcode), s, room) == Converted(Ok, |s|, u)
       <==> |u| <= room && OctetsWithin(s, maxcode) && exists cs :: SameText(s, u, cs) && AllWithin(cs, maxcode)
  {
    if Convert(Straight(maxcode), s, room) == Converted(Ok, |s|, u) {
      var parts, units := ConvertSplits(Straight(maxcode), s, 0, room);
      assert s[0..|s|] == s;
      var cs := StraightParts(parts, units, maxcode);
      assert SameText(s, u, cs);
    } else if |u| <= room && OctetsWithin(s, maxcode) && exists cs :: SameText(s, u, cs) && AllWithin(cs, maxcode) {
      var cs :| SameText(s, u, cs) && AllWithin(cs, maxcode);
      StraightAccepts(s, u, cs, room, maxcode);
    }
  }

  lemma ShortStraight(s: seq<bv8>, r: nat, maxcode: bv64)
    requires s != [] && r >= 1 && Utf8ToUtf16Step(s, r, maxcode) == Short
    ensures |s| < Announced(s[0]) || (r == 1 && Announced(s[0]) == 4)
  {
  }

  /** Partial means that the output is full, that it has room for one unit where a character of four
      octets is next, or that the input ends inside a character. */
  lemma StraightPartial(s: seq<bv8>, room: nat, maxcode: bv64)
    requires Convert(Straight(maxcode), s, room).verdict == Partial
    ensures var c := Convert(Straight(maxcode), s, room);
            var rest := s[c.used..];
            |c.out| == room || |rest| < Announced(rest[0]) || (|c.out| + 1 == room && Announced(rest[0]) == 4)
  {
    var c := Convert(Straight(maxcode), s, room);
    PartialStop(Straight(maxcode), s, room);
    if |c.out| < room {
      ShortStraight(s[c.used..], room - |c.out|, maxcode);
    }
  }

  /** Error means that no continuation of the input has an acceptable character at this place. */
  lemma StraightError(s: seq<bv8>, room: nat, maxcode: bv64, p: seq<bv8>, v: bv32, more: seq<bv8>)
    requires Convert(Straight(maxcode), s, room).verdict == Error
    requires Utf8Spells(p, v) && v as bv64 <= maxcode && OctetsWithin(p, maxcode)
    ensures !(p <= s[Convert(Straight(maxcode), s, room).used..] + more)
  {
    var c := Convert(Straight(maxcode), s, room);
    ErrorStop(Straight(maxcode), s, room);
    if p <= s[c.used..] + more {
      StraightBadIsFinal(s[c.used..], p, v, more, room - |c.out|, maxcode);
    }
  }

  lemma StraightBadIsFinal(rest: seq<bv8>, p: seq<bv8>, v: bv32, more: seq<bv8>, r: nat, maxcode: bv64)
    requires rest != [] && Utf8Spells(p, v) && v as bv64 <= maxcode && OctetsWithin(p, maxcode) && p <= rest + more
    ensures Utf8ToUtf16Step(rest, r, maxcode) != Bad
  {
    if r >= 1 {
      SpellsAnnounced(p, v);
      assert rest[0] == (rest + more)[0] == p[0];
      BadIsFinal(rest, p, v, more, r, maxcode);
      StraightFollows(rest, r, maxcode);
      NotBadFollows(Utf8ToUcs4Step(rest, r, maxcode), Utf8ToUtf16Step(rest, r, maxcode), |rest|, r);
    }
  }

  lemma NotBadFollows(t: Step<bv32>, u: Step<bv16>, m: nat, r: nat)
    requires Follows(t, u, m, r) && t != Bad
    ensures u != Bad
  {
  }

  // ----- the straight decoder against decoding to UCS-4 and splitting

  /** The UTF-16 of a sequence of code points. */
  function Utf16Text(cs: seq<bv32>): (u: seq<bv16>)
    requires forall i | 0 <= i < |cs| :: Scalar(cs[i])
  {
    if cs == [] then [] else Utf16Of(cs[0]) + Utf16Text(cs[1..])
  }

  /** The same verdict, the same input consumed, and the output split into surrogate pairs. */
  ghost predicate Composed(d: Converted<bv32>, u: Converted<bv16>) {
    && u.verdict == d.verdict && u.used == d.used
    && (forall i | 0 <= i < |d.out| :: Scalar(d.out[i]))
    && u.out == Utf16Text(d.out)
  }

  /** Octets that the test of the lead byte lets through, or that start no character anyway. */
  predicate LeadsWithin(s: seq<bv8>, maxcode: bv64) {
    maxcode >= 0xF4 || OctetsWithin(s, maxcode)
  }

  lemma LeadTestHarmless(s: seq<bv8>, r: nat, maxcode: bv64)
    requires s != [] && r >= 1 && (maxcode >= 0xF4 || s[0] as bv64 <= maxcode)
    ensures Follows(Utf8ToUcs4Step(s, r, maxcode), Utf8ToUtf16Step(s, r, maxcode), |s|, r)
  {
    if s[0] as bv64 <= maxcode {
      StraightFollows(s, r, maxcode);
    } else {
      AboveLeads(s[0], maxcode);
    }
  }

  lemma AboveLeads(b: bv8, maxcode: bv64)
    requires maxcode >= 0xF4 && b as bv64 > maxcode
    ensures b >= 0xF5
  {
  }

  lemma ComposedStep(n: nat, c: bv32, d: Converted<bv32>, u: Converted<bv16>)
    requires Scalar(c) && Composed(d, u)
    ensures Composed(Prepend(n, [c], d), Prepend(n, Utf16Of(c), u))
  {
    var cs := [c] + d.out;
    assert cs[1..] == d.out;
    forall i | 0 <= i < |cs| ensures Scalar(cs[i]) { if i > 0 { assert cs[i] == d.out[i - 1]; } }
  }

  /** One step each, taken together. */
  ghost predicate StepComposed(t: Step<bv32>, u: Step<bv16>) {
    match t
    case Take(n, cs) => |cs| == 1 && Scalar(cs[0]) && |Utf16Of(cs[0])| <= n && u == Take(n, Utf16Of(cs[0]))
    case Short => u == Short
    case Bad => u == Bad
  }

  lemma StraightComposedStep(s: seq<bv8>, r4: nat, r: nat, maxcode: bv64)
    requires s != [] && r4 >= |s| && r >= |s| && (maxcode >= 0xF4 || s[0] as bv64 <= maxcode)
    ensures StepComposed(Utf8ToUcs4Step(s, r4, maxcode), Utf8ToUtf16Step(s, r, maxcode))
  {
    LeadTestHarmless(s, r, maxcode);
    RoomIndifferent(s, r4, r, maxcode);
    var t := Utf8ToUcs4Step(s, r4, maxcode);
    if t.Take? {
      ShorterUtf16(s, t.len, t.out, r4, maxcode);
      TakenLength(s, r4, maxcode);
    }
  }

  lemma TakenLength(s: seq<bv8>, r: nat, maxcode: bv64)
    ensures var t := Utf8ToUcs4Step(s, r, maxcode); t.Take? ==> t.len <= |s|
  {
  }

  lemma RoomIndifferent(s: seq<bv8>, r: nat, r': nat, maxcode: bv64)
    requires r >= 1 && r' >= 1
    ensures Utf8ToUcs4Step(s, r, maxcode) == Utf8ToUcs4Step(s, r', maxcode)
  {
  }

  /** A character never takes more UTF-16 units than octets. */
  lemma ShorterUtf16(s: seq<bv8>, n: nat, cs: seq<bv32>, r: nat, maxcode: bv64)
    requires s != [] && Utf8ToUcs4Step(s, r, maxcode) == Take(n, cs)
    ensures |cs| == 1 && Scalar(cs[0]) && |Utf16Of(cs[0])| <= n
  {
    TakenIsSpelled(s, r, maxcode);
    Utf8OfUnique(s[..n], cs[0]);
  }

  // ----- for any limit, the inputs on which they agree

  /** The longest well-formed prefix within the limit has no octet beyond the limit, and neither is the
      lead byte of a character that the input breaks off after it. */
  ghost predicate LeadsOk(s: seq<bv8>, maxcode: bv64) {
    forall n: nat | LongestGood(s, n, maxcode) ::
      OctetsWithin(s[..n], maxcode) && (n < |s| < n + Announced(s[n]) ==> s[n] as bv64 <= maxcode)
  }

  /** One code point and its units. */
  ghost predicate OfOnePoint(cs: seq<bv32>, us: seq<bv16>) {
    |cs| == 1 && Scalar(cs[0]) && us == Utf16Of(cs[0])
  }

  ghost function Pairs(): (seq<bv32>, seq<bv16>) -> bool {
    (cs: seq<bv32>, us: seq<bv16>) => OfOnePoint(cs, us)
  }

  ghost function Agreement(): (Converted<bv32>, Converted<bv16>) -> bool {
    (d: Converted<bv32>, u: Converted<bv16>) => Composed(d, u)
  }

  lemma AgreementExtends()
    ensures Extends(Pairs(), Agreement())
  {
    forall n: nat, o, p, d, u | OfOnePoint(o, p) && Composed(d, u)
      ensures Composed(Prepend(n, o, d), Prepend(n, p, u))
    {
      assert o == [o[0]];
      ComposedStep(n, o[0], d, u);
    }
  }

  lemma AgreeStep(s: seq<bv8>, at: nat, room4: nat, room: nat, maxcode: bv64)
    requires at < |s| && room4 >= |s| - at && room >= |s| - at
    requires s[at] as bv64 <= maxcode || FromUtf8(maxcode)(s[at..], room4) == Bad
    ensures StepPaired(FromUtf8(maxcode)(s[at..], room4), Straight(maxcode)(s[at..], room), Pairs())
  {
    assert s[at..][0] == s[at];
    if s[at] as bv64 <= maxcode {
      StraightComposedStep(s[at..], room4, room, maxcode);
      ComposedIsPaired(Utf8ToUcs4Step(s[at..], room4, maxcode), Utf8ToUtf16Step(s[at..], room, maxcode));
      TakenOne(s[at..], room4, maxcode);
    }
  }

  lemma ComposedIsPaired(t: Step<bv32>, u: Step<bv16>)
    requires StepComposed(t, u) && (t.Take? ==> |t.out| <= t.len)
    ensures StepPaired(t, u, Pairs())
  {
  }

  predicate OctetWithinLimit(b: bv8, maxcode: bv64) {
    b as bv64 <= maxcode
  }

  function Below(maxcode: bv64): bv8 -> bool {
    (b: bv8) => OctetWithinLimit(b, maxcode)
  }

  lemma TakeTogether(s: seq<bv8>, maxcode: bv64)
    ensures StepTogether(FromUtf8(maxcode), Straight(maxcode), s, Below(maxcode), Pairs())
  {
    forall k, a: nat, b: nat | 0 <= k < |s| && a >= |s| - k && b >= |s| - k
      && (OctetWithinLimit(s[k], maxcode) || FromUtf8(maxcode)(s[k..], a).Bad?)
      ensures StepPaired(FromUtf8(maxcode)(s[k..], a), Straight(maxcode)(s[k..], b), Pairs())
    {
      AgreeStep(s, k, a, b, maxcode);
    }
  }

  lemma AgreeWhereAdmitted(s: seq<bv8>, room4: nat, room: nat, maxcode: bv64)
    requires room4 >= |s| && room >= |s| && Admitted(s, 0, Convert(FromUtf8(maxcode), s, room4), Below(maxcode))
    ensures Composed(Convert(FromUtf8(maxcode), s, room4), Convert(Straight(maxcode), s, room))
  {
    TakeTogether(s, maxcode);
    AgreementExtends();
    assert CompatibleHere(FromUtf8(maxcode), Straight(maxcode), s, Below(maxcode), Pairs(), Agreement());
    ConvertTogether(FromUtf8(maxcode), Straight(maxcode), s, 0, room4, room, Below(maxcode), Pairs(), Agreement());
  }

  /** Decoding straight to UTF-16 is decoding to UCS-4 and splitting, verdict included, when the
      output is ample and the limit does not get in the way of the lead bytes. */
  lemma StraightIsComposed(s: seq<bv8>, room4: nat, room: nat, maxcode: bv64)
    requires room4 >= |s| && room >= |s| && LeadsWithin(s, maxcode)
    ensures Composed(Convert(FromUtf8(maxcode), s, room4), Convert(Straight(maxcode), s, room))
  {
    var d := Convert(FromUtf8(maxcode), s, room4);
    if !OctetsWithin(s, maxcode) {
      HighLimit(s, room4, maxcode);
    }
    assert Admitted(s, 0, d, Below(maxcode));
    AgreeWhereAdmitted(s, room4, room, maxcode);
  }

  /** A limit of at least 0xF4 admits every octet that decoding to UCS-4 passes. */
  lemma HighLimit(s: seq<bv8>, room: nat, maxcode: bv64)
    requires maxcode >= 0xF4 && room >= |s|
    ensures var d := Convert(FromUtf8(maxcode), s, room);
            && (forall k | 0 <= k < d.used :: s[k] as bv64 <= maxcode)
            && (d.verdict == Partial ==> s[d.used] as bv64 <= maxcode)
  {
    var d := Convert(FromUtf8(maxcode), s, room);
    var parts, outs := ConvertSplits(FromUtf8(maxcode), s, 0, room);
    AllOctetsWithin(parts, outs, maxcode);
    forall k | 0 <= k < d.used ensures s[k] as bv64 <= maxcode { assert s[0..d.used][k] == s[k]; }
    if d.verdict == Partial {
      DecodePartial(s, room, maxcode);
      DecodeShorter(s, room, maxcode);
      LeadBelow(s[d.used], maxcode);
    }
  }

  lemma TakenOne(s: seq<bv8>, r: nat, maxcode: bv64)
    ensures var t := Utf8ToUcs4Step(s, r, maxcode); t.Take? ==> |t.out| == 1 <= t.len
  {
  }

  lemma {:induction false} AllOctetsWithin(parts: seq<seq<bv8>>, outs: seq<seq<bv32>>, maxcode: bv64)
    requires maxcode >= 0xF4 && |parts| == |outs|
    requires forall i | 0 <= i < |parts| :: HasRead(FromUtf8(maxcode), parts[i], outs[i])
    ensures OctetsWithin(Concat(parts), maxcode)
  {
    if parts != [] {
      AllOctetsWithin(parts[1..], outs[1..], maxcode);
      StepHasRead(parts[0], outs[0], maxcode);
      SpellsAnnounced(parts[0], outs[0][0]);
      LeadBelow(parts[0][0], maxcode);
      TailsBelowLead(parts[0], outs[0][0], maxcode);
      OctetsOfTwo(parts[0], Concat(parts[1..]), maxcode);
    }
  }

  lemma LeadBelow(b: bv8, maxcode: bv64)
    requires maxcode >= 0xF4 && Announced(b) > 0
    ensures b as bv64 <= maxcode
  {
  }

  /** Whatever the verdict, the octets that the straight decoder consumed are within the limit. */
  lemma StraightConsumed(s: seq<bv8>, room: nat, maxcode: bv64)
    ensures OctetsWithin(s[..Convert(Straight(maxcode), s, room).used], maxcode)
  {
    var parts, units := ConvertSplits(Straight(maxcode), s, 0, room);
    var cs := StraightParts(parts, units, maxcode);
  }

  lemma ShortLead(s: seq<bv8>, r: nat, maxcode: bv64)
    requires s != [] && r >= 1 && Utf8ToUtf16Step(s, r, maxcode) == Short
    ensures s[0] as bv64 <= maxcode
  {
  }

  /** For every limit and every input, with ample room, the two ways agree exactly if the limit does not
      get in the way of a lead byte in the well-formed part of the input or at the end of it. */
  lemma StraightAgreesIff(s: seq<bv8>, room: nat, maxcode: bv64)
    requires room >= |s|
    ensures Composed(Convert(FromUtf8(maxcode), s, room), Convert(Straight(maxcode), s, room)) <==> LeadsOk(s, maxcode)
  {
    var d, u := Convert(FromUtf8(maxcode), s, room), Convert(Straight(maxcode), s, room);
    DecodeLongest(s, room, maxcode, d.used);
    if LeadsOk(s, maxcode) {
      LeadsAdmitted(s, d, maxcode);
      AgreeWhereAdmitted(s, room, room, maxcode);
    }
    if Composed(d, u) {
      AgreedLeads(s, room, maxcode);
      forall n: nat | LongestGood(s, n, maxcode) ensures n == d.used { DecodeLongest(s, room, maxcode, n); }
    }
  }

  lemma LeadsAdmitted(s: seq<bv8>, d: Converted<bv32>, maxcode: bv64)
    requires LeadsOk(s, maxcode) && LongestGood(s, d.used, maxcode)
    requires d.verdict == Partial ==> d.used < |s| < d.used + Announced(s[d.used])
    ensures Admitted(s, 0, d, Below(maxcode))
  {
    forall k | 0 <= k < d.used ensures s[k] as bv64 <= maxcode { assert s[..d.used][k] == s[k]; }
  }

  lemma AgreedLeads(s: seq<bv8>, room: nat, maxcode: bv64)
    requires room >= |s| && Composed(Convert(FromUtf8(maxcode), s, room), Convert(Straight(maxcode), s, room))
    ensures var d := Convert(FromUtf8(maxcode), s, room);
            OctetsWithin(s[..d.used], maxcode) && (d.verdict == Partial ==> s[d.used] as bv64 <= maxcode)
  {
    var u := Convert(Straight(maxcode), s, room);
    StraightConsumed(s, room, maxcode);
    if u.verdict == Partial {
      PartialStop(Straight(maxcode), s, room);
      StraightShorter(s, room, maxcode);
      ShortLead(s[u.used..], room - |u.out|, maxcode);
    }
  }

  /** The output never has more units than the octets consumed. */
  lemma StraightShorter(s: seq<bv8>, room: nat, maxcode: bv64)
    ensures var u := Convert(Straight(maxcode), s, room); |u.out| <= u.used
  {
    forall t, r: nat | t != [] && Straight(maxcode)(t, r).Take?
      ensures |Straight(maxcode)(t, r).out| <= Straight(maxcode)(t, r).len
    {
      TakenShorter(t, r, maxcode);
    }
    ConvertShorter(Straight(maxcode), s, 0, room);
  }

  lemma TakenShorter(s: seq<bv8>, r: nat, maxcode: bv64)
    ensures var t := Utf8ToUtf16Step(s, r, maxcode); t.Take? ==> |t.out| <= t.len
  {
  }

  /** The limits for which the two ways agree on every input are exactly those from 0xF4 up: below,
      a lone F4 is an error to the one and an unfinished character to the other. */
  lemma StraightIsComposedIff(maxcode: bv64)
    ensures maxcode >= 0xF4
       <==> forall s: seq<bv8> :: Composed(Convert(FromUtf8(maxcode), s, |s|), Convert(Straight(maxcode), s, |s|))
  {
    if maxcode >= 0xF4 {
      forall s: seq<bv8>
        ensures Composed(Convert(FromUtf8(maxcode), s, |s|), Convert(Straight(maxcode), s, |s|))
      {
        StraightIsComposed(s, |s|, |s|, maxcode);
      }
    } else {
      var s: seq<bv8> := [0xF4];
      assert s[0..] == s;
      assert Utf8ToUcs4Step(s, 1, maxcode) == Short && Utf8ToUtf16Step(s, 1, maxcode) == Bad;
      assert !Composed(Convert(FromUtf8(maxcode), s, |s|), Convert(Straight(maxcode), s, |s|));
    }
  }

  /** Serialising the straight decoder's output gives what ucs4_to_utf16be or ucs4_to_utf16le
      makes of the output of utf8_to_ucs4. */
  lemma StraightThenBytes(s: seq<bv8>, room: nat, maxcode: bv64, e: Endian)
    requires room >= |s| && LeadsWithin(s, maxcode)
    ensures var d := Convert(FromUtf8(maxcode), s, room);
            var u := Convert(Straight(maxcode), s, room);
            Convert(ToUtf16(maxcode, e), d.out, 2 * |u.out|) == Converted(Ok, |d.out|, Serialize(e, u.out))
  {
    StraightIsComposed(s, room, room, maxcode);
    DecodedPrefix(s, room, maxcode);
    var d, u := Convert(FromUtf8(maxcode), s, room), Convert(Straight(maxcode), s, room);
    TextIsUtf16(d.out);
    UnitsOfSerialize(e, u.out);
    EncodeAccepts16(d.out, Serialize(e, u.out), 2 * |u.out|, maxcode, e);
  }

  lemma {:induction false} TextIsUtf16(cs: seq<bv32>)
    requires forall i | 0 <= i < |cs| :: Scalar(cs[i])
    ensures IsUtf16(Utf16Text(cs), cs)
  {
    var parts := seq(|cs|, i requires 0 <= i < |cs| => Utf16Of(cs[i]));
    forall i | 0 <= i < |cs| ensures Utf16Spells(parts[i], cs[i]) { Utf16OfSpells(cs[i]); }
    TextIsConcat(cs, parts);
    assert Utf16Chars(parts, cs);
  }

  lemma {:induction false} TextIsConcat(cs: seq<bv32>, parts: seq<seq<bv16>>)
    requires (forall i | 0 <= i < |cs| :: Scalar(cs[i])) && |parts| == |cs|
    requires forall i | 0 <= i < |cs| :: parts[i] == Utf16Of(cs[i])
    ensures Concat(parts) == Utf16Text(cs)
  {
    if cs != [] {
      TextIsConcat(cs[1..], parts[1..]);
    }
  }

  // ----- one step of utf16_to_utf8

  lemma CutLead2(w: bv16)
    requires w < 0x800
    ensures Cut(0xC0 | (w >> 6)) == Low8(0xC0 | (w as bv32 >> 6))
  {
  }

  lemma CutLead3(w: bv16)
    ensures Cut(0xE0 | (w >> 12)) == Low8(0xE0 | (w as bv32 >> 12))
  {
  }

  lemma CutMiddle(w: bv16)
    ensures Cut(0x80 | ((w & 0x0FC0) >> 6)) == Low8(0x80 | ((w as bv32 & 0xFC0) >> 6))
  {
  }

  lemma CutLast(w: bv16)
    ensures Cut(0x80 | (w & 0x003F)) == Low8(0x80 | (w as bv32 & 0x3F))
  {
  }

  lemma CutOne(w: bv16)
    requires w < 0x80
    ensures Cut(w) == Low8(w as bv32)
  {
  }

  lemma WideSize(w: bv16)
    ensures w < 0x80 <==> w as bv32 < 0x80
    ensures w < 0x800 <==> w as bv32 < 0x800
    ensures w as bv32 < 0x10000
    ensures w as bv64 == (w as bv32) as bv64
  {
  }

  lemma OctetsOf1(w: bv16)
    requires w < 0x80
    ensures Scalar(w as bv32) && [Cut(w)] == Utf8Of(w as bv32)
  {
    WideSize(w);
    CutOne(w);
    OfOne(w as bv32);
  }

  lemma OctetsOf2(w: bv16)
    requires 0x80 <= w < 0x800
    ensures Scalar(w as bv32) && [Cut(0xC0 | (w >> 6)), Cut(0x80 | (w & 0x03F))] == Utf8Of(w as bv32)
  {
    WideSize(w);
    CutLead2(w);
    CutLast(w);
    EncodeTwo(w as bv32);
  }

  lemma OctetsOf3(w: bv16)
    requires 0x800 <= w as bv32 < 0x10000 && Scalar(w as bv32)
    ensures ThreeOctets(w) == Utf8Of(w as bv32)
  {
    CutLead3(w);
    CutMiddle(w);
    CutLast(w);
    EncodeThree(w as bv32);
  }

  /** What one step does with a code point whose UTF-8 is o and that took n units. */
  function Room8(n: nat, o: seq<bv8>, room: nat): Step<bv8> {
    if room < |o| then Short else Take(n, o)
  }

  lemma UnitEncodes(w: bv16, r: nat)
    requires Scalar(w as bv32)
    ensures UnitToUtf8(w, r) == Room8(1, Utf8Of(w as bv32), r)
  {
    WideSize(w);
    if w < 0x80 {
      OctetsOf1(w);
    } else if w < 0x800 {
      OctetsOf2(w);
    } else {
      OctetsOf3(w);
    }
  }

  lemma PairByte1(hi: bv16, lo: bv16)
    requires HighSurrogate(hi) && LowSurrogate(lo)
    ensures Cut(0xF0 | ((((hi & 0x03C0) >> 6) + 1) >> 2)) == Low8(0xF0 | (Joined(hi, lo) >> 18))
  {
  }

  lemma PairByte2(hi: bv16, lo: bv16)
    requires HighSurrogate(hi) && LowSurrogate(lo)
    ensures Cut(0x80 | (((((hi & 0x03C0) >> 6) + 1) & 0x03) << 4) | ((hi & 0x003C) >> 2))
         == Low8(0x80 | ((Joined(hi, lo) & 0x3F000) >> 12))
  {
  }

  lemma PairByte3(hi: bv16, lo: bv16)
    ensures Cut(0x80 | ((hi & 0x0003) << 4) | ((lo & 0x03C0) >> 6)) == Low8(0x80 | ((Joined(hi, lo) & 0xFC0) >> 6))
  {
  }

  lemma PairByte4(hi: bv16, lo: bv16)
    ensures Cut(0x80 | (lo & 0x003F)) == Low8(0x80 | (Joined(hi, lo) & 0x3F))
  {
  }

  lemma OctetsOfPair(hi: bv16, lo: bv16, v: bv32)
    requires HighSurrogate(hi) && LowSurrogate(lo) && JoinsTo(hi, lo, v)
    ensures Scalar(v) && PairOctets(hi, lo) == Utf8Of(v)
  {
    assert JoinsHere(hi, lo, v);
    PairOctetsAre(hi, lo, v);
    EncodeFour(v);
  }

  lemma PairOctetsAre(hi: bv16, lo: bv16, v: bv32)
    requires HighSurrogate(hi) && LowSurrogate(lo) && v == Joined(hi, lo)
    ensures PairOctets(hi, lo) == [Low8(0xF0 | (v >> 18)), Low8(0x80 | ((v & 0x3F000) >> 12)),
                                   Low8(0x80 | ((v & 0xFC0) >> 6)), Low8(0x80 | (v & 0x3F))]
  {
    PairByte1(hi, lo);
    PairByte2(hi, lo);
    PairByte3(hi, lo);
    PairByte4(hi, lo);
  }

  lemma PairAboveUnits(hi: bv16, lo: bv16, maxcode: bv64)
    requires 0x10000 <= Pair(hi, lo) && Pair(hi, lo) as bv64 <= maxcode
    ensures hi as bv64 <= maxcode
  {
  }

  /** v is the code point of the halves; worded so that the verifier does not look inside at every
      mention. */
  ghost predicate JoinsTo(hi: bv16, lo: bv16, v: bv32) {
    forall x | x == v :: JoinsHere(hi, lo, x)
  }

  ghost predicate JoinsHere(hi: bv16, lo: bv16, v: bv32) {
    v == Joined(hi, lo) && 0x10000 <= v <= 0x10FFFF
  }

  lemma PairJoins(hi: bv16, lo: bv16)
    requires HighSurrogate(hi) && LowSurrogate(lo)
    ensures JoinsTo(hi, lo, Pair(hi, lo))
  {
    JoinedIsPair(hi, lo);
    assert JoinsHere(hi, lo, Pair(hi, lo));
  }

  /** w is made of the same fields; worded in the same way. */
  ghost predicate FieldsOf(hi: bv16, lo: bv16, w: bv64) {
    forall x | x == w :: FieldsHere(hi, lo, x)
  }

  ghost predicate FieldsHere(hi: bv16, lo: bv16, w: bv64) {
    w == ((((hi & 0x03C0) >> 6) as bv64 + 1) << 16) | ((hi & 0x003F) as bv64 << 10) | (lo & 0x03FF) as bv64
  }

  lemma PairSumFields(hi: bv16, lo: bv16) returns (w: bv64)
    ensures w == PairSum(hi, lo) && FieldsOf(hi, lo, w)
  {
    w := PairSum(hi, lo);
    assert FieldsHere(hi, lo, w);
  }

  lemma JoinedFields(hi: bv16, lo: bv16, v: bv32, w: bv64)
    requires JoinsTo(hi, lo, v) && FieldsOf(hi, lo, w)
    ensures w == v as bv64
  {
    assert JoinsHere(hi, lo, v) && FieldsHere(hi, lo, w);
  }

  lemma PairSumIs(hi: bv16, lo: bv16, v: bv32)
    requires JoinsTo(hi, lo, v)
    ensures PairSum(hi, lo) == v as bv64
  {
    var w := PairSumFields(hi, lo);
    JoinedFields(hi, lo, v, w);
  }

  /** t writes the UTF-8 of c, taking n units, if there is room for it. */
  ghost predicate EncodedAs(t: Step<bv8>, n: nat, c: bv32, r: nat) {
    exists p :: Utf8Spells(p, c) && t == Room8(n, p, r)
  }

  ghost predicate EncodesUnits(unit: (bv16, nat) -> Step<bv8>) {
    forall w, r: nat | !HighSurrogate(w) && !LowSurrogate(w) :: EncodedAs(unit(w, r), 1, w as bv32, r)
  }

  /** t writes the UTF-8 of c, a code point of two units; one beyond the limit is an error if there is
      room for it. */
  ghost predicate PairAs(t: Step<bv8>, c: bv32, r: nat, maxcode: bv64) {
    if c as bv64 > maxcode then t == (if r < 4 then Short else Bad) else EncodedAs(t, 2, c, r)
  }

  /** A low surrogate is required, and a code point beyond the limit is not written. */
  ghost predicate EncodedPair(t: Step<bv8>, hi: bv16, lo: bv16, r: nat, maxcode: bv64) {
    if !LowSurrogate(lo) then t == Bad
    else exists c :: Utf16Spells([hi, lo], c) && PairAs(t, c, r, maxcode)
  }

  ghost predicate EncodesPairs(pair: (bv16, bv16, nat, bv64) -> Step<bv8>) {
    forall hi, lo, r: nat, maxcode | HighSurrogate(hi) :: EncodedPair(pair(hi, lo, r, maxcode), hi, lo, r, maxcode)
  }

  lemma UnitsEncoded()
    ensures EncodesUnits(UnitToUtf8)
  {
    forall w: bv16, r: nat | !HighSurrogate(w) && !LowSurrogate(w)
      ensures EncodedAs(UnitToUtf8(w, r), 1, w as bv32, r)
    {
      UnitEncoded(w, r);
    }
  }

  lemma UnitEncoded(w: bv16, r: nat)
    requires !HighSurrogate(w) && !LowSurrogate(w)
    ensures EncodedAs(UnitToUtf8(w, r), 1, w as bv32, r)
  {
    UnitIsScalar(w);
    UnitEncodes(w, r);
    RoomEncodes(1, w as bv32, r);
  }

  lemma RoomEncodes(n: nat, c: bv32, r: nat)
    requires Scalar(c)
    ensures EncodedAs(Room8(n, Utf8Of(c), r), n, c, r)
  {
    Utf8OfSpells(c);
  }

  lemma PairsEncoded()
    ensures EncodesPairs(PairToUtf8)
  {
    forall hi: bv16, lo: bv16, r: nat, maxcode: bv64 | HighSurrogate(hi)
      ensures EncodedPair(PairToUtf8(hi, lo, r, maxcode), hi, lo, r, maxcode)
    {
      SurrogatesByBits(lo);
      if LowSurrogate(lo) {
        PairEncoded(hi, lo, r, maxcode);
      }
    }
  }

  lemma PairEncoded(hi: bv16, lo: bv16, r: nat, maxcode: bv64)
    requires HighSurrogate(hi) && LowSurrogate(lo)
    ensures EncodedPair(PairToUtf8(hi, lo, r, maxcode), hi, lo, r, maxcode)
  {
    var v, o := PairSpelled(hi, lo);
    PairToUtf8Fits(hi, lo, v, o, r, maxcode);
    FitsEncoded(PairToUtf8(hi, lo, r, maxcode), hi, lo, v, o, r, maxcode);
  }

  lemma PairSpelled(hi: bv16, lo: bv16) returns (v: bv32, o: seq<bv8>)
    requires HighSurrogate(hi) && LowSurrogate(lo)
    ensures v as bv64 == PairSum(hi, lo) && o == PairOctets(hi, lo)
    ensures Utf16Spells([hi, lo], v) && Utf8Spells(o, v)
  {
    v, o := Pair(hi, lo), PairOctets(hi, lo);
    PairJoins(hi, lo);
    PairSumIs(hi, lo, v);
    OctetsOfPair(hi, lo, v);
    TwoUnitsSpell(hi, lo);
    Utf8OfSpells(v);
  }

  lemma PairToUtf8Fits(hi: bv16, lo: bv16, v: bv32, o: seq<bv8>, r: nat, maxcode: bv64)
    requires LowSurrogate(lo) && v as bv64 == PairSum(hi, lo) && o == PairOctets(hi, lo)
    ensures |o| == 4 && PairToUtf8(hi, lo, r, maxcode) == FitsPair(r, v as bv64, o, maxcode)
  {
    SurrogatesByBits(lo);
  }

  lemma FitsEncoded(t: Step<bv8>, hi: bv16, lo: bv16, v: bv32, o: seq<bv8>, r: nat, maxcode: bv64)
    requires LowSurrogate(lo) && Utf16Spells([hi, lo], v) && Utf8Spells(o, v)
    requires |o| == 4 && t == FitsPair(r, v as bv64, o, maxcode)
    ensures EncodedPair(t, hi, lo, r, maxcode)
  {
    if v as bv64 <= maxcode {
      assert t == Room8(2, o, r);
      assert EncodedAs(t, 2, v, r);
    }
    assert PairAs(t, v, r, maxcode);
  }

  lemma BackReads(p: seq<bv8>, u: seq<bv16>, c: bv32, maxcode: bv64)
    requires Same(p, u, c) && c as bv64 <= maxcode
    ensures Reads(Back(maxcode), u, p)
  {
    UnitsEncoded();
    PairsEncoded();
    Spells16Nonempty(u, c);
    forall more, r: nat | r >= |p|
      ensures Back(maxcode)(u + more, r) == Take(|u|, p)
    {
      StepWrites(UnitToUtf8, PairToUtf8, p, u, more, r, c, maxcode);
    }
  }

  lemma StepIsUnit(unit: (bv16, nat) -> Step<bv8>, pair: (bv16, bv16, nat, bv64) -> Step<bv8>,
                   s: seq<bv16>, r: nat, maxcode: bv64)
    requires s != [] && s[0] as bv64 <= maxcode && !HighSurrogate(s[0]) && !LowSurrogate(s[0])
    ensures Utf16ToUtf8Step(unit, pair, s, r, maxcode) == unit(s[0], r)
  {
  }

  lemma StepIsPair(unit: (bv16, nat) -> Step<bv8>, pair: (bv16, bv16, nat, bv64) -> Step<bv8>,
                   s: seq<bv16>, r: nat, maxcode: bv64)
    requires |s| >= 2 && s[0] as bv64 <= maxcode && HighSurrogate(s[0])
    ensures Utf16ToUtf8Step(unit, pair, s, r, maxcode) == pair(s[0], s[1], r, maxcode)
  {
  }

  /** If a pair is within the limit, so is its first unit. */
  lemma HighWithin(hi: bv16, lo: bv16, c: bv32, maxcode: bv64)
    requires Utf16Spells([hi, lo], c) && c as bv64 <= maxcode
    ensures HighSurrogate(hi) && hi as bv64 <= maxcode
  {
    TwoUnitMeaning(hi, lo, c);
    JoinedIsPair(hi, lo);
    PairAboveUnits(hi, lo, maxcode);
  }

  lemma OneWithin(w: bv16, c: bv32, maxcode: bv64)
    requires Utf16Spells([w], c) && c as bv64 <= maxcode
    ensures !HighSurrogate(w) && !LowSurrogate(w) && w as bv64 <= maxcode && w as bv32 == c
  {
    OneUnitMeaning(w, c);
    WideSize(w);
  }

  /** A code point has only one spelling, in either form. */
  lemma Spelling8Unique(p: seq<bv8>, q: seq<bv8>, c: bv32)
    requires Utf8Spells(p, c) && Utf8Spells(q, c)
    ensures p == q
  {
    Utf8OfUnique(p, c);
    Utf8OfUnique(q, c);
  }

  lemma Spelling16Value(u: seq<bv16>, c: bv32, d: bv32)
    requires Utf16Spells(u, c) && Utf16Spells(u, d)
    ensures c == d
  {
    assert Utf16Meaning(u, c) && Utf16Meaning(u, d);
  }

  lemma WritesSpelling(t: Step<bv8>, n: nat, p: seq<bv8>, c: bv32, r: nat)
    requires EncodedAs(t, n, c, r) && Utf8Spells(p, c) && r >= |p|
    ensures t == Take(n, p)
  {
    var q :| Utf8Spells(q, c) && t == Room8(n, q, r);
    Spelling8Unique(p, q, c);
  }

  lemma PairWrites(t: Step<bv8>, p: seq<bv8>, hi: bv16, lo: bv16, c: bv32, r: nat, maxcode: bv64)
    requires EncodedPair(t, hi, lo, r, maxcode) && Same(p, [hi, lo], c) && c as bv64 <= maxcode && r >= |p|
    ensures t == Take(2, p)
  {
    assert LowSurrogate(lo) by { TwoUnitMeaning(hi, lo, c); }
    var d :| Utf16Spells([hi, lo], d) && PairAs(t, d, r, maxcode);
    assert c == d by { Spelling16Value([hi, lo], c, d); }
    WritesSpelling(t, 2, p, c, r);
  }

  lemma StepWrites(unit: (bv16, nat) -> Step<bv8>, pair: (bv16, bv16, nat, bv64) -> Step<bv8>,
                   p: seq<bv8>, u: seq<bv16>, more: seq<bv16>, r: nat, c: bv32, maxcode: bv64)
    requires EncodesUnits(unit) && EncodesPairs(pair)
    requires Same(p, u, c) && c as bv64 <= maxcode && r >= |p|
    ensures Utf16ToUtf8Step(unit, pair, u + more, r, maxcode) == Take(|u|, p)
  {
    Spells16Nonempty(u, c);
    if |u| == 1 {
      assert u == [u[0]] && (u + more)[0] == u[0];
      StepWritesUnit(unit, pair, p, u + more, u[0], r, c, maxcode);
    } else {
      assert u == [u[0], u[1]] && (u + more)[0] == u[0] && (u + more)[1] == u[1];
      StepWritesPair(unit, pair, p, u + more, r, c, maxcode);
    }
  }

  lemma StepWritesUnit(unit: (bv16, nat) -> Step<bv8>, pair: (bv16, bv16, nat, bv64) -> Step<bv8>,
                       p: seq<bv8>, s: seq<bv16>, w: bv16, r: nat, c: bv32, maxcode: bv64)
    requires EncodesUnits(unit)
    requires s != [] && s[0] == w && Same(p, [w], c) && c as bv64 <= maxcode && r >= |p|
    ensures Utf16ToUtf8Step(unit, pair, s, r, maxcode) == Take(1, p)
  {
    UnitWrites(unit, p, w, r, c, maxcode);
    StepIsUnit(unit, pair, s, r, maxcode);
  }

  lemma UnitWrites(unit: (bv16, nat) -> Step<bv8>, p: seq<bv8>, w: bv16, r: nat, c: bv32, maxcode: bv64)
    requires EncodesUnits(unit) && Same(p, [w], c) && c as bv64 <= maxcode && r >= |p|
    ensures !HighSurrogate(w) && !LowSurrogate(w) && w as bv64 <= maxcode && unit(w, r) == Take(1, p)
  {
    OneWithin(w, c, maxcode);
    UnitOf(unit, w, c, r);
    WritesSpelling(unit(w, r), 1, p, c, r);
  }

  lemma UnitOf(unit: (bv16, nat) -> Step<bv8>, w: bv16, c: bv32, r: nat)
    requires EncodesUnits(unit) && !HighSurrogate(w) && !LowSurrogate(w) && w as bv32 == c
    ensures EncodedAs(unit(w, r), 1, c, r)
  {
  }

  lemma StepWritesPair(unit: (bv16, nat) -> Step<bv8>, pair: (bv16, bv16, nat, bv64) -> Step<bv8>,
                       p: seq<bv8>, s: seq<bv16>, r: nat, c: bv32, maxcode: bv64)
    requires EncodesPairs(pair)
    requires |s| >= 2 && Same(p, [s[0], s[1]], c) && c as bv64 <= maxcode && r >= |p|
    ensures Utf16ToUtf8Step(unit, pair, s, r, maxcode) == Take(2, p)
  {
    HighWithin(s[0], s[1], c, maxcode);
    StepIsPair(unit, pair, s, r, maxcode);
    assert EncodedPair(pair(s[0], s[1], r, maxcode), s[0], s[1], r, maxcode);
    PairWrites(pair(s[0], s[1], r, maxcode), p, s[0], s[1], c, r, maxcode);
  }

  /** Whatever a step takes is a character within the limit, written in UTF-8. */
  lemma StepWrote(unit: (bv16, nat) -> Step<bv8>, pair: (bv16, bv16, nat, bv64) -> Step<bv8>,
                  s: seq<bv16>, r: nat, n: nat, p: seq<bv8>, maxcode: bv64) returns (c: bv32)
    requires EncodesUnits(unit) && EncodesPairs(pair)
    requires Utf16ToUtf8Step(unit, pair, s, r, maxcode) == Take(n, p)
    ensures Wrote(s, n, p, c, maxcode)
  {
    StepTook(unit, pair, s, r, maxcode);
    if HighSurrogate(s[0]) {
      c := StepWrotePair(unit, pair, s, r, n, p, maxcode);
    } else {
      c := StepWroteUnit(unit, pair, s, r, n, p, maxcode);
    }
  }

  /** p is the UTF-8 of the code point c that the first n units of s spell; worded so that the
      verifier does not look inside at every mention. */
  ghost predicate Wrote(s: seq<bv16>, n: nat, p: seq<bv8>, c: bv32, maxcode: bv64) {
    forall d | d == c :: WroteOne(s, n, p, d, maxcode)
  }

  ghost predicate WroteOne(s: seq<bv16>, n: nat, p: seq<bv8>, c: bv32, maxcode: bv64) {
    n <= |s| && Same(p, s[..n], c) && c as bv64 <= maxcode
  }

  lemma StepTook(unit: (bv16, nat) -> Step<bv8>, pair: (bv16, bv16, nat, bv64) -> Step<bv8>,
                 s: seq<bv16>, r: nat, maxcode: bv64)
    requires Utf16ToUtf8Step(unit, pair, s, r, maxcode).Take?
    ensures s != [] && s[0] as bv64 <= maxcode && !LowSurrogate(s[0])
    ensures HighSurrogate(s[0]) ==> |s| >= 2
  {
  }

  lemma StepWrotePair(unit: (bv16, nat) -> Step<bv8>, pair: (bv16, bv16, nat, bv64) -> Step<bv8>,
                      s: seq<bv16>, r: nat, n: nat, p: seq<bv8>, maxcode: bv64) returns (c: bv32)
    requires EncodesPairs(pair) && |s| >= 2 && s[0] as bv64 <= maxcode && HighSurrogate(s[0])
    requires Utf16ToUtf8Step(unit, pair, s, r, maxcode) == Take(n, p)
    ensures Wrote(s, n, p, c, maxcode)
  {
    StepIsPair(unit, pair, s, r, maxcode);
    assert EncodedPair(pair(s[0], s[1], r, maxcode), s[0], s[1], r, maxcode);
    c := TakenPair(s, s[0], s[1], r, n, p, maxcode);
    assert WroteOne(s, n, p, c, maxcode);
  }

  lemma StepWroteUnit(unit: (bv16, nat) -> Step<bv8>, pair: (bv16, bv16, nat, bv64) -> Step<bv8>,
                      s: seq<bv16>, r: nat, n: nat, p: seq<bv8>, maxcode: bv64) returns (c: bv32)
    requires EncodesUnits(unit) && s != [] && s[0] as bv64 <= maxcode && !HighSurrogate(s[0]) && !LowSurrogate(s[0])
    requires Utf16ToUtf8Step(unit, pair, s, r, maxcode) == Take(n, p)
    ensures Wrote(s, n, p, c, maxcode)
  {
    StepIsUnit(unit, pair, s, r, maxcode);
    FirstOne(s);
    c := UnitWrote(unit, s[0], r, n, p, maxcode);
    assert WroteOne(s, n, p, c, maxcode);
  }

  lemma FirstOne<T>(s: seq<T>)
    requires s != []
    ensures s[..1] == [s[0]]
  {
  }

  lemma TakenPair(s: seq<bv16>, hi: bv16, lo: bv16, r: nat, n: nat, p: seq<bv8>, maxcode: bv64) returns (c: bv32)
    requires |s| >= 2 && s[..2] == [hi, lo] && HighSurrogate(hi) && EncodedPair(Take(n, p), hi, lo, r, maxcode)
    ensures n <= |s| && Same(p, s[..n], c) && c as bv64 <= maxcode
  {
    c := PairWrote(Take(n, p), hi, lo, r, maxcode);
  }

  lemma UnitWrote(unit: (bv16, nat) -> Step<bv8>, w: bv16, r: nat, n: nat, p: seq<bv8>, maxcode: bv64)
    returns (c: bv32)
    requires EncodesUnits(unit) && !HighSurrogate(w) && !LowSurrogate(w) && w as bv64 <= maxcode
    requires unit(w, r) == Take(n, p)
    ensures n == 1 && Same(p, [w], c) && c as bv64 <= maxcode
  {
    c := w as bv32;
    UnitOut(unit, w, c, r, n, p);
    OneUnitSpells(w);
    WideSize(w);
  }

  lemma UnitOut(unit: (bv16, nat) -> Step<bv8>, w: bv16, c: bv32, r: nat, n: nat, p: seq<bv8>)
    requires EncodesUnits(unit) && !HighSurrogate(w) && !LowSurrogate(w) && c == w as bv32 && unit(w, r) == Take(n, p)
    ensures n == 1 && Utf8Spells(p, c)
  {
    UnitOf(unit, w, c, r);
    var q :| Utf8Spells(q, c) && unit(w, r) == Room8(1, q, r);
  }

  lemma PairWrote(t: Step<bv8>, hi: bv16, lo: bv16, r: nat, maxcode: bv64) returns (c: bv32)
    requires t.Take? && HighSurrogate(hi) && EncodedPair(t, hi, lo, r, maxcode)
    ensures t.len == 2 && Same(t.out, [hi, lo], c) && c as bv64 <= maxcode
  {
    c :| Utf16Spells([hi, lo], c) && PairAs(t, c, r, maxcode);
  }

  lemma BackHasRead(u: seq<bv16>, p: seq<bv8>, maxcode: bv64) returns (c: bv32)
    requires HasRead(Back(maxcode), u, p)
    ensures Same(p, u, c) && c as bv64 <= maxcode
  {
    assert ReadSomewhere(Back(maxcode), u, p);
    var more, r: nat :| Back(maxcode)(u + more, r) == Take(|u|, p);
    UnitsEncoded();
    PairsEncoded();
    c := StepWrote(UnitToUtf8, PairToUtf8, u + more, r, |u|, p, maxcode);
    assert WroteOne(u + more, |u|, p, c, maxcode);
    assert (u + more)[..|u|] == u;
  }

  lemma {:induction false} BackParts(units: seq<seq<bv16>>, parts: seq<seq<bv8>>, maxcode: bv64) returns (cs: seq<bv32>)
    requires |parts| == |units| && forall i | 0 <= i < |parts| :: HasRead(Back(maxcode), units[i], parts[i])
    ensures Utf8Chars(parts, cs) && Utf16Chars(units, cs) && AllWithin(cs, maxcode)
  {
    cs := [];
    if parts != [] {
      var c := BackHasRead(units[0], parts[0], maxcode);
      var rest := BackParts(units[1..], parts[1..], maxcode);
      cs := [c] + rest;
      CharsGrow(parts, units, c, rest, maxcode);
    }
  }

  lemma BackAccepts(s: seq<bv8>, u: seq<bv16>, cs: seq<bv32>, room: nat, maxcode: bv64)
    requires SameText(s, u, cs) && |s| <= room && AllWithin(cs, maxcode)
    ensures Convert(Back(maxcode), u, room) == Converted(Ok, |u|, s)
  {
    var parts :| Utf8Chars(parts, cs) && Concat(parts) == s;
    var units :| Utf16Chars(units, cs) && Concat(units) == u;
    forall i | 0 <= i < |parts|
      ensures Reads(Back(maxcode), units[i], parts[i])
    {
      BackReads(parts[i], units[i], cs[i], maxcode);
    }
    ConvertParts(Back(maxcode), units, parts, room);
  }

  /** utf16_to_utf8 returns ok exactly when the input is well-formed UTF-16 and the output is the
      UTF-8 of the same code points, all within the limit, and fits. */
  lemma BackExact(u: seq<bv16>, s: seq<bv8>, room: nat, maxcode: bv64)
    ensures Convert(Back(maxcode), u, room) == Converted(Ok, |u|, s)
       <==> |s| <= room && exists cs :: SameText(s, u, cs) && AllWithin(cs, maxcode)
  {
    if Convert(Back(maxcode), u, room) == Converted(Ok, |u|, s) {
      var units, parts := ConvertSplits(Back(maxcode), u, 0, room);
      assert u[0..|u|] == u;
      var cs := BackParts(units, parts, maxcode);
      assert SameText(s, u, cs);
    } else if |s| <= room && exists cs :: SameText(s, u, cs) && AllWithin(cs, maxcode) {
      var cs :| SameText(s, u, cs) && AllWithin(cs, maxcode);
      BackAccepts(s, u, cs, room, maxcode);
    }
  }

  /** p is the UTF-8 of a character that s starts with, and does not fit into r octets. */
  ghost predicate TooLong(s: seq<bv16>, n: nat, p: seq<bv8>, v: bv32, r: nat) {
    n <= |s| && Same(p, s[..n], v) && |p| > r
  }

  /** Partial means that the input ends after a high surrogate, or that the UTF-8 of the next character
      does not fit. */
  lemma BackPartial(u: seq<bv16>, room: nat, maxcode: bv64)
    requires Convert(Back(maxcode), u, room).verdict == Partial
    ensures var c := Convert(Back(maxcode), u, room);
            var rest, r := u[c.used..], room - |c.out|;
            (|rest| == 1 && HighSurrogate(rest[0])) || exists n, p, v :: TooLong(rest, n, p, v, r)
  {
    var c := Convert(Back(maxcode), u, room);
    PartialStop(Back(maxcode), u, room);
    UnitsEncoded();
    PairsEncoded();
    StepShort(UnitToUtf8, PairToUtf8, u[c.used..], room - |c.out|, maxcode);
  }

  lemma StepShort(unit: (bv16, nat) -> Step<bv8>, pair: (bv16, bv16, nat, bv64) -> Step<bv8>,
                  s: seq<bv16>, r: nat, maxcode: bv64)
    requires EncodesUnits(unit) && EncodesPairs(pair) && s != []
    requires Utf16ToUtf8Step(unit, pair, s, r, maxcode) == Short
    ensures (|s| == 1 && HighSurrogate(s[0])) || exists n, p, v :: TooLong(s, n, p, v, r)
  {
    if !HighSurrogate(s[0]) {
      ShortUnit(unit, pair, s, r, maxcode);
      FirstOne(s);
      var p, v := UnitShort(unit, s[0], r);
      assert TooLong(s, 1, p, v, r);
    } else if |s| > 1 {
      ShortLimit(unit, pair, s, r, maxcode);
      StepIsPair(unit, pair, s, r, maxcode);
      assert EncodedPair(pair(s[0], s[1], r, maxcode), s[0], s[1], r, maxcode);
      var p, v := PairShort(s[0], s[1], r, maxcode);
      assert s[..2] == [s[0], s[1]];
      assert TooLong(s, 2, p, v, r);
    }
  }

  lemma ShortLimit(unit: (bv16, nat) -> Step<bv8>, pair: (bv16, bv16, nat, bv64) -> Step<bv8>,
                   s: seq<bv16>, r: nat, maxcode: bv64)
    requires s != [] && Utf16ToUtf8Step(unit, pair, s, r, maxcode) == Short
    ensures s[0] as bv64 <= maxcode && !LowSurrogate(s[0])
  {
  }

  lemma ShortUnit(unit: (bv16, nat) -> Step<bv8>, pair: (bv16, bv16, nat, bv64) -> Step<bv8>,
                  s: seq<bv16>, r: nat, maxcode: bv64)
    requires s != [] && Utf16ToUtf8Step(unit, pair, s, r, maxcode) == Short && !HighSurrogate(s[0])
    ensures !LowSurrogate(s[0]) && unit(s[0], r) == Short
  {
    ShortLimit(unit, pair, s, r, maxcode);
    StepIsUnit(unit, pair, s, r, maxcode);
  }

  lemma UnitShort(unit: (bv16, nat) -> Step<bv8>, w: bv16, r: nat) returns (p: seq<bv8>, v: bv32)
    requires EncodesUnits(unit) && !HighSurrogate(w) && !LowSurrogate(w) && unit(w, r) == Short
    ensures Same(p, [w], v) && |p| > r
  {
    v := w as bv32;
    UnitOf(unit, w, v, r);
    OneUnitSpells(w);
    p :| Utf8Spells(p, v) && unit(w, r) == Room8(1, p, r);
  }

  lemma PairShort(hi: bv16, lo: bv16, r: nat, maxcode: bv64) returns (p: seq<bv8>, v: bv32)
    requires HighSurrogate(hi) && EncodedPair(Short, hi, lo, r, maxcode)
    ensures Same(p, [hi, lo], v) && |p| > r
  {
    v :| Utf16Spells([hi, lo], v) && PairAs(Short, v, r, maxcode);
    if v as bv64 <= maxcode {
      p :| Utf8Spells(p, v) && Short == Room8(2, p, r);
    } else {
      p := PairIsFour(hi, lo, v);
    }
  }

  lemma PairIsFour(hi: bv16, lo: bv16, v: bv32) returns (p: seq<bv8>)
    requires Utf16Spells([hi, lo], v)
    ensures Utf8Spells(p, v) && |p| == 4
  {
    TwoUnitMeaning(hi, lo, v);
    JoinedIsPair(hi, lo);
    p := Utf8Of(v);
    OfFour(v);
    Utf8OfSpells(v);
  }

  /** Error means that no continuation of the input has an acceptable character at this place. */
  lemma BackError(u: seq<bv16>, room: nat, maxcode: bv64, p: seq<bv8>, q: seq<bv16>, v: bv32, more: seq<bv16>)
    requires Convert(Back(maxcode), u, room).verdict == Error
    requires Same(p, q, v) && v as bv64 <= maxcode
    ensures !(q <= u[Convert(Back(maxcode), u, room).used..] + more)
  {
    var c := Convert(Back(maxcode), u, room);
    ErrorStop(Back(maxcode), u, room);
    if q <= u[c.used..] + more {
      UnitsEncoded();
      PairsEncoded();
      StepNotBad(UnitToUtf8, PairToUtf8, u[c.used..], p, q, v, more, room - |c.out|, maxcode);
    }
  }

  lemma StepNotBad(unit: (bv16, nat) -> Step<bv8>, pair: (bv16, bv16, nat, bv64) -> Step<bv8>,
                   s: seq<bv16>, p: seq<bv8>, q: seq<bv16>, v: bv32, more: seq<bv16>, r: nat, maxcode: bv64)
    requires EncodesUnits(unit) && EncodesPairs(pair) && s != []
    requires Same(p, q, v) && v as bv64 <= maxcode && q <= s + more
    ensures Utf16ToUtf8Step(unit, pair, s, r, maxcode) != Bad
  {
    Spells16Nonempty(q, v);
    assert q[0] == (s + more)[0] == s[0];
    if |q| == 1 {
      assert q == [s[0]];
      StepNotBadUnit(unit, pair, s, v, r, maxcode);
    } else {
      assert q == [s[0], q[1]];
      if |s| >= 2 {
        assert q[1] == (s + more)[1] == s[1];
      }
      StepNotBadPair(unit, pair, s, q[1], v, r, maxcode);
    }
  }

  lemma StepNotBadUnit(unit: (bv16, nat) -> Step<bv8>, pair: (bv16, bv16, nat, bv64) -> Step<bv8>,
                       s: seq<bv16>, v: bv32, r: nat, maxcode: bv64)
    requires EncodesUnits(unit) && s != [] && Utf16Spells([s[0]], v) && v as bv64 <= maxcode
    ensures Utf16ToUtf8Step(unit, pair, s, r, maxcode) != Bad
  {
    UnitNotBad(unit, s[0], v, r, maxcode);
    StepIsUnit(unit, pair, s, r, maxcode);
  }

  lemma UnitNotBad(unit: (bv16, nat) -> Step<bv8>, w: bv16, v: bv32, r: nat, maxcode: bv64)
    requires EncodesUnits(unit) && Utf16Spells([w], v) && v as bv64 <= maxcode
    ensures !HighSurrogate(w) && !LowSurrogate(w) && w as bv64 <= maxcode && unit(w, r) != Bad
  {
    OneWithin(w, v, maxcode);
    UnitOf(unit, w, v, r);
    EncodedNotBad(unit(w, r), 1, v, r);
  }

  lemma EncodedNotBad(t: Step<bv8>, n: nat, c: bv32, r: nat)
    requires EncodedAs(t, n, c, r)
    ensures t != Bad
  {
  }

  lemma StepNotBadPair(unit: (bv16, nat) -> Step<bv8>, pair: (bv16, bv16, nat, bv64) -> Step<bv8>,
                       s: seq<bv16>, lo: bv16, v: bv32, r: nat, maxcode: bv64)
    requires EncodesPairs(pair) && s != [] && (|s| >= 2 ==> s[1] == lo)
    requires Utf16Spells([s[0], lo], v) && v as bv64 <= maxcode
    ensures Utf16ToUtf8Step(unit, pair, s, r, maxcode) != Bad
  {
    HighWithin(s[0], lo, v, maxcode);
    if |s| >= 2 {
      StepIsPair(unit, pair, s, r, maxcode);
      assert EncodedPair(pair(s[0], lo, r, maxcode), s[0], lo, r, maxcode);
      PairNotBad(pair(s[0], lo, r, maxcode), s[0], lo, v, r, maxcode);
    } else {
      LoneHigh(unit, pair, s, r, maxcode);
    }
  }

  lemma LoneHigh(unit: (bv16, nat) -> Step<bv8>, pair: (bv16, bv16, nat, bv64) -> Step<bv8>,
                 s: seq<bv16>, r: nat, maxcode: bv64)
    requires |s| == 1 && HighSurrogate(s[0]) && s[0] as bv64 <= maxcode
    ensures Utf16ToUtf8Step(unit, pair, s, r, maxcode) == Short
  {
  }

  lemma PairNotBad(t: Step<bv8>, hi: bv16, lo: bv16, c: bv32, r: nat, maxcode: bv64)
    requires EncodedPair(t, hi, lo, r, maxcode) && Utf16Spells([hi, lo], c) && c as bv64 <= maxcode
    ensures t != Bad
  {
    assert LowSurrogate(lo) by { TwoUnitMeaning(hi, lo, c); }
    var d :| Utf16Spells([hi, lo], d) && PairAs(t, d, r, maxcode);
    assert c == d by { Spelling16Value([hi, lo], c, d); }
  }

  /** The two are inverse to each other: whatever one accepts, the other turns back. */
  lemma BackAndStraight(s: seq<bv8>, u: seq<bv16>, room8: nat, room16: nat, maxcode: bv64)
    requires room8 >= |s| && room16 >= |u| && OctetsWithin(s, maxcode)
    ensures Convert(Back(maxcode), u, room8) == Converted(Ok, |u|, s)
       <==> Convert(Straight(maxcode), s, room16) == Converted(Ok, |s|, u)
  {
    BackExact(u, s, room8, maxcode);
    StraightExact(s, u, room16, maxcode);
  }
}
