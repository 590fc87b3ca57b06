/** The converters between UCS-4 and UTF-8 in libc++'s locale.cpp, and their length function. */
module Utf8 {
  import opened Conversion
  import opened Unicode

  /** static_cast<uint8_t>. */
  function Low8(x: bv32): bv8 {
    (x & 0xFF) as bv8
  }

  // ----- loop bodies

  /** ucs4_to_utf8, one code point. */
  function EncodeChar(wc: bv32, room: nat, maxcode: bv64): Step<bv8> {
    if (wc & 0xFFFFF800) == 0xD800 || wc as bv64 > maxcode then Bad
    else if wc < 0x80 then
      if room < 1 then Short else Take(1, [Low8(wc)])
    else if wc < 0x800 then
      if room < 2 then Short else Take(1, [Low8(0xC0 | (wc >> 6)), Low8(0x80 | (wc & 0x3F))])
    else if wc < 0x10000 then
      if room < 3 then Short
      else Take(1, [Low8(0xE0 | (wc >> 12)), Low8(0x80 | ((wc & 0xFC0) >> 6)), Low8(0x80 | (wc & 0x3F))])
    else
      if room < 4 then Short
      else Take(1, [Low8(0xF0 | (wc >> 18)), Low8(0x80 | ((wc & 0x3F000) >> 12)),
                    Low8(0x80 | ((wc & 0xFC0) >> 6)), Low8(0x80 | (wc & 0x3F))])
  }

  function Ucs4ToUtf8Step(s: seq<bv32>, room: nat, maxcode: bv64): Step<bv8> {
    if s == [] then Short else EncodeChar(s[0], room, maxcode)
  }

  /** The second-byte tests of the three-byte and four-byte cases. */
  predicate SecondOfThree(c1: bv8, c2: bv8) {
    if c1 == 0xE0 then (c2 & 0xE0) == 0xA0
    else if c1 == 0xED then (c2 & 0xE0) == 0x80
    else (c2 & 0xC0) == 0x80
  }

  predicate SecondOfFour(c1: bv8, c2: bv8) {
    if c1 == 0xF0 then 0x90 <= c2 <= 0xBF
    else if c1 == 0xF4 then (c2 & 0xF0) == 0x80
    else (c2 & 0xC0) == 0x80
  }

  function Bits2(c1: bv8, c2: bv8): bv32 {
    ((c1 & 0x1F) as bv32 << 6) | (c2 & 0x3F) as bv32
  }

  function Bits3(c1: bv8, c2: bv8, c3: bv8): bv32 {
    ((c1 & 0x0F) as bv32 << 12) | ((c2 & 0x3F) as bv32 << 6) | (c3 & 0x3F) as bv32
  }

  function Bits4(c1: bv8, c2: bv8, c3: bv8, c4: bv8): bv32 {
    ((c1 & 0x07) as bv32 << 18) | ((c2 & 0x3F) as bv32 << 12) | ((c3 & 0x3F) as bv32 << 6) | (c4 & 0x3F) as bv32
  }

  function Within(n: nat, t: bv32, maxcode: bv64): Step<bv32> {
    if t as bv64 > maxcode then Bad else Take(n, [t])
  }

  /** utf8_to_ucs4. */
  function Utf8ToUcs4Step(s: seq<bv8>, room: nat, maxcode: bv64): Step<bv32> {
    if s == [] || room == 0 then Short
    else
      var c1 := s[0];
      if c1 < 0x80 then Within(1, c1 as bv32, maxcode)
      else if c1 < 0xC2 then Bad
      else if c1 < 0xE0 then
        if |s| < 2 then Short
        else if (s[1] & 0xC0) != 0x80 then Bad
        else Within(2, Bits2(c1, s[1]), maxcode)
      else if c1 < 0xF0 then
        if |s| < 3 then Short
        else if !SecondOfThree(c1, s[1]) || (s[2] & 0xC0) != 0x80 then Bad
        else Within(3, Bits3(c1, s[1], s[2]), maxcode)
      else if c1 < 0xF5 then
        if |s| < 4 then Short
        else if !SecondOfFour(c1, s[1]) || (s[2] & 0xC0) != 0x80 || (s[3] & 0xC0) != 0x80 then Bad
        else Within(4, Bits4(c1, s[1], s[2], s[3]), maxcode)
      else Bad
  }

  /** utf8_to_ucs4_length. */
  function Utf8ToUcs4LengthStep(s: seq<bv8>, room: nat, maxcode: bv64): Advance {
    if s == [] || room == 0 then Stop
    else
      var c1 := s[0];
      if c1 < 0x80 then
        if c1 as bv64 > maxcode then Stop else Move(1, 1)
      else if c1 < 0xC2 then Stop
      else if c1 < 0xE0 then
        if |s| < 2 || (s[1] & 0xC0) != 0x80 then Stop
        else if Bits2(c1, s[1]) as bv64 > maxcode then Stop
        else Move(2, 1)
      else if c1 < 0xF0 then
        if |s| < 3 || !SecondOfThree(c1, s[1]) || (s[2] & 0xC0) != 0x80 then Stop
        else if Bits3(c1, s[1], s[2]) as bv64 > maxcode then Stop
        else Move(3, 1)
      else if c1 < 0xF5 then
        if |s| < 4 || !SecondOfFour(c1, s[1]) || (s[2] & 0xC0) != 0x80 || (s[3] & 0xC0) != 0x80 then Stop
        else if Bits4(c1, s[1], s[2], s[3]) as bv64 > maxcode then Stop
        else Move(4, 1)
      else Stop
  }

  function ToUtf8(maxcode: bv64): (step: (seq<bv32>, nat) -> Step<bv8>)
    ensures Sane(step)
  {
    (s: seq<bv32>, room: nat) => Ucs4ToUtf8Step(s, room, maxcode)
  }

  function FromUtf8(maxcode: bv64): (step: (seq<bv8>, nat) -> Step<bv32>)
    ensures Sane(step)
  {
    (s: seq<bv8>, room: nat) => Utf8ToUcs4Step(s, room, maxcode)
  }

  function FromUtf8Length(maxcode: bv64): (step: (seq<bv8>, nat) -> Advance)
    ensures SaneLength(step)
  {
    (s: seq<bv8>, room: nat) => Utf8ToUcs4LengthStep(s, room, maxcode)
  }

  const BOM: seq<bv8> := [0xEF, 0xBB, 0xBF]

  /** Where decoding starts: past a byte order mark that is to be consumed. */
  function SkipBom(s: seq<bv8>, consumeHeader: bool): (n: nat)
    ensures n <= |s|
  {
    if consumeHeader && |s| >= 3 && s[0] == 0xEF && s[1] == 0xBB && s[2] == 0xBF then 3 else 0
  }

  // ----- the functions

  method Utf8ToUcs4(frm: seq<bv8>, to: array<bv32>, maxcode: bv64, consumeHeader: bool)
    returns (verdict: Verdict, frmNxt: nat, toNxt: nat)
    modifies to
    ensures var start := SkipBom(frm, consumeHeader);
            var c := Convert(FromUtf8(maxcode), frm[start..], to.Length);
            && verdict == c.verdict && frmNxt == start + c.used
            && toNxt == |c.out| <= to.Length && to[..toNxt] == c.out && to[toNxt..] == old(to[toNxt..])
  {
    var start := SkipBom(frm, consumeHeader);
    verdict, frmNxt, toNxt := DriveFrom(FromUtf8(maxcode), frm, start, to);
  }

  method Ucs4ToUtf8(frm: seq<bv32>, to: array<bv8>, maxcode: bv64, generateHeader: bool)
    returns (verdict: Verdict, frmNxt: nat, toNxt: nat)
    modifies to
    ensures generateHeader && to.Length < 3 ==>
      verdict == Partial && frmNxt == 0 && toNxt == 0 && to[..] == old(to[..])
    ensures !generateHeader || to.Length >= 3 ==>
      var header := if generateHeader then BOM else [];
      var c := Convert(ToUtf8(maxcode), frm, to.Length - |header|);
      && verdict == c.verdict && frmNxt == c.used && toNxt == |header + c.out| <= to.Length
      && to[..toNxt] == header + c.out && to[toNxt..] == old(to[toNxt..])
  {
    verdict, frmNxt, toNxt := DriveAfter(ToUtf8(maxcode), frm, to, if generateHeader then BOM else []);
  }

  method Utf8ToUcs4Length(frm: seq<bv8>, mx: nat, maxcode: bv64, consumeHeader: bool) returns (n: int)
    ensures var start := SkipBom(frm, consumeHeader);
            n == ToInt(start + Convert(FromUtf8(maxcode), frm[start..], mx).used)
  {
    var start := SkipBom(frm, consumeHeader);
    var frmNxt := DriveLength(FromUtf8Length(maxcode), frm, start, mx);
    LengthIsUsed(frm, start, mx, maxcode);
    n := ToInt(frmNxt);
  }

  lemma LengthIsUsed(frm: seq<bv8>, start: nat, mx: nat, maxcode: bv64)
    requires start <= |frm|
    ensures Measure(FromUtf8Length(maxcode), frm, start, mx) == Convert(FromUtf8(maxcode), frm[start..], mx).used
  {
    LengthMirrors(maxcode);
    MeasureIsUsed(FromUtf8Length(maxcode), FromUtf8(maxcode), frm, start, mx);
    ConvertShift(FromUtf8(maxcode), frm, start, 0, mx);
  }

  lemma LengthMirrors(maxcode: bv64)
    ensures Mirrors(FromUtf8Length(maxcode), FromUtf8(maxcode))
  {
  }

  // ----- the bit patterns agree with the grammar

  lemma TwoByBits(a: bv8, b: bv8)
    requires 0xC2 <= a < 0xE0
    ensures Utf8Two(a, b) <==> (b & 0xC0) == 0x80
    ensures Utf8Two(a, b) ==> Bits2(a, b) == Two(a, b)
  {
  }

  lemma ThreeByBits(a: bv8, b: bv8, c: bv8)
    requires 0xE0 <= a < 0xF0
    ensures Utf8Three(a, b, c) <==> SecondOfThree(a, b) && (c & 0xC0) == 0x80
    ensures Utf8Three(a, b, c) ==> Bits3(a, b, c) == Three(a, b, c)
  {
  }

  lemma FourByBits(a: bv8, b: bv8, c: bv8, d: bv8)
    requires 0xF0 <= a < 0xF5
    ensures Utf8Four(a, b, c, d) <==> SecondOfFour(a, b) && (c & 0xC0) == 0x80 && (d & 0xC0) == 0x80
    ensures Utf8Four(a, b, c, d) ==> Bits4(a, b, c, d) == Four(a, b, c, d)
  {
  }

  lemma StepTakes1(s: seq<bv8>, r: nat, maxcode: bv64)
    requires |s| >= 1 && r >= 1 && s[0] < 0x80
    ensures Utf8ToUcs4Step(s, r, maxcode) == Within(1, Utf8Value(s[..1]), maxcode)
  {
  }

  lemma StepTakes2(s: seq<bv8>, r: nat, maxcode: bv64)
    requires |s| >= 2 && r >= 1 && 0xC2 <= s[0] < 0xE0
    ensures Utf8ToUcs4Step(s, r, maxcode) == if Utf8Char(s[..2]) then Within(2, Utf8Value(s[..2]), maxcode) else Bad
  {
    TwoByBits(s[0], s[1]);
  }

  lemma StepTakes3(s: seq<bv8>, r: nat, maxcode: bv64)
    requires |s| >= 3 && r >= 1 && 0xE0 <= s[0] < 0xF0
    ensures Utf8ToUcs4Step(s, r, maxcode) == if Utf8Char(s[..3]) then Within(3, Utf8Value(s[..3]), maxcode) else Bad
  {
    ThreeByBits(s[0], s[1], s[2]);
  }

  lemma StepTakes4(s: seq<bv8>, r: nat, maxcode: bv64)
    requires |s| >= 4 && r >= 1 && 0xF0 <= s[0] < 0xF5
    ensures Utf8ToUcs4Step(s, r, maxcode) == if Utf8Char(s[..4]) then Within(4, Utf8Value(s[..4]), maxcode) else Bad
  {
    FourByBits(s[0], s[1], s[2], s[3]);
  }

  /** How many octets the first one announces; 0 when it starts no character. */
  function Announced(b: bv8): nat {
    if b < 0x80 then 1 else if b < 0xC2 then 0 else if b < 0xE0 then 2 else if b < 0xF0 then 3 else if b < 0xF5 then 4 else 0
  }

  lemma CharIsAnnounced(p: seq<bv8>)
    requires Utf8Char(p)
    ensures p != [] && |p| == Announced(p[0])
  {
  }

  /** The step in terms of the grammar: it takes the announced octets if they form a UTF8-char. */
  lemma StepByGrammar(s: seq<bv8>, r: nat, maxcode: bv64)
    requires s != [] && r >= 1
    ensures var n := Announced(s[0]);
            Utf8ToUcs4Step(s, r, maxcode) ==
            if n == 0 then Bad else if |s| < n then Short
            else if Utf8Char(s[..n]) then Within(n, Utf8Value(s[..n]), maxcode) else Bad
  {
    var n := Announced(s[0]);
    if n == 1 {
      StepTakes1(s, r, maxcode);
    } else if n == 2 && |s| >= 2 {
      StepTakes2(s, r, maxcode);
    } else if n == 3 && |s| >= 3 {
      StepTakes3(s, r, maxcode);
    } else if n == 4 && |s| >= 4 {
      StepTakes4(s, r, maxcode);
    }
  }

  lemma ShortByGrammar(s: seq<bv8>, r: nat, maxcode: bv64)
    requires s != [] && r >= 1 && Utf8ToUcs4Step(s, r, maxcode) == Short
    ensures |s| < Announced(s[0])
  {
    StepByGrammar(s, r, maxcode);
  }

  /** A UTF8-char whose value is within the limit is read, whatever follows. */
  lemma StepReads(p: seq<bv8>, c: bv32, maxcode: bv64)
    requires Utf8Spells(p, c) && c as bv64 <= maxcode
    ensures Reads(FromUtf8(maxcode), p, [c])
  {
    assert Utf8Meaning(p, c);
    CharIsAnnounced(p);
    forall more, r: nat | r >= 1
      ensures FromUtf8(maxcode)(p + more, r) == Take(|p|, [c])
    {
      StepByGrammar(p + more, r, maxcode);
      assert (p + more)[..|p|] == p;
    }
  }

  /** A step that takes a character takes a UTF8-char and its value. */
  ghost predicate TakesSpelled(s: seq<bv8>, t: Step<bv32>, maxcode: bv64) {
    t.Take? ==> t.len <= |s| && |t.out| == 1 && Utf8Spells(s[..t.len], t.out[0]) && t.out[0] as bv64 <= maxcode
  }

  lemma WithinTakesSpelled(s: seq<bv8>, n: nat, v: bv32, maxcode: bv64)
    requires n <= |s| && Utf8Spells(s[..n], v)
    ensures TakesSpelled(s, Within(n, v, maxcode), maxcode)
  {
  }

  lemma TakenIsSpelled(s: seq<bv8>, r: nat, maxcode: bv64)
    ensures TakesSpelled(s, Utf8ToUcs4Step(s, r, maxcode), maxcode)
  {
    if s != [] && r >= 1 {
      var n := Announced(s[0]);
      StepByGrammar(s, r, maxcode);
      if n != 0 && |s| >= n && Utf8Char(s[..n]) {
        SpellsIsMeaning(s[..n], Utf8Value(s[..n]));
        WithinTakesSpelled(s, n, Utf8Value(s[..n]), maxcode);
      }
    }
  }

  /** Nothing else is. */
  lemma StepHasRead(p: seq<bv8>, o: seq<bv32>, maxcode: bv64)
    requires HasRead(FromUtf8(maxcode), p, o)
    ensures |o| == 1 && Utf8Spells(p, o[0]) && o[0] as bv64 <= maxcode
  {
    assert ReadSomewhere(FromUtf8(maxcode), p, o);
    var more, r: nat :| FromUtf8(maxcode)(p + more, r) == Take(|p|, o);
    ReadIsSpelled(p, more, r, o, maxcode);
  }

  lemma ReadIsSpelled(p: seq<bv8>, more: seq<bv8>, r: nat, o: seq<bv32>, maxcode: bv64)
    requires Utf8ToUcs4Step(p + more, r, maxcode) == Take(|p|, o)
    ensures |o| == 1 && Utf8Spells(p, o[0]) && o[0] as bv64 <= maxcode
  {
    TakenIsSpelled(p + more, r, maxcode);
    assert (p + more)[..|p|] == p;
  }

  // ----- what the decoder decides

  predicate AllWithin(cs: seq<bv32>, maxcode: bv64) {
    forall i | 0 <= i < |cs| :: cs[i] as bv64 <= maxcode
  }

  /** Whatever the verdict, the consumed input is well-formed UTF-8 for the output. */
  lemma DecodedPrefix(s: seq<bv8>, room: nat, maxcode: bv64)
    ensures var c := Convert(FromUtf8(maxcode), s, room);
            IsUtf8(s[..c.used], c.out) && AllWithin(c.out, maxcode)
  {
    var parts, outs := ConvertSplits(FromUtf8(maxcode), s, 0, room);
    AllRead(parts, outs, maxcode);
  }

  lemma AllRead(parts: seq<seq<bv8>>, outs: seq<seq<bv32>>, maxcode: bv64)
    requires |parts| == |outs| && forall i | 0 <= i < |parts| :: HasRead(FromUtf8(maxcode), parts[i], outs[i])
    ensures IsUtf8(Concat(parts), Concat(outs)) && AllWithin(Concat(outs), maxcode)
  {
    forall i | 0 <= i < |parts|
      ensures |outs[i]| == 1 && Utf8Spells(parts[i], outs[i][0]) && outs[i][0] as bv64 <= maxcode
    {
      StepHasRead(parts[i], outs[i], maxcode);
    }
    SinglesOf(outs);
    assert Utf8Chars(parts, Concat(outs));
  }

  /** Well-formed input within the limits is decoded, whatever follows it. */
  lemma DecodeThrough(s: seq<bv8>, rest: seq<bv8>, room: nat, maxcode: bv64, cs: seq<bv32>)
    requires IsUtf8(s, cs) && |cs| <= room && AllWithin(cs, maxcode)
    ensures Convert(FromUtf8(maxcode), s + rest, room)
         == Prepend(|s|, cs, Convert(FromUtf8(maxcode), rest, room - |cs|))
  {
    var parts :| Utf8Chars(parts, cs) && Concat(parts) == s;
    ConcatSingles(cs);
    forall i | 0 <= i < |parts|
      ensures Reads(FromUtf8(maxcode), parts[i], Singles(cs)[i])
    {
      StepReads(parts[i], cs[i], maxcode);
    }
    ConvertThrough(FromUtf8(maxcode), parts, Singles(cs), rest, room);
  }

  lemma DecodeAccepts(s: seq<bv8>, room: nat, maxcode: bv64, cs: seq<bv32>)
    requires IsUtf8(s, cs) && |cs| <= room && AllWithin(cs, maxcode)
    ensures Convert(FromUtf8(maxcode), s, room) == Converted(Ok, |s|, cs)
  {
    DecodeThrough(s, [], room, maxcode, cs);
    assert s + [] == s && cs + [] == cs;
  }

  /** The decoder returns ok exactly on the well-formed sequences of section 4 of RFC 3629 whose code
      points are within the limit, and its output is exactly those code points. */
  lemma DecodeExact(s: seq<bv8>, room: nat, maxcode: bv64, cs: seq<bv32>)
    ensures Convert(FromUtf8(maxcode), s, room) == Converted(Ok, |s|, cs)
       <==> IsUtf8(s, cs) && |cs| <= room && AllWithin(cs, maxcode)
  {
    if Convert(FromUtf8(maxcode), s, room) == Converted(Ok, |s|, cs) {
      DecodedPrefix(s, room, maxcode);
      assert s[..|s|] == s;
    } else if IsUtf8(s, cs) && |cs| <= room && AllWithin(cs, maxcode) {
      DecodeAccepts(s, room, maxcode, cs);
    }
  }

  /** Partial means that the output is full or that the input ends inside the octets its next lead
      byte announces. */
  lemma DecodePartial(s: seq<bv8>, room: nat, maxcode: bv64)
    requires Convert(FromUtf8(maxcode), s, room).verdict == Partial
    ensures var c := Convert(FromUtf8(maxcode), s, room);
            var rest := s[c.used..];
            |c.out| == room || |rest| < Announced(rest[0])
  {
    var c := Convert(FromUtf8(maxcode), s, room);
    PartialStop(FromUtf8(maxcode), s, room);
    if |c.out| < room {
      ShortByGrammar(s[c.used..], room - |c.out|, maxcode);
    }
  }

  /** The first n octets are well-formed for code points within the limit. */
  ghost predicate GoodPrefix(s: seq<bv8>, n: nat, maxcode: bv64) {
    n <= |s| && exists cs :: IsUtf8(s[..n], cs) && AllWithin(cs, maxcode)
  }

  ghost predicate LongestGood(s: seq<bv8>, n: nat, maxcode: bv64) {
    GoodPrefix(s, n, maxcode) && forall m: nat | GoodPrefix(s, m, maxcode) :: m <= n
  }

  /** With ample room the decoder consumes the longest such prefix; it returns partial exactly if the
      input ends inside the octets that the next lead byte announces. */
  lemma DecodeLongest(s: seq<bv8>, room: nat, maxcode: bv64, n: nat)
    requires room >= |s|
    ensures var c := Convert(FromUtf8(maxcode), s, room);
            && (LongestGood(s, n, maxcode) <==> n == c.used)
            && (c.verdict == Partial <==> c.used < |s| < c.used + Announced(s[c.used]))
  {
    var c := Convert(FromUtf8(maxcode), s, room);
    DecodedPrefix(s, room, maxcode);
    assert GoodPrefix(s, c.used, maxcode);
    forall m: nat | GoodPrefix(s, m, maxcode) ensures m <= c.used { GoodIsUsed(s, room, maxcode, m); }
    DecodeShorter(s, room, maxcode);
    if c.verdict == Partial {
      DecodePartial(s, room, maxcode);
    } else if c.used < |s| < c.used + Announced(s[c.used]) {
      ErrorStop(FromUtf8(maxcode), s, room);
      ShortByLength(s[c.used..], room - |c.out|, maxcode);
    }
  }

  lemma GoodIsUsed(s: seq<bv8>, room: nat, maxcode: bv64, m: nat)
    requires room >= |s| && GoodPrefix(s, m, maxcode)
    ensures m <= Convert(FromUtf8(maxcode), s, room).used
  {
    var cs :| IsUtf8(s[..m], cs) && AllWithin(cs, maxcode);
    NoMoreThanOctets(s[..m], cs);
    DecodeThrough(s[..m], s[m..], room, maxcode, cs);
    assert s[..m] + s[m..] == s;
  }

  lemma NoMoreThanOctets(s: seq<bv8>, cs: seq<bv32>)
    requires IsUtf8(s, cs)
    ensures |cs| <= |s|
  {
    var parts :| Utf8Chars(parts, cs) && Concat(parts) == s;
    PartsNonempty(parts, cs);
  }

  lemma {:induction false} PartsNonempty(parts: seq<seq<bv8>>, cs: seq<bv32>)
    requires Utf8Chars(parts, cs)
    ensures |cs| <= |Concat(parts)|
  {
    if parts != [] {
      SpellsAnnounced(parts[0], cs[0]);
      PartsNonempty(parts[1..], cs[1..]);
    }
  }

  lemma DecodeShorter(s: seq<bv8>, room: nat, maxcode: bv64)
    ensures var d := Convert(FromUtf8(maxcode), s, room); |d.out| <= d.used
  {
    DecodedPrefix(s, room, maxcode);
    var d := Convert(FromUtf8(maxcode), s, room);
    NoMoreThanOctets(s[..d.used], d.out);
  }

  /** Error means that no continuation of the input has an acceptable character at this place. */
  lemma DecodeError(s: seq<bv8>, room: nat, maxcode: bv64, p: seq<bv8>, v: bv32, more: seq<bv8>)
    requires Convert(FromUtf8(maxcode), s, room).verdict == Error
    requires Utf8Spells(p, v) && v as bv64 <= maxcode
    ensures !(p <= s[Convert(FromUtf8(maxcode), s, room).used..] + more)
  {
    var c := Convert(FromUtf8(maxcode), s, room);
    ErrorStop(FromUtf8(maxcode), s, room);
    if p <= s[c.used..] + more {
      BadIsFinal(s[c.used..], p, v, more, room - |c.out|, maxcode);
    }
  }

  lemma BadIsFinal(rest: seq<bv8>, p: seq<bv8>, v: bv32, more: seq<bv8>, r: nat, maxcode: bv64)
    requires rest != [] && Utf8Spells(p, v) && v as bv64 <= maxcode && p <= rest + more
    ensures Utf8ToUcs4Step(rest, r, maxcode) != Bad
  {
    SpellsAnnounced(p, v);
    if r >= 1 && |p| <= |rest| {
      StepReads(p, v, maxcode);
      assert rest == p + rest[|p|..];
      assert FromUtf8(maxcode)(p + rest[|p|..], r) == Take(|p|, [v]);
    } else if r >= 1 {
      ShortByLength(rest, r, maxcode);
    }
  }

  lemma SpellsAnnounced(p: seq<bv8>, v: bv32)
    requires Utf8Spells(p, v)
    ensures p != [] && |p| == Announced(p[0])
  {
    assert Utf8Meaning(p, v);
    CharIsAnnounced(p);
  }

  lemma ShortByLength(s: seq<bv8>, r: nat, maxcode: bv64)
    requires s != [] && |s| < Announced(s[0])
    ensures Utf8ToUcs4Step(s, r, maxcode) == Short
  {
  }

  // ----- what the encoder writes

  /** The octets of one code point, by section 3 of RFC 3629. */
  function Utf8Of(c: bv32): (p: seq<bv8>)
    requires Scalar(c)
  {
    if c < 0x80 then [Low8(c)]
    else if c < 0x800 then [0xC0 + Low8(c >> 6), 0x80 + Low8(c & 0x3F)]
    else if c < 0x10000 then [0xE0 + Low8(c >> 12), 0x80 + Low8((c >> 6) & 0x3F), 0x80 + Low8(c & 0x3F)]
    else [0xF0 + Low8(c >> 18), 0x80 + Low8((c >> 12) & 0x3F), 0x80 + Low8((c >> 6) & 0x3F), 0x80 + Low8(c & 0x3F)]
  }

  lemma OfOne(c: bv32)
    requires c < 0x80
    ensures Utf8Of(c) == [Low8(c)]
  {
  }

  lemma OfTwo(c: bv32)
    requires 0x80 <= c < 0x800
    ensures Utf8Of(c) == [0xC0 + Low8(c >> 6), 0x80 + Low8(c & 0x3F)]
  {
  }

  lemma OfThree(c: bv32)
    requires 0x800 <= c < 0x10000 && Scalar(c)
    ensures Utf8Of(c) == [0xE0 + Low8(c >> 12), 0x80 + Low8((c >> 6) & 0x3F), 0x80 + Low8(c & 0x3F)]
  {
  }

  lemma OfFour(c: bv32)
    requires 0x10000 <= c <= 0x10FFFF
    ensures Utf8Of(c)
         == [0xF0 + Low8(c >> 18), 0x80 + Low8((c >> 12) & 0x3F), 0x80 + Low8((c >> 6) & 0x3F), 0x80 + Low8(c & 0x3F)]
  {
  }

  lemma Utf8OfTwo(c: bv32)
    requires 0x80 <= c < 0x800
    ensures var a, b := 0xC0 + Low8(c >> 6), 0x80 + Low8(c & 0x3F);
            Utf8Two(a, b) && Bits2(a, b) == c
  {
  }

  lemma Utf8OfThree(c: bv32)
    requires 0x800 <= c < 0x10000 && Scalar(c)
    ensures var a, b, d := 0xE0 + Low8(c >> 12), 0x80 + Low8((c >> 6) & 0x3F), 0x80 + Low8(c & 0x3F);
            Utf8Three(a, b, d) && Bits3(a, b, d) == c
  {
  }

  lemma Utf8OfFour(c: bv32)
    requires 0x10000 <= c <= 0x10FFFF
    ensures var a, b := 0xF0 + Low8(c >> 18), 0x80 + Low8((c >> 12) & 0x3F);
            var d, e := 0x80 + Low8((c >> 6) & 0x3F), 0x80 + Low8(c & 0x3F);
            Utf8Four(a, b, d, e) && Bits4(a, b, d, e) == c
  {
  }

  /** The encoding of a scalar value is a UTF8-char with that value. */
  lemma Utf8OfSpells(c: bv32)
    requires Scalar(c)
    ensures Utf8Spells(Utf8Of(c), c)
  {
    var p := Utf8Of(c);
    if 0x80 <= c < 0x800 {
      Utf8OfTwo(c);
      TwoByBits(p[0], p[1]);
    } else if 0x800 <= c < 0x10000 {
      Utf8OfThree(c);
      ThreeByBits(p[0], p[1], p[2]);
    } else if 0x10000 <= c {
      Utf8OfFour(c);
      FourByBits(p[0], p[1], p[2], p[3]);
    }
    SpellsIsMeaning(p, c);
  }

  lemma TwoInjective(a: bv8, b: bv8)
    requires Utf8Two(a, b)
    ensures var c := Two(a, b);
            0x80 <= c < 0x800 && a == 0xC0 + Low8(c >> 6) && b == 0x80 + Low8(c & 0x3F)
  {
  }

  lemma ThreeInjective(a: bv8, b: bv8, d: bv8)
    requires Utf8Three(a, b, d)
    ensures var c := Three(a, b, d);
            0x800 <= c < 0x10000 && Scalar(c)
            && a == 0xE0 + Low8(c >> 12) && b == 0x80 + Low8((c >> 6) & 0x3F) && d == 0x80 + Low8(c & 0x3F)
  {
  }

  lemma FourInjective(a: bv8, b: bv8, d: bv8, e: bv8)
    requires Utf8Four(a, b, d, e)
    ensures var c := Four(a, b, d, e);
            0x10000 <= c <= 0x10FFFF && a == 0xF0 + Low8(c >> 18) && b == 0x80 + Low8((c >> 12) & 0x3F)
            && d == 0x80 + Low8((c >> 6) & 0x3F) && e == 0x80 + Low8(c & 0x3F)
  {
  }

  /** It is the only UTF8-char with that value. */
  lemma Utf8OfUnique(p: seq<bv8>, c: bv32)
    requires Utf8Spells(p, c)
    ensures Scalar(c) && Utf8Of(c) == p
  {
    assert Utf8Meaning(p, c);
    if |p| == 1 {
      OneUnique(p[0]);
      assert p == [p[0]];
    } else if |p| == 2 {
      TwoUnique(p[0], p[1]);
      assert p == [p[0], p[1]];
    } else if |p| == 3 {
      ThreeUnique(p[0], p[1], p[2]);
      assert p == [p[0], p[1], p[2]];
    } else {
      FourUnique(p[0], p[1], p[2], p[3]);
      assert p == [p[0], p[1], p[2], p[3]];
    }
  }

  lemma OneUnique(a: bv8)
    requires a <= 0x7F
    ensures Scalar(a as bv32) && Utf8Of(a as bv32) == [a]
  {
    OfOne(a as bv32);
  }

  lemma TwoUnique(a: bv8, b: bv8)
    requires Utf8Two(a, b)
    ensures Scalar(Two(a, b)) && Utf8Of(Two(a, b)) == [a, b]
  {
    TwoInjective(a, b);
    OfTwo(Two(a, b));
  }

  lemma ThreeUnique(a: bv8, b: bv8, d: bv8)
    requires Utf8Three(a, b, d)
    ensures Scalar(Three(a, b, d)) && Utf8Of(Three(a, b, d)) == [a, b, d]
  {
    ThreeInjective(a, b, d);
    OfThree(Three(a, b, d));
  }

  lemma FourUnique(a: bv8, b: bv8, d: bv8, e: bv8)
    requires Utf8Four(a, b, d, e)
    ensures Scalar(Four(a, b, d, e)) && Utf8Of(Four(a, b, d, e)) == [a, b, d, e]
  {
    FourInjective(a, b, d, e);
    OfFour(Four(a, b, d, e));
  }

  /** The encoder writes the octets with | and masks; they are the ones of the standard. */
  lemma EncodeCharIsUtf8Of(wc: bv32, r: nat, maxcode: bv64)
    requires Scalar(wc) && wc as bv64 <= maxcode && r >= |Utf8Of(wc)|
    ensures EncodeChar(wc, r, maxcode) == Take(1, Utf8Of(wc))
  {
    NoSurrogateBits(wc);
    if wc < 0x80 {
      OfOne(wc);
    } else if wc < 0x800 {
      EncodeChar2(wc, r, maxcode);
    } else if wc < 0x10000 {
      EncodeChar3(wc, r, maxcode);
    } else {
      EncodeChar4(wc, r, maxcode);
    }
  }

  lemma EncodeChar2(wc: bv32, r: nat, maxcode: bv64)
    requires 0x80 <= wc < 0x800 && wc as bv64 <= maxcode && r >= |Utf8Of(wc)|
    ensures EncodeChar(wc, r, maxcode) == Take(1, Utf8Of(wc))
  {
    NoSurrogateBits(wc);
    OfTwo(wc);
    EncodeTwo(wc);
  }

  lemma EncodeChar3(wc: bv32, r: nat, maxcode: bv64)
    requires 0x800 <= wc < 0x10000 && Scalar(wc) && wc as bv64 <= maxcode && r >= |Utf8Of(wc)|
    ensures EncodeChar(wc, r, maxcode) == Take(1, Utf8Of(wc))
  {
    NoSurrogateBits(wc);
    OfThree(wc);
    EncodeThree(wc);
  }

  lemma EncodeChar4(wc: bv32, r: nat, maxcode: bv64)
    requires 0x10000 <= wc <= 0x10FFFF && wc as bv64 <= maxcode && r >= |Utf8Of(wc)|
    ensures EncodeChar(wc, r, maxcode) == Take(1, Utf8Of(wc))
  {
    NoSurrogateBits(wc);
    OfFour(wc);
    EncodeFour(wc);
  }

  lemma NoSurrogateBits(wc: bv32)
    requires wc <= 0x10FFFF
    ensures (wc & 0xFFFFF800) == 0xD800 <==> !Scalar(wc)
  {
  }

  lemma EncodeTwo(wc: bv32)
    requires 0x80 <= wc < 0x800
    ensures [Low8(0xC0 | (wc >> 6)), Low8(0x80 | (wc & 0x3F))] == Utf8Of(wc)
  {
    LeadBits(wc);
    TailBits(wc);
    OfTwo(wc);
  }

  lemma EncodeThree(wc: bv32)
    requires 0x800 <= wc < 0x10000 && Scalar(wc)
    ensures [Low8(0xE0 | (wc >> 12)), Low8(0x80 | ((wc & 0xFC0) >> 6)), Low8(0x80 | (wc & 0x3F))] == Utf8Of(wc)
  {
    LeadBits(wc);
    TailBits(wc);
    OfThree(wc);
  }

  lemma EncodeFour(wc: bv32)
    requires 0x10000 <= wc <= 0x10FFFF
    ensures [Low8(0xF0 | (wc >> 18)), Low8(0x80 | ((wc & 0x3F000) >> 12)),
             Low8(0x80 | ((wc & 0xFC0) >> 6)), Low8(0x80 | (wc & 0x3F))] == Utf8Of(wc)
  {
    LeadBits(wc);
    TailBits(wc);
    OfFour(wc);
  }

  lemma LeadBits(wc: bv32)
    requires wc <= 0x10FFFF
    ensures wc < 0x800 ==> Low8(0xC0 | (wc >> 6)) == 0xC0 + Low8(wc >> 6)
    ensures wc < 0x10000 ==> Low8(0xE0 | (wc >> 12)) == 0xE0 + Low8(wc >> 12)
    ensures Low8(0xF0 | (wc >> 18)) == 0xF0 + Low8(wc >> 18)
  {
  }

  lemma TailBits(wc: bv32)
    ensures Low8(0x80 | ((wc & 0x3F000) >> 12)) == 0x80 + Low8((wc >> 12) & 0x3F)
    ensures Low8(0x80 | ((wc & 0xFC0) >> 6)) == 0x80 + Low8((wc >> 6) & 0x3F)
    ensures Low8(0x80 | (wc & 0x3F)) == 0x80 + Low8(wc & 0x3F)
  {
  }

  /** Encoding a sequence of scalar values within the limit gives its UTF-8 and returns ok. */
  lemma EncodeAccepts(cs: seq<bv32>, s: seq<bv8>, room: nat, maxcode: bv64)
    requires IsUtf8(s, cs) && |s| <= room && AllWithin(cs, maxcode)
    ensures Convert(ToUtf8(maxcode), cs, room) == Converted(Ok, |cs|, s)
  {
    var parts :| Utf8Chars(parts, cs) && Concat(parts) == s;
    ConcatSingles(cs);
    forall i | 0 <= i < |parts|
      ensures Reads(ToUtf8(maxcode), Singles(cs)[i], parts[i])
    {
      EncodeReads(cs[i], parts[i], maxcode);
    }
    ConvertParts(ToUtf8(maxcode), Singles(cs), parts, room);
  }

  lemma EncodeReads(c: bv32, p: seq<bv8>, maxcode: bv64)
    requires Utf8Spells(p, c) && c as bv64 <= maxcode
    ensures Reads(ToUtf8(maxcode), [c], p)
  {
    Utf8OfUnique(p, c);
    forall more, r: nat | r >= |p|
      ensures ToUtf8(maxcode)([c] + more, r) == Take(1, p)
    {
      EncodeCharIsUtf8Of(c, r, maxcode);
    }
  }

  // ----- every code point, every limit

  /** The code points that the encoders refuse. */
  predicate Refused(wc: bv32, maxcode: bv64) {
    0xD800 <= wc <= 0xDFFF || wc as bv64 > maxcode
  }

  /** Every value of 32 bits is within this limit. */
  const NO_LIMIT: bv64 := 0xFFFF_FFFF

  /** What the encoder writes for a code point that it does not refuse. */
  function Octets(wc: bv32): seq<bv8> {
    match EncodeChar(wc, 4, NO_LIMIT)
    case Take(_, o) => o
    case _ => []
  }

  function Size8(wc: bv32): nat {
    if wc < 0x80 then 1 else if wc < 0x800 then 2 else if wc < 0x10000 then 3 else 4
  }

  lemma SurrogateBits(wc: bv32)
    ensures (wc & 0xFFFFF800) == 0xD800 <==> 0xD800 <= wc <= 0xDFFF
  {
  }

  lemma AnyWithin(wc: bv32)
    ensures wc as bv64 <= NO_LIMIT
  {
  }

  lemma EncodeCharByRoom(wc: bv32, r: nat, maxcode: bv64)
    ensures EncodeChar(wc, r, maxcode) == EncodeOne(Refused(wc, maxcode), Octets(wc), r)
    ensures !Refused(wc, maxcode) ==> |Octets(wc)| == Size8(wc)
  {
    SurrogateBits(wc);
    AnyWithin(wc);
  }

  function Refuses(maxcode: bv64): bv32 -> bool {
    (wc: bv32) => Refused(wc, maxcode)
  }

  lemma ToUtf8Encodes(maxcode: bv64)
    ensures Encodes(ToUtf8(maxcode), Refuses(maxcode), Octets)
  {
    forall s: seq<bv32>, r: nat | s != []
      ensures ToUtf8(maxcode)(s, r) == EncodeOne(Refused(s[0], maxcode), Octets(s[0]), r)
    {
      EncodeCharByRoom(s[0], r, maxcode);
    }
  }

  /** Error means that the next code point is a surrogate or beyond the limit; partial, that it is
      neither and its octets do not fit. */
  lemma EncodeStops(cs: seq<bv32>, room: nat, maxcode: bv64)
    ensures var c := Convert(ToUtf8(maxcode), cs, room);
            && (forall i | 0 <= i < c.used :: !Refused(cs[i], maxcode))
            && (c.verdict == Error ==> Refused(cs[c.used], maxcode))
            && (c.verdict == Partial ==> !Refused(cs[c.used], maxcode) && |c.out| + Size8(cs[c.used]) > room)
  {
    var c := Convert(ToUtf8(maxcode), cs, room);
    ToUtf8Encodes(maxcode);
    EncodesAll(ToUtf8(maxcode), Refuses(maxcode), Octets, cs, room);
    forall i | 0 <= i < c.used ensures !Refused(cs[i], maxcode) { assert !Refuses(maxcode)(cs[i]); }
    if c.verdict == Partial {
      EncodeCharByRoom(cs[c.used], room, maxcode);
    }
  }

  /** The part of a code point that its octets hold. */
  function Kept(wc: bv32): bv32 {
    if wc < 0x10000 then wc else wc & 0x3FFFFF
  }

  /** The octets are a UTF8-char: the part kept needs as many of them and is not beyond 0x10FFFF. */
  predicate Keeps(wc: bv32) {
    wc < 0x10000 || 0x10000 <= Kept(wc) <= 0x10FFFF
  }

  /** o has the fields of wc in its four octets; worded so that the verifier does not look inside at
      every mention. */
  ghost predicate FourFields(o: seq<bv8>, wc: bv32) {
    forall p | p == o :: FourFieldsHere(p, wc)
  }

  ghost predicate FourFieldsHere(o: seq<bv8>, wc: bv32) {
    o == [Low8(0xF0 | (wc >> 18)), Low8(0x80 | ((wc & 0x3F000) >> 12)), Low8(0x80 | ((wc & 0xFC0) >> 6)), Low8(0x80 | (wc & 0x3F))]
  }

  lemma WideOctets(wc: bv32, o: seq<bv8>)
    requires 0x10000 <= wc
    ensures FourFields(o, wc) <==> o == Octets(wc)
  {
    SurrogateBits(wc);
    AnyWithin(wc);
    assert FourFieldsHere(o, wc) <==> o == Octets(wc);
  }

  lemma SameFields(wc: bv32, k: bv32, o: seq<bv8>)
    requires k == wc & 0x3FFFFF && FourFields(o, wc)
    ensures FourFields(o, k)
  {
    LeadLost(wc);
    TailsLost(wc);
    assert FourFieldsHere(o, wc);
    assert FourFieldsHere(o, k);
  }

  lemma HighBitsLost(wc: bv32, k: bv32)
    requires 0x10000 <= wc && 0x10000 <= k == wc & 0x3FFFFF
    ensures Octets(wc) == Octets(k)
  {
    var o := Octets(wc);
    WideOctets(wc, o);
    SameFields(wc, k, o);
    WideOctets(k, o);
  }

  lemma LeadLost(wc: bv32)
    ensures Low8(0xF0 | (wc >> 18)) == Low8(0xF0 | ((wc & 0x3FFFFF) >> 18))
  {
  }

  lemma TailsLost(wc: bv32)
    ensures wc & 0x3F000 == (wc & 0x3FFFFF) & 0x3F000
    ensures wc & 0xFC0 == (wc & 0x3FFFFF) & 0xFC0
    ensures wc & 0x3F == (wc & 0x3FFFFF) & 0x3F
  {
  }

  lemma KeptSpelled(wc: bv32)
    requires Keeps(wc) && !(0xD800 <= wc <= 0xDFFF)
    ensures Utf8Spells(Octets(wc), Kept(wc))
  {
    var k := Kept(wc);
    if wc >= 0x10000 {
      HighBitsLost(wc, k);
    }
    AnyWithin(k);
    EncodeCharByRoom(k, 4, NO_LIMIT);
    EncodeCharIsUtf8Of(k, 4, NO_LIMIT);
    Utf8OfSpells(k);
  }

  lemma LostForm(wc: bv32)
    requires wc >= 0x10000 && !Keeps(wc)
    ensures |Octets(wc)| == 4 && Octets(wc)[0] >= 0xF0 && !Utf8Char(Octets(wc))
  {
    SurrogateBits(wc);
    AnyWithin(wc);
    LostLead(wc);
  }

  lemma LostLead(wc: bv32)
    requires !(0x10000 <= wc & 0x3FFFFF <= 0x10FFFF)
    ensures var a, b := Low8(0xF0 | (wc >> 18)), Low8(0x80 | ((wc & 0x3F000) >> 12));
            a >= 0xF0 && !(a == 0xF0 && 0x90 <= b <= 0xBF) && !(0xF1 <= a <= 0xF3) && !(a == 0xF4 && 0x80 <= b <= 0x8F)
  {
  }

  lemma LostBreaks(wc: bv32)
    requires wc >= 0x10000 && !Keeps(wc)
    ensures Breaks(FromUtf8(NO_LIMIT), Octets(wc))
  {
    LostForm(wc);
    var p := Octets(wc);
    forall more, r: nat
      ensures Convert(FromUtf8(NO_LIMIT), p + more, r).verdict != Ok
    {
      LostStep(p, more, r);
      assert (p + more)[0..] == p + more;
    }
  }

  lemma LostStep(p: seq<bv8>, more: seq<bv8>, r: nat)
    requires |p| == 4 && p[0] >= 0xF0 && !Utf8Char(p)
    ensures !Utf8ToUcs4Step(p + more, r, NO_LIMIT).Take?
  {
    if r >= 1 {
      StepByGrammar(p + more, r, NO_LIMIT);
      assert (p + more)[..4] == p;
    }
  }

  lemma OctetsUndone(wc: bv32)
    requires !(0xD800 <= wc <= 0xDFFF)
    ensures Undone(FromUtf8(NO_LIMIT), Octets(wc), Keeps(wc), Kept(wc))
  {
    if Keeps(wc) {
      KeptSpelled(wc);
      AnyWithin(Kept(wc));
      StepReads(Octets(wc), Kept(wc), NO_LIMIT);
    } else {
      LostBreaks(wc);
    }
  }

  /** For every limit, verdict and input: the output is well-formed exactly if the 22 bits kept of each
      code point beyond 0xFFFF are within 0x10000 and 0x10FFFF, and then stands for what was kept. */
  lemma EncodeMeans(cs: seq<bv32>, xs: seq<bv32>, room: nat, maxcode: bv64)
    ensures var c := Convert(ToUtf8(maxcode), cs, room);
            IsUtf8(c.out, xs) <==> |xs| == c.used && forall i | 0 <= i < c.used :: Keeps(cs[i]) && xs[i] == Kept(cs[i])
  {
    var c := Convert(ToUtf8(maxcode), cs, room);
    EncodedText(cs, room, maxcode);
    TextMeans(cs[..c.used], xs);
  }

  /** The output is the texts of the code points consumed, none of which is a surrogate. */
  lemma EncodedText(cs: seq<bv32>, room: nat, maxcode: bv64)
    ensures var c := Convert(ToUtf8(maxcode), cs, room);
            && c.out == Texts(Octets, cs[..c.used])
            && forall i | 0 <= i < |cs[..c.used]| :: !(0xD800 <= cs[..c.used][i] <= 0xDFFF)
  {
    EncodeStops(cs, room, maxcode);
    ToUtf8Encodes(maxcode);
    EncodesAll(ToUtf8(maxcode), Refuses(maxcode), Octets, cs, room);
  }

  lemma TextMeans(cs: seq<bv32>, xs: seq<bv32>)
    requires forall i | 0 <= i < |cs| :: !(0xD800 <= cs[i] <= 0xDFFF)
    ensures IsUtf8(Texts(Octets, cs), xs) <==> |xs| == |cs| && forall i | 0 <= i < |cs| :: Keeps(cs[i]) && xs[i] == Kept(cs[i])
  {
    forall i | 0 <= i < |cs|
      ensures Undone(FromUtf8(NO_LIMIT), Octets(cs[i]), Keeps(cs[i]), Kept(cs[i]))
    {
      OctetsUndone(cs[i]);
    }
    var room := |cs| + |xs|;
    UndoneExactly(FromUtf8(NO_LIMIT), Octets, Keeps, Kept, cs, xs, room);
    DecodeExact(Texts(Octets, cs), room, NO_LIMIT, xs);
    forall i | 0 <= i < |xs| ensures xs[i] as bv64 <= NO_LIMIT { AnyWithin(xs[i]); }
  }

  /** The output is the UTF-8 of the input consumed exactly if that has no code point beyond 0x10FFFF. */
  lemma EncodeFaithful(cs: seq<bv32>, room: nat, maxcode: bv64)
    ensures var c := Convert(ToUtf8(maxcode), cs, room);
            IsUtf8(c.out, cs[..c.used]) <==> forall i | 0 <= i < c.used :: cs[i] <= 0x10FFFF
  {
    var c := Convert(ToUtf8(maxcode), cs, room);
    EncodeMeans(cs, cs[..c.used], room, maxcode);
    forall i | 0 <= i < c.used
      ensures Keeps(cs[i]) && cs[i] == Kept(cs[i]) <==> cs[i] <= 0x10FFFF
    {
      KeptWhole(cs[i]);
    }
  }

  lemma KeptWhole(wc: bv32)
    ensures Keeps(wc) && wc == Kept(wc) <==> wc <= 0x10FFFF
  {
    if wc <= 0x10FFFF {
      LowBits(wc);
    }
  }

  lemma LowBits(wc: bv32)
    requires wc <= 0x10FFFF
    ensures wc & 0x3FFFFF == wc
  {
  }

  /** With a limit of at most 0x10FFFF, ok means that the output is the UTF-8 of the input. */
  lemma EncodeExact(cs: seq<bv32>, s: seq<bv8>, room: nat, maxcode: bv64)
    requires maxcode <= MAX_CODE
    ensures Convert(ToUtf8(maxcode), cs, room) == Converted(Ok, |cs|, s)
       <==> IsUtf8(s, cs) && |s| <= room && AllWithin(cs, maxcode)
  {
    if Convert(ToUtf8(maxcode), cs, room) == Converted(Ok, |cs|, s) {
      EncodeStops(cs, room, maxcode);
      forall i | 0 <= i < |cs| ensures cs[i] as bv64 <= maxcode && cs[i] <= 0x10FFFF { WithinMax(cs[i], maxcode); }
      EncodeFaithful(cs, room, maxcode);
      assert cs[..|cs|] == cs;
    } else if IsUtf8(s, cs) && |s| <= room && AllWithin(cs, maxcode) {
      EncodeAccepts(cs, s, room, maxcode);
    }
  }

  lemma WithinMax(wc: bv32, maxcode: bv64)
    requires maxcode <= MAX_CODE && !Refused(wc, maxcode)
    ensures wc as bv64 <= maxcode && wc <= 0x10FFFF
  {
  }

  /** Beyond 0x10FFFF the limit no longer keeps the output well-formed: 0x110000 is written as
      F4 90 80 80, which is the UTF-8 of nothing. */
  lemma EncodeBeyond(maxcode: bv64, cs: seq<bv32>)
    requires maxcode > MAX_CODE
    ensures Convert(ToUtf8(maxcode), [0x110000], 4) == Converted(Ok, 1, [0xF4, 0x90, 0x80, 0x80])
    ensures !IsUtf8([0xF4, 0x90, 0x80, 0x80], cs)
  {
    var s: seq<bv8> := [0xF4, 0x90, 0x80, 0x80];
    var input: seq<bv32> := [0x110000];
    assert input[0..] == input && EncodeChar(0x110000, 4, maxcode) == Take(1, s);
    EncodeMeans(input, cs, 4, maxcode);
    assert !Keeps(input[0]);
  }

  /** Encoding and then decoding is the identity on every sequence of scalar values. */
  lemma RoundTrip(cs: seq<bv32>, room: nat)
    requires forall i | 0 <= i < |cs| :: Scalar(cs[i])
    requires room >= 4 * |cs|
    ensures var e := Convert(ToUtf8(MAX_CODE), cs, room);
            e.verdict == Ok && Convert(FromUtf8(MAX_CODE), e.out, |cs|) == Converted(Ok, |e.out|, cs)
  {
    var s := Utf8Exists(cs);
    EncodeAccepts(cs, s, room, MAX_CODE);
    DecodeAccepts(s, |cs|, MAX_CODE, cs);
  }

  // ----- the byte order mark

  /** The mark is the UTF-8 of U+FEFF, and exactly a text that starts with it is decoded after it, if it is
      to be consumed. */
  lemma BomMeaning(s: seq<bv8>, consume: bool)
    ensures BOM == [0xEF, 0xBB, 0xBF] && Utf8Spells(BOM, 0xFEFF)
    ensures SkipBom(s, consume) == if consume && BOM <= s then 3 else 0
  {
    SpellsIsMeaning(BOM, 0xFEFF);
  }

  /** U+1D11E by section 3 of RFC 3629. */
  lemma FourOctetsExample()
    ensures Utf8Spells([0xF0, 0x9D, 0x84, 0x9E], 0x1D11E)
  {
    SpellsIsMeaning([0xF0, 0x9D, 0x84, 0x9E], 0x1D11E);
  }

  /** Through the buffers: any sequence of scalar values, written with or without a mark and read in the same
      mode, comes back. */
  method ThereAndBack(cs: seq<bv32>, mark: bool) returns (there: Verdict, back: Verdict, got: seq<bv32>)
    requires forall i | 0 <= i < |cs| :: Scalar(cs[i])
    ensures there == back == Ok && got == cs
  {
    var octets;
    ghost var s;
    there, octets, s := There(cs, mark);
    back, got := BackFrom(octets, |cs|, mark, s, cs);
  }

  method There(cs: seq<bv32>, mark: bool) returns (verdict: Verdict, written: seq<bv8>, ghost s: seq<bv8>)
    requires forall i | 0 <= i < |cs| :: Scalar(cs[i])
    ensures verdict == Ok && written == (if mark then BOM else []) + s && IsUtf8(s, cs) && AllWithin(cs, MAX_CODE)
  {
    var octets := new bv8[4 * |cs| + 3];
    ghost var room := if mark then octets.Length - 3 else octets.Length;
    RoundTrip(cs, room);
    s := Convert(ToUtf8(MAX_CODE), cs, room).out;
    EncodeExact(cs, s, room, MAX_CODE);
    var used, n;
    verdict, used, n := Ucs4ToUtf8(cs, octets, MAX_CODE, mark);
    written := octets[..n];
  }

  method BackFrom(octets: seq<bv8>, n: nat, mark: bool, ghost s: seq<bv8>, ghost cs: seq<bv32>)
    returns (verdict: Verdict, got: seq<bv32>)
    requires octets == (if mark then BOM else []) + s && IsUtf8(s, cs) && n == |cs| && AllWithin(cs, MAX_CODE)
    ensures verdict == Ok && got == cs
  {
    var codes := new bv32[n];
    MarkSkipped(s, mark);
    DecodeAccepts(s, n, MAX_CODE, cs);
    var used, m;
    verdict, used, m := Utf8ToUcs4(octets, codes, MAX_CODE, mark);
    got := codes[..m];
  }

  lemma MarkSkipped(s: seq<bv8>, mark: bool)
    ensures var t := (if mark then BOM else []) + s; t[SkipBom(t, mark)..] == s
  {
  }

  /** Every sequence of scalar values has a UTF-8 form, of at most four octets each. */
  lemma {:induction false} Utf8Exists(cs: seq<bv32>) returns (s: seq<bv8>)
    requires forall i | 0 <= i < |cs| :: Scalar(cs[i])
    ensures IsUtf8(s, cs) && |s| <= 4 * |cs| && AllWithin(cs, MAX_CODE)
  {
    var parts := seq(|cs|, i requires 0 <= i < |cs| => Utf8Of(cs[i]));
    forall i | 0 <= i < |cs|
      ensures Utf8Spells(parts[i], cs[i]) && |parts[i]| <= 4 && cs[i] as bv64 <= MAX_CODE
    {
      Utf8OfSpells(cs[i]);
    }
    assert Utf8Chars(parts, cs);
    ConcatBound(parts, 4);
    s := Concat(parts);
  }

  lemma {:induction false} ConcatBound<T>(parts: seq<seq<T>>, k: nat)
    requires forall i | 0 <= i < |parts| :: |parts[i]| <= k
    ensures |Concat(parts)| <= k * |parts|
  {
    if parts != [] {
      ConcatBound(parts[1..], k);
      assert k * |parts| == k + k * (|parts| - 1);
    }
  }
}
