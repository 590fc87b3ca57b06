/** The loop that every converter of libc++'s locale.cpp runs: take one character from the rest of
    the input, write its encoding if there is room, and stop with a verdict otherwise. */
module Conversion {

  /** codecvt_base::result. */
  datatype Verdict = Ok | Partial | Error

  /** What one pass through a loop body decides: consume len units and write out, or return
      partial, or return error. */
  datatype Step<O> = Take(len: nat, out: seq<O>) | Short | Bad

  /** The verdict, the number of units consumed and the units written. */
  datatype Converted<O> = Converted(verdict: Verdict, used: nat, out: seq<O>)

  /** What one pass of a length loop decides. */
  datatype Advance = Move(len: nat, written: nat) | Stop

  ghost predicate Sane<I(!new), O>(step: (seq<I>, nat) -> Step<O>) {
    forall s, room | s != [] && step(s, room).Take? ::
      0 < step(s, room).len <= |s| && |step(s, room).out| <= room
  }

  ghost predicate SaneLength<I(!new)>(step: (seq<I>, nat) -> Advance) {
    forall s, room | s != [] && step(s, room).Move? ::
      0 < step(s, room).len <= |s| && 0 < step(s, room).written <= room
  }

  /** The result of the loop on the input from position at on, with room output units left. */
  function ConvertFrom<I(!new), O>(step: (seq<I>, nat) -> Step<O>, frm: seq<I>, at: nat, room: nat): (r: Converted<O>)
    requires Sane(step) && at <= |frm|
    ensures at + r.used <= |frm| && |r.out| <= room
    ensures r.verdict == Ok <==> at + r.used == |frm|
    decreases |frm| - at
  {
    if at == |frm| then Converted(Ok, 0, [])
    else
      match step(frm[at..], room)
      case Short => Converted(Partial, 0, [])
      case Bad => Converted(Error, 0, [])
      case Take(n, o) => Prepend(n, o, ConvertFrom(step, frm, at + n, room - |o|))
  }

  function Convert<I(!new), O>(step: (seq<I>, nat) -> Step<O>, s: seq<I>, room: nat): (r: Converted<O>)
    requires Sane(step)
    ensures r.used <= |s| && |r.out| <= room
    ensures r.verdict == Ok <==> r.used == |s|
  {
    ConvertFrom(step, s, 0, room)
  }

  /** Only the rest of the input matters. */
  lemma {:induction false} ConvertShift<I(!new), O>(
    step: (seq<I>, nat) -> Step<O>, frm: seq<I>, at: nat, k: nat, room: nat)
    requires Sane(step) && at + k <= |frm|
    ensures ConvertFrom(step, frm, at + k, room) == ConvertFrom(step, frm[at..], k, room)
    decreases |frm| - at - k
  {
    if at + k < |frm| {
      assert frm[at + k..] == frm[at..][k..];
      match step(frm[at + k..], room)
      case Take(n, o) => ConvertShift(step, frm, at, k + n, room - |o|);
      case _ =>
    }
  }

  /** The number of units a length loop passes over, from position at on. */
  function Measure<I(!new)>(step: (seq<I>, nat) -> Advance, frm: seq<I>, at: nat, room: nat): (used: nat)
    requires SaneLength(step) && at <= |frm|
    ensures at + used <= |frm|
    decreases |frm| - at
  {
    if at == |frm| || room == 0 then 0
    else
      match step(frm[at..], room)
      case Stop => 0
      case Move(n, k) => n + Measure(step, frm, at + n, room - k)
  }

  /** The converters' loop: reads frm from frm0 on and writes to from to0 on. Exactly the units of
      the result are written; the rest of the buffer keeps its contents. */
  method Drive<I(!new), O>(step: (seq<I>, nat) -> Step<O>, frm: seq<I>, frm0: nat, to: array<O>, to0: nat)
    returns (verdict: Verdict, frmNxt: nat, toNxt: nat)
    requires Sane(step) && frm0 <= |frm| && to0 <= to.Length
    modifies to
    ensures var c := ConvertFrom(step, frm, frm0, to.Length - to0);
            && verdict == c.verdict && frmNxt == frm0 + c.used
            && toNxt == to0 + |c.out| <= to.Length && to[to0..toNxt] == c.out
    ensures to[..to0] == old(to[..to0]) && to[toNxt..] == old(to[toNxt..])
  {
    frmNxt, toNxt := frm0, to0;
    ghost var written: seq<O> := [];
    ghost var room := to.Length - to0;
    Starts(step, frm, frm0, room);
    while frmNxt < |frm|
      invariant frm0 <= frmNxt <= |frm| && to0 + |written| == toNxt <= to.Length
      invariant to[..to0] == old(to[..to0]) && to[to0..toNxt] == written && to[toNxt..] == old(to[toNxt..])
      invariant Ahead(step, frm, frm0, frmNxt, room, written)
      decreases |frm| - frmNxt
    {
      match step(frm[frmNxt..], to.Length - toNxt) {
        case Short =>
          Stops(step, frm, frm0, frmNxt, room, written, Partial);
          return Partial, frmNxt, toNxt;
        case Bad =>
          Stops(step, frm, frm0, frmNxt, room, written, Error);
          return Error, frmNxt, toNxt;
        case Take(n, o) =>
          Takes(step, frm, frm0, frmNxt, room, written, n, o);
          toNxt := WriteAfter(to, to0, toNxt, o);
          written := written + o;
          frmNxt := frmNxt + n;
      }
    }
    Stops(step, frm, frm0, frmNxt, room, written, Ok);
    verdict := Ok;
  }

  ghost predicate AheadOf<I(!new), O>(step: (seq<I>, nat) -> Step<O>, frm: seq<I>, frm0: nat, at: nat, room: nat, w: seq<O>) {
    && Sane(step) && frm0 <= at <= |frm| && |w| <= room
    && ConvertFrom(step, frm, frm0, room) == Prepend(at - frm0, w, ConvertFrom(step, frm, at, room - |w|))
  }

  /** The loop has come to at and has written w; what remains gives the rest of the result. Worded so
      that the verifier looks inside only where AheadOf is mentioned. */
  ghost predicate Ahead<I(!new), O>(step: (seq<I>, nat) -> Step<O>, frm: seq<I>, frm0: nat, at: nat, room: nat, w: seq<O>) {
    forall v | v == w :: AheadOf(step, frm, frm0, at, room, v)
  }

  lemma Starts<I(!new), O>(step: (seq<I>, nat) -> Step<O>, frm: seq<I>, frm0: nat, room: nat)
    requires Sane(step) && frm0 <= |frm|
    ensures Ahead(step, frm, frm0, frm0, room, [])
  {
    var c := ConvertFrom(step, frm, frm0, room);
    assert [] + c.out == c.out;
    assert AheadOf(step, frm, frm0, frm0, room, []);
  }

  lemma Takes<I(!new), O>(step: (seq<I>, nat) -> Step<O>, frm: seq<I>, frm0: nat, at: nat, room: nat, w: seq<O>, n: nat, o: seq<O>)
    requires Sane(step) && Ahead(step, frm, frm0, at, room, w) && at < |frm| && |w| <= room
    requires step(frm[at..], room - |w|) == Take(n, o)
    ensures 0 < n <= |frm| - at && |w + o| <= room && Ahead(step, frm, frm0, at + n, room, w + o)
  {
    assert AheadOf(step, frm, frm0, at, room, w);
    PrependTwice(at - frm0, w, n, o, ConvertFrom(step, frm, at + n, room - |w| - |o|));
    assert AheadOf(step, frm, frm0, at + n, room, w + o);
  }

  lemma Stops<I(!new), O>(step: (seq<I>, nat) -> Step<O>, frm: seq<I>, frm0: nat, at: nat, room: nat, w: seq<O>, v: Verdict)
    requires Sane(step) && frm0 <= at <= |frm| && |w| <= room && Ahead(step, frm, frm0, at, room, w)
    requires if at == |frm| then v == Ok
             else step(frm[at..], room - |w|) == (if v == Partial then Short else Bad) && v != Ok
    ensures ConvertFrom(step, frm, frm0, room) == Converted(v, at - frm0, w)
  {
    assert AheadOf(step, frm, frm0, at, room, w);
    PrependNothing(at - frm0, w, v);
  }

  lemma PrependNothing<O>(m: nat, a: seq<O>, v: Verdict)
    ensures Prepend(m, a, Converted(v, 0, [])) == Converted(v, m, a)
  {
    assert a + [] == a;
  }

  function Prepend<O>(used: nat, out: seq<O>, c: Converted<O>): Converted<O> {
    Converted(c.verdict, used + c.used, out + c.out)
  }

  lemma PrependTwice<O>(m: nat, a: seq<O>, n: nat, b: seq<O>, c: Converted<O>)
    ensures Prepend(m, a, Prepend(n, b, c)) == Prepend(m + n, a + b, c)
  {
    assert a + (b + c.out) == (a + b) + c.out;
  }

  /** Writes the units of one character and moves the output pointer past them. */
  method Write<O>(to: array<O>, at: nat, o: seq<O>) returns (next: nat)
    requires at + |o| <= to.Length
    modifies to
    ensures next == at + |o| && to[at..next] == o
    ensures to[..at] == old(to[..at]) && to[next..] == old(to[next..])
  {
    for i := 0 to |o|
      invariant to[..at] == old(to[..at]) && to[at..at + i] == o[..i] && to[at + |o|..] == old(to[at + |o|..])
    {
      to[at + i] := o[i];
    }
    next := at + |o|;
  }

  /** The same after what has been written from to0 on. */
  method WriteAfter<O>(to: array<O>, to0: nat, at: nat, o: seq<O>) returns (next: nat)
    requires to0 <= at && at + |o| <= to.Length
    modifies to
    ensures next == at + |o| && to[to0..next] == old(to[to0..at]) + o
    ensures to[..to0] == old(to[..to0]) && to[next..] == old(to[next..])
  {
    next := Write(to, at, o);
    assert to[..at] == old(to[..at]);
    assert to[to0..at] == to[..at][to0..] && to[..to0] == to[..at][..to0];
    assert to[to0..next] == to[to0..at] + to[at..next];
  }

  /** A decoder: the loop from where the header ends. */
  method DriveFrom<I(!new), O>(step: (seq<I>, nat) -> Step<O>, frm: seq<I>, start: nat, to: array<O>)
    returns (verdict: Verdict, frmNxt: nat, toNxt: nat)
    requires Sane(step) && start <= |frm|
    modifies to
    ensures var c := Convert(step, frm[start..], to.Length);
            && verdict == c.verdict && frmNxt == start + c.used
            && toNxt == |c.out| <= to.Length && to[..toNxt] == c.out
    ensures to[toNxt..] == old(to[toNxt..])
  {
    verdict, frmNxt, toNxt := Drive(step, frm, start, to, 0);
    ConvertShift(step, frm, start, 0, to.Length);
    assert to[0..toNxt] == to[..toNxt];
  }

  /** An encoder: the header, if it fits, and then the loop. */
  method DriveAfter<I(!new), O>(step: (seq<I>, nat) -> Step<O>, frm: seq<I>, to: array<O>, header: seq<O>)
    returns (verdict: Verdict, frmNxt: nat, toNxt: nat)
    requires Sane(step)
    modifies to
    ensures to.Length < |header| ==> verdict == Partial && frmNxt == 0 && toNxt == 0
    ensures to.Length >= |header| ==>
      var c := Convert(step, frm, to.Length - |header|);
      && verdict == c.verdict && frmNxt == c.used
      && toNxt == |header + c.out| <= to.Length && to[..toNxt] == header + c.out
    ensures toNxt <= to.Length && to[toNxt..] == old(to[toNxt..])
  {
    if to.Length < |header| {
      return Partial, 0, 0;
    }
    var start := Write(to, 0, header);
    verdict, frmNxt, toNxt := Drive(step, frm, 0, to, start);
    assert to[..start] == header;
    assert to[..toNxt] == to[..start] + to[start..toNxt];
  }

  /** The loop of a length function, over mx output units. */
  method DriveLength<I(!new)>(step: (seq<I>, nat) -> Advance, frm: seq<I>, frm0: nat, mx: nat)
    returns (frmNxt: nat)
    requires SaneLength(step) && frm0 <= |frm|
    ensures frmNxt == frm0 + Measure(step, frm, frm0, mx)
  {
    frmNxt := frm0;
    var n := 0;
    while frmNxt < |frm| && n < mx
      invariant frm0 <= frmNxt <= |frm| && 0 <= n <= mx
      invariant frm0 + Measure(step, frm, frm0, mx) == frmNxt + Measure(step, frm, frmNxt, mx - n)
      decreases |frm| - frmNxt
    {
      match step(frm[frmNxt..], mx - n) {
        case Stop =>
          return;
        case Move(len, written) =>
          n := n + written;
          frmNxt := frmNxt + len;
      }
    }
  }

  /** The length functions return static_cast<int>(frm_nxt - frm). */
  function ToInt(n: nat): (i: int)
    ensures n < 0x8000_0000 ==> i == n
    ensures -0x8000_0000 <= i < 0x8000_0000 && (n - i) % 0x1_0000_0000 == 0
  {
    var r := n % 0x1_0000_0000;
    if r < 0x8000_0000 then r else r - 0x1_0000_0000
  }

  // ----- facts about every converter

  /** A length step mirrors a conversion step when both advance together. */
  ghost predicate Mirrors<I(!new), O>(length: (seq<I>, nat) -> Advance, step: (seq<I>, nat) -> Step<O>) {
    forall s, room: nat | s != [] ::
      match step(s, room)
      case Take(n, o) => room > 0 && length(s, room) == Move(n, |o|)
      case _ => room > 0 ==> length(s, room) == Stop
  }

  /** A length function that mirrors a converter counts exactly what the converter consumes. */
  lemma {:induction false} MeasureIsUsed<I(!new), O>(
    length: (seq<I>, nat) -> Advance, step: (seq<I>, nat) -> Step<O>, frm: seq<I>, at: nat, room: nat)
    requires Sane(step) && SaneLength(length) && Mirrors(length, step) && at <= |frm|
    ensures Measure(length, frm, at, room) == ConvertFrom(step, frm, at, room).used
    decreases |frm| - at
  {
    if at < |frm| {
      match step(frm[at..], room)
      case Take(n, o) => MeasureIsUsed(length, step, frm, at + n, room - |o|);
      case _ =>
    }
  }

  function Concat<T>(parts: seq<seq<T>>): seq<T> {
    if parts == [] then [] else parts[0] + Concat(parts[1..])
  }

  /** step reads the character p as o, whatever follows it, given room for o. */
  ghost predicate Reads<I(!new), O>(step: (seq<I>, nat) -> Step<O>, p: seq<I>, o: seq<O>) {
    p != [] && forall more, r: nat | r >= |o| :: step(p + more, r) == Take(|p|, o)
  }

  /** step has read p as o in some context. */
  ghost predicate ReadSomewhere<I(!new), O>(step: (seq<I>, nat) -> Step<O>, p: seq<I>, o: seq<O>) {
    p != [] && exists more, r: nat :: step(p + more, r) == Take(|p|, o)
  }

  /** The same, worded so that the verifier looks inside only where ReadSomewhere is mentioned. */
  ghost predicate HasRead<I(!new), O>(step: (seq<I>, nat) -> Step<O>, p: seq<I>, o: seq<O>) {
    forall q | q == p :: ReadSomewhere(step, q, o)
  }

  /** A sequence of characters is read one after the other, whatever follows them. */
  lemma {:induction false} ConvertThrough<I(!new), O>(
    step: (seq<I>, nat) -> Step<O>, parts: seq<seq<I>>, outs: seq<seq<O>>, rest: seq<I>, room: nat)
    requires Sane(step) && |parts| == |outs| && |Concat(outs)| <= room
    requires forall i | 0 <= i < |parts| :: Reads(step, parts[i], outs[i])
    ensures Convert(step, Concat(parts) + rest, room)
         == Prepend(|Concat(parts)|, Concat(outs), Convert(step, rest, room - |Concat(outs)|))
  {
    if parts == [] {
      assert Concat(parts) + rest == rest;
    } else {
      var more, o := Concat(parts[1..]) + rest, outs[0];
      ConvertThrough(step, parts[1..], outs[1..], rest, room - |o|);
      assert Reads(step, parts[0], o);
      assert Concat(parts) + rest == parts[0] + more;
      ConvertFirst(step, parts[0], more, o, room);
      PrependTwice(|parts[0]|, o, |Concat(parts[1..])|, Concat(outs[1..]), Convert(step, rest, room - |Concat(outs)|));
    }
  }

  lemma ConvertParts<I(!new), O>(step: (seq<I>, nat) -> Step<O>, parts: seq<seq<I>>, outs: seq<seq<O>>, room: nat)
    requires Sane(step) && |parts| == |outs| && |Concat(outs)| <= room
    requires forall i | 0 <= i < |parts| :: Reads(step, parts[i], outs[i])
    ensures Convert(step, Concat(parts), room) == Converted(Ok, |Concat(parts)|, Concat(outs))
  {
    ConvertThrough(step, parts, outs, [], room);
    assert Concat(parts) + [] == Concat(parts) && Concat(outs) + [] == Concat(outs);
  }

  lemma ConvertFirst<I(!new), O>(step: (seq<I>, nat) -> Step<O>, p: seq<I>, rest: seq<I>, o: seq<O>, room: nat)
    requires Sane(step) && p != [] && |o| <= room && step(p + rest, room) == Take(|p|, o)
    ensures Convert(step, p + rest, room) == Prepend(|p|, o, Convert(step, rest, room - |o|))
  {
    assert (p + rest)[|p|..] == rest && (p + rest)[0..] == p + rest;
    ConvertShift(step, p + rest, |p|, 0, room - |o|);
  }

  /** Whatever a converter consumed splits into parts, one step each. */
  lemma {:induction false} ConvertSplits<I(!new), O>(step: (seq<I>, nat) -> Step<O>, frm: seq<I>, at: nat, room: nat)
    returns (parts: seq<seq<I>>, outs: seq<seq<O>>)
    requires Sane(step) && at <= |frm|
    ensures var c := ConvertFrom(step, frm, at, room);
            |parts| == |outs| && Concat(parts) == frm[at..at + c.used] && Concat(outs) == c.out
    ensures forall i | 0 <= i < |parts| :: HasRead(step, parts[i], outs[i])
    decreases |frm| - at
  {
    if at == |frm| || !step(frm[at..], room).Take? {
      parts, outs := [], [];
    } else {
      var t := step(frm[at..], room);
      var n, o := t.len, t.out;
      var p := frm[at..at + n];
      var ps, os := ConvertSplits(step, frm, at + n, room - |o|);
      assert p + frm[at + n..] == frm[at..];
      assert HasRead(step, p, o);
      parts, outs := [p] + ps, [o] + os;
      assert parts[1..] == ps && outs[1..] == os;
    }
  }

  /** Where a converter stops short of the end, its next step is the one that says so. */
  lemma {:induction false} StopReason<I(!new), O>(step: (seq<I>, nat) -> Step<O>, frm: seq<I>, at: nat, room: nat)
    requires Sane(step) && at <= |frm| && ConvertFrom(step, frm, at, room).verdict != Ok
    ensures var c := ConvertFrom(step, frm, at, room);
            step(frm[at + c.used..], room - |c.out|) == if c.verdict == Partial then Short else Bad
    decreases |frm| - at
  {
    match step(frm[at..], room)
    case Take(n, o) => StopReason(step, frm, at + n, room - |o|);
    case _ =>
  }

  lemma PartialStop<I(!new), O>(step: (seq<I>, nat) -> Step<O>, s: seq<I>, room: nat)
    requires Sane(step) && Convert(step, s, room).verdict == Partial
    ensures var c := Convert(step, s, room); step(s[c.used..], room - |c.out|) == Short
  {
    StopReason(step, s, 0, room);
  }

  lemma ErrorStop<I(!new), O>(step: (seq<I>, nat) -> Step<O>, s: seq<I>, room: nat)
    requires Sane(step) && Convert(step, s, room).verdict == Error
    ensures var c := Convert(step, s, room); step(s[c.used..], room - |c.out|) == Bad
  {
    StopReason(step, s, 0, room);
  }

  // ----- encoders, which take one unit at a time

  /** What an encoder does with a unit that it writes as o unless it refuses it. */
  function EncodeOne<O>(refused: bool, o: seq<O>, room: nat): Step<O> {
    if refused then Bad else if room < |o| then Short else Take(1, o)
  }

  ghost predicate Encodes<I(!new), O>(step: (seq<I>, nat) -> Step<O>, refused: I -> bool, written: I -> seq<O>) {
    forall s, r: nat | s != [] :: step(s, r) == EncodeOne(refused(s[0]), written(s[0]), r)
  }

  function Texts<I, O>(written: I -> seq<O>, s: seq<I>): seq<O> {
    if s == [] then [] else written(s[0]) + Texts(written, s[1..])
  }

  /** c writes out the units of s up to one that is refused or does not fit. */
  ghost predicate Encoded<I, O>(c: Converted<O>, refused: I -> bool, written: I -> seq<O>, s: seq<I>, room: nat) {
    && c.used <= |s| && c.out == Texts(written, s[..c.used])
    && (forall i | 0 <= i < c.used :: !refused(s[i]))
    && c.verdict == (if c.used == |s| then Ok else if refused(s[c.used]) then Error else Partial)
    && (c.verdict == Partial ==> |c.out| + |written(s[c.used])| > room)
  }

  lemma {:induction false} EncodesAll<I(!new), O>(
    step: (seq<I>, nat) -> Step<O>, refused: I -> bool, written: I -> seq<O>, s: seq<I>, room: nat)
    requires Sane(step) && Encodes(step, refused, written)
    ensures Encoded(Convert(step, s, room), refused, written, s, room)
    decreases |s|
  {
    if s != [] {
      assert s[0..] == s;
      var o := written(s[0]);
      if !refused(s[0]) && |o| <= room {
        assert [s[0]] + s[1..] == s;
        ConvertFirst(step, [s[0]], s[1..], o, room);
        EncodesAll(step, refused, written, s[1..], room - |o|);
        EncodedMore(Convert(step, s[1..], room - |o|), refused, written, s, room);
      }
    }
  }

  lemma EncodedMore<I, O>(c: Converted<O>, refused: I -> bool, written: I -> seq<O>, s: seq<I>, room: nat)
    requires s != [] && !refused(s[0]) && |written(s[0])| <= room
    requires Encoded(c, refused, written, s[1..], room - |written(s[0])|)
    ensures Encoded(Prepend(1, written(s[0]), c), refused, written, s, room)
  {
    var d := Prepend(1, written(s[0]), c);
    assert s[..d.used][0] == s[0] && s[..d.used][1..] == s[1..][..c.used];
    forall i | 0 <= i < d.used ensures !refused(s[i]) { if i > 0 { assert s[i] == s[1..][i - 1]; } }
  }

  /** No input that starts with p is decoded to its end. */
  ghost predicate Breaks<I(!new), O>(step: (seq<I>, nat) -> Step<O>, p: seq<I>)
    requires Sane(step)
  {
    forall more, r: nat :: Convert(step, p + more, r).verdict != Ok
  }

  /** A decoder reads what was written for a unit as kept, or breaks on it. */
  ghost predicate Undone<I(!new), O(!new)>(decode: (seq<O>, nat) -> Step<I>, p: seq<O>, good: bool, kept: I)
    requires Sane(decode)
  {
    if good then Reads(decode, p, [kept]) else Breaks(decode, p)
  }

  /** Then it gets to the end exactly if every unit was good, and finds what was kept of them. */
  lemma {:induction false} UndoneExactly<I(!new), O(!new)>(
    decode: (seq<O>, nat) -> Step<I>, written: I -> seq<O>, good: I -> bool, kept: I -> I, s: seq<I>, xs: seq<I>, room: nat)
    requires Sane(decode) && room >= |s|
    requires forall i | 0 <= i < |s| :: Undone(decode, written(s[i]), good(s[i]), kept(s[i]))
    ensures Convert(decode, Texts(written, s), room) == Converted(Ok, |Texts(written, s)|, xs)
       <==> |xs| == |s| && forall i | 0 <= i < |s| :: good(s[i]) && xs[i] == kept(s[i])
  {
    if s != [] {
      var p, rest := written(s[0]), Texts(written, s[1..]);
      assert Undone(decode, p, good(s[0]), kept(s[0]));
      if !good(s[0]) {
        assert Convert(decode, p + rest, room).verdict != Ok;
      } else {
        assert decode(p + rest, room) == Take(|p|, [kept(s[0])]);
        ConvertFirst(decode, p, rest, [kept(s[0])], room);
        if xs != [] {
          UndoneExactly(decode, written, good, kept, s[1..], xs[1..], room - 1);
          UndoneMore(Convert(decode, rest, room - 1), |p|, rest, good, kept, s, xs);
        }
      }
    }
  }

  lemma UndoneMore<I, O>(c: Converted<I>, n: nat, rest: seq<O>, good: I -> bool, kept: I -> I, s: seq<I>, xs: seq<I>)
    requires s != [] && xs != [] && good(s[0])
    requires c == Converted(Ok, |rest|, xs[1..])
        <==> |xs| == |s| && forall i | 0 <= i < |s| - 1 :: good(s[1..][i]) && xs[1..][i] == kept(s[1..][i])
    ensures Prepend(n, [kept(s[0])], c) == Converted(Ok, n + |rest|, xs)
       <==> |xs| == |s| && forall i | 0 <= i < |s| :: good(s[i]) && xs[i] == kept(s[i])
  {
    var k := kept(s[0]);
    assert [k] + xs[1..] == xs <==> xs[0] == k;
    assert ([k] + c.out)[0] == k && ([k] + c.out)[1..] == c.out;
    if |xs| == |s| && forall i | 0 <= i < |s| - 1 :: good(s[1..][i]) && xs[1..][i] == kept(s[1..][i]) {
      forall i | 1 <= i < |s| ensures good(s[i]) && xs[i] == kept(s[i]) {
        assert s[i] == s[1..][i - 1] && xs[i] == xs[1..][i - 1];
      }
    }
    if |xs| == |s| && forall i | 0 <= i < |s| :: good(s[i]) && xs[i] == kept(s[i]) {
      forall i | 0 <= i < |s| - 1 ensures good(s[1..][i]) && xs[1..][i] == kept(s[1..][i]) {
        assert s[i + 1] == s[1..][i] && xs[i + 1] == xs[1..][i];
      }
    }
  }

  /** No character is written with more units than it was read from. */
  ghost predicate Frugal<I(!new), O>(step: (seq<I>, nat) -> Step<O>) {
    forall s, r: nat | s != [] && step(s, r).Take? :: |step(s, r).out| <= step(s, r).len
  }

  lemma {:induction false} ConvertShorter<I(!new), O>(step: (seq<I>, nat) -> Step<O>, frm: seq<I>, at: nat, room: nat)
    requires Sane(step) && Frugal(step) && at <= |frm|
    ensures var c := ConvertFrom(step, frm, at, room); |c.out| <= c.used
    decreases |frm| - at
  {
    if at < |frm| {
      match step(frm[at..], room)
      case Take(n, o) => ConvertShorter(step, frm, at + n, room - |o|);
      case _ =>
    }
  }

  // ----- two converters on the same input

  /** Both take the same character, or both stop for the same reason. */
  ghost predicate StepPaired<O, P>(t: Step<O>, u: Step<P>, pairs: (seq<O>, seq<P>) -> bool) {
    match t
    case Take(n, o) => u.Take? && u.len == n && pairs(o, u.out) && |o| <= n && |u.out| <= n
    case Short => u == Short
    case Bad => u == Bad
  }

  /** They do so wherever the next unit is admitted or the first one finds an error. */
  ghost predicate StepTogether<I(!new), O, P>(f: (seq<I>, nat) -> Step<O>, g: (seq<I>, nat) -> Step<P>, s: seq<I>,
                                              ok: I -> bool, pairs: (seq<O>, seq<P>) -> bool)
  {
    forall k, a: nat, b: nat | 0 <= k < |s| && a >= |s| - k && b >= |s| - k && (ok(s[k]) || f(s[k..], a).Bad?) ::
      StepPaired(f(s[k..], a), g(s[k..], b), pairs)
  }

  /** A relation of results that one more pair of characters keeps. */
  ghost predicate Extends<O(!new), P(!new)>(pairs: (seq<O>, seq<P>) -> bool, rel: (Converted<O>, Converted<P>) -> bool) {
    && (forall v :: rel(Converted(v, 0, []), Converted(v, 0, [])))
    && (forall n, o, p, d, u | pairs(o, p) && rel(d, u) :: rel(Prepend(n, o, d), Prepend(n, p, u)))
  }

  /** The units that were passed from at on, and the one where the input ran out, are admitted. */
  ghost predicate Admitted<I, O>(s: seq<I>, at: nat, d: Converted<O>, ok: I -> bool) {
    && at + d.used <= |s| && (forall k | at <= k < at + d.used :: ok(s[k]))
    && (d.verdict == Partial && at + d.used < |s| ==> ok(s[at + d.used]))
  }

  lemma AdmittedRest<I, O>(s: seq<I>, at: nat, n: nat, o: seq<O>, d: Converted<O>, ok: I -> bool)
    requires Admitted(s, at, Prepend(n, o, d), ok)
    ensures Admitted(s, at + n, d, ok) && (n > 0 ==> at < |s| && ok(s[at]))
  {
  }

  ghost predicate CompatibleHere<I(!new), O(!new), P(!new)>(
    f: (seq<I>, nat) -> Step<O>, g: (seq<I>, nat) -> Step<P>, s: seq<I>,
    ok: I -> bool, pairs: (seq<O>, seq<P>) -> bool, rel: (Converted<O>, Converted<P>) -> bool)
  {
    Sane(f) && Sane(g) && StepTogether(f, g, s, ok, pairs) && Extends(pairs, rel)
  }

  /** Worded so that the verifier looks inside only where CompatibleHere is mentioned. */
  ghost predicate Compatible<I(!new), O(!new), P(!new)>(
    f: (seq<I>, nat) -> Step<O>, g: (seq<I>, nat) -> Step<P>, s: seq<I>,
    ok: I -> bool, pairs: (seq<O>, seq<P>) -> bool, rel: (Converted<O>, Converted<P>) -> bool)
  {
    forall t | t == s :: CompatibleHere(f, g, t, ok, pairs, rel)
  }

  lemma TogetherAt<I(!new), O(!new), P(!new)>(
    f: (seq<I>, nat) -> Step<O>, g: (seq<I>, nat) -> Step<P>, s: seq<I>, k: nat, a: nat, b: nat,
    ok: I -> bool, pairs: (seq<O>, seq<P>) -> bool, rel: (Converted<O>, Converted<P>) -> bool)
    requires Compatible(f, g, s, ok, pairs, rel) && k < |s| && a >= |s| - k && b >= |s| - k
    requires ok(s[k]) || f(s[k..], a).Bad?
    ensures StepPaired(f(s[k..], a), g(s[k..], b), pairs)
    ensures f(s[k..], a).Take? ==> 0 < f(s[k..], a).len <= |s| - k
  {
    assert CompatibleHere(f, g, s, ok, pairs, rel);
  }

  /** One step of both, given that the rests are related. */
  lemma RelatedHere<I(!new), O(!new), P(!new)>(
    f: (seq<I>, nat) -> Step<O>, g: (seq<I>, nat) -> Step<P>, s: seq<I>, at: nat, rf: nat, rg: nat,
    ok: I -> bool, pairs: (seq<O>, seq<P>) -> bool, rel: (Converted<O>, Converted<P>) -> bool)
    requires Sane(f) && Sane(g) && Compatible(f, g, s, ok, pairs, rel) && at < |s|
    requires StepPaired(f(s[at..], rf), g(s[at..], rg), pairs)
    requires f(s[at..], rf).Take? ==>
      var n, o, p := f(s[at..], rf).len, f(s[at..], rf).out, g(s[at..], rg).out;
      at + n <= |s| && |o| <= rf && |p| <= rg && rel(ConvertFrom(f, s, at + n, rf - |o|), ConvertFrom(g, s, at + n, rg - |p|))
    ensures rel(ConvertFrom(f, s, at, rf), ConvertFrom(g, s, at, rg))
  {
    assert CompatibleHere(f, g, s, ok, pairs, rel);
  }

  /** Then, with ample room for both, their results are so related. */
  lemma {:induction false} ConvertTogether<I(!new), O(!new), P(!new)>(
    f: (seq<I>, nat) -> Step<O>, g: (seq<I>, nat) -> Step<P>, s: seq<I>, at: nat, rf: nat, rg: nat,
    ok: I -> bool, pairs: (seq<O>, seq<P>) -> bool, rel: (Converted<O>, Converted<P>) -> bool)
    requires Sane(f) && Sane(g) && Compatible(f, g, s, ok, pairs, rel)
    requires at <= |s| && rf >= |s| - at && rg >= |s| - at && Admitted(s, at, ConvertFrom(f, s, at, rf), ok)
    ensures rel(ConvertFrom(f, s, at, rf), ConvertFrom(g, s, at, rg))
    decreases |s| - at
  {
    if at == |s| {
      assert CompatibleHere(f, g, s, ok, pairs, rel);
    } else {
      AdmittedNext(f, s, at, rf, ok);
      TogetherAt(f, g, s, at, rf, rg, ok, pairs, rel);
      if f(s[at..], rf).Take? {
        var n, o, p := f(s[at..], rf).len, f(s[at..], rf).out, g(s[at..], rg).out;
        ConvertTogether(f, g, s, at + n, rf - |o|, rg - |p|, ok, pairs, rel);
      }
      RelatedHere(f, g, s, at, rf, rg, ok, pairs, rel);
    }
  }

  lemma AdmittedNext<I(!new), O>(f: (seq<I>, nat) -> Step<O>, s: seq<I>, at: nat, room: nat, ok: I -> bool)
    requires Sane(f) && at < |s| && Admitted(s, at, ConvertFrom(f, s, at, room), ok)
    ensures ok(s[at]) || f(s[at..], room).Bad?
    ensures f(s[at..], room).Take? ==>
      var n, o := f(s[at..], room).len, f(s[at..], room).out;
      && 0 < n <= |s| - at && |o| <= room
      && Admitted(s, at + n, ConvertFrom(f, s, at + n, room - |o|), ok)
  {
    match f(s[at..], room)
    case Take(n, o) => AdmittedRest(s, at, n, o, ConvertFrom(f, s, at + n, room - |o|), ok);
    case _ =>
  }
}
