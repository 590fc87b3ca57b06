/** What a TCP stream of wissbi means: each message is preceded by its length in four octets, most
    significant first. Independent of how the octets are written and read. */
module Framing {

  type Octet = x: int | 0 <= x < 256

  /** MAX_MSG_SIZE. */
  const MAX_MSG_SIZE: nat := 4096

  /** What a publisher may send: TCP::Put refuses the empty message. */
  type Message = m: seq<Octet> | 0 < |m| <= MAX_MSG_SIZE witness [0]

  /** htonl. */
  function Header(n: nat): (h: seq<Octet>)
    requires n < 0x1_0000_0000
    ensures |h| == 4
  {
    [n / 0x100_0000, n / 0x1_0000 % 0x100, n / 0x100 % 0x100, n % 0x100]
  }

  /** ntohl. */
  function Value(h: seq<Octet>): (n: nat)
    requires |h| == 4
    ensures n < 0x1_0000_0000
  {
    (h[0] as int) * 0x100_0000 + (h[1] as int) * 0x1_0000 + (h[2] as int) * 0x100 + h[3] as int
  }

  lemma ValueOfHeader(n: nat)
    requires n < 0x1_0000_0000
    ensures Value(Header(n)) == n
  {
    var a, b := n / 0x100, n / 0x1_0000;
    assert n == a * 0x100 + n % 0x100 && a == b * 0x100 + a % 0x100 && b == b / 0x100 * 0x100 + b % 0x100;
    assert b == a / 0x100 && b / 0x100 == n / 0x100_0000;
  }

  lemma HeaderOfValue(h: seq<Octet>)
    requires |h| == 4
    ensures Header(Value(h)) == h
  {
    var n := Value(h);
    var a: int, b: int, c: int := h[0], h[1], h[2];
    assert n / 0x100 == a * 0x1_0000 + b * 0x100 + c;
    assert n / 0x1_0000 == a * 0x100 + b;
    assert n / 0x100_0000 == h[0];
  }

  function Frame(m: seq<Octet>): (f: seq<Octet>)
    requires |m| < 0x1_0000_0000
    ensures |f| == 4 + |m|
  {
    Header(|m|) + m
  }

  /** Network byte order: the octets of a length stand in the order of their weight, and the length comes
      before the message. */
  lemma OctetOrder(a: Octet, b: Octet, c: Octet, d: Octet)
    ensures Header(a * 0x100_0000 + b * 0x1_0000 + c * 0x100 + d) == [a, b, c, d]
    ensures Frame([65, 66]) == [0, 0, 0, 2, 65, 66]
  {
    HeaderOfValue([a, b, c, d]);
  }

  predicate Sized(ms: seq<seq<Octet>>) {
    forall i | 0 <= i < |ms| :: |ms[i]| < 0x1_0000_0000
  }

  function Frames(ms: seq<seq<Octet>>): seq<Octet>
    requires Sized(ms)
  {
    if ms == [] then [] else Frame(ms[0]) + Frames(ms[1..])
  }

  /** A whole frame stands at the start of s. */
  predicate Whole(s: seq<Octet>) {
    |s| >= 4 && |s| - 4 >= Value(s[..4])
  }

  /** The messages of the whole frames that s starts with. */
  function Parse(s: seq<Octet>): (ms: seq<seq<Octet>>)
    decreases |s|
  {
    if !Whole(s) then []
    else var n := 4 + Value(s[..4]); [s[4..n]] + Parse(s[n..])
  }

  /** What is left after them. */
  function Rest(s: seq<Octet>): (r: seq<Octet>)
    ensures !Whole(r)
    decreases |s|
  {
    if !Whole(s) then s else Rest(s[4 + Value(s[..4])..])
  }

  lemma FirstFrame(m: seq<Octet>, t: seq<Octet>)
    requires |m| < 0x1_0000_0000
    ensures var s := Frame(m) + t;
            Whole(s) && 4 + Value(s[..4]) == |Frame(m)| && s[4..|Frame(m)|] == m && s[|Frame(m)|..] == t
  {
    var s := Frame(m) + t;
    ValueOfHeader(|m|);
    assert s[..4] == Header(|m|);
  }

  /** A frame is its own delimiter, whatever follows it. */
  lemma ParseFrame(m: seq<Octet>, t: seq<Octet>)
    requires |m| < 0x1_0000_0000
    ensures Parse(Frame(m) + t) == [m] + Parse(t) && Rest(Frame(m) + t) == Rest(t)
  {
    FirstFrame(m, t);
  }

  lemma Associate<T>(a: seq<T>, b: seq<T>, c: seq<T>)
    ensures a + b + c == a + (b + c)
  {
  }

  lemma {:induction false} ParseFrames(ms: seq<seq<Octet>>, t: seq<Octet>)
    requires Sized(ms)
    ensures Parse(Frames(ms) + t) == ms + Parse(t) && Rest(Frames(ms) + t) == Rest(t)
  {
    if ms == [] {
      assert Frames(ms) + t == t;
    } else {
      var f, more := Frame(ms[0]), Frames(ms[1..]);
      ParseFrames(ms[1..], t);
      ParseFrame(ms[0], more + t);
      Associate(f, more, t);
      Associate([ms[0]], ms[1..], Parse(t));
      assert [ms[0]] + ms[1..] == ms;
    }
  }

  lemma WholeIsFrame(s: seq<Octet>)
    requires Whole(s)
    ensures var n := 4 + Value(s[..4]); s == Frame(s[4..n]) + s[n..]
  {
    HeaderOfValue(s[..4]);
  }

  /** Every stream is the frames of what it parses to and an unfinished rest. */
  lemma {:induction false} ParseSplits(s: seq<Octet>)
    ensures Sized(Parse(s)) && s == Frames(Parse(s)) + Rest(s)
    decreases |s|
  {
    if Whole(s) {
      var n := 4 + Value(s[..4]);
      var ms := Parse(s[n..]);
      ParseSplits(s[n..]);
      WholeIsFrame(s);
      assert Parse(s) == [s[4..n]] + ms && Rest(s) == Rest(s[n..]);
      FramesCons(s[4..n], ms);
      Associate(Frame(s[4..n]), Frames(ms), Rest(s));
    }
  }

  lemma FramesCons(m: seq<Octet>, ms: seq<seq<Octet>>)
    requires |m| < 0x1_0000_0000 && Sized(ms)
    ensures Sized([m] + ms) && Frames([m] + ms) == Frame(m) + Frames(ms)
  {
    assert ([m] + ms)[1..] == ms;
  }

  /** Octets appended to a stream only add to its rest. */
  lemma ParseAppend(s: seq<Octet>, t: seq<Octet>)
    ensures Parse(s + t) == Parse(s) + Parse(Rest(s) + t) && Rest(s + t) == Rest(Rest(s) + t)
  {
    ParseSplits(s);
    assert s + t == Frames(Parse(s)) + (Rest(s) + t);
    ParseFrames(Parse(s), Rest(s) + t);
  }

  /** A strict prefix of a frame holds no message. */
  lemma PrefixIsRest(m: seq<Octet>, k: nat)
    requires |m| < 0x1_0000_0000 && k < |Frame(m)|
    ensures Parse(Frame(m)[..k]) == [] && Rest(Frame(m)[..k]) == Frame(m)[..k]
  {
    var p := Frame(m)[..k];
    if k >= 4 {
      assert p[..4] == Header(|m|);
      ValueOfHeader(|m|);
    }
  }

  /** How many of ms are whole in the first k octets of their frames. */
  function WholeBefore(ms: seq<seq<Octet>>, k: nat): (j: nat)
    requires Sized(ms)
    ensures j <= |ms|
  {
    if ms == [] || k < |Frame(ms[0])| then 0 else 1 + WholeBefore(ms[1..], k - |Frame(ms[0])|)
  }

  /** That count is right: the frames counted fit, and one more would not. */
  lemma {:induction false} WholeBeforeBounds(ms: seq<seq<Octet>>, k: nat)
    requires Sized(ms)
    ensures var j := WholeBefore(ms, k);
            |Frames(ms[..j])| <= k && (j < |ms| ==> k < |Frames(ms[..j + 1])|)
  {
    var j := WholeBefore(ms, k);
    if j > 0 {
      WholeBeforeBounds(ms[1..], k - |Frame(ms[0])|);
      assert ms[..j][1..] == ms[1..][..j - 1];
      if j < |ms| {
        assert ms[..j + 1][1..] == ms[1..][..j];
      }
    } else if ms != [] {
      assert ms[..1] == [ms[0]];
      assert Frames(ms[..1]) == Frame(ms[0]) + Frames([]);
    }
  }

  lemma {:induction false} FramesAppend(a: seq<seq<Octet>>, b: seq<seq<Octet>>)
    requires Sized(a) && Sized(b)
    ensures Sized(a + b) && Frames(a + b) == Frames(a) + Frames(b)
  {
    if a == [] {
      assert a + b == b;
    } else {
      FramesAppend(a[1..], b);
      assert a + b == [a[0]] + (a[1..] + b);
      FramesCons(a[0], a[1..] + b);
      Associate(Frame(a[0]), Frames(a[1..]), Frames(b));
    }
  }

  lemma {:induction false} FramesSplit(ms: seq<seq<Octet>>, j: nat)
    requires Sized(ms) && j <= |ms|
    ensures Frames(ms) == Frames(ms[..j]) + Frames(ms[j..])
  {
    assert ms[..j] + ms[j..] == ms;
    FramesAppend(ms[..j], ms[j..]);
  }

  lemma {:induction false} FramesFrom(ms: seq<seq<Octet>>, j: nat)
    requires Sized(ms) && j < |ms|
    ensures Frames(ms[j..]) == Frame(ms[j]) + Frames(ms[j + 1..])
  {
    assert ms[j..] == [ms[j]] + ms[j + 1..];
    FramesCons(ms[j], ms[j + 1..]);
  }

  lemma CutMiddle<T>(a: seq<T>, b: seq<T>, c: seq<T>, k: nat)
    requires k <= |b|
    ensures (a + (b + c))[..|a| + k] == a + b[..k]
  {
  }

  /** The first octets of a stream are whole frames and a prefix of the next. */
  lemma {:induction false} CutSplits(ms: seq<seq<Octet>>, j: nat, k: nat)
    requires Sized(ms) && j <= |ms| && (if j < |ms| then k <= |Frame(ms[j])| else k == 0)
    ensures var n := |Frames(ms[..j])| + k;
            n <= |Frames(ms)| && Frames(ms)[..n] == Frames(ms[..j]) + (if j < |ms| then Frame(ms[j])[..k] else [])
  {
    FramesSplit(ms, j);
    if j < |ms| {
      FramesFrom(ms, j);
      CutMiddle(Frames(ms[..j]), Frame(ms[j]), Frames(ms[j + 1..]), k);
    } else {
      assert ms[..j] == ms && Frames(ms)[..|Frames(ms)|] == Frames(ms) + [];
    }
  }

  lemma {:induction false} FramesSnoc(ms: seq<seq<Octet>>, j: nat)
    requires Sized(ms) && j < |ms|
    ensures Frames(ms[..j + 1]) == Frames(ms[..j]) + Frame(ms[j])
  {
    FramesAppend(ms[..j], [ms[j]]);
    FramesCons(ms[j], []);
    assert ms[..j] + [ms[j]] == ms[..j + 1] && [ms[j]] + [] == [ms[j]];
  }

  /** Cutting a stream of frames anywhere leaves exactly the whole frames before the cut. */
  lemma {:induction false} CutAnywhere(ms: seq<seq<Octet>>, k: nat)
    requires Sized(ms) && k <= |Frames(ms)|
    ensures Parse(Frames(ms)[..k]) == ms[..WholeBefore(ms, k)]
  {
    var j := WholeBefore(ms, k);
    WholeBeforeBounds(ms, k);
    if j < |ms| {
      FramesSnoc(ms, j);
      ParseCut(ms, j, k - |Frames(ms[..j])|);
    } else {
      assert ms[..j] == ms && Frames(ms)[..k] == Frames(ms) + [];
      ParseFrames(ms, []);
    }
  }

  lemma {:induction false} ParseCut(ms: seq<seq<Octet>>, j: nat, k: nat)
    requires Sized(ms) && j < |ms| && k < |Frame(ms[j])|
    ensures var n := |Frames(ms[..j])| + k; n <= |Frames(ms)| && Parse(Frames(ms)[..n]) == ms[..j]
  {
    var p := Frame(ms[j])[..k];
    CutSplits(ms, j, k);
    assert Parse(p) == [] by { PrefixIsRest(ms[j], k); }
    assert Parse(Frames(ms[..j]) + p) == ms[..j] + [] by { ParseFrames(ms[..j], p); }
  }

  lemma {:induction false} WholeBeforeIs(ms: seq<seq<Octet>>, j: nat, k: nat)
    requires Sized(ms) && j <= |ms| && (if j < |ms| then k < |Frame(ms[j])| else k == 0)
    ensures WholeBefore(ms, |Frames(ms[..j])| + k) == j
  {
    if j > 0 {
      WholeBeforeIs(ms[1..], j - 1, k);
      assert ms[..j] == [ms[0]] + ms[1..][..j - 1];
      FramesCons(ms[0], ms[1..][..j - 1]);
    }
  }

  /** j whole frames and a strict prefix of the next are a cut of the stream after j frames. */
  lemma {:induction false} CutAfter(ms: seq<seq<Octet>>, j: nat, k: nat)
    requires Sized(ms) && j <= |ms| && (if j < |ms| then k < |Frame(ms[j])| else k == 0)
    ensures var n := |Frames(ms[..j])| + k;
            n <= |Frames(ms)| && WholeBefore(ms, n) == j
            && Frames(ms)[..n] == Frames(ms[..j]) + (if j < |ms| then Frame(ms[j])[..k] else [])
  {
    WholeBeforeIs(ms, j, k);
    CutSplits(ms, j, k);
  }

  /** Different lists of messages have different streams. */
  lemma FramesInjective(a: seq<seq<Octet>>, b: seq<seq<Octet>>)
    requires Sized(a) && Sized(b) && Frames(a) == Frames(b)
    ensures a == b
  {
    ParseFrames(a, []);
    ParseFrames(b, []);
    assert Frames(a) + [] == Frames(b) + [];
    assert a + Parse([]) == a && b + Parse([]) == b;
  }

  // ----- headers beyond the message buffer

  /** The messages a receiver takes whose buffer holds MAX_MSG_SIZE octets: it gets no further than the
      first header that announces more. */
  function Taken(s: seq<Octet>): (ms: seq<seq<Octet>>)
    decreases |s|
  {
    if !Whole(s) || Value(s[..4]) > MAX_MSG_SIZE then []
    else var n := 4 + Value(s[..4]); [s[4..n]] + Taken(s[n..])
  }

  /** More than the buffer holds is announced and follows. */
  predicate Oversized(s: seq<Octet>) {
    |s| >= 4 && Value(s[..4]) > MAX_MSG_SIZE && |s| - 4 > MAX_MSG_SIZE
  }

  /** The receiver meets such a header. */
  predicate Overruns(s: seq<Octet>)
    decreases |s|
  {
    Oversized(s) || (Whole(s) && Value(s[..4]) <= MAX_MSG_SIZE && Overruns(s[4 + Value(s[..4])..]))
  }

  predicate Fitting(ms: seq<seq<Octet>>) {
    forall i | 0 <= i < |ms| :: |ms[i]| <= MAX_MSG_SIZE
  }

  /** Without such a header the receiver takes every whole frame. */
  lemma {:induction false} TakenIsParse(s: seq<Octet>)
    requires !Overruns(s)
    ensures Taken(s) == Parse(s)
    decreases |s|
  {
    if Whole(s) {
      TakenIsParse(s[4 + Value(s[..4])..]);
    }
  }

  lemma TakeFrame(m: seq<Octet>, t: seq<Octet>)
    requires |m| <= MAX_MSG_SIZE
    ensures Taken(Frame(m) + t) == [m] + Taken(t) && (Overruns(Frame(m) + t) <==> Overruns(t))
  {
    FirstFrame(m, t);
  }

  lemma {:induction false} OverrunAfter(ms: seq<seq<Octet>>, t: seq<Octet>)
    requires Fitting(ms)
    ensures Overruns(Frames(ms) + t) <==> Overruns(t)
  {
    if ms == [] {
      assert Frames(ms) + t == t;
    } else {
      Associate(Frame(ms[0]), Frames(ms[1..]), t);
      TakeFrame(ms[0], Frames(ms[1..]) + t);
      OverrunAfter(ms[1..], t);
    }
  }

  lemma {:induction false} OverrunWhere(s: seq<Octet>) returns (ms: seq<seq<Octet>>, t: seq<Octet>)
    requires Overruns(s)
    ensures Fitting(ms) && s == Frames(ms) + t && Oversized(t)
    decreases |s|
  {
    if Oversized(s) {
      ms, t := [], s;
    } else {
      var n := 4 + Value(s[..4]);
      var rest;
      rest, t := OverrunWhere(s[n..]);
      ms := [s[4..n]] + rest;
      WholeIsFrame(s);
      FramesCons(s[4..n], rest);
      Associate(Frame(s[4..n]), Frames(rest), t);
    }
  }

  /** A stream overruns the buffer exactly when, after some whole frames that fit, a header announces
      more than the buffer holds and more than that follows. */
  lemma OverrunExactly(s: seq<Octet>)
    ensures Overruns(s) <==> exists ms, t :: Fitting(ms) && s == Frames(ms) + t && Oversized(t)
  {
    if Overruns(s) {
      var ms, t := OverrunWhere(s);
    } else if exists ms, t :: Fitting(ms) && s == Frames(ms) + t && Oversized(t) {
      var ms, t :| Fitting(ms) && s == Frames(ms) + t && Oversized(t);
      OverrunAfter(ms, t);
    }
  }

  /** For instance a whole frame of 5000 octets does, and its header with ten octets behind it does not. */
  lemma OverrunByFrame(m: seq<Octet>)
    requires |m| == 5000
    ensures Overruns(Frame(m)) && !Overruns(Frame(m)[..14])
  {
    ValueOfHeader(5000);
    assert Frame(m)[..4] == Header(5000) && Frame(m)[..14][..4] == Header(5000);
  }

  /** Frames that fit never do, wherever they are cut. */
  lemma {:induction false} FramesFit(ms: seq<seq<Octet>>, k: nat)
    requires Fitting(ms) && k <= |Frames(ms)|
    ensures !Overruns(Frames(ms)[..k])
  {
    if ms != [] && k >= 4 {
      var f := Frame(ms[0]);
      var s := Frames(ms)[..k];
      assert s[..4] == Header(|ms[0]|);
      ValueOfHeader(|ms[0]|);
      if k >= |f| {
        FramesFit(ms[1..], k - |f|);
        assert s[|f|..] == Frames(ms[1..])[..k - |f|];
      }
    }
  }
}
