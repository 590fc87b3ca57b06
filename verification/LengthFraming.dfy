/** src/io_policy/length.hpp: messages on an iostream, each preceded by its length in decimal and a
    space. */
module LengthFraming {
  import opened Framing
  import Tcp
  import opened Wrappers

  predicate IsDigit(b: Octet) {
    48 <= b <= 57
  }

  /** isspace in the classic locale. */
  predicate IsSpace(b: Octet) {
    b == 32 || 9 <= b <= 13
  }

  const SPACE: Octet := 32
  const INT_MAX: nat := 0x7FFF_FFFF

  // ----- operator<< and operator>> for numbers

  /** What operator<< writes for an unsigned number. */
  function Decimal(n: nat): (s: seq<Octet>)
    ensures s != [] && forall i | 0 <= i < |s| :: IsDigit(s[i])
  {
    if n < 10 then [48 + n] else Decimal(n / 10) + [48 + n % 10]
  }

  function Number(s: seq<Octet>): (n: nat)
    requires forall i | 0 <= i < |s| :: IsDigit(s[i])
  {
    if s == [] then 0
    else
      var last: int := s[|s| - 1];
      assert IsDigit(s[|s| - 1]);
      Number(s[..|s| - 1]) * 10 + (last - 48)
  }

  function SkipSpaces(s: seq<Octet>): seq<Octet> {
    if s != [] && IsSpace(s[0]) then SkipSpaces(s[1..]) else s
  }

  /** How many digits s starts with. */
  function DigitRun(s: seq<Octet>): (k: nat)
    ensures k <= |s| && (forall i | 0 <= i < k :: IsDigit(s[i])) && (k < |s| ==> !IsDigit(s[k]))
  {
    if s == [] || !IsDigit(s[0]) then 0 else 1 + DigitRun(s[1..])
  }

  /** The digits that u starts with, as a number of the given sign; None without digits or when it is
      not an int. */
  function ExtractDigitsOf(u: seq<Octet>, negative: bool): Option<(int, seq<Octet>)> {
    var k := DigitRun(u);
    if k == 0 then None
    else
      var n := Number(u[..k]);
      if n > INT_MAX + (if negative then 1 else 0) then None
      else Some((if negative then 0 - n else n, u[k..]))
  }

  /** operator>> into an int: white space, a sign, digits. None when it fails. */
  function Extract(s: seq<Octet>): Option<(int, seq<Octet>)> {
    var t := SkipSpaces(s);
    if t != [] && t[0] == 45 then ExtractDigitsOf(t[1..], true)
    else if t != [] && t[0] == 43 then ExtractDigitsOf(t[1..], false)
    else ExtractDigitsOf(t, false)
  }

  lemma {:induction false} NumberOfDecimal(n: nat)
    ensures Number(Decimal(n)) == n
  {
    if n >= 10 {
      NumberOfDecimal(n / 10);
      var s := Decimal(n);
      assert s[..|s| - 1] == Decimal(n / 10);
    } else {
      assert Number([48 + n][..0]) == 0;
    }
  }

  lemma {:induction false} RunOf(d: seq<Octet>, t: seq<Octet>)
    requires (forall i | 0 <= i < |d| :: IsDigit(d[i])) && (t != [] ==> !IsDigit(t[0]))
    ensures DigitRun(d + t) == |d|
  {
    if d == [] {
      assert d + t == t;
    } else {
      RunOf(d[1..], t);
      assert (d + t)[1..] == d[1..] + t;
    }
  }

  lemma ExtractDigits(d: seq<Octet>, t: seq<Octet>)
    requires d != [] && (forall i | 0 <= i < |d| :: IsDigit(d[i])) && Number(d) <= INT_MAX
    requires t != [] ==> !IsDigit(t[0])
    ensures ExtractDigitsOf(d + t, false) == Some((Number(d), t))
  {
    RunOf(d, t);
    assert (d + t)[..|d|] == d;
    assert (d + t)[|d|..] == t;
  }

  lemma ExtractAtDigit(s: seq<Octet>)
    requires s != [] && IsDigit(s[0])
    ensures Extract(s) == ExtractDigitsOf(s, false)
  {
  }

  /** A length that was written is read back, and the reader stops at the space, whatever follows. */
  lemma ExtractDecimal(n: nat, t: seq<Octet>)
    requires n <= INT_MAX
    ensures Extract(Decimal(n) + [SPACE] + t) == Some((n, [SPACE] + t))
  {
    var d, rest := Decimal(n), [SPACE] + t;
    NumberOfDecimal(n);
    ExtractDigits(d, rest);
    assert IsDigit((d + rest)[0]);
    ExtractAtDigit(d + rest);
    Associate(d, [SPACE], t);
  }

  // ----- frames

  function Framed(m: seq<Octet>): seq<Octet> {
    Decimal(|m|) + [SPACE] + m
  }

  /** The digits are decimal, the first the most significant, and the length comes before the message. */
  lemma FramedExamples()
    ensures Decimal(4096) == [52, 48, 57, 54] && Framed([65, 66]) == [50, 32, 65, 66]
  {
    assert Decimal(409) == Decimal(40) + [57] && Decimal(40) == Decimal(4) + [48];
  }

  function AllFramed(ms: seq<seq<Octet>>): seq<Octet> {
    if ms == [] then [] else Framed(ms[0]) + AllFramed(ms[1..])
  }

  lemma {:induction false} AllFramedSnoc(ms: seq<seq<Octet>>, m: seq<Octet>)
    ensures AllFramed(ms + [m]) == AllFramed(ms) + Framed(m)
  {
    if ms == [] {
      assert (ms + [m])[1..] == [] && AllFramed([m]) == Framed(m) + AllFramed([]);
    } else {
      AllFramedSnoc(ms[1..], m);
      assert (ms + [m])[1..] == ms[1..] + [m];
    }
  }

  /** How a Get ends: without a message; with one; with one whose length is beyond the buffer; with octets
      written past the end of the buffer. The source returns false in the first case only. */
  datatype Got = Failed | Received | BadLength | Overrun

  /** What a Get meets: a number with something after it, if the stream is good. */
  function Announced(data: seq<Octet>, good: bool): Option<(int, seq<Octet>)> {
    var x := Extract(data);
    if good && x.Some? && x.value.1 != [] then Some((x.value.0, x.value.1[1..])) else None
  }

  /** A negative or an oversized length; octets past the end are written only if there are as many. */
  function Judge(size: int, body: seq<Octet>): Got {
    if 0 <= size <= MAX_MSG_SIZE then Received
    else if size > MAX_MSG_SIZE && |body| > MAX_MSG_SIZE then Overrun
    else BadLength
  }

  /** An iostream: what was written and not yet read, and whether its input side is good. */
  class Stream {
    var data: seq<Octet>
    var good: bool

    constructor ()
      ensures data == [] && good
    {
      data, good := [], true;
    }

    method Put(msg: Tcp.MsgBuf) returns (ok: bool)
      requires msg.Valid()
      modifies this`data
      ensures ok <==> msg.len > 0
      ensures data == old(data) + if ok then Framed(msg.Contents()) else []
    {
      if msg.len <= 0 {
        return false;
      }
      Associate(data, Decimal(msg.len) + [SPACE], msg.Contents());
      data := data + (Decimal(msg.len) + [SPACE]);
      data := data + msg.buf[..msg.len];
      return true;
    }

    /** Get, for every stream. A body that is cut short is not noticed: the message has the announced
        length and whatever the buffer held; only the next Get fails. */
    method Get(msg: Tcp.MsgBuf) returns (g: Got)
      requires msg.Valid()
      modifies this, msg, msg.buf
      ensures var x := Announced(old(data), old(good));
              && g == (if x.None? then Failed else Judge(x.value.0, x.value.1))
              && (g.Failed? ==> msg.len == 0 && !good)
              && (g.Received? ==>
                    && msg.Valid() && msg.len == x.value.0 && (good <==> |x.value.1| >= msg.len)
                    && (good ==> msg.Contents() == x.value.1[..msg.len] && data == x.value.1[msg.len..])
                    && (!good ==> msg.Contents() == x.value.1 + old(msg.buf[..])[|x.value.1|..msg.len]))
              && (g.BadLength? ==>
                    var size, body := x.value.0, x.value.1;
                    && !good && msg.len == (if size < 0 then 0x1_0000_0000_0000_0000 + size else size)
                    && data == (if size < 0 then body else [])
                    && msg.buf[..] == if size < 0 then old(msg.buf[..]) else body + old(msg.buf[|body|..]))
    {
      var x := Announced(data, good);
      if x.None? {
        good := false;
        msg.len := 0;
        return Failed;
      }
      var size, body := x.value.0, x.value.1;
      g := Judge(size, body);
      if g == Overrun {
        return;
      }
      var n := if size < 0 then 0 else if |body| < size then |body| else size;
      msg.Load(body[..n]);
      good := n == size;
      data := body[n..];
      msg.len := if size < 0 then 0x1_0000_0000_0000_0000 + size else size;
    }
  }

  /** For instance: a length of -5 gives a message of 2^64 - 5 octets, and one of 5000 overruns the
      buffer exactly when more than 4096 octets follow. */
  lemma BadLengths(body: seq<Octet>)
    ensures Judge(-5, body) == BadLength
    ensures Announced([45, 53, 32] + body, true) == Some((-5, body))
    ensures Judge(5000, body) == Overrun <==> |body| > 4096
    ensures Announced(Decimal(5000) + [SPACE] + body, true) == Some((5000, body))
  {
    ExtractDecimal(5000, body);
    assert ([SPACE] + body)[1..] == body;
    var s, t := [45, 53, 32] + body, [53] + ([32] + body);
    assert s[1..] == t && ([32] + body)[1..] == body;
    assert [53][..0] == [] && Number([53]) == 5;
    RunOf([53], [32] + body);
    assert t[..1] == [53] && t[1..] == [32] + body;
    assert SkipSpaces(s) == s;
  }

  /** The next of the framed messages is read back, and only it. */
  lemma GetFramed(m: Message, t: seq<Octet>)
    ensures var s := Framed(m) + t;
            && Extract(s) == Some((|m|, [SPACE] + (m + t)))
            && ([SPACE] + (m + t))[1..] == m + t && (m + t)[..|m|] == m && (m + t)[|m|..] == t
  {
    ExtractDecimal(|m|, m + t);
    assert Framed(m) + t == Decimal(|m|) + [SPACE] + (m + t);
  }

  method PutAll(stream: Stream, msg: Tcp.MsgBuf, ms: seq<Message>)
    requires msg.Valid() && stream.data == []
    modifies stream`data, msg, msg.buf
    ensures msg.Valid() && stream.data == AllFramed(ms)
  {
    for i := 0 to |ms|
      invariant msg.Valid() && stream.data == AllFramed(ms[..i])
    {
      msg.Fill(ms[i]);
      var ok := stream.Put(msg);
      AllFramedSnoc(ms[..i], ms[i]);
      assert ms[..i + 1] == ms[..i] + [ms[i]];
    }
    assert ms[..|ms|] == ms;
  }

  method GetNext(stream: Stream, msg: Tcp.MsgBuf, ghost ms: seq<Message>) returns (g: Got)
    requires msg.Valid() && stream.good && stream.data == AllFramed(ms)
    modifies stream, msg, msg.buf
    ensures if ms == [] then g == Failed else g == Received
    ensures g == Received ==>
      msg.Valid() && stream.good && msg.Contents() == ms[0] && stream.data == AllFramed(ms[1..])
  {
    NextAnnounced(ms);
    g := stream.Get(msg);
  }

  method GetAll(stream: Stream, msg: Tcp.MsgBuf, ghost ms: seq<Message>) returns (got: seq<seq<Octet>>, last: Got)
    requires msg.Valid() && stream.good && stream.data == AllFramed(ms)
    modifies stream, msg, msg.buf
    ensures got == ms && last == Failed
  {
    got := [];
    ghost var rest := ms;
    last := GetNext(stream, msg, rest);
    while last == Received
      invariant ms == got + rest && (last == Received || last == Failed)
      invariant last == Received ==>
        rest != [] && msg.Valid() && stream.good && msg.Contents() == rest[0] && stream.data == AllFramed(rest[1..])
      invariant last == Failed ==> rest == []
      decreases |rest|, last == Received
    {
      got := got + [msg.buf[..msg.len]];
      rest := rest[1..];
      last := GetNext(stream, msg, rest);
    }
  }

  lemma NextAnnounced(ms: seq<Message>)
    ensures ms == [] ==> Announced(AllFramed(ms), true) == None
    ensures ms != [] ==>
      var body := ms[0] + AllFramed(ms[1..]);
      && Announced(AllFramed(ms), true) == Some((|ms[0]|, body))
      && body[..|ms[0]|] == ms[0] && body[|ms[0]|..] == AllFramed(ms[1..])
  {
    if ms != [] {
      GetFramed(ms[0], AllFramed(ms[1..]));
    }
  }

  /** Decimal-length framing is self-delimiting: any list of non-empty messages, whatever octets they
      hold, is read back as it was written, and then Get fails. */
  method RoundTrip(ms: seq<Message>) returns (got: seq<seq<Octet>>, last: Got)
    ensures got == ms && last == Failed
  {
    var stream := new Stream();
    var msg := new Tcp.MsgBuf();
    PutAll(stream, msg, ms);
    got, last := GetAll(stream, msg, ms);
  }
}
