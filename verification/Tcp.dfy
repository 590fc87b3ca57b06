/** src/io_policy/tcp.hpp: messages over a byte stream whose writes and reads may be short. */
module Tcp {
  import opened Framing

  /** MsgBuf, without its queue type tag. */
  class MsgBuf {
    const buf: array<Octet>
    var len: nat

    ghost predicate Valid()
      reads this
    {
      buf.Length == MAX_MSG_SIZE && len <= MAX_MSG_SIZE
    }

    ghost function Contents(): seq<Octet>
      requires Valid()
      reads this, buf
    {
      buf[..len]
    }

    constructor ()
      ensures Valid() && len == 0 && fresh(buf)
    {
      buf := new Octet[MAX_MSG_SIZE](_ => 0);
      len := 0;
    }

    /** Copies b to the start of the buffer. */
    method Load(b: seq<Octet>)
      requires Valid() && |b| <= MAX_MSG_SIZE
      modifies buf
      ensures Valid() && len == old(len) && buf[..] == b + old(buf[|b|..])
    {
      for i := 0 to |b|
        invariant Valid() && len == old(len) && buf[..i] == b[..i] && buf[i..] == old(buf[i..])
      {
        buf[i] := b[i];
      }
      assert buf[..] == buf[..|b|] + buf[|b|..];
    }

    method Fill(m: Message)
      requires Valid()
      modifies this, buf
      ensures Valid() && Contents() == m
    {
      len := |m|;
      Load(m);
    }
  }

  /** The system's answer to one write: so many octets taken, or an error. */
  datatype Answer = Took(n: nat) | Failed

  /** The sending end of a connection. The answers to come are arbitrary; when they run out the
      connection is broken. */
  class Writer {
    var wire: seq<Octet>
    var answers: seq<Answer>

    constructor (answers: seq<Answer>)
      ensures wire == [] && this.answers == answers
    {
      wire := [];
      this.answers := answers;
    }

    /** write(2). */
    method Write(b: seq<Octet>) returns (n: int)
      modifies this
      ensures -1 <= n <= |b| && wire == old(wire) + (if n == -1 then [] else b[..n])
      ensures if old(answers) == [] then n == -1 && answers == [] else answers == old(answers)[1..]
    {
      if answers == [] {
        return -1;
      }
      match answers[0] {
        case Failed => n := -1;
        case Took(k) =>
          n := if k <= |b| then k else |b|;
          wire := wire + b[..n];
      }
      answers := answers[1..];
    }

    method WriteAll(b: seq<Octet>) returns (ok: bool)
      modifies this
      ensures ok ==> wire == old(wire) + b
      ensures !ok ==> exists k: nat :: k < |b| && wire == old(wire) + b[..k]
    {
      var sizeWrite := 0;
      while sizeWrite < |b|
        invariant 0 <= sizeWrite <= |b|
        invariant wire == old(wire) + b[..sizeWrite]
        decreases |answers|, |b| - sizeWrite
      {
        var n := Write(b[sizeWrite..]);
        if n == -1 {
          return false;
        }
        assert b[..sizeWrite] + b[sizeWrite..][..n] == b[..sizeWrite + n];
        sizeWrite := sizeWrite + n;
      }
      assert b[..sizeWrite] == b;
      return true;
    }

    /** Put writes the whole frame, or fails and leaves a strict prefix of it. */
    method Put(msg: MsgBuf) returns (ok: bool)
      requires msg.Valid()
      modifies this
      ensures ok ==> msg.len > 0 && wire == old(wire) + Frame(msg.Contents())
      ensures !ok ==> exists k: nat :: k < |Frame(msg.Contents())| && wire == old(wire) + Frame(msg.Contents())[..k]
    {
      ghost var f := Frame(msg.Contents());
      if msg.len <= 0 {
        assert wire == old(wire) + f[..0];
        return false;
      }
      var lenHeader := Header(msg.len);
      ok := WriteAll(lenHeader);
      if !ok {
        ghost var k: nat :| k < 4 && wire == old(wire) + lenHeader[..k];
        assert f[..k] == lenHeader[..k];
        return;
      }
      ok := WriteAll(msg.buf[..msg.len]);
      if !ok {
        ghost var k: nat :| k < msg.len && wire == old(wire) + lenHeader + msg.Contents()[..k];
        assert lenHeader + msg.Contents()[..k] == f[..4 + k];
        assert wire == old(wire) + f[..4 + k];
      }
    }
  }

  /** Sends a list of messages, stopping at the first Put that fails. */
  method PutLoop(w: Writer, ms: seq<Message>, msg: MsgBuf) returns (sent: nat, ghost k: nat)
    requires msg.Valid()
    modifies w, msg, msg.buf
    ensures msg.Valid() && Sized(ms) && sent <= |ms|
    ensures if sent < |ms| then k < |Frame(ms[sent])| else k == 0
    ensures w.wire == old(w.wire) + Frames(ms[..sent]) + (if sent < |ms| then Frame(ms[sent])[..k] else [])
  {
    sent, k := 0, 0;
    while sent < |ms|
      invariant msg.Valid() && sent <= |ms| && Sized(ms)
      invariant k == 0 && w.wire == old(w.wire) + Frames(ms[..sent])
    {
      msg.Fill(ms[sent]);
      ghost var before := w.wire;
      var ok := w.Put(msg);
      if !ok {
        k :| k < |Frame(ms[sent])| && w.wire == before + Frame(ms[sent])[..k];
        return;
      }
      FramesSnoc(ms, sent);
      Associate(old(w.wire), Frames(ms[..sent]), Frame(ms[sent]));
      sent := sent + 1;
    }
  }

  lemma {:induction false} Arrives(ms: seq<Message>, sent: nat, k: nat, wire: seq<Octet>, n: nat)
    requires sent <= |ms| && Sized(ms) && n <= |wire|
    requires if sent < |ms| then k < |Frame(ms[sent])| else k == 0
    requires wire == Frames(ms[..sent]) + (if sent < |ms| then Frame(ms[sent])[..k] else [])
    ensures |wire| <= |Frames(ms)| && WholeBefore(ms, |wire|) == sent
    ensures !Overruns(wire[..n]) && Parse(wire[..n]) == ms[..WholeBefore(ms, n)]
  {
    CutAfter(ms, sent, k);
    CutTwice(wire, Frames(ms), n);
    FramesFit(ms, n);
    CutAnywhere(ms, n);
  }

  lemma CutTwice(wire: seq<Octet>, all: seq<Octet>, n: nat)
    requires n <= |wire| <= |all| && wire == all[..|wire|]
    ensures wire[..n] == all[..n]
  {
  }

  /** From end to end: whatever the writes take, whatever the reads return and wherever the stream is
      cut, the receiver gets exactly the messages whose whole frames came before the cut, in order. */
  method Transfer(ms: seq<Message>, answers: seq<Answer>, portions: seq<nat>, cut: nat, fails: bool)
    returns (sent: nat, written: nat, got: seq<seq<Octet>>)
    ensures Sized(ms) && written <= |Frames(ms)| && sent == WholeBefore(ms, written)
    ensures got == ms[..WholeBefore(ms, if cut < written then cut else written)]
    ensures sent == |ms| && cut >= written ==> got == ms
  {
    var w := new Writer(answers);
    var out := new MsgBuf();
    ghost var k: nat;
    sent, k := PutLoop(w, ms, out);
    written := |w.wire|;
    var arrived := if cut < written then cut else written;
    Arrives(ms, sent, k, w.wire, arrived);
    var r := new Reader(w.wire[..arrived], portions, fails);
    var msg := new MsgBuf();
    var overrun;
    got, overrun := r.GetLoop(msg);
  }

  /** How a Get ends: with a message, without one, or with octets written past the end of the buffer. */
  datatype Got = Received | Nothing | Overrun

  /** The receiving end: the octets that arrive before the stream ends or fails, in what portions, and
      whether it fails. */
  class Reader {
    var incoming: seq<Octet>
    var portions: seq<nat>
    const fails: bool

    constructor (incoming: seq<Octet>, portions: seq<nat>, fails: bool)
      ensures this.incoming == incoming && this.portions == portions && this.fails == fails
    {
      this.incoming, this.portions, this.fails := incoming, portions, fails;
    }

    /** What read returns when nothing more arrives: 0 at the end of the stream, -1 on an error. */
    function AtEnd(): int {
      if fails then -1 else 0
    }

    /** read(2) of up to size > 0 octets into b from position at on: a portion of what arrives, or what
        there is at the end. The octets may not fit behind at; then nothing more is said of b. */
    method Read(b: array<Octet>, at: nat, size: nat) returns (n: int, overrun: bool)
      requires size > 0 && at <= b.Length
      modifies this, b
      ensures if old(incoming) == [] then n == AtEnd() else 0 < n <= size && n <= |old(incoming)|
      ensures incoming == old(incoming)[if n > 0 then n else 0..]
      ensures overrun <==> at + n > b.Length
      ensures !overrun && n > 0 ==> b[..at + n] == old(b[..at]) + old(incoming)[..n]
    {
      if incoming == [] {
        return AtEnd(), false;
      }
      n := Portion(if |incoming| < size then |incoming| else size);
      overrun := at + n > b.Length;
      if !overrun {
        Place(b, at, incoming[..n]);
      }
      incoming := incoming[n..];
    }

    /** How much of at most n octets the next read delivers. */
    method Portion(n: nat) returns (k: nat)
      requires n > 0
      modifies this`portions
      ensures 0 < k <= n
    {
      k := n;
      if portions != [] {
        if portions[0] < n {
          k := if portions[0] == 0 then 1 else portions[0];
        }
        portions := portions[1..];
      }
    }

    /** ReadAll: all octets asked for, or what read returned when nothing more arrived. It overruns the
        buffer exactly when more octets arrive and are asked for than fit. */
    method ReadAll(b: array<Octet>, size: nat) returns (n: int, overrun: bool)
      modifies this, b
      ensures overrun <==> size > b.Length && |old(incoming)| > b.Length
      ensures !overrun && |old(incoming)| >= size ==>
        n == size && b[..size] == old(incoming)[..size] && incoming == old(incoming)[size..]
      ensures !overrun && |old(incoming)| < size ==> n == AtEnd() && incoming == []
      ensures |incoming| <= |old(incoming)|
    {
      var sizeRead := 0;
      overrun := false;
      while sizeRead < size
        invariant sizeRead <= size && sizeRead <= |old(incoming)| && sizeRead <= b.Length && !overrun
        invariant incoming == old(incoming)[sizeRead..]
        invariant b[..sizeRead] == old(incoming)[..sizeRead]
        decreases size - sizeRead
      {
        ghost var before := incoming;
        n, overrun := Read(b, sizeRead, size - sizeRead);
        if n <= 0 || overrun {
          return;
        }
        assert old(incoming)[..sizeRead] + before[..n] == old(incoming)[..sizeRead + n];
        sizeRead := sizeRead + n;
      }
      n := sizeRead;
    }

    /** Get, for every stream: a message exactly when a whole frame that fits the buffer is next; an
        overrun exactly when more than fits is announced and follows; otherwise nothing. */
    method Get(msg: MsgBuf) returns (g: Got)
      requires msg.Valid()
      modifies this, msg, msg.buf
      ensures g.Overrun? <==> Oversized(old(incoming))
      ensures g.Received? <==> Whole(old(incoming)) && Value(old(incoming)[..4]) <= MAX_MSG_SIZE
      ensures !g.Overrun? ==> msg.Valid()
      ensures g.Received? ==>
        var k := 4 + msg.len;
        k <= |old(incoming)| && old(incoming) == Frame(msg.Contents()) + incoming && incoming == old(incoming)[k..]
      ensures g.Nothing? ==> msg.len == 0 && incoming == []
      ensures |incoming| <= |old(incoming)|
    {
      ghost var s := incoming;
      var header := new Octet[4](_ => 0);
      var n, over := ReadAll(header, 4);
      if n != 4 {
        msg.len := 0;
        return Nothing;
      }
      assert header[..4] == s[..4];
      var len := Value(header[..4]);
      msg.len := len;
      n, over := ReadAll(msg.buf, len);
      if over {
        return Overrun;
      }
      if n != len {
        msg.len := 0;
        return Nothing;
      }
      assert incoming == s[4 + len..] && msg.buf[..len] == s[4..4 + len];
      WholeIsFrame(s);
      return Received;
    }

    /** The receiver's loop, for every stream and every way it is portioned: exactly the messages of the
        whole frames, unless the buffer is overrun, and then those before that. */
    method GetLoop(msg: MsgBuf) returns (got: seq<seq<Octet>>, overrun: bool)
      requires msg.Valid()
      modifies this, msg, msg.buf
      ensures overrun <==> Overruns(old(incoming))
      ensures got == Taken(old(incoming)) && (!overrun ==> got == Parse(old(incoming)))
    {
      got := [];
      ghost var s := incoming;
      assert AlongHere(s, [], s);
      var g := GetNext(msg, s, []);
      while g.Received?
        invariant !g.Overrun? ==> msg.Valid()
        invariant g.Received? ==> Along(s, got + [msg.Contents()], incoming)
        invariant !g.Received? ==> Taken(s) == got && (Overruns(s) <==> g.Overrun?)
        decreases |incoming|, g.Received?
      {
        got := got + [msg.buf[..msg.len]];
        g := GetNext(msg, s, got);
      }
      if !g.Overrun? {
        TakenIsParse(s);
      }
      return got, g.Overrun?;
    }

    /** One pass of the loop, when the messages got of the stream s have been received. */
    method GetNext(msg: MsgBuf, ghost s: seq<Octet>, ghost got: seq<seq<Octet>>) returns (g: Got)
      requires msg.Valid() && Along(s, got, incoming)
      modifies this, msg, msg.buf
      ensures !g.Overrun? ==> msg.Valid()
      ensures g.Received? ==> Along(s, got + [msg.Contents()], incoming) && |incoming| < |old(incoming)|
      ensures !g.Received? ==> Taken(s) == got && (Overruns(s) <==> g.Overrun?) && |incoming| <= |old(incoming)|
    {
      ghost var before := incoming;
      g := Get(msg);
      if g.Received? {
        AlongNext(s, got, msg.Contents(), incoming);
      } else {
        AlongEnds(s, got, before);
      }
    }
  }

  ghost predicate AlongHere(s: seq<Octet>, got: seq<seq<Octet>>, t: seq<Octet>) {
    Taken(s) == got + Taken(t) && (Overruns(s) <==> Overruns(t))
  }

  /** Of the stream s the messages got have been taken and t is left. Worded so that the verifier looks
      inside only where AlongHere is mentioned. */
  ghost predicate Along(s: seq<Octet>, got: seq<seq<Octet>>, t: seq<Octet>) {
    forall u | u == t :: AlongHere(s, got, u)
  }

  lemma AlongNext(s: seq<Octet>, got: seq<seq<Octet>>, m: seq<Octet>, t: seq<Octet>)
    requires |m| <= MAX_MSG_SIZE && Along(s, got, Frame(m) + t)
    ensures Along(s, got + [m], t)
  {
    assert AlongHere(s, got, Frame(m) + t);
    TakeFrame(m, t);
    Associate(got, [m], Taken(t));
    assert AlongHere(s, got + [m], t);
  }

  /** Where no frame that fits is next, the messages got are all, and the buffer is overrun or not. */
  lemma AlongEnds(s: seq<Octet>, got: seq<seq<Octet>>, t: seq<Octet>)
    requires Along(s, got, t) && !(Whole(t) && Value(t[..4]) <= MAX_MSG_SIZE)
    ensures Taken(s) == got && (Overruns(s) <==> Oversized(t))
  {
    assert AlongHere(s, got, t);
    assert got + [] == got;
  }

  /** Writes o into b from position at on. */
  method Place(b: array<Octet>, at: nat, o: seq<Octet>)
    requires at + |o| <= b.Length
    modifies b
    ensures b[..at + |o|] == old(b[..at]) + o
  {
    for i := 0 to |o|
      invariant b[..at] == old(b[..at]) && b[at..at + i] == o[..i]
    {
      b[at + i] := o[i];
    }
    assert b[..at + |o|] == b[..at] + b[at..at + |o|];
  }
}
