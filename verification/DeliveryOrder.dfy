/** In which order the publisher's messages arrive: queues are first in, first out, also when producers
    fail and put their message back; and what a branch accepts is in the order of the input. */
module DeliveryOrder {
  import opened Delivery
  import opened Framing

  // ----- what goes into a queue and what comes out, read off a run

  /** What an event puts into the queue of branch b: the tee's message, or the one that a producer whose
      connection broke puts back. */
  function Entering(s: State, e: Event, b: nat): seq<Message>
    requires Enabled(s, e)
  {
    match e
    case Attempt(ok) => if ok && s.input.order[0] == b then [s.input.m] else []
    case Requeue(c) => if s.conns[c].branch == b then [s.conns[c].work.m] else []
    case _ => []
  }

  /** What an event takes out of it: the message that the producer then holds. */
  function Taking(s: State, e: Event, b: nat): seq<Message>
    requires Enabled(s, e)
  {
    if e.Dequeue? && s.conns[e.c].branch == b then [Apply(s, e).conns[e.c].work.m] else []
  }

  function Taker(s: State, e: Event, b: nat): seq<nat>
    requires Enabled(s, e)
  {
    if e.Dequeue? && s.conns[e.c].branch == b then [e.c] else []
  }

  /** All that was put into the queue of branch b, by the tee and by requeueing, in order of time. */
  function Entered(s: State, es: seq<Event>, b: nat): seq<Message>
    decreases |es|
  {
    if es == [] || !Enabled(s, es[0]) then [] else Entering(s, es[0], b) + Entered(Apply(s, es[0]), es[1..], b)
  }

  function Taken(s: State, es: seq<Event>, b: nat): seq<Message>
    decreases |es|
  {
    if es == [] || !Enabled(s, es[0]) then [] else Taking(s, es[0], b) + Taken(Apply(s, es[0]), es[1..], b)
  }

  /** And by which connection's producer each was taken. */
  function Takers(s: State, es: seq<Event>, b: nat): seq<nat>
    decreases |es|
  {
    if es == [] || !Enabled(s, es[0]) then [] else Taker(s, es[0], b) + Takers(Apply(s, es[0]), es[1..], b)
  }

  // ----- first in, first out

  lemma FifoStep(s: State, e: Event, b: nat)
    requires Enabled(s, e) && b < |s.branches|
    ensures b < |Apply(s, e).branches|
    ensures s.branches[b].queue + Entering(s, e, b) == Taking(s, e, b) + Apply(s, e).branches[b].queue
  {
    var q := s.branches[b].queue;
    if OfConn(e) {
      OneConn(s, e);
      OneBranch(s, e);
      if e.Dequeue? && s.conns[e.c].branch == b {
        assert q + [] == [q[0]] + q[1..];
      }
    }
  }

  /** Over every run, with any failures: what was in the queue and what was put into it is what was taken out
      and what is still in it, in the same order. */
  lemma {:induction false} Fifo(s: State, es: seq<Event>, t: State, b: nat)
    requires Run(s, es, t) && b < |s.branches|
    ensures b < |t.branches|
    ensures s.branches[b].queue + Entered(s, es, b) == Taken(s, es, b) + t.branches[b].queue
    decreases |es|
  {
    if es != [] {
      var r := Apply(s, es[0]);
      FifoStep(s, es[0], b);
      Fifo(r, es[1..], t, b);
      FifoChain(s.branches[b].queue, Entering(s, es[0], b), Taking(s, es[0], b), r.branches[b].queue,
                Entered(r, es[1..], b), Taken(r, es[1..], b), t.branches[b].queue);
    }
  }

  lemma FifoChain<T>(q: seq<T>, a: seq<T>, x: seq<T>, p: seq<T>, c: seq<T>, y: seq<T>, r: seq<T>)
    requires q + a == x + p && p + c == y + r
    ensures q + (a + c) == (x + y) + r
  {
    assert q + (a + c) == (q + a) + c == x + (p + c) == (x + y) + r;
  }

  /** A message that was put back is taken only after everything that was queued at that time: what is taken
      from then on, and then the queue, starts with all that and the message. */
  lemma RequeuedLast(s: State, c: nat, es: seq<Event>, t: State)
    requires Enabled(s, Requeue(c)) && Run(Apply(s, Requeue(c)), es, t)
    ensures var b, r := s.conns[c].branch, Apply(s, Requeue(c));
            b < |t.branches|
            && s.branches[b].queue + [s.conns[c].work.m] <= Taken(r, es, b) + t.branches[b].queue
  {
    var b, r := s.conns[c].branch, Apply(s, Requeue(c));
    FifoStep(s, Requeue(c), b);
    assert [] + r.branches[b].queue == r.branches[b].queue;
    Fifo(r, es, t, b);
  }

  /** A producer may fail at any octet of a frame: then the connection ends with that much of it, and the
      message stands at the end of the queue. */
  lemma {:induction false} FailsAnywhere(s: State, c: nat, k: nat) returns (r: State)
    requires Enabled(s, Dequeue(c)) && k < |Frame(s.branches[s.conns[c].branch].queue[0])|
    ensures Run(s, [Dequeue(c), Write(c, k), PutFail(c), Requeue(c)], r)
    ensures var b, q := s.conns[c].branch, s.branches[s.conns[c].branch].queue;
            && r.branches == s.branches[b := s.branches[b].(queue := q[1..] + [q[0]])]
            && r.conns == s.conns[c := s.conns[c].(wire := s.conns[c].wire + Frame(q[0])[..k], work := Gone)]
  {
    var b, q := s.conns[c].branch, s.branches[s.conns[c].branch].queue;
    var s1 := Apply(s, Dequeue(c));
    var s2 := Apply(s1, Write(c, k));
    assert Frame(q[0])[0..k] == Frame(q[0])[..k];
    r := BreaksOff(s2, c);
    RunOne(s1, Write(c, k), s2, [PutFail(c), Requeue(c)], r);
    RunOne(s, Dequeue(c), s1, [Write(c, k), PutFail(c), Requeue(c)], r);
  }

  lemma {:induction false} BreaksOff(s: State, c: nat) returns (r: State)
    requires Enabled(s, PutFail(c))
    ensures Run(s, [PutFail(c), Requeue(c)], r)
    ensures var b := s.conns[c].branch;
            && r.branches == s.branches[b := s.branches[b].(queue := s.branches[b].queue + [s.conns[c].work.m])]
            && r.conns == s.conns[c := s.conns[c].(work := Gone)]
  {
    var s1 := Apply(s, PutFail(c));
    r := Apply(s1, Requeue(c));
    assert Run(r, [], r);
    RunOne(s1, Requeue(c), r, [], r);
    RunOne(s, PutFail(c), s1, [Requeue(c)], r);
  }

  /** A queue that refuses is left as it was, and the tee goes on to the next. */
  lemma RefusalMeaning(s: State)
    requires s.input.Teeing? && s.input.order != [] && s.input.order[0] < |s.branches|
    ensures Enabled(s, Attempt(false))
    ensures var b, t := s.input.order[0], Apply(s, Attempt(false));
            && t.branches == s.branches[b := s.branches[b].(refused := s.branches[b].refused + [s.input.m])]
            && t.input.Teeing? && t.input.m == s.input.m && t.input.order == s.input.order[1..]
  {
  }

  // ----- what each connection carries

  /** The message a producer holds, if any. */
  function InHand(c: Conn): seq<Message> {
    if c.work.Sending? && c.work.done < |Frame(c.work.m)| then [c.work.m] else []
  }

  /** What was written to a connection, then what its producer holds. */
  function Trace(c: Conn): seq<seq<Octet>> {
    Parse(c.wire) + InHand(c)
  }

  /** The messages of ms that went to connection c, in order. */
  function Chosen(ms: seq<Message>, owner: seq<nat>, c: nat): (r: seq<Message>)
    requires |ms| == |owner|
    ensures |r| <= |ms|
  {
    if ms == [] then []
    else
      var n := |ms| - 1;
      Chosen(ms[..n], owner[..n], c) + if owner[n] == c then [ms[n]] else []
  }

  lemma {:induction false} ChosenSnoc(ms: seq<Message>, owner: seq<nat>, m: Message, a: nat, c: nat)
    requires |ms| == |owner|
    ensures Chosen(ms + [m], owner + [a], c) == Chosen(ms, owner, c) + if a == c then [m] else []
  {
    assert (ms + [m])[..|ms|] == ms && (owner + [a])[..|owner|] == owner;
  }

  lemma {:induction false} ChosenAll(ms: seq<Message>, owner: seq<nat>, c: nat)
    requires |ms| == |owner| && forall i | 0 <= i < |owner| :: owner[i] == c
    ensures Chosen(ms, owner, c) == ms
  {
    if ms != [] {
      var n := |ms| - 1;
      ChosenAll(ms[..n], owner[..n], c);
      assert ms == ms[..n] + [ms[n]];
    }
  }

  lemma {:induction false} ChosenNone(ms: seq<Message>, owner: seq<nat>, c: nat)
    requires |ms| == |owner| && c !in owner
    ensures Chosen(ms, owner, c) == []
  {
    if ms != [] {
      var n := |ms| - 1;
      ChosenNone(ms[..n], owner[..n], c);
    }
  }

  /** The connection has the messages ms: they are decodable from it or in its producer's hand; of a broken
      one, all but the last, which is the one that was or will be put back. */
  ghost predicate Carries(c: Conn, ms: seq<Message>) {
    if c.work.Broken? || c.work.Gone? then
      ms != [] && Parse(c.wire) == ms[..|ms| - 1] && (c.work.Broken? ==> c.work.m == ms[|ms| - 1])
    else Trace(c) == ms
  }

  /** Each message taken went to one connection of the branch, and each connection has its own in order. */
  ghost predicate Shared(s: State, b: nat, taken: seq<Message>, owner: seq<nat>) {
    && |owner| == |taken|
    && (forall i | 0 <= i < |owner| :: owner[i] < |s.conns| && s.conns[owner[i]].branch == b)
    && (forall c | 0 <= c < |s.conns| && s.conns[c].branch == b :: Carries(s.conns[c], Chosen(taken, owner, c)))
  }

  lemma WriteInOrder(c: Conn, k: nat, n: nat)
    requires ConnOk(c, n) && c.work.Sending? && c.work.done + k <= |Frame(c.work.m)|
    ensures Parse(Written(c, k).wire) + InHand(Written(c, k)) == Parse(c.wire) + InHand(c)
  {
    var m, done := c.work.m, c.work.done;
    if done == |Frame(m)| {
      assert c.wire + Frame(m)[done..done + k] == c.wire;
    } else {
      WireGrows(c.wire, m, done, k);
      if done + k == |Frame(m)| {
        assert Parse(c.wire) + [m] + [] == Parse(c.wire) + [m];
      }
    }
  }

  /** An event of one connection, other than a dequeue, leaves its messages as they are. */
  lemma {:induction false} SameCarried(s: State, e: Event, ms: seq<Message>)
    requires Enabled(s, e) && OfConn(e) && !e.Dequeue?
    requires ConnOk(s.conns[About(e)], |s.branches|) && Carries(s.conns[About(e)], ms)
    ensures Carries(Apply(s, e).conns[About(e)], ms)
  {
    match e
    case Write(c, k) =>
      WriteInOrder(s.conns[c], k, |s.branches|);
    case _ =>
  }

  lemma {:induction false} SharedConn(s: State, e: Event, b: nat, taken: seq<Message>, owner: seq<nat>)
    requires Enabled(s, e) && OfConn(e) && !e.Dequeue? && ConnsOk(s) && Shared(s, b, taken, owner)
    ensures Shared(Apply(s, e), b, taken, owner)
  {
    OneConn(s, e);
    var a := About(e);
    if s.conns[a].branch == b {
      SameCarried(s, e, Chosen(taken, owner, a));
    }
  }

  lemma {:induction false} SharedDequeue(s: State, c: nat, b: nat, taken: seq<Message>, owner: seq<nat>)
    requires Enabled(s, Dequeue(c)) && Shared(s, b, taken, owner)
    ensures Shared(Apply(s, Dequeue(c)), b, taken + Taking(s, Dequeue(c), b), owner + Taker(s, Dequeue(c), b))
  {
    var t, a := Apply(s, Dequeue(c)), s.conns[c].branch;
    OneConn(s, Dequeue(c));
    if a == b {
      var m := s.branches[b].queue[0];
      forall d | 0 <= d < |t.conns| && t.conns[d].branch == b
        ensures Carries(t.conns[d], Chosen(taken + [m], owner + [c], d))
      {
        ChosenSnoc(taken, owner, m, c, d);
        assert Carries(s.conns[d], Chosen(taken, owner, d));
        if d == c {
          TakesInHand(s.conns[c], m, Chosen(taken, owner, c));
        } else {
          assert t.conns[d] == s.conns[d];
        }
      }
    } else {
      assert taken + [] == taken && owner + [] == owner;
    }
  }

  lemma TakesInHand(c: Conn, m: Message, ms: seq<Message>)
    requires c.work.Waiting? && Carries(c, ms)
    ensures Carries(c.(work := Sending(m, 0)), ms + [m])
  {
  }

  lemma {:induction false} SharedConnect(s: State, a: nat, b: nat, taken: seq<Message>, owner: seq<nat>)
    requires Enabled(s, Connect(a)) && Shared(s, b, taken, owner)
    ensures Shared(Apply(s, Connect(a)), b, taken, owner)
  {
    var t, n := Apply(s, Connect(a)), |s.conns|;
    ChosenNone(taken, owner, n);
    forall c | 0 <= c < |t.conns| && t.conns[c].branch == b
      ensures Carries(t.conns[c], Chosen(taken, owner, c))
    {
      if c == n {
        NewTrace(a);
      } else {
        assert t.conns[c] == s.conns[c];
      }
    }
  }

  lemma NewTrace(a: nat)
    ensures Trace(Conn(a, [], 0, Waiting)) == []
  {
  }

  lemma {:induction false} KeepShared(s: State, e: Event, b: nat, taken: seq<Message>, owner: seq<nat>)
    requires Enabled(s, e) && ConnsOk(s) && Shared(s, b, taken, owner)
    ensures Shared(Apply(s, e), b, taken + Taking(s, e, b), owner + Taker(s, e, b))
  {
    if e.Dequeue? {
      SharedDequeue(s, e.c, b, taken, owner);
    } else {
      assert taken + [] == taken && owner + [] == owner;
      if OfConn(e) {
        SharedConn(s, e, b, taken, owner);
      } else if e.Connect? {
        SharedConnect(s, e.b, b, taken, owner);
      }
    }
  }

  lemma {:induction false} SharedRun(s: State, es: seq<Event>, t: State, b: nat, taken: seq<Message>, owner: seq<nat>)
    requires Run(s, es, t) && ConnsOk(s) && Shared(s, b, taken, owner)
    ensures Shared(t, b, taken + Taken(s, es, b), owner + Takers(s, es, b))
    decreases |es|
  {
    if es == [] {
      assert taken + [] == taken && owner + [] == owner;
    } else {
      var e, r := es[0], Apply(s, es[0]);
      KeepConns(s, e);
      KeepShared(s, e, b, taken, owner);
      SharedRun(r, es[1..], t, b, taken + Taking(s, e, b), owner + Taker(s, e, b));
      Associate(taken, Taking(s, e, b), Taken(r, es[1..], b));
      Associate(owner, Taker(s, e, b), Takers(r, es[1..], b));
    }
  }

  /** In every run, with any number of connections and failures: what was put into the queue of a branch is
      what was taken from it and then the queue; every message taken went to exactly one of the branch's
      connections, and what can be decoded from a connection, then the message its producer holds, are the
      messages that went to it, in that order; a broken connection lacks the last of them. */
  lemma {:induction false} DeliveredInOrder(es: seq<Event>, t: State, b: nat)
    requires Run(Initial(), es, t) && b < |t.branches|
    ensures Entered(Initial(), es, b) == Taken(Initial(), es, b) + t.branches[b].queue
    ensures Shared(t, b, Taken(Initial(), es, b), Takers(Initial(), es, b))
  {
    FifoFromStart(Initial(), es, t, b);
    SharedRun(Initial(), es, t, b, [], []);
    assert [] + Taken(Initial(), es, b) == Taken(Initial(), es, b);
    assert [] + Takers(Initial(), es, b) == Takers(Initial(), es, b);
  }

  /** Until a branch is added nothing goes into its queue or comes out of it. */
  lemma {:induction false} FifoFromStart(s: State, es: seq<Event>, t: State, b: nat)
    requires Run(s, es, t) && ConnsOk(s) && InputOk(s) && |s.branches| <= b < |t.branches|
    ensures Entered(s, es, b) == Taken(s, es, b) + t.branches[b].queue
    decreases |es|
  {
    var e, r := es[0], Apply(s, es[0]);
    KeepConns(s, e);
    KeepInput(s, e);
    NothingYet(s, e, b);
    assert [] + Entered(r, es[1..], b) == Entered(r, es[1..], b) && [] + Taken(r, es[1..], b) == Taken(r, es[1..], b);
    if b < |r.branches| {
      Fifo(r, es[1..], t, b);
      assert [] + Entered(r, es[1..], b) == Entered(r, es[1..], b);
    } else {
      FifoFromStart(r, es[1..], t, b);
    }
  }

  lemma NothingYet(s: State, e: Event, b: nat)
    requires Enabled(s, e) && ConnsOk(s) && InputOk(s) && |s.branches| <= b
    ensures Entering(s, e, b) == [] && Taking(s, e, b) == []
    ensures b < |Apply(s, e).branches| ==> Apply(s, e).branches[b] == Branch([], [], [], |s.inputs|)
  {
    if OfConn(e) {
      OneConn(s, e);
      OneBranch(s, e);
    }
  }

  // ----- without failures, and in the order of the input

  /** No Put failed on a connection of branch b. */
  predicate Unbroken(es: seq<Event>, t: State, b: nat) {
    forall c | 0 <= c < |t.conns| && t.conns[c].branch == b :: PutFail(c) !in es
  }

  /** Connections stay with their branches. */
  lemma BranchStays(s: State, e: Event, c: nat)
    requires Enabled(s, e) && c < |s.conns|
    ensures c < |Apply(s, e).conns| && Apply(s, e).conns[c].branch == s.conns[c].branch
  {
    if OfConn(e) {
      OneConn(s, e);
    }
  }

  lemma {:induction false} BranchStaysRun(s: State, es: seq<Event>, t: State, c: nat)
    requires Run(s, es, t) && c < |s.conns|
    ensures c < |t.conns| && t.conns[c].branch == s.conns[c].branch
    decreases |es|
  {
    if es != [] {
      BranchStays(s, es[0], c);
      BranchStaysRun(Apply(s, es[0]), es[1..], t, c);
    }
  }

  /** No connection of branch b is broken. */
  ghost predicate Intact(s: State, b: nat) {
    forall c | 0 <= c < |s.conns| && s.conns[c].branch == b :: !s.conns[c].work.Broken? && !s.conns[c].work.Gone?
  }

  function AcceptedBy(s: State, b: nat): seq<Message> {
    if b < |s.branches| then s.branches[b].accepted else []
  }

  lemma {:induction false} IntactStep(s: State, e: Event, b: nat)
    requires Enabled(s, e) && ConnsOk(s) && InputOk(s) && Intact(s, b)
    requires e.PutFail? && e.c < |s.conns| ==> s.conns[e.c].branch != b
    ensures Intact(Apply(s, e), b) && AcceptedBy(Apply(s, e), b) == AcceptedBy(s, b) + Entering(s, e, b)
  {
    var t := Apply(s, e);
    if OfConn(e) {
      OneConn(s, e);
      OneBranch(s, e);
    } else if e.AddBranch? {
      forall c | 0 <= c < |s.conns| ensures t.conns[c] == s.conns[c] {}
    }
  }

  lemma {:induction false} IntactRun(s: State, es: seq<Event>, t: State, b: nat)
    requires Run(s, es, t) && ConnsOk(s) && InputOk(s) && Intact(s, b) && Unbroken(es, t, b)
    ensures Intact(t, b) && AcceptedBy(t, b) == AcceptedBy(s, b) + Entered(s, es, b)
    decreases |es|
  {
    if es != [] {
      var e, r := es[0], Apply(s, es[0]);
      if e.PutFail? && e.c < |s.conns| {
        BranchStaysRun(s, es, t, e.c);
        assert e in es;
      }
      KeepConns(s, e);
      KeepInput(s, e);
      IntactStep(s, e, b);
      IntactRun(r, es[1..], t, b);
      Associate(AcceptedBy(s, b), Entering(s, e, b), Entered(r, es[1..], b));
    } else {
      assert AcceptedBy(s, b) + [] == AcceptedBy(s, b);
    }
  }

  /** On a branch with any number of connections, none of which failed, what the branch accepted is what
      was taken from its queue and then the queue; every message taken went to exactly one of the
      connections, and what can be decoded from a connection, then the message its producer holds, are
      the messages that went to it, in the order in which the branch accepted them. */
  lemma {:induction false} OrderedDelivery(es: seq<Event>, t: State, b: nat) returns (taken: seq<Message>, owner: seq<nat>)
    requires Run(Initial(), es, t) && b < |t.branches| && Unbroken(es, t, b)
    ensures t.branches[b].accepted == taken + t.branches[b].queue && |owner| == |taken|
    ensures forall i | 0 <= i < |owner| :: owner[i] < |t.conns| && t.conns[owner[i]].branch == b
    ensures forall c | 0 <= c < |t.conns| && t.conns[c].branch == b ::
      Parse(t.conns[c].wire) + InHand(t.conns[c]) == Chosen(taken, owner, c)
  {
    taken, owner := Taken(Initial(), es, b), Takers(Initial(), es, b);
    DeliveredInOrder(es, t, b);
    IntactRun(Initial(), es, t, b);
    assert [] + Entered(Initial(), es, b) == Entered(Initial(), es, b);
    forall c | 0 <= c < |t.conns| && t.conns[c].branch == b
      ensures Parse(t.conns[c].wire) + InHand(t.conns[c]) == Chosen(taken, owner, c)
    {
      assert Carries(t.conns[c], Chosen(taken, owner, c));
    }
  }

  /** If there is only one connection, it has all of them. */
  lemma {:induction false} SoleDelivery(es: seq<Event>, t: State, b: nat, c: nat)
    requires Run(Initial(), es, t) && b < |t.branches| && c < |t.conns| && t.conns[c].branch == b
    requires (forall i | 0 <= i < |t.conns| && t.conns[i].branch == b :: i == c) && PutFail(c) !in es
    ensures Parse(t.conns[c].wire) + InHand(t.conns[c]) + t.branches[b].queue == t.branches[b].accepted
  {
    var taken, owner := OrderedDelivery(es, t, b);
    ChosenAll(taken, owner, c);
  }

  /** The messages that got the given answer, in order. */
  function Answering(ms: seq<Message>, answers: seq<bool>, ok: bool): (r: seq<Message>)
    requires |ms| == |answers|
  {
    if ms == [] then []
    else
      var n := |ms| - 1;
      Answering(ms[..n], answers[..n], ok) + if answers[n] == ok then [ms[n]] else []
  }

  lemma {:induction false} AnsweringSnoc(ms: seq<Message>, answers: seq<bool>, m: Message, a: bool, ok: bool)
    requires |ms| == |answers|
    ensures Answering(ms + [m], answers + [a], ok) == Answering(ms, answers, ok) + if a == ok then [m] else []
  {
    assert (ms + [m])[..|ms|] == ms && (answers + [a])[..|answers|] == answers;
  }

  /** What branch b answered to the tee. */
  function Answer(s: State, e: Event, b: nat): seq<bool>
    requires Enabled(s, e)
  {
    if e.Attempt? && s.input.order[0] == b then [e.ok] else []
  }

  function Answers(s: State, es: seq<Event>, b: nat): seq<bool>
    decreases |es|
  {
    if es == [] || !Enabled(s, es[0]) then [] else Answer(s, es[0], b) + Answers(Apply(s, es[0]), es[1..], b)
  }

  /** The current message is still to be offered to branch b. */
  predicate Awaits(s: State, b: nat) {
    s.input.Teeing? && b in s.input.order
  }

  /** Every input since branch b exists was offered to it once, except the current one if it is still due;
      answers are what it answered, in the order of the input. */
  ghost predicate Answered(s: State, b: nat, answers: seq<bool>) {
    if b >= |s.branches| then answers == []
    else
      var br, n := s.branches[b], s.branches[b].since + |answers|;
      && n + (if Awaits(s, b) then 1 else 0) == |s.inputs|
      && br.accepted == Answering(s.inputs[br.since..n], answers, true)
      && br.refused == Answering(s.inputs[br.since..n], answers, false)
  }

  lemma {:induction false} OneMoreAnswer(inputs: seq<Message>, since: nat, n: nat, answers: seq<bool>, ok: bool)
    requires since + |answers| == n < |inputs|
    ensures forall k :: Answering(inputs[since..n + 1], answers + [ok], k)
                     == Answering(inputs[since..n], answers, k) + if ok == k then [inputs[n]] else []
  {
    assert inputs[since..n + 1] == inputs[since..n] + [inputs[n]];
    AnsweringSnoc(inputs[since..n], answers, inputs[n], ok, true);
    AnsweringSnoc(inputs[since..n], answers, inputs[n], ok, false);
  }

  lemma {:induction false} AnsweredElsewhere(s: State, t: State, b: nat, answers: seq<bool>)
    requires Answered(s, b, answers) && t.inputs == s.inputs && (Awaits(t, b) <==> Awaits(s, b))
    requires |s.branches| <= |t.branches| && (b < |t.branches| ==> b < |s.branches|)
    requires b < |s.branches| ==> t.branches[b] == s.branches[b].(queue := t.branches[b].queue)
    ensures Answered(t, b, answers)
  {
  }

  lemma {:induction false} AnsweredAttempt(s: State, ok: bool, b: nat, answers: seq<bool>)
    requires Enabled(s, Attempt(ok)) && InputOk(s) && Answered(s, b, answers)
    ensures Answered(Apply(s, Attempt(ok)), b, answers + Answer(s, Attempt(ok), b))
  {
    var order, t := s.input.order, Apply(s, Attempt(ok));
    assert order == [order[0]] + order[1..];
    if order[0] == b {
      assert b !in order[1..];
      AnsweredNow(s, t, ok, b, answers);
    } else {
      assert answers + [] == answers;
      AnsweredElsewhere(s, t, b, answers);
    }
  }

  lemma {:induction false} AnsweredNow(s: State, t: State, ok: bool, b: nat, answers: seq<bool>)
    requires b < |s.branches| == |t.branches| && Answered(s, b, answers) && Awaits(s, b) && !Awaits(t, b)
    requires t.inputs == s.inputs != [] && s.input.m == s.inputs[|s.inputs| - 1]
    requires t.branches[b] == Tried(s.branches[b], s.input.m, ok)
    ensures Answered(t, b, answers + [ok])
  {
    var since := s.branches[b].since;
    OneMoreAnswer(s.inputs, since, since + |answers|, answers, ok);
  }

  lemma {:induction false} AnsweredBegin(s: State, m: Message, order: seq<nat>, b: nat, answers: seq<bool>)
    requires Enabled(s, BeginTee(m, order)) && Answered(s, b, answers)
    ensures Answered(Apply(s, BeginTee(m, order)), b, answers)
  {
    if b < |s.branches| {
      var since := s.branches[b].since;
      var n := since + |answers|;
      assert b in order;
      assert (s.inputs + [m])[since..n] == s.inputs[since..n];
    }
  }

  lemma {:induction false} AnsweredAdd(s: State, b: nat, answers: seq<bool>)
    requires Enabled(s, AddBranch) && InputOk(s) && Answered(s, b, answers)
    ensures Answered(Apply(s, AddBranch), b, answers)
  {
    var t := Apply(s, AddBranch);
    if b != |s.branches| {
      AnsweredElsewhere(s, t, b, answers);
    } else {
      assert !Awaits(s, b);
    }
  }

  lemma {:induction false} KeepAnswered(s: State, e: Event, b: nat, answers: seq<bool>)
    requires Enabled(s, e) && InputOk(s) && Answered(s, b, answers)
    ensures Answered(Apply(s, e), b, answers + Answer(s, e, b))
  {
    if e.Attempt? {
      AnsweredAttempt(s, e.ok, b, answers);
    } else {
      assert answers + [] == answers;
      if e.BeginTee? {
        AnsweredBegin(s, e.m, e.order, b, answers);
      } else if e.AddBranch? {
        AnsweredAdd(s, b, answers);
      } else {
        if OfConn(e) {
          OneConn(s, e);
          OneBranch(s, e);
        }
        AnsweredElsewhere(s, Apply(s, e), b, answers);
      }
    }
  }

  lemma {:induction false} AnsweredRun(s: State, es: seq<Event>, t: State, b: nat, answers: seq<bool>)
    requires Run(s, es, t) && InputOk(s) && Answered(s, b, answers)
    ensures Answered(t, b, answers + Answers(s, es, b))
    decreases |es|
  {
    if es == [] {
      assert answers + [] == answers;
    } else {
      KeepInput(s, es[0]);
      KeepAnswered(s, es[0], b, answers);
      AnsweredRun(Apply(s, es[0]), es[1..], t, b, answers + Answer(s, es[0], b));
      Associate(answers, Answer(s, es[0], b), Answers(Apply(s, es[0]), es[1..], b));
    }
  }

  /** In every run, what a branch accepted and what it refused are the inputs read since it exists, in order,
      that it said yes and no to; each input is offered to it once. */
  lemma {:induction false} AcceptedInOrder(es: seq<Event>, t: State, b: nat)
    requires Run(Initial(), es, t) && b < |t.branches|
    ensures Answered(t, b, Answers(Initial(), es, b))
  {
    AnsweredRun(Initial(), es, t, b, []);
    assert [] + Answers(Initial(), es, b) == Answers(Initial(), es, b);
  }

  /** From end to end: if a branch refused nothing and has one connection, which did not fail, then what can be
      decoded from that, then the message in hand, then the queue, are the inputs read since the branch
      exists, in order, but for one that is still to be offered. */
  lemma {:induction false} EndToEnd(es: seq<Event>, t: State, b: nat, c: nat)
    requires Run(Initial(), es, t) && b < |t.branches| && c < |t.conns| && t.conns[c].branch == b
    requires (forall i | 0 <= i < |t.conns| && t.conns[i].branch == b :: i == c) && PutFail(c) !in es
    requires t.branches[b].refused == []
    ensures var n := |t.inputs| - if Awaits(t, b) then 1 else 0;
            && t.branches[b].since <= n
            && Parse(t.conns[c].wire) + InHand(t.conns[c]) + t.branches[b].queue == t.inputs[t.branches[b].since..n]
  {
    SoleDelivery(es, t, b, c);
    AcceptedInOrder(es, t, b);
    AllOffered(t, b, Answers(Initial(), es, b));
  }

  lemma {:induction false} AllOffered(t: State, b: nat, answers: seq<bool>)
    requires b < |t.branches| && Answered(t, b, answers) && t.branches[b].refused == []
    ensures var n := |t.inputs| - if Awaits(t, b) then 1 else 0;
            t.branches[b].since <= n && t.branches[b].accepted == t.inputs[t.branches[b].since..n]
  {
    var since := t.branches[b].since;
    AllAccepted(t.inputs[since..since + |answers|], answers);
  }

  lemma {:induction false} AllAccepted(ms: seq<Message>, answers: seq<bool>)
    requires |ms| == |answers| && Answering(ms, answers, false) == []
    ensures Answering(ms, answers, true) == ms
  {
    if ms != [] {
      var n := |ms| - 1;
      AllAccepted(ms[..n], answers[..n]);
      assert ms == ms[..n] + [ms[n]];
    }
  }
}
