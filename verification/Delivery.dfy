/** The publisher's delivery protocol: src/pub.cpp, src/connector.hpp, src/msg_filter.hpp and the
    policies under src/io_policy. The input thread tees each message into one queue per branch; any
    number of producer threads dequeue, frame the message onto their connection and requeue it when
    the connection breaks; subscribers read; an atomic 32-bit counter tracks what is outstanding.
    Every atomic action of every thread is one event, and a run is any sequence of enabled events. */
module Delivery {
  import opened Counting
  import opened Framing

  const MODULUS: nat := 0x1_0000_0000

  // ----- state

  /** A producer thread: waiting in Get, inside Put, past a Put that returned true, past a Put that
      returned false, or finished with its socket closed. */
  datatype Work = Waiting | Sending(m: Message, done: nat) | Sent(m: Message) | Broken(m: Message, done: nat) | Gone

  /** A producer's connection: all octets written to it so far, and how many the subscriber has read. */
  datatype Conn = Conn(branch: nat, wire: seq<Octet>, seen: nat, work: Work)

  /** A branch of the tee and its queue. The histories record which messages its Put took and
      refused, and how many inputs had been read when the branch was added. */
  datatype Branch = Branch(queue: seq<Message>, accepted: seq<Message>, refused: seq<Message>, since: nat)

  /** The input thread: about to read, inside Tee::Put with the branches still to serve, or finished. */
  datatype Input = Ready | Teeing(m: Message, order: seq<nat>, tee: nat) | Ended

  /** inputs, attempts and settled are histories: the messages read, the queue Puts the tee made and
      the decrements of the counter. */
  datatype State = State(branches: seq<Branch>, conns: seq<Conn>, input: Input, pending: nat,
                         inputs: seq<Message>, attempts: nat, settled: nat)

  function Initial(): State {
    State([], [], Ready, 0, [], 0, 0)
  }

  // ----- events

  datatype Event =
    | BeginTee(m: Message, order: seq<nat>)  // Get succeeds; order is the snapshot of the branch map
    | Attempt(ok: bool)                      // one queue Put of the tee
    | Post                                   // the post-filter adds the last tee count
    | EndInput                               // Get fails
    | AddBranch
    | Connect(b: nat)
    | Dequeue(c: nat)
    | Write(c: nat, k: nat)                  // one write call took k octets
    | PutDone(c: nat)
    | PutFail(c: nat)                        // a write failed before the frame was whole
    | Account(c: nat)                        // the producer's post-filter decrements
    | Requeue(c: nat)                        // or puts the message back, and the loop ends
    | Read(c: nat, k: nat)

  predicate DupFree(order: seq<nat>) {
    forall i, j | 0 <= i < j < |order| :: order[i] != order[j]
  }

  /** order names every branch once. */
  predicate Snapshot(order: seq<nat>, n: nat) {
    DupFree(order) && (forall i | 0 <= i < |order| :: order[i] < n) && forall b | 0 <= b < n :: b in order
  }

  predicate Enabled(s: State, e: Event) {
    match e
    case BeginTee(m, order) => s.input.Ready? && Snapshot(order, |s.branches|)
    case Attempt(ok) => s.input.Teeing? && s.input.order != [] && s.input.order[0] < |s.branches|
    case Post => s.input.Teeing? && s.input.order == []
    case EndInput => s.input.Ready?
    case AddBranch => true
    case Connect(b) => b < |s.branches|
    case Dequeue(c) => Serves(s, c) && s.conns[c].work.Waiting? && s.branches[s.conns[c].branch].queue != []
    case Write(c, k) => Serves(s, c) && s.conns[c].work.Sending? && s.conns[c].work.done + k <= |Frame(s.conns[c].work.m)|
    case PutDone(c) => Serves(s, c) && s.conns[c].work.Sending? && s.conns[c].work.done == |Frame(s.conns[c].work.m)|
    case PutFail(c) => Serves(s, c) && s.conns[c].work.Sending? && s.conns[c].work.done < |Frame(s.conns[c].work.m)|
    case Account(c) => Serves(s, c) && s.conns[c].work.Sent?
    case Requeue(c) => Serves(s, c) && s.conns[c].work.Broken?
    case Read(c, k) => Serves(s, c) && s.conns[c].seen + k <= |s.conns[c].wire|
  }

  predicate Serves(s: State, c: nat) {
    c < |s.conns| && s.conns[c].branch < |s.branches|
  }

  function Apply(s: State, e: Event): State
    requires Enabled(s, e)
  {
    match e
    case BeginTee(m, order) => s.(input := Teeing(m, order, 0), inputs := s.inputs + [m])
    case Attempt(ok) =>
      var t := s.input;
      s.(branches := s.branches[t.order[0] := Tried(s.branches[t.order[0]], t.m, ok)],
         input := Teeing(t.m, t.order[1..], t.tee + 1), attempts := s.attempts + 1)
    case Post => s.(input := Ready, pending := (s.pending + s.input.tee) % MODULUS)
    case EndInput => s.(input := Ended)
    case AddBranch => s.(branches := s.branches + [Branch([], [], [], |s.inputs|)])
    case Connect(b) => s.(conns := s.conns + [Conn(b, [], 0, Waiting)])
    case Dequeue(c) =>
      var b := s.conns[c].branch;
      var q := s.branches[b].queue;
      SetBoth(s, c, s.conns[c].(work := Sending(q[0], 0)), s.branches[b].(queue := q[1..]))
    case Write(c, k) => SetConn(s, c, Written(s.conns[c], k))
    case PutDone(c) => SetConn(s, c, s.conns[c].(work := Sent(s.conns[c].work.m)))
    case PutFail(c) => SetConn(s, c, s.conns[c].(work := Broken(s.conns[c].work.m, s.conns[c].work.done)))
    case Account(c) =>
      SetConn(s, c, s.conns[c].(work := Waiting)).(pending := (s.pending - 1) % MODULUS, settled := s.settled + 1)
    case Requeue(c) =>
      var b := s.conns[c].branch;
      SetBoth(s, c, s.conns[c].(work := Gone), s.branches[b].(queue := s.branches[b].queue + [s.conns[c].work.m]))
    case Read(c, k) => SetConn(s, c, s.conns[c].(seen := s.conns[c].seen + k))
  }

  function Tried(br: Branch, m: Message, ok: bool): Branch {
    if ok then br.(queue := br.queue + [m], accepted := br.accepted + [m]) else br.(refused := br.refused + [m])
  }

  function Written(c: Conn, k: nat): Conn
    requires c.work.Sending? && c.work.done + k <= |Frame(c.work.m)|
  {
    var w := c.work;
    c.(wire := c.wire + Frame(w.m)[w.done..w.done + k], work := Sending(w.m, w.done + k))
  }

  function SetConn(s: State, c: nat, conn: Conn): State
    requires c < |s.conns|
  {
    s.(conns := s.conns[c := conn])
  }

  function SetBoth(s: State, c: nat, conn: Conn, br: Branch): State
    requires Serves(s, c)
  {
    s.(conns := s.conns[c := conn], branches := s.branches[s.conns[c].branch := br])
  }

  /** The events es lead from s to t. */
  predicate Run(s: State, es: seq<Event>, t: State)
    decreases |es|
  {
    if es == [] then s == t
    else Enabled(s, es[0]) && Run(Apply(s, es[0]), es[1..], t)
  }

  ghost predicate Reached(t: State) {
    exists es :: Run(Initial(), es, t)
  }

  /** Some run ends in t. Worded so that the verifier looks inside only where Reached is mentioned. */
  ghost predicate Reachable(t: State) {
    forall u | u == t :: Reached(u)
  }

  // ----- what is where

  /** Whether a producer holds x: it has dequeued it and the frame is not whole on the wire. */
  function Held(c: Conn, x: seq<Octet>): nat {
    match c.work
    case Sending(m, done) => if done < |Frame(m)| then Is(m, x) else 0
    case Broken(m, _) => Is(m, x)
    case _ => 0
  }

  function HeldBy(cs: seq<Conn>, b: nat, x: seq<Octet>): nat {
    if cs == [] then 0 else (if cs[0].branch == b then Held(cs[0], x) else 0) + HeldBy(cs[1..], b, x)
  }

  /** How often x can be decoded from what was written to the connections of branch b. */
  function OnWires(cs: seq<Conn>, b: nat, x: seq<Octet>): nat {
    if cs == [] then 0 else (if cs[0].branch == b then Count(Parse(cs[0].wire), x) else 0) + OnWires(cs[1..], b, x)
  }

  /** How often the subscribers of branch b have received x. */
  function Received(cs: seq<Conn>, b: nat, x: seq<Octet>): nat {
    if cs == [] then 0 else (if cs[0].branch == b then Count(Parse(Seen(cs[0])), x) else 0) + Received(cs[1..], b, x)
  }

  function Seen(c: Conn): seq<Octet> {
    if c.seen <= |c.wire| then c.wire[..c.seen] else c.wire
  }

  function Busy(c: Conn): nat {
    if c.work.Waiting? || c.work.Gone? then 0 else 1
  }

  /** Producers between a dequeue and its accounting. */
  function AllBusy(cs: seq<Conn>): nat {
    if cs == [] then 0 else Busy(cs[0]) + AllBusy(cs[1..])
  }

  function AllQueued(brs: seq<Branch>): nat {
    if brs == [] then 0 else |brs[0].queue| + AllQueued(brs[1..])
  }

  function AllDropped(brs: seq<Branch>): nat {
    if brs == [] then 0 else |brs[0].refused| + AllDropped(brs[1..])
  }

  /** Attempts of the current message that the counter does not include yet. */
  function Unposted(s: State): nat {
    if s.input.Teeing? then s.input.tee else 0
  }

  function Outstanding(s: State): nat {
    AllQueued(s.branches) + AllBusy(s.conns) + AllDropped(s.branches)
  }

  /** Whether x is still to be offered to branch b. */
  function Due(s: State, b: nat, x: seq<Octet>): nat {
    if s.input.Teeing? && b in s.input.order then Is(s.input.m, x) else 0
  }

  // ----- what every run keeps

  /** The wire ends where the producer stands in its frame. */
  ghost predicate ConnOk(c: Conn, n: nat) {
    && c.branch < n && c.seen <= |c.wire|
    && match c.work
       case Waiting => Rest(c.wire) == []
       case Sending(m, done) =>
         done <= |Frame(m)| && Rest(c.wire) == (if done < |Frame(m)| then Frame(m)[..done] else [])
       case Sent(m) => Rest(c.wire) == []
       case Broken(m, done) => done < |Frame(m)| && Rest(c.wire) == Frame(m)[..done]
       case Gone => true
  }

  ghost predicate ConnsOk(s: State) {
    forall i | 0 <= i < |s.conns| :: ConnOk(s.conns[i], |s.branches|)
  }

  ghost predicate InputOk(s: State) {
    && (forall b | 0 <= b < |s.branches| :: s.branches[b].since <= |s.inputs|)
    && (s.input.Teeing? ==>
          && DupFree(s.input.order) && (forall i | 0 <= i < |s.input.order| :: s.input.order[i] < |s.branches|)
          && s.inputs != [] && s.input.m == s.inputs[|s.inputs| - 1])
  }

  /** Copies accepted into a branch are queued, held or decodable from its connections. */
  ghost predicate Conserved(s: State, b: nat, x: seq<Octet>) {
    b < |s.branches| ==>
      Count(s.branches[b].accepted, x) == Count(s.branches[b].queue, x) + HeldBy(s.conns, b, x) + OnWires(s.conns, b, x)
  }

  /** Inputs read since the branch exists were accepted or refused by it, or are due. */
  ghost predicate Offered(s: State, b: nat, x: seq<Octet>) {
    b < |s.branches| ==>
      var br := s.branches[b];
      && br.since <= |s.inputs|
      && Count(br.accepted, x) + Count(br.refused, x) + Due(s, b, x) == Count(s.inputs[br.since..], x)
  }

  /** The counter, modulo its width, and how many attempts there were. */
  ghost predicate Counted(s: State) {
    && s.pending < MODULUS
    && (s.pending + Unposted(s)) % MODULUS == Outstanding(s) % MODULUS
    && s.attempts == Outstanding(s) + s.settled
  }

  // ----- sums over connections and branches

  lemma {:induction false} HeldUpdate(cs: seq<Conn>, c: nat, conn: Conn, b: nat, x: seq<Octet>)
    requires c < |cs| && conn.branch == cs[c].branch
    ensures HeldBy(cs[c := conn], b, x) == HeldBy(cs, b, x) + (if conn.branch == b then Held(conn, x) - Held(cs[c], x) else 0)
  {
    if c > 0 {
      HeldUpdate(cs[1..], c - 1, conn, b, x);
      assert cs[c := conn][1..] == cs[1..][c - 1 := conn];
    } else {
      assert cs[c := conn][1..] == cs[1..];
    }
  }

  lemma {:induction false} WiresUpdate(cs: seq<Conn>, c: nat, conn: Conn, b: nat, x: seq<Octet>)
    requires c < |cs| && conn.branch == cs[c].branch
    ensures OnWires(cs[c := conn], b, x) == OnWires(cs, b, x)
      + (if conn.branch == b then Count(Parse(conn.wire), x) - Count(Parse(cs[c].wire), x) else 0)
  {
    if c > 0 {
      WiresUpdate(cs[1..], c - 1, conn, b, x);
      assert cs[c := conn][1..] == cs[1..][c - 1 := conn];
    } else {
      assert cs[c := conn][1..] == cs[1..];
    }
  }

  lemma {:induction false} BusyUpdate(cs: seq<Conn>, c: nat, conn: Conn)
    requires c < |cs|
    ensures AllBusy(cs[c := conn]) == AllBusy(cs) + Busy(conn) - Busy(cs[c])
  {
    if c > 0 {
      BusyUpdate(cs[1..], c - 1, conn);
      assert cs[c := conn][1..] == cs[1..][c - 1 := conn];
    } else {
      assert cs[c := conn][1..] == cs[1..];
    }
  }

  lemma {:induction false} QueuedUpdate(brs: seq<Branch>, b: nat, br: Branch)
    requires b < |brs|
    ensures AllQueued(brs[b := br]) == AllQueued(brs) + |br.queue| - |brs[b].queue|
    ensures AllDropped(brs[b := br]) == AllDropped(brs) + |br.refused| - |brs[b].refused|
  {
    if b > 0 {
      QueuedUpdate(brs[1..], b - 1, br);
      assert brs[b := br][1..] == brs[1..][b - 1 := br];
    } else {
      assert brs[b := br][1..] == brs[1..];
    }
  }

  lemma {:induction false} ConnAppend(cs: seq<Conn>, conn: Conn, b: nat, x: seq<Octet>)
    requires conn.wire == [] && conn.work == Waiting
    ensures HeldBy(cs + [conn], b, x) == HeldBy(cs, b, x)
    ensures OnWires(cs + [conn], b, x) == OnWires(cs, b, x)
    ensures AllBusy(cs + [conn]) == AllBusy(cs)
  {
    if cs == [] {
      assert (cs + [conn])[1..] == [];
    } else {
      ConnAppend(cs[1..], conn, b, x);
      assert (cs + [conn])[1..] == cs[1..] + [conn];
    }
  }

  lemma {:induction false} BranchAppend(brs: seq<Branch>, br: Branch)
    requires br.queue == [] && br.refused == []
    ensures AllQueued(brs + [br]) == AllQueued(brs) && AllDropped(brs + [br]) == AllDropped(brs)
  {
    if brs == [] {
      assert (brs + [br])[1..] == [];
    } else {
      BranchAppend(brs[1..], br);
      assert (brs + [br])[1..] == brs[1..] + [br];
    }
  }

  /** A branch without connections has no copies outside its queue. */
  lemma {:induction false} NoCopies(cs: seq<Conn>, b: nat, x: seq<Octet>)
    requires forall i | 0 <= i < |cs| :: cs[i].branch < b
    ensures HeldBy(cs, b, x) == 0 && OnWires(cs, b, x) == 0
  {
    if cs != [] {
      NoCopies(cs[1..], b, x);
    }
  }

  // ----- one connection

  /** Writing part of a frame: it becomes decodable with its last octet, and not before. */
  lemma WireGrows(wire: seq<Octet>, m: Message, done: nat, k: nat)
    requires done + k <= |Frame(m)| && done < |Frame(m)| && Rest(wire) == Frame(m)[..done]
    ensures var w := wire + Frame(m)[done..done + k];
            if done + k < |Frame(m)| then Parse(w) == Parse(wire) && Rest(w) == Frame(m)[..done + k]
            else Parse(w) == Parse(wire) + [m] && Rest(w) == []
  {
    var f := Frame(m);
    ParseAppend(wire, f[done..done + k]);
    assert Rest(wire) + f[done..done + k] == f[..done + k];
    if done + k < |f| {
      PrefixIsRest(m, done + k);
    } else {
      assert f[..done + k] == f + [];
      ParseFrame(m, []);
    }
  }

  lemma WrittenOk(c: Conn, k: nat, n: nat)
    requires ConnOk(c, n) && c.work.Sending? && c.work.done + k <= |Frame(c.work.m)|
    ensures ConnOk(Written(c, k), n)
  {
    var m, done := c.work.m, c.work.done;
    if done < |Frame(m)| {
      WireGrows(c.wire, m, done, k);
    } else {
      assert c.wire + Frame(m)[done..done + k] == c.wire;
    }
  }

  lemma WrittenKeeps(c: Conn, k: nat, n: nat, x: seq<Octet>)
    requires ConnOk(c, n) && c.work.Sending? && c.work.done + k <= |Frame(c.work.m)|
    ensures var d := Written(c, k);
            Held(d, x) + Count(Parse(d.wire), x) == Held(c, x) + Count(Parse(c.wire), x)
  {
    var m, done := c.work.m, c.work.done;
    if done < |Frame(m)| {
      WriteMoves(c.wire, m, done, k, x);
    } else {
      assert c.wire + Frame(m)[done..done + k] == c.wire;
    }
  }

  lemma WriteMoves(wire: seq<Octet>, m: Message, done: nat, k: nat, x: seq<Octet>)
    requires done + k <= |Frame(m)| && done < |Frame(m)| && Rest(wire) == Frame(m)[..done]
    ensures Count(Parse(wire + Frame(m)[done..done + k]), x)
         == Count(Parse(wire), x) + (if done + k < |Frame(m)| then 0 else Is(m, x))
  {
    WireGrows(wire, m, done, k);
    if done + k == |Frame(m)| {
      CountSnoc(Parse(wire), m, x);
    }
  }

  // ----- every event keeps the shape

  /** The connection an event is about. */
  function About(e: Event): nat {
    match e
    case Dequeue(c) => c
    case Write(c, k) => c
    case PutDone(c) => c
    case PutFail(c) => c
    case Account(c) => c
    case Requeue(c) => c
    case Read(c, k) => c
    case _ => 0
  }

  predicate OfConn(e: Event) {
    e.Dequeue? || e.Write? || e.PutDone? || e.PutFail? || e.Account? || e.Requeue? || e.Read?
  }

  /** Such an event changes one connection, and at most the queue of its branch. */
  lemma OneConn(s: State, e: Event)
    requires Enabled(s, e) && OfConn(e)
    ensures var c, t := About(e), Apply(s, e);
            && Serves(s, c) && |t.conns| == |s.conns| && t.conns == s.conns[c := t.conns[c]]
            && t.conns[c].branch == s.conns[c].branch
            && t.input == s.input && t.inputs == s.inputs && t.attempts == s.attempts
  {
  }

  lemma OneBranch(s: State, e: Event)
    requires Enabled(s, e) && OfConn(e)
    ensures var b, t := s.conns[About(e)].branch, Apply(s, e);
            && |t.branches| == |s.branches| && t.branches == s.branches[b := t.branches[b]]
            && t.branches[b] == s.branches[b].(queue := t.branches[b].queue)
  {
  }

  lemma NewConnOk(s: State, e: Event)
    requires Enabled(s, e) && OfConn(e) && ConnOk(s.conns[About(e)], |s.branches|)
    ensures ConnOk(Apply(s, e).conns[About(e)], |s.branches|)
  {
    match e
    case Write(c, k) => WrittenOk(s.conns[c], k, |s.branches|);
    case _ =>
  }

  lemma KeepConns(s: State, e: Event)
    requires Enabled(s, e) && ConnsOk(s)
    ensures ConnsOk(Apply(s, e))
  {
    var t := Apply(s, e);
    if OfConn(e) {
      OneConn(s, e);
      OneBranch(s, e);
      NewConnOk(s, e);
    } else {
      forall i | 0 <= i < |t.conns|
        ensures ConnOk(t.conns[i], |t.branches|)
      {
        assert i < |s.conns| ==> ConnOk(s.conns[i], |s.branches|);
      }
    }
  }

  lemma KeepInput(s: State, e: Event)
    requires Enabled(s, e) && InputOk(s)
    ensures InputOk(Apply(s, e))
  {
    if OfConn(e) {
      OneConn(s, e);
      OneBranch(s, e);
    }
  }

  // ----- and the copies

  /** The queue and the connection balance. */
  lemma Balance(s: State, e: Event, x: seq<Octet>)
    requires Enabled(s, e) && OfConn(e) && ConnOk(s.conns[About(e)], |s.branches|)
    ensures var t := Apply(s, e);
            var c, d, b := s.conns[About(e)], t.conns[About(e)], s.conns[About(e)].branch;
            b < |t.branches| && |s.branches| == |t.branches|
            && Count(t.branches[b].queue, x) + Held(d, x) + Count(Parse(d.wire), x)
            == Count(s.branches[b].queue, x) + Held(c, x) + Count(Parse(c.wire), x)
  {
    match e
    case Write(c, k) => WrittenKeeps(s.conns[c], k, |s.branches|, x);
    case Dequeue(c) => CountHead(s.branches[s.conns[c].branch].queue, x);
    case Requeue(c) => CountSnoc(s.branches[s.conns[c].branch].queue, s.conns[c].work.m, x);
    case _ =>
  }

  lemma KeepConserved(s: State, e: Event, b: nat, x: seq<Octet>)
    requires Enabled(s, e) && ConnsOk(s) && Conserved(s, b, x)
    ensures Conserved(Apply(s, e), b, x)
  {
    if OfConn(e) {
      KeepConservedConn(s, e, b, x);
    } else if e.Connect? {
      ConnAppend(s.conns, Conn(e.b, [], 0, Waiting), b, x);
    } else if e.AddBranch? {
      KeepConservedAdd(s, b, x);
    } else if e.Attempt? {
      KeepConservedAttempt(s, e.ok, b, x);
    }
  }

  lemma KeepConservedConn(s: State, e: Event, b: nat, x: seq<Octet>)
    requires Enabled(s, e) && ConnsOk(s) && Conserved(s, b, x) && OfConn(e)
    ensures Conserved(Apply(s, e), b, x)
  {
    var t, c := Apply(s, e), About(e);
    OneConn(s, e);
    OneBranch(s, e);
    Balance(s, e, x);
    HeldUpdate(s.conns, c, t.conns[c], b, x);
    WiresUpdate(s.conns, c, t.conns[c], b, x);
  }

  lemma KeepConservedAdd(s: State, b: nat, x: seq<Octet>)
    requires ConnsOk(s) && Conserved(s, b, x)
    ensures Conserved(Apply(s, AddBranch), b, x)
  {
    if b == |s.branches| {
      NoCopies(s.conns, b, x);
    }
  }

  lemma KeepConservedAttempt(s: State, ok: bool, b: nat, x: seq<Octet>)
    requires Enabled(s, Attempt(ok)) && Conserved(s, b, x)
    ensures Conserved(Apply(s, Attempt(ok)), b, x)
  {
    if ok && b == s.input.order[0] {
      CountSnoc(s.branches[b].queue, s.input.m, x);
      CountSnoc(s.branches[b].accepted, s.input.m, x);
    }
  }

  lemma KeepOffered(s: State, e: Event, b: nat, x: seq<Octet>)
    requires Enabled(s, e) && InputOk(s) && Offered(s, b, x)
    ensures Offered(Apply(s, e), b, x)
  {
    if OfConn(e) {
      OneConn(s, e);
      OneBranch(s, e);
    } else if e.Attempt? {
      KeepOfferedAttempt(s, e.ok, b, x);
    } else if e.BeginTee? {
      KeepOfferedBegin(s, e.m, e.order, b, x);
    }
  }

  lemma KeepOfferedAttempt(s: State, ok: bool, b: nat, x: seq<Octet>)
    requires Enabled(s, Attempt(ok)) && InputOk(s) && Offered(s, b, x)
    ensures Offered(Apply(s, Attempt(ok)), b, x)
  {
    var order := s.input.order;
    assert order == [order[0]] + order[1..];
    if b == order[0] {
      assert b !in order[1..];
      CountSnoc(s.branches[b].accepted, s.input.m, x);
      CountSnoc(s.branches[b].refused, s.input.m, x);
    }
  }

  lemma KeepOfferedBegin(s: State, m: Message, order: seq<nat>, b: nat, x: seq<Octet>)
    requires Enabled(s, BeginTee(m, order)) && InputOk(s) && Offered(s, b, x)
    ensures Offered(Apply(s, BeginTee(m, order)), b, x)
  {
    if b < |s.branches| {
      assert b in order;
      InputsGrow(s.inputs, m, s.branches[b].since, x);
    }
  }

  lemma InputsGrow(inputs: seq<Message>, m: Message, since: nat, x: seq<Octet>)
    requires since <= |inputs|
    ensures Count((inputs + [m])[since..], x) == Count(inputs[since..], x) + Is(m, x)
  {
    CountSnoc(inputs[since..], m, x);
    assert (inputs + [m])[since..] == inputs[since..] + [m];
  }

  // ----- and the counter

  lemma OutstandingConn(s: State, e: Event)
    requires Enabled(s, e) && OfConn(e)
    ensures Outstanding(Apply(s, e)) == Outstanding(s) - (if e.Account? then 1 else 0)
    ensures e.Account? ==> Outstanding(s) > 0
  {
    var t, c := Apply(s, e), About(e);
    var b := s.conns[c].branch;
    OneConn(s, e);
    OneBranch(s, e);
    BusyUpdate(s.conns, c, t.conns[c]);
    QueuedUpdate(s.branches, b, t.branches[b]);
  }

  lemma OutstandingOther(s: State, e: Event)
    requires Enabled(s, e) && !OfConn(e)
    ensures Outstanding(Apply(s, e)) == Outstanding(s) + (if e.Attempt? then 1 else 0)
  {
    var t := Apply(s, e);
    if e.Connect? {
      ConnAppend(s.conns, Conn(e.b, [], 0, Waiting), 0, []);
    } else if e.AddBranch? {
      BranchAppend(s.branches, Branch([], [], [], |s.inputs|));
    } else if e.Attempt? {
      QueuedUpdate(s.branches, s.input.order[0], t.branches[s.input.order[0]]);
    }
  }

  lemma CountDown(p: nat, u: nat, x: nat)
    requires (p + u) % MODULUS == x % MODULUS && x > 0
    ensures ((p - 1) % MODULUS + u) % MODULUS == (x - 1) % MODULUS
  {
    var k, j := (p - 1) / MODULUS, x / MODULUS;
    assert p - 1 == k * MODULUS + (p - 1) % MODULUS;
    assert (p - 1) % MODULUS + u == p + u - 1 - k * MODULUS;
  }

  lemma CountUp(p: nat, u: nat, x: nat)
    requires (p + u) % MODULUS == x % MODULUS
    ensures ((p + u) % MODULUS + 0) % MODULUS == x % MODULUS
    ensures (p + (u + 1)) % MODULUS == (x + 1) % MODULUS
  {
  }

  lemma KeepCounted(s: State, e: Event)
    requires Enabled(s, e) && Counted(s)
    ensures Counted(Apply(s, e))
  {
    if OfConn(e) {
      OutstandingConn(s, e);
      OneConn(s, e);
      if e.Account? {
        CountDown(s.pending, Unposted(s), Outstanding(s));
      }
    } else {
      OutstandingOther(s, e);
      CountUp(s.pending, Unposted(s), Outstanding(s));
    }
  }

  // ----- whole runs

  ghost predicate Invariant(s: State, b: nat, x: seq<Octet>) {
    ConnsOk(s) && InputOk(s) && Counted(s) && Conserved(s, b, x) && Offered(s, b, x)
  }

  lemma Keep(s: State, e: Event, b: nat, x: seq<Octet>)
    requires Enabled(s, e) && Invariant(s, b, x)
    ensures Invariant(Apply(s, e), b, x)
  {
    KeepConns(s, e);
    KeepInput(s, e);
    KeepCounted(s, e);
    KeepConserved(s, e, b, x);
    KeepOffered(s, e, b, x);
  }

  lemma {:induction false} KeepRun(s: State, es: seq<Event>, t: State, b: nat, x: seq<Octet>)
    requires Invariant(s, b, x) && Run(s, es, t)
    ensures Invariant(t, b, x)
    decreases |es|
  {
    if es != [] {
      Keep(s, es[0], b, x);
      KeepRun(Apply(s, es[0]), es[1..], t, b, x);
    }
  }

  lemma Always(t: State, b: nat, x: seq<Octet>)
    requires Reachable(t)
    ensures Invariant(t, b, x)
  {
    assert Reached(t);
    var es :| Run(Initial(), es, t);
    KeepRun(Initial(), es, t, b, x);
  }

  // ----- main results

  /** In every run, the copies of a message accepted into a branch are exactly those queued, those held
      by a producer and those decodable from the branch's connections. */
  lemma Conservation(t: State, b: nat, x: seq<Octet>)
    requires Reachable(t) && b < |t.branches|
    ensures Count(t.branches[b].accepted, x)
         == Count(t.branches[b].queue, x) + HeldBy(t.conns, b, x) + OnWires(t.conns, b, x)
  {
    Always(t, b, x);
  }

  lemma {:induction false} ReceivedIsOnWires(cs: seq<Conn>, b: nat, x: seq<Octet>)
    ensures Received(cs, b, x) <= OnWires(cs, b, x)
  {
    if cs != [] {
      ReceivedIsOnWires(cs[1..], b, x);
      SeenIsOnWire(cs[0], x);
    }
  }

  lemma SeenIsOnWire(c: Conn, x: seq<Octet>)
    ensures Count(Parse(Seen(c)), x) <= Count(Parse(c.wire), x)
  {
    var more := c.wire[|Seen(c)|..];
    assert Seen(c) + more == c.wire;
    ParseAppend(Seen(c), more);
    CountAppend(Parse(Seen(c)), Parse(Rest(Seen(c)) + more), x);
  }

  /** At most once: the subscribers of a branch never receive a message more often than it was read
      from the input since the branch exists. */
  lemma AtMostOnce(t: State, b: nat, x: seq<Octet>)
    requires Reachable(t) && b < |t.branches|
    ensures t.branches[b].since <= |t.inputs|
    ensures Received(t.conns, b, x) <= Count(t.inputs[t.branches[b].since..], x)
  {
    Always(t, b, x);
    ReceivedIsOnWires(t.conns, b, x);
  }

  /** The counter is what is queued, in a producer's hands or dropped, less the attempts of the
      current message that are not posted, modulo 2^32. */
  lemma PendingCounter(t: State)
    requires Reachable(t)
    ensures t.pending == (Outstanding(t) - Unposted(t)) % MODULUS
  {
    Always(t, 0, []);
    Difference(t.pending, Unposted(t), Outstanding(t));
  }

  lemma Difference(p: nat, u: nat, x: nat)
    requires p < MODULUS && (p + u) % MODULUS == x % MODULUS
    ensures p == (x - u) % MODULUS
  {
    var i, j := (p + u) / MODULUS, x / MODULUS;
    assert x - u == p + (j - i) * MODULUS;
  }

  /** Once the input has ended, and with fewer than 2^32 copies attempted, the counter is exactly what
      is queued, in a producer's hands or was dropped. */
  lemma FinalCounter(t: State)
    requires Reachable(t) && t.input.Ended? && t.attempts < MODULUS
    ensures t.pending == AllQueued(t.branches) + AllBusy(t.conns) + AllDropped(t.branches)
  {
    Always(t, 0, []);
  }

  lemma {:induction false} NothingLeft(brs: seq<Branch>, b: nat)
    requires b < |brs| && AllQueued(brs) == 0 && AllDropped(brs) == 0
    ensures brs[b].queue == [] && brs[b].refused == []
  {
    if b > 0 {
      NothingLeft(brs[1..], b - 1);
    }
  }

  lemma {:induction false} NobodyBusy(cs: seq<Conn>, b: nat, x: seq<Octet>)
    requires AllBusy(cs) == 0
    ensures HeldBy(cs, b, x) == 0
  {
    if cs != [] {
      NobodyBusy(cs[1..], b, x);
    }
  }

  /** So when the final wait sees zero, nothing was dropped and the connections of every branch carry
      exactly the inputs read since the branch exists. */
  lemma FinalZero(t: State, b: nat, x: seq<Octet>)
    requires Reachable(t) && t.input.Ended? && t.attempts < MODULUS && t.pending == 0
    requires b < |t.branches|
    ensures t.branches[b].queue == [] && t.branches[b].refused == [] && t.branches[b].since <= |t.inputs|
    ensures OnWires(t.conns, b, x) == Count(t.inputs[t.branches[b].since..], x)
  {
    Always(t, b, x);
    FinalCounter(t);
    NothingLeft(t.branches, b);
    NobodyBusy(t.conns, b, x);
  }

  /** Before the input has ended the counter means less: a producer can finish with a copy before the
      tee's post-filter counts it, and the counter then stands at 2^32 - 1. */
  lemma EarlyAccount(m: Message) returns (t: State)
    ensures Reachable(t) && t.pending == MODULUS - 1 && Outstanding(t) == 0
  {
    var s1 := State([Branch([], [], [], 0)], [], Ready, 0, [], 0, 0);
    var s2 := s1.(conns := [Conn(0, [], 0, Waiting)]);
    var es;
    es, t := EarlyOffer(m, s2);
    RunOne(s1, Connect(0), s2, es, t);
    es := [Connect(0)] + es;
    RunOne(Initial(), AddBranch, s1, es, t);
    assert Reached(t);
  }

  lemma EarlyOffer(m: Message, s: State) returns (es: seq<Event>, t: State)
    requires s == State([Branch([], [], [], 0)], [Conn(0, [], 0, Waiting)], Ready, 0, [], 0, 0)
    ensures Run(s, es, t) && t.pending == MODULUS - 1 && Outstanding(t) == 0
  {
    var s3 := s.(input := Teeing(m, [0], 0), inputs := [m]);
    var s4 := s3.(branches := [Branch([m], [m], [], 0)], input := Teeing(m, [], 1), attempts := 1);
    es, t := EarlySend(m, s4);
    assert [0][1..] == [] && [] + [m] == [m];
    RunOne(s3, Attempt(true), s4, es, t);
    es := [Attempt(true)] + es;
    RunOne(s, BeginTee(m, [0]), s3, es, t);
    es := [BeginTee(m, [0])] + es;
  }

  lemma EarlySend(m: Message, s: State) returns (es: seq<Event>, t: State)
    requires s.branches == [Branch([m], [m], [], 0)] && s.conns == [Conn(0, [], 0, Waiting)] && s.pending == 0
    ensures Run(s, es, t) && t.pending == MODULUS - 1 && Outstanding(t) == 0
  {
    var n := |Frame(m)|;
    var s5 := s.(branches := [Branch([], [m], [], 0)], conns := [Conn(0, [], 0, Sending(m, 0))]);
    var s6 := s5.(conns := [Conn(0, Frame(m), 0, Sending(m, n))]);
    var s7 := s5.(conns := [Conn(0, Frame(m), 0, Sent(m))]);
    t := s5.(conns := [Conn(0, Frame(m), 0, Waiting)], pending := MODULUS - 1, settled := s.settled + 1);
    assert [m][1..] == [];
    NoneOutstanding(t.branches[0], t.conns[0]);
    assert [] + Frame(m)[0..n] == Frame(m);
    es := [];
    RunOne(s7, Account(0), t, es, t);
    es := [Account(0)] + es;
    RunOne(s6, PutDone(0), s7, es, t);
    es := [PutDone(0)] + es;
    RunOne(s5, Write(0, n), s6, es, t);
    es := [Write(0, n)] + es;
    RunOne(s, Dequeue(0), s5, es, t);
    es := [Dequeue(0)] + es;
  }

  lemma NoneOutstanding(br: Branch, conn: Conn)
    requires br.queue == [] && br.refused == [] && Busy(conn) == 0
    ensures AllQueued([br]) == 0 && AllDropped([br]) == 0 && AllBusy([conn]) == 0
  {
    assert [br][1..] == [] && [conn][1..] == [];
  }

  lemma RunOne(s: State, e: Event, u: State, es: seq<Event>, t: State)
    requires Enabled(s, e) && Apply(s, e) == u && Run(u, es, t)
    ensures Run(s, [e] + es, t)
  {
    assert ([e] + es)[1..] == es;
  }
}
