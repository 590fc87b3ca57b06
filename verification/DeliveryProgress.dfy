/** Nothing is ever stuck in the publisher: from every reachable state there is a way to deliver all that
    was accepted. */
module DeliveryProgress {
  import opened Counting
  import opened Delivery
  import opened Framing

  /** A read hands the subscriber the next octets of the stream, and changes nothing else. */
  lemma ReadMeaning(s: State, c: nat, k: nat)
    requires Enabled(s, Read(c, k))
    ensures var t := Apply(s, Read(c, k));
            var a, b := s.conns[c], t.conns[c];
            && Seen(b) == Seen(a) + a.wire[a.seen..a.seen + k] && b.wire == a.wire && b.work == a.work && b.branch == a.branch
            && t == s.(conns := s.conns[c := b])
  {
  }

  // ----- runs in stages

  lemma {:induction false} RunConcat(s: State, es: seq<Event>, r: State, fs: seq<Event>, q: State)
    requires Run(s, es, r) && Run(r, fs, q)
    ensures Run(s, es + fs, q)
    decreases |es|
  {
    if es == [] {
      assert es + fs == fs;
    } else {
      RunConcat(Apply(s, es[0]), es[1..], r, fs, q);
      assert (es + fs)[1..] == es[1..] + fs;
    }
  }

  ghost predicate LeadsHere(s: State, es: seq<Event>, r: State) {
    Run(s, es, r) && ConnsOk(r) && InputOk(r) && |r.branches| == |s.branches|
  }

  /** es leads from s to r, which is as sound as s and has the same branches. Worded so that the verifier
      looks inside only where LeadsHere is mentioned. */
  ghost predicate Leads(s: State, es: seq<Event>, r: State) {
    forall q | q == r :: LeadsHere(s, es, q)
  }

  lemma {:induction false} LeadsOne(s: State, e: Event, r: State)
    requires ConnsOk(s) && InputOk(s) && Enabled(s, e) && Apply(s, e) == r && !e.AddBranch?
    ensures Leads(s, [e], r) && ConnsOk(r) && InputOk(r)
  {
    KeepConns(s, e);
    KeepInput(s, e);
    assert [e][1..] == [] && Run(r, [], r);
    assert LeadsHere(s, [e], r);
  }

  lemma {:induction false} LeadsOn(s: State, es: seq<Event>, r: State, fs: seq<Event>, q: State)
    requires Leads(s, es, r) && Leads(r, fs, q)
    ensures Leads(s, es + fs, q)
  {
    assert LeadsHere(s, es, r) && LeadsHere(r, fs, q);
    RunConcat(s, es, r, fs, q);
    assert LeadsHere(s, es + fs, q);
  }

  lemma {:induction false} LeadsNowhere(s: State)
    requires ConnsOk(s) && InputOk(s)
    ensures Leads(s, [], s)
  {
    assert LeadsHere(s, [], s);
  }

  /** One more event at the end. */
  lemma {:induction false} LeadsThen(s: State, es: seq<Event>, r: State, e: Event, q: State)
    requires Leads(s, es, r) && Enabled(r, e) && Apply(r, e) == q && !e.AddBranch?
    ensures Leads(s, es + [e], q) && ConnsOk(q) && InputOk(q)
  {
    assert LeadsHere(s, es, r);
    LeadsOne(r, e, q);
    LeadsOn(s, es, r, [e], q);
  }

  // ----- one message of the input

  /** What the tee leaves of s when the remaining branches have answered oks and the count is posted. */
  ghost predicate Teed(s: State, oks: seq<bool>, r: State)
    requires s.input.Teeing? && |oks| == |s.input.order| && forall i | 0 <= i < |oks| :: s.input.order[i] < |s.branches|
  {
    && |r.branches| == |s.branches| && r.input == Ready && r.inputs == s.inputs && r.conns == s.conns
    && r.pending == (s.pending + s.input.tee + |oks|) % MODULUS
    && (forall i | 0 <= i < |oks| ::
          r.branches[s.input.order[i]] == Tried(s.branches[s.input.order[i]], s.input.m, oks[i]))
    && (forall b | 0 <= b < |s.branches| && b !in s.input.order :: r.branches[b] == s.branches[b])
  }

  /** Whatever the branches answer, the tee offers its message to each of them once, posts how many there
      were, and is ready for the next. */
  lemma {:induction false} TeeFinishes(s: State, oks: seq<bool>) returns (es: seq<Event>, r: State)
    requires ConnsOk(s) && InputOk(s) && s.input.Teeing? && |oks| == |s.input.order|
    ensures Leads(s, es, r) && Teed(s, oks, r)
    decreases |oks|
  {
    if oks == [] {
      es, r := [Post], Apply(s, Post);
      LeadsOne(s, Post, r);
    } else {
      var q := Apply(s, Attempt(oks[0]));
      LeadsOne(s, Attempt(oks[0]), q);
      es, r := TeeFinishes(q, oks[1..]);
      LeadsOn(s, [Attempt(oks[0])], q, es, r);
      es := [Attempt(oks[0])] + es;
      TeedFirst(s, q, oks, r);
    }
  }

  lemma {:induction false} TeedFirst(s: State, q: State, oks: seq<bool>, r: State)
    requires InputOk(s) && s.input.Teeing? && |oks| == |s.input.order| > 0
    requires q == Apply(s, Attempt(oks[0])) && Teed(q, oks[1..], r)
    ensures Teed(s, oks, r)
  {
    var order, m := s.input.order, s.input.m;
    assert order == [order[0]] + order[1..];
    forall i | 0 <= i < |oks|
      ensures r.branches[order[i]] == Tried(s.branches[order[i]], m, oks[i])
    {
      if i > 0 {
        assert order[i] == q.input.order[i - 1] && oks[i] == oks[1..][i - 1];
      } else {
        assert order[0] !in order[1..];
      }
    }
  }

  /** One message of the input, from reading it to being ready for the next. */
  lemma {:induction false} OneInput(s: State, m: Message, order: seq<nat>, oks: seq<bool>) returns (es: seq<Event>, r: State)
    requires Reachable(s) && s.input.Ready? && Snapshot(order, |s.branches|) && |oks| == |order|
    ensures Run(s, es, r) && r.input.Ready? && r.inputs == s.inputs + [m] && r.conns == s.conns
    ensures |r.branches| == |s.branches| && r.pending == (s.pending + |order|) % MODULUS
    ensures forall i | 0 <= i < |order| :: r.branches[order[i]] == Tried(s.branches[order[i]], m, oks[i])
  {
    Always(s, 0, []);
    var q := Apply(s, BeginTee(m, order));
    LeadsOne(s, BeginTee(m, order), q);
    es, r := TeeFinishes(q, oks);
    LeadsOn(s, [BeginTee(m, order)], q, es, r);
    es := [BeginTee(m, order)] + es;
    assert LeadsHere(s, es, r);
  }

  // ----- the input ends

  /** The tee offers its message to the remaining branches, posts the count, and the input ends. */
  lemma {:induction false} InputEnds(s: State) returns (es: seq<Event>, r: State)
    requires ConnsOk(s) && InputOk(s)
    ensures Leads(s, es, r) && r.input.Ended?
    decreases if s.input.Teeing? then |s.input.order| + 2 else if s.input.Ready? then 1 else 0
  {
    es, r := [], s;
    LeadsNowhere(s);
    if !s.input.Ended? {
      var e := if s.input.Ready? then EndInput else if s.input.order == [] then Post else Attempt(true);
      var q := Apply(s, e);
      LeadsOne(s, e, q);
      es, r := InputEnds(q);
      LeadsOn(s, [e], q, es, r);
      es := [e] + es;
    }
  }

  // ----- the producers finish

  /** Not between a dequeue and its accounting. */
  predicate Calm(c: Conn) {
    c.work.Waiting? || c.work.Gone?
  }

  /** A producer that has a message writes the rest of the frame, returns from Put and accounts for it. */
  lemma {:induction false} Sends(s: State, c: nat) returns (es: seq<Event>, r: State)
    requires ConnsOk(s) && InputOk(s) && Serves(s, c) && s.conns[c].work.Sending?
    ensures Leads(s, es, r) && c < |r.conns| && r.conns == s.conns[c := r.conns[c]] && Calm(r.conns[c])
    ensures r.conns[c].branch == s.conns[c].branch && r.conns[c].work.Waiting?
    ensures r.branches == s.branches && r.input == s.input
  {
    assert ConnOk(s.conns[c], |s.branches|);
    var m, done := s.conns[c].work.m, s.conns[c].work.done;
    var e1 := Write(c, |Frame(m)| - done);
    var s1 := Apply(s, e1);
    LeadsOne(s, e1, s1);
    var s2 := Apply(s1, PutDone(c));
    LeadsThen(s, [e1], s1, PutDone(c), s2);
    r := Apply(s2, Account(c));
    LeadsThen(s, [e1] + [PutDone(c)], s2, Account(c), r);
    es := [e1] + [PutDone(c)] + [Account(c)];
  }

  /** Every producer comes to rest: by sending, by accounting for what it has sent, or by putting its message
      back. */
  lemma {:induction false} ComesToRest(s: State, c: nat) returns (es: seq<Event>, r: State)
    requires ConnsOk(s) && InputOk(s) && c < |s.conns|
    ensures Leads(s, es, r) && c < |r.conns| && r.conns == s.conns[c := r.conns[c]] && Calm(r.conns[c])
    ensures r.input == s.input
  {
    assert ConnOk(s.conns[c], |s.branches|);
    var w := s.conns[c].work;
    if w.Sending? {
      es, r := Sends(s, c);
    } else if w.Sent? {
      es, r := [Account(c)], Apply(s, Account(c));
      LeadsOne(s, Account(c), r);
    } else if w.Broken? {
      es, r := [Requeue(c)], Apply(s, Requeue(c));
      LeadsOne(s, Requeue(c), r);
    } else {
      es, r := [], s;
      LeadsNowhere(s);
    }
  }

  lemma {:induction false} AllComeToRest(s: State, c: nat) returns (es: seq<Event>, r: State)
    requires ConnsOk(s) && InputOk(s) && c <= |s.conns| && forall d | 0 <= d < c :: Calm(s.conns[d])
    ensures Leads(s, es, r) && r.input == s.input && forall d | 0 <= d < |r.conns| :: Calm(r.conns[d])
    decreases |s.conns| - c
  {
    es, r := [], s;
    LeadsNowhere(s);
    if c < |s.conns| {
      var q;
      es, q := ComesToRest(s, c);
      assert LeadsHere(s, es, q);
      var fs;
      fs, r := AllComeToRest(q, c + 1);
      LeadsOn(s, es, q, fs, r);
      es := es + fs;
    }
  }

  // ----- the queues are emptied

  /** A waiting producer takes and sends everything in its queue. */
  lemma {:induction false} Empties(s: State, c: nat) returns (es: seq<Event>, r: State)
    requires ConnsOk(s) && InputOk(s) && Serves(s, c) && s.conns[c].work.Waiting?
    ensures Leads(s, es, r) && r.input == s.input && c < |r.conns| && r.conns == s.conns[c := r.conns[c]] && Calm(r.conns[c])
    ensures var b := s.conns[c].branch; b < |r.branches| && r.branches == s.branches[b := s.branches[b].(queue := [])]
    decreases |s.branches[s.conns[c].branch].queue|
  {
    var b := s.conns[c].branch;
    if s.branches[b].queue == [] {
      es, r := [], s;
      LeadsNowhere(s);
      assert s.branches[b].(queue := []) == s.branches[b];
    } else {
      var s1 := Apply(s, Dequeue(c));
      LeadsOne(s, Dequeue(c), s1);
      var fs, s2 := Sends(s1, c);
      LeadsOn(s, [Dequeue(c)], s1, fs, s2);
      assert LeadsHere(s, [Dequeue(c)] + fs, s2);
      es, r := Empties(s2, c);
      LeadsOn(s, [Dequeue(c)] + fs, s2, es, r);
      es := [Dequeue(c)] + fs + es;
    }
  }

  /** For each branch a subscriber connects, and its producer empties the queue. */
  lemma {:induction false} AllEmptied(s: State, b: nat) returns (es: seq<Event>, r: State)
    requires ConnsOk(s) && InputOk(s) && b <= |s.branches|
    requires (forall d | 0 <= d < |s.conns| :: Calm(s.conns[d])) && forall a | 0 <= a < b :: s.branches[a].queue == []
    ensures Leads(s, es, r) && r.input == s.input
    ensures (forall d | 0 <= d < |r.conns| :: Calm(r.conns[d])) && forall a | 0 <= a < |r.branches| :: r.branches[a].queue == []
    decreases |s.branches| - b
  {
    es, r := [], s;
    LeadsNowhere(s);
    if b < |s.branches| {
      var s1 := Apply(s, Connect(b));
      LeadsOne(s, Connect(b), s1);
      var fs, s2 := Empties(s1, |s.conns|);
      LeadsOn(s, [Connect(b)], s1, fs, s2);
      assert LeadsHere(s, [Connect(b)] + fs, s2);
      es, r := AllEmptied(s2, b + 1);
      LeadsOn(s, [Connect(b)] + fs, s2, es, r);
      es := [Connect(b)] + fs + es;
    }
  }

  // ----- the subscribers read

  lemma {:induction false} AllRead(s: State, c: nat) returns (es: seq<Event>, r: State)
    requires ConnsOk(s) && InputOk(s) && c <= |s.conns| && forall d | 0 <= d < c :: s.conns[d].seen == |s.conns[d].wire|
    ensures Leads(s, es, r) && r.input == s.input && r.branches == s.branches && |r.conns| == |s.conns|
    ensures forall d | 0 <= d < |r.conns| :: r.conns[d] == s.conns[d].(seen := |s.conns[d].wire|)
    decreases |s.conns| - c
  {
    es, r := [], s;
    LeadsNowhere(s);
    if c < |s.conns| {
      assert ConnOk(s.conns[c], |s.branches|);
      var e := Read(c, |s.conns[c].wire| - s.conns[c].seen);
      var q := Apply(s, e);
      LeadsOne(s, e, q);
      es, r := AllRead(q, c + 1);
      LeadsOn(s, [e], q, es, r);
      es := [e] + es;
    }
  }

  lemma {:induction false} ReceivedAll(cs: seq<Conn>, b: nat, x: seq<Octet>)
    requires forall d | 0 <= d < |cs| :: cs[d].seen == |cs[d].wire|
    ensures Received(cs, b, x) == OnWires(cs, b, x)
  {
    if cs != [] {
      assert Seen(cs[0]) == cs[0].wire;
      ReceivedAll(cs[1..], b, x);
    }
  }

  lemma {:induction false} NobodyHolds(cs: seq<Conn>, b: nat, x: seq<Octet>)
    requires forall d | 0 <= d < |cs| :: Calm(cs[d])
    ensures HeldBy(cs, b, x) == 0
  {
    if cs != [] {
      NobodyHolds(cs[1..], b, x);
    }
  }

  /** Everything is through: the input has ended, nothing is queued and nobody has a message, and the
      subscribers have read all there is. */
  ghost predicate Through(r: State) {
    && r.input.Ended? && (forall a | 0 <= a < |r.branches| :: r.branches[a].queue == [])
    && (forall d | 0 <= d < |r.conns| :: Calm(r.conns[d]) && r.conns[d].seen == |r.conns[d].wire|)
  }

  lemma {:induction false} GetsThrough(s: State) returns (es: seq<Event>, r: State)
    requires ConnsOk(s) && InputOk(s)
    ensures Leads(s, es, r) && Through(r)
  {
    var s1, s2, s3, fs;
    es, s1 := InputEnds(s);
    assert LeadsHere(s, es, s1);
    fs, s2 := AllComeToRest(s1, 0);
    assert LeadsHere(s1, fs, s2);
    LeadsOn(s, es, s1, fs, s2);
    es := es + fs;
    fs, s3 := AllEmptied(s2, 0);
    assert LeadsHere(s2, fs, s3);
    LeadsOn(s, es, s2, fs, s3);
    es := es + fs;
    fs, r := AllRead(s3, 0);
    LeadsOn(s, es, s3, fs, r);
    es := es + fs;
  }

  lemma {:induction false} StillReachable(s: State, es: seq<Event>, r: State)
    requires Reachable(s) && Run(s, es, r)
    ensures Reachable(r)
  {
    assert Reached(s);
    var ds :| Run(Initial(), ds, s);
    RunConcat(Initial(), ds, s, es, r);
    assert Reached(r);
  }

  /** From every reachable state, whatever has failed before, some run ends with everything through; then
      the subscribers of each branch have received each message exactly as often as the branch accepted
      it, which is as often as it was read since the branch exists, but for what was refused; and the
      counter is what was refused. */
  lemma {:induction false} EverythingArrives(s: State) returns (es: seq<Event>, r: State)
    requires Reachable(s)
    ensures Run(s, es, r) && Through(r) && |r.branches| == |s.branches|
    ensures forall b, x | 0 <= b < |r.branches| :: Arrived(r, b, x)
    ensures r.pending == AllDropped(r.branches) % MODULUS
  {
    Always(s, 0, []);
    es, r := GetsThrough(s);
    assert LeadsHere(s, es, r);
    StillReachable(s, es, r);
    forall b, x | 0 <= b < |r.branches|
      ensures Arrived(r, b, x)
    {
      ArrivedAll(r, b, x);
    }
    NothingOutstanding(r);
  }

  /** Copies of x: received, accepted, and read from the input. */
  ghost predicate Arrived(r: State, b: nat, x: seq<Octet>) {
    && b < |r.branches| && r.branches[b].since <= |r.inputs|
    && Received(r.conns, b, x) == Count(r.branches[b].accepted, x)
    && Received(r.conns, b, x) + Count(r.branches[b].refused, x) == Count(r.inputs[r.branches[b].since..], x)
  }

  lemma {:induction false} ArrivedAll(r: State, b: nat, x: seq<Octet>)
    requires Reachable(r) && Through(r) && b < |r.branches|
    ensures Arrived(r, b, x)
  {
    Always(r, b, x);
    ReceivedAll(r.conns, b, x);
    NobodyHolds(r.conns, b, x);
    assert Count(r.branches[b].queue, x) == 0;
  }

  lemma {:induction false} NothingOutstanding(r: State)
    requires Reachable(r) && Through(r)
    ensures r.pending == AllDropped(r.branches) % MODULUS
  {
    PendingCounter(r);
    NoneBusy(r.conns);
    NoneQueued(r.branches);
  }

  lemma {:induction false} NoneBusy(cs: seq<Conn>)
    requires forall d | 0 <= d < |cs| :: Calm(cs[d])
    ensures AllBusy(cs) == 0
  {
    if cs != [] {
      NoneBusy(cs[1..]);
    }
  }

  lemma {:induction false} NoneQueued(brs: seq<Branch>)
    requires forall a | 0 <= a < |brs| :: brs[a].queue == []
    ensures AllQueued(brs) == 0
  {
    if brs != [] {
      NoneQueued(brs[1..]);
    }
  }
}
