/** __call_once in libc++'s mutex.cpp, with the unlocked test of call_once in front of it: a flag that is
    0, 1 while a body runs, or ~0; one mutex; a condition variable whose waits may end at any time. Each
    atomic action of each thread is one event. See section 30.4.4.2 of ISO C++11. */
module CallOnce {
  import opened Threads

  datatype Flag = Zero | One | AllOnes

  /** Where a thread is: outside; before the unlocked read of the flag; wanting the mutex; testing the
      flag under the mutex; waiting on the condition; having set the flag to 1 and still in the mutex;
      running the body; wanting the mutex after the body, which has thrown or not; in the mutex and
      before the store; in the mutex and after it; about to leave the mutex because the flag is ~0; in
      the mutex on behalf of another flag. */
  datatype Pc =
    | Outside | Entered | Wanting | Testing | Waiting | Claimed
    | Running | After(threw: bool) | Storing(threw: bool) | Stored(threw: bool) | Leaving | Elsewhere

  datatype State = State(flag: Flag, mutex: bool, threads: seq<Pc>, succeeded: nat, returned: nat)

  datatype Event = Enter(t: nat) | Step(t: nat) | Throw(t: nat) | Wander(t: nat)

  function Initial(threads: nat): State {
    State(Zero, false, seq(threads, _ => Outside), 0, 0)
  }

  /** A step that needs the mutex waits until it is free. */
  predicate Enabled(s: State, e: Event) {
    match e
    case Enter(t) => t < |s.threads| && s.threads[t] == Outside
    case Step(t) => t < |s.threads| && s.threads[t] != Outside
      && (s.threads[t].Wanting? || s.threads[t].Waiting? || s.threads[t].After? ==> !s.mutex)
    case Throw(t) => t < |s.threads| && s.threads[t] == Running
    case Wander(t) => t < |s.threads| && s.threads[t] == Outside && !s.mutex
  }

  function Go(s: State, t: nat, pc: Pc): State
    requires t < |s.threads|
  {
    s.(threads := s.threads[t := pc])
  }

  function Apply(s: State, e: Event): State
    requires Enabled(s, e)
  {
    match e
    case Enter(t) => Go(s, t, Entered)
    case Throw(t) => Go(s, t, After(true))
    case Wander(t) => Go(s, t, Elsewhere).(mutex := true)
    case Step(t) =>
      match s.threads[t]
      case Entered =>
        if s.flag == AllOnes then Go(s, t, Outside).(returned := s.returned + 1) else Go(s, t, Wanting)
      case Wanting => Go(s, t, Testing).(mutex := true)
      case Waiting => Go(s, t, Testing).(mutex := true)
      case Testing =>
        if s.flag == One then Go(s, t, Waiting).(mutex := false)
        else if s.flag == Zero then Go(s, t, Claimed).(flag := One)
        else Go(s, t, Leaving)
      case Claimed => Go(s, t, Running).(mutex := false)
      case Running => Go(s, t, After(false)).(succeeded := s.succeeded + 1)
      case After(threw) => Go(s, t, Storing(threw)).(mutex := true)
      case Storing(threw) => Go(s, t, Stored(threw)).(flag := if threw then Zero else AllOnes)
      case Stored(threw) =>
        Go(s, t, Outside).(mutex := false, returned := if threw then s.returned else s.returned + 1)
      case Leaving => Go(s, t, Outside).(mutex := false, returned := s.returned + 1)
      case Elsewhere => Go(s, t, Outside).(mutex := false)
      case Outside => s
  }

  predicate Run(s: State, es: seq<Event>, t: State)
    decreases |es|
  {
    if es == [] then s == t else Enabled(s, es[0]) && Run(Apply(s, es[0]), es[1..], t)
  }

  // ----- who owns what

  /** Has set the flag to 1 and not yet changed it again. */
  function OwnerOf(): Pc -> nat {
    (p: Pc) => if p.Claimed? || p.Running? || p.After? || p.Storing? then 1 else 0
  }

  /** Its body has succeeded and the flag does not say so yet. */
  function SuccessOf(): Pc -> nat {
    (p: Pc) => if p == After(false) || p == Storing(false) then 1 else 0
  }

  function InMutexOf(): Pc -> nat {
    (p: Pc) => if p.Testing? || p.Claimed? || p.Storing? || p.Stored? || p.Leaving? || p.Elsewhere? then 1 else 0
  }

  function Owners(s: State): nat { Sum(s.threads, OwnerOf()) }
  function Successes(s: State): nat { Sum(s.threads, SuccessOf()) }
  function InMutex(s: State): nat { Sum(s.threads, InMutexOf()) }

  ghost predicate FlagOk(s: State) {
    && Owners(s) == (if s.flag == One then 1 else 0)
    && s.succeeded == Successes(s) + (if s.flag == AllOnes then 1 else 0)
  }

  ghost predicate MutexOk(s: State) {
    InMutex(s) == if s.mutex then 1 else 0
  }

  /** Who is about to return normally has seen the success. */
  ghost predicate PcOk(s: State, p: Pc) {
    p == Leaving || p == Stored(false) ==> s.flag == AllOnes
  }

  ghost predicate Invariant(s: State) {
    && FlagOk(s) && MutexOk(s)
    && (forall t | 0 <= t < |s.threads| :: PcOk(s, s.threads[t]))
    && (s.returned > 0 ==> s.flag == AllOnes)
  }

  lemma Shares(s: State, r: State, t: nat)
    requires t < |s.threads| == |r.threads| && r.threads == s.threads[t := r.threads[t]]
    ensures Owners(r) + OwnerOf()(s.threads[t]) == Owners(s) + OwnerOf()(r.threads[t])
    ensures Successes(r) + SuccessOf()(s.threads[t]) == Successes(s) + SuccessOf()(r.threads[t])
    ensures OwnerOf()(s.threads[t]) <= Owners(s) && SuccessOf()(s.threads[t]) <= Successes(s)
  {
    SumUpdate(s.threads, OwnerOf(), t, r.threads[t]);
    SumUpdate(s.threads, SuccessOf(), t, r.threads[t]);
    SumAt(s.threads, OwnerOf(), t);
    SumAt(s.threads, SuccessOf(), t);
  }

  lemma {:induction false} SuccessesOwn(ts: seq<Pc>)
    ensures Sum(ts, SuccessOf()) <= Sum(ts, OwnerOf())
  {
    if ts != [] {
      SuccessesOwn(ts[1..]);
    }
  }

  lemma OneThread(s: State, e: Event)
    requires Enabled(s, e)
    ensures e.t < |s.threads| == |Apply(s, e).threads| && Apply(s, e).threads == s.threads[e.t := Apply(s, e).threads[e.t]]
  {
  }

  function AsCount(b: bool): nat {
    if b then 1 else 0
  }

  /** Whoever changes the flag is the one who gains or loses it. */
  lemma FlagMoves(s: State, e: Event)
    requires Enabled(s, e)
    requires s.flag != One ==> OwnerOf()(s.threads[e.t]) == 0
    ensures var r := Apply(s, e);
            var p, q := s.threads[e.t], r.threads[e.t];
            && AsCount(r.flag == One) + OwnerOf()(p) == AsCount(s.flag == One) + OwnerOf()(q)
            && r.succeeded + SuccessOf()(p) + AsCount(s.flag == AllOnes)
            == s.succeeded + SuccessOf()(q) + AsCount(r.flag == AllOnes)
  {
  }

  lemma KeepFlag(s: State, e: Event)
    requires FlagOk(s) && Enabled(s, e)
    ensures FlagOk(Apply(s, e))
  {
    OneThread(s, e);
    Shares(s, Apply(s, e), e.t);
    FlagMoves(s, e);
  }

  lemma KeepMutex(s: State, e: Event)
    requires MutexOk(s) && Enabled(s, e)
    ensures MutexOk(Apply(s, e))
  {
    SumUpdate(s.threads, InMutexOf(), e.t, Apply(s, e).threads[e.t]);
    SumAt(s.threads, InMutexOf(), e.t);
  }

  /** Once all ones, the flag stays so. */
  lemma FlagStays(s: State, e: Event)
    requires FlagOk(s) && Enabled(s, e) && s.flag == AllOnes
    ensures Apply(s, e).flag == AllOnes
  {
    SumAt(s.threads, OwnerOf(), e.t);
  }

  lemma KeepPc(s: State, e: Event)
    requires Enabled(s, e) && PcOk(s, s.threads[e.t]) && (s.returned > 0 ==> s.flag == AllOnes)
    requires s.flag == AllOnes ==> Apply(s, e).flag == AllOnes
    ensures PcOk(Apply(s, e), Apply(s, e).threads[e.t])
    ensures Apply(s, e).returned > 0 ==> Apply(s, e).flag == AllOnes
  {
  }

  lemma Keep(s: State, e: Event)
    requires Invariant(s) && Enabled(s, e)
    ensures Invariant(Apply(s, e))
  {
    var r := Apply(s, e);
    KeepFlag(s, e);
    KeepMutex(s, e);
    OneThread(s, e);
    if s.flag == AllOnes {
      FlagStays(s, e);
    }
    KeepPc(s, e);
    KeepOthers(s, r, e.t);
  }

  lemma KeepOthers(s: State, r: State, t: nat)
    requires t < |s.threads| == |r.threads| && r.threads == s.threads[t := r.threads[t]]
    requires (forall u | 0 <= u < |s.threads| :: PcOk(s, s.threads[u])) && PcOk(r, r.threads[t])
    requires s.flag == AllOnes ==> r.flag == AllOnes
    ensures forall u | 0 <= u < |r.threads| :: PcOk(r, r.threads[u])
  {
    forall u | 0 <= u < |r.threads|
      ensures PcOk(r, r.threads[u])
    {
      assert PcOk(s, s.threads[u]);
    }
  }

  lemma {:induction false} KeepRun(s: State, es: seq<Event>, t: State)
    requires Invariant(s) && Run(s, es, t)
    ensures Invariant(t)
    decreases |es|
  {
    if es != [] {
      Keep(s, es[0]);
      KeepRun(Apply(s, es[0]), es[1..], t);
    }
  }

  lemma InitialOk(threads: nat)
    ensures Invariant(Initial(threads))
  {
    NoShares(Initial(threads).threads, OwnerOf());
    NoShares(Initial(threads).threads, SuccessOf());
    NoShares(Initial(threads).threads, InMutexOf());
  }

  ghost predicate Reached(s: State) {
    exists threads: nat, es :: Run(Initial(threads), es, s)
  }

  /** Some run of some number of threads ends in s. Worded so that the verifier looks inside only where
      Reached is mentioned. */
  ghost predicate Reachable(s: State) {
    forall r | r == s :: Reached(r)
  }

  lemma Always(s: State)
    requires Reachable(s)
    ensures Invariant(s)
  {
    assert Reached(s);
    var threads: nat, es :| Run(Initial(threads), es, s);
    InitialOk(threads);
    KeepRun(Initial(threads), es, s);
  }

  // ----- main results

  /** At most one body runs at a time. */
  lemma OneBody(s: State, t: nat, u: nat)
    requires Reachable(s) && t < |s.threads| && u < |s.threads| && t != u
    ensures !(s.threads[t].Running? && s.threads[u].Running?)
  {
    Always(s);
    if s.threads[t].Running? {
      AtMostOne(s.threads, OwnerOf(), t, u);
    }
  }

  /** At most one body ever succeeds, and none runs after it has. */
  lemma OneSuccess(s: State, t: nat)
    requires Reachable(s)
    ensures s.succeeded <= 1
    ensures t < |s.threads| && s.threads[t].Running? ==> s.succeeded == 0
  {
    Always(s);
    SuccessesOwn(s.threads);
    if t < |s.threads| && s.threads[t].Running? {
      SumAt(s.threads, OwnerOf(), t);
      OwnerNoSuccess(s.threads, t);
    }
  }

  lemma {:induction false} OwnerNoSuccess(ts: seq<Pc>, t: nat)
    requires t < |ts| && ts[t].Running?
    ensures Sum(ts, SuccessOf()) + 1 <= Sum(ts, OwnerOf())
  {
    SuccessesOwn(ts[1..]);
    if t > 0 {
      OwnerNoSuccess(ts[1..], t - 1);
    }
  }

  /** Every call that returns normally returns after the one success. */
  lemma ReturnsAfterSuccess(s: State)
    requires Reachable(s) && s.returned > 0
    ensures s.succeeded == 1 && s.flag == AllOnes
  {
    Always(s);
    Returned(s);
  }

  // ----- what a call achieves

  /** Up to k steps of thread t, while the others stand still. */
  function Alone(s: State, t: nat, k: nat): State
    decreases k
  {
    if k == 0 || !Enabled(s, Step(t)) then s else Alone(Apply(s, Step(t)), t, k - 1)
  }

  /** A caller that finds the flag 0 and the mutex free runs the body after four steps of its own. */
  lemma CallRuns(s: State, t: nat)
    requires t < |s.threads| && s.threads[t] == Outside && s.flag == Zero && !s.mutex
    ensures Alone(Apply(s, Enter(t)), t, 4) == s.(flag := One, threads := s.threads[t := Running])
  {
    var s1 := Apply(s, Enter(t));
    var s2 := Go(s, t, Wanting);
    assert s1.threads[t := Wanting] == s2.threads && Apply(s1, Step(t)) == s2;
    WaiterRuns(s2, t);
    assert s2.threads[t := Running] == s.threads[t := Running];
  }

  /** And so does one that wants the mutex or waits, after three. */
  lemma WaiterRuns(s: State, t: nat)
    requires t < |s.threads| && (s.threads[t] == Wanting || s.threads[t] == Waiting) && s.flag == Zero && !s.mutex
    ensures Alone(s, t, 3) == s.(flag := One, threads := s.threads[t := Running])
  {
    var s1 := Go(s, t, Testing).(mutex := true);
    var s2 := Go(s, t, Claimed).(mutex := true, flag := One);
    var s3 := Go(s, t, Running).(flag := One);
    assert Apply(s, Step(t)) == s1;
    assert s1.threads[t := Claimed] == s2.threads && Apply(s1, Step(t)) == s2;
    assert s2.threads[t := Running] == s3.threads && Apply(s2, Step(t)) == s3;
    assert Alone(s3, t, 0) == s3 && Alone(s2, t, 1) == s3 && Alone(s1, t, 2) == s3;
  }

  /** A body that succeeds sets the flag to all ones, and its call returns. */
  lemma BodySucceeds(s: State, t: nat)
    requires t < |s.threads| && s.threads[t] == Running && !s.mutex
    ensures Alone(s, t, 4)
         == s.(flag := AllOnes, threads := s.threads[t := Outside], succeeded := s.succeeded + 1, returned := s.returned + 1)
  {
    var s1 := Go(s, t, After(false)).(succeeded := s.succeeded + 1);
    assert Apply(s, Step(t)) == s1;
    AfterBody(s1, t, false);
    assert s1.threads[t := Outside] == s.threads[t := Outside];
  }

  /** One that throws sets it to 0 again, and its call does not return. */
  lemma BodyThrows(s: State, t: nat)
    requires t < |s.threads| && s.threads[t] == Running && !s.mutex
    ensures Alone(Apply(s, Throw(t)), t, 3) == s.(flag := Zero, threads := s.threads[t := Outside])
  {
    var s1 := Apply(s, Throw(t));
    AfterBody(s1, t, true);
    assert s1.threads[t := Outside] == s.threads[t := Outside];
  }

  lemma AfterBody(s: State, t: nat, threw: bool)
    requires t < |s.threads| && s.threads[t] == After(threw) && !s.mutex
    ensures Alone(s, t, 3) == s.(flag := if threw then Zero else AllOnes, threads := s.threads[t := Outside],
                                 returned := if threw then s.returned else s.returned + 1)
  {
    var s1 := Go(s, t, Storing(threw)).(mutex := true);
    var s2 := Go(s, t, Stored(threw)).(mutex := true, flag := if threw then Zero else AllOnes);
    var s3 := Go(s, t, Outside).(flag := s2.flag, returned := if threw then s.returned else s.returned + 1);
    assert Apply(s, Step(t)) == s1;
    assert s1.threads[t := Stored(threw)] == s2.threads && Apply(s1, Step(t)) == s2;
    assert s2.threads[t := Outside] == s3.threads && Apply(s2, Step(t)) == s3;
    assert Alone(s3, t, 0) == s3 && Alone(s2, t, 1) == s3 && Alone(s1, t, 2) == s3;
  }

  /** With the flag all ones a caller returns at its first step, and one that wants the mutex or waits after
      three; neither runs the body or changes anything else. */
  lemma CallPasses(s: State, t: nat)
    requires t < |s.threads| && s.flag == AllOnes
    ensures s.threads[t] == Outside ==> Alone(Apply(s, Enter(t)), t, 1) == s.(returned := s.returned + 1)
    ensures (s.threads[t] == Wanting || s.threads[t] == Waiting) && !s.mutex ==>
      Alone(s, t, 3) == s.(threads := s.threads[t := Outside], returned := s.returned + 1)
  {
    if s.threads[t] == Outside {
      var s1 := Apply(s, Enter(t));
      assert s1.threads[t := Outside] == s.threads && Alone(Apply(s1, Step(t)), t, 0) == Apply(s1, Step(t));
    } else if (s.threads[t] == Wanting || s.threads[t] == Waiting) && !s.mutex {
      WaiterPasses(s, t);
    }
  }

  lemma WaiterPasses(s: State, t: nat)
    requires t < |s.threads| && (s.threads[t] == Wanting || s.threads[t] == Waiting) && s.flag == AllOnes && !s.mutex
    ensures Alone(s, t, 3) == s.(threads := s.threads[t := Outside], returned := s.returned + 1)
  {
    var s1 := Go(s, t, Testing).(mutex := true);
    var s2 := Go(s, t, Leaving).(mutex := true);
    var s3 := Go(s, t, Outside).(returned := s.returned + 1);
    assert Apply(s, Step(t)) == s1;
    assert s1.threads[t := Leaving] == s2.threads && Apply(s1, Step(t)) == s2;
    assert s2.threads[t := Outside] == s3.threads && Apply(s2, Step(t)) == s3;
    assert Alone(s3, t, 0) == s3 && Alone(s2, t, 1) == s3 && Alone(s1, t, 2) == s3;
  }

  /** A call on another flag takes the same mutex and gives it back. */
  lemma OtherFlags(s: State, t: nat)
    requires Enabled(s, Wander(t))
    ensures Apply(s, Wander(t)).mutex && Alone(Apply(s, Wander(t)), t, 1) == s
  {
    var s1 := Apply(s, Wander(t));
    assert s1.threads[t := Outside] == s.threads;
    assert Alone(Apply(s1, Step(t)), t, 0) == s;
  }

  /** So the first call runs its body and returns with the one success; if the body throws, the next caller
      runs its own. */
  lemma FirstCall(s: State, t: nat, u: nat)
    requires Reachable(s) && s.flag == Zero && !s.mutex
    requires t < |s.threads| && s.threads[t] == Outside && u < |s.threads| && s.threads[u] == Outside
    ensures var running := Alone(Apply(s, Enter(t)), t, 4);
            && running.threads[t] == Running
            && Alone(running, t, 4) == s.(flag := AllOnes, succeeded := 1, returned := s.returned + 1)
            && (var failed := Alone(Apply(running, Throw(t)), t, 3);
                failed == s && Alone(Apply(failed, Enter(u)), u, 4).threads[u] == Running)
  {
    Always(s);
    SuccessesOwn(s.threads);
    CallRuns(s, t);
    var running := Alone(Apply(s, Enter(t)), t, 4);
    BodySucceeds(running, t);
    BodyThrows(running, t);
    assert running.threads[t := Outside] == s.threads;
    CallRuns(s, u);
  }

  // ----- nobody is stuck

  lemma {:induction false} RunConcat(s: State, es: seq<Event>, r: State, fs: seq<Event>, q: State)
    requires Run(s, es, r) && Run(r, fs, q)
    ensures Run(s, es + fs, q)
    decreases |es|
  {
    if es == [] {
      assert es + fs == fs;
    } else {
      RunConcat(Apply(s, es[0]), es[1..], r, fs, q);
      assert (es + fs)[1..] == es[1..] + fs;
    }
  }

  /** In a call that has not thrown. */
  predicate Calling(p: Pc) {
    p.Entered? || p.Wanting? || p.Testing? || p.Waiting? || p.Claimed? || p.Running? || p == After(false)
    || p == Storing(false) || p == Stored(false) || p.Leaving?
  }

  /** No call was lost from s to r: it goes on, or one has returned. */
  ghost predicate CallsKept(s: State, r: State) {
    && |r.threads| == |s.threads| && r.returned >= s.returned
    && forall t | 0 <= t < |s.threads| && Calling(s.threads[t]) :: Calling(r.threads[t]) || r.returned > s.returned
  }

  lemma {:induction false} CallsKeptOn(s: State, r: State, q: State)
    requires CallsKept(s, r) && CallsKept(r, q)
    ensures CallsKept(s, q)
  {
  }

  lemma StepKeepsCalls(s: State, t: nat)
    requires Enabled(s, Step(t))
    ensures CallsKept(s, Apply(s, Step(t)))
  {
  }

  ghost predicate LeadsHere(s: State, es: seq<Event>, r: State) {
    Run(s, es, r) && Invariant(r) && CallsKept(s, r)
  }

  /** es leads from s to r, which is as sound as s, without losing a call. Worded so that the verifier
      looks inside only where LeadsHere is mentioned. */
  ghost predicate Leads(s: State, es: seq<Event>, r: State) {
    forall q | q == r :: LeadsHere(s, es, q)
  }

  lemma {:induction false} LeadsOn(s: State, es: seq<Event>, r: State, fs: seq<Event>, q: State)
    requires Leads(s, es, r) && Leads(r, fs, q)
    ensures Leads(s, es + fs, q)
  {
    assert LeadsHere(s, es, r) && LeadsHere(r, fs, q);
    RunConcat(s, es, r, fs, q);
    CallsKeptOn(s, r, q);
    assert LeadsHere(s, es + fs, q);
  }

  lemma {:induction false} LeadsNowhere(s: State)
    requires Invariant(s)
    ensures Leads(s, [], s)
  {
    assert LeadsHere(s, [], s);
  }

  lemma {:induction false} StepLeads(s: State, t: nat)
    requires Invariant(s) && Enabled(s, Step(t))
    ensures Leads(s, [Step(t)], Apply(s, Step(t)))
  {
    var r := Apply(s, Step(t));
    Keep(s, Step(t));
    StepKeepsCalls(s, t);
    assert [Step(t)][1..] == [] && Run(r, [], r);
    assert LeadsHere(s, [Step(t)], r);
  }

  lemma {:induction false} AloneLeads(s: State, t: nat, k: nat) returns (es: seq<Event>)
    requires Invariant(s)
    ensures Leads(s, es, Alone(s, t, k))
    decreases k
  {
    es := [];
    if k > 0 && Enabled(s, Step(t)) {
      StepLeads(s, t);
      Keep(s, Step(t));
      var fs := AloneLeads(Apply(s, Step(t)), t, k - 1);
      LeadsOn(s, [Step(t)], Apply(s, Step(t)), fs, Alone(s, t, k));
      es := [Step(t)] + fs;
    } else {
      LeadsNowhere(s);
    }
  }

  /** Whoever is in the mutex leaves it after one or two steps. */
  lemma {:induction false} HolderLeaves(s: State, u: nat)
    requires Invariant(s) && s.mutex && u < |s.threads| && InMutexOf()(s.threads[u]) > 0
    ensures !Alone(s, u, 1).mutex || !Alone(s, u, 2).mutex
  {
    var s1 := Apply(s, Step(u));
    assert Alone(s1, u, 0) == s1 && Alone(s, u, 1) == s1;
    assert Alone(s1, u, 1) == if Enabled(s1, Step(u)) then Alone(Apply(s1, Step(u)), u, 0) else s1;
    assert Alone(s, u, 2) == Alone(s1, u, 1);
  }

  lemma {:induction false} FreeMutex(s: State) returns (es: seq<Event>, r: State)
    requires Invariant(s)
    ensures Leads(s, es, r) && !r.mutex
  {
    es, r := [], s;
    LeadsNowhere(s);
    if s.mutex {
      var u := SomeShare(s.threads, InMutexOf());
      HolderLeaves(s, u);
      var k := if !Alone(s, u, 1).mutex then 1 else 2;
      es := AloneLeads(s, u, k);
      r := Alone(s, u, k);
    }
  }

  /** With the mutex free, the owner of the flag is in the body or past it, and can finish. */
  lemma {:induction false} FreeFlag(s: State) returns (es: seq<Event>, r: State)
    requires Invariant(s) && !s.mutex
    ensures Leads(s, es, r) && !r.mutex && r.flag != One
  {
    es, r := [], s;
    LeadsNowhere(s);
    if s.flag == One {
      var u := SomeShare(s.threads, OwnerOf());
      SumAt(s.threads, InMutexOf(), u);
      if s.threads[u] == Running {
        BodySucceeds(s, u);
        es := AloneLeads(s, u, 4);
        r := Alone(s, u, 4);
      } else {
        AfterBody(s, u, s.threads[u].threw);
        es := AloneLeads(s, u, 3);
        r := Alone(s, u, 3);
      }
    }
  }

  /** With the mutex free and nobody in a body, a call is through after at most eight steps of its own. */
  lemma {:induction false} CallFinishes(s: State, t: nat) returns (es: seq<Event>, r: State)
    requires Invariant(s) && !s.mutex && s.flag != One && t < |s.threads|
    ensures Leads(s, es, r) && t < |r.threads| && r.threads[t] == Outside && !r.mutex
  {
    SumAt(s.threads, InMutexOf(), t);
    SumAt(s.threads, OwnerOf(), t);
    es, r := [], s;
    LeadsNowhere(s);
    if s.threads[t] == Entered {
      StepLeads(s, t);
      Keep(s, Step(t));
      es, r := [Step(t)], Apply(s, Step(t));
    }
    if r.threads[t] != Outside {
      var fs, q := WaiterFinishes(r, t);
      LeadsOn(s, es, r, fs, q);
      es, r := es + fs, q;
    }
  }

  lemma {:induction false} WaiterFinishes(s: State, t: nat) returns (es: seq<Event>, r: State)
    requires Invariant(s) && !s.mutex && s.flag != One && t < |s.threads|
    requires s.threads[t] == Wanting || s.threads[t] == Waiting
    ensures Leads(s, es, r) && t < |r.threads| && r.threads[t] == Outside && !r.mutex
  {
    es := AloneLeads(s, t, 3);
    r := Alone(s, t, 3);
    if s.flag == AllOnes {
      WaiterPasses(s, t);
    } else {
      assert LeadsHere(s, es, r);
      WaiterRuns(s, t);
      BodySucceeds(r, t);
      var q := Alone(r, t, 4);
      var fs := AloneLeads(r, t, 4);
      LeadsOn(s, es, r, fs, q);
      es, r := es + fs, q;
    }
  }

  /** From every reachable state every thread can get out: some run ends with it outside and the mutex free.
      If it was in a call that has not thrown, a call has returned meanwhile and the one success has
      happened. */
  lemma {:induction false} NeverStuck(s: State, t: nat) returns (es: seq<Event>, r: State)
    requires Reachable(s) && t < |s.threads|
    ensures Run(s, es, r) && t < |r.threads| && r.threads[t] == Outside && !r.mutex
    ensures Calling(s.threads[t]) ==> r.returned > s.returned && r.flag == AllOnes && r.succeeded == 1
  {
    Always(s);
    es, r := CanLeave(s, t);
    assert LeadsHere(s, es, r);
    if Calling(s.threads[t]) {
      assert !Calling(r.threads[t]);
      Returned(r);
    }
  }

  lemma {:induction false} CanLeave(s: State, t: nat) returns (es: seq<Event>, r: State)
    requires Invariant(s) && t < |s.threads|
    ensures Leads(s, es, r) && t < |r.threads| && r.threads[t] == Outside && !r.mutex
  {
    var q;
    es, q := FreeMutex(s);
    assert LeadsHere(s, es, q);
    var fs, p := FreeFlag(q);
    assert LeadsHere(q, fs, p);
    LeadsOn(s, es, q, fs, p);
    es := es + fs;
    fs, r := CallFinishes(p, t);
    LeadsOn(s, es, p, fs, r);
    es := es + fs;
  }

  lemma Returned(s: State)
    requires Invariant(s) && s.returned > 0
    ensures s.succeeded == 1 && s.flag == AllOnes
  {
    SuccessesOwn(s.threads);
  }
}
