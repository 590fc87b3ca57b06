/** __shared_count and __shared_weak_count in libc++'s memory.cpp: reference counts biased by one, a
    last strong owner that destroys the object and then lets go of the weak count, and a lock() that
    compares and swaps. Each atomic access of each thread is one event. */
module SharedCount {
  import opened Threads

  /** Where a thread is: between calls; in lock() with the count it has loaded, or about to load it again
      after a failed compare-and-swap; after the decrement to
      -1 and before __on_zero_shared; after that and before __release_weak; after the decrement of the
      weak count to -1 and before __on_zero_shared_weak. */
  datatype Pc = Idle | Locking(seen: int) | Reloading | Zeroing | LettingGo | Freeing

  /** A thread with the strong and weak owners it answers for. */
  datatype Thread = Thread(strong: nat, weak: nat, pc: Pc)

  /** The two counts, and how often the object and the control block were destroyed. */
  datatype State = State(shared: int, weakCount: int, threads: seq<Thread>, objectGone: nat, blockGone: nat)

  /** One strong owner, made by the thread that created the object. */
  function Initial(threads: nat): State
    requires threads > 0
  {
    State(0, 0, [Thread(1, 0, Idle)] + seq(threads - 1, _ => Thread(0, 0, Idle)), 0, 0)
  }

  datatype Event =
    | AddShared(t: nat) | AddWeak(t: nat)
    | ReleaseShared(t: nat) | ReleaseWeak(t: nat)
    | Destroy(t: nat) | LetGo(t: nat) | Free(t: nat)
    | LockLoad(t: nat) | LockStep(t: nat) | LockReload(t: nat)
    | GiveStrong(t: nat, u: nat) | GiveWeak(t: nat, u: nat)

  /** Owners are disciplined: who copies or releases an owner has one, and lock() is called on a weak
      owner that stays until it returns. */
  predicate Enabled(s: State, e: Event) {
    match e
    case AddShared(t) => Can(s, t) && s.threads[t].strong > 0
    case AddWeak(t) => Can(s, t) && (s.threads[t].strong > 0 || s.threads[t].weak > 0)
    case ReleaseShared(t) => Can(s, t) && s.threads[t].strong > 0
    case ReleaseWeak(t) => Can(s, t) && s.threads[t].weak > 0
    case Destroy(t) => t < |s.threads| && s.threads[t].pc == Zeroing
    case LetGo(t) => t < |s.threads| && s.threads[t].pc == LettingGo
    case Free(t) => t < |s.threads| && s.threads[t].pc == Freeing
    case LockLoad(t) => Can(s, t) && s.threads[t].weak > 0
    case LockStep(t) => t < |s.threads| && s.threads[t].pc.Locking?
    case LockReload(t) => t < |s.threads| && s.threads[t].pc == Reloading
    case GiveStrong(t, u) => Can(s, t) && u < |s.threads| && u != t && s.threads[t].strong > 0
    case GiveWeak(t, u) => Can(s, t) && u < |s.threads| && u != t && s.threads[t].weak > 0
  }

  predicate Can(s: State, t: nat) {
    t < |s.threads| && s.threads[t].pc == Idle
  }

  function Set(s: State, t: nat, x: Thread): State
    requires t < |s.threads|
  {
    s.(threads := s.threads[t := x])
  }

  /** decrement(__shared_weak_owners_) == -1. */
  function DropWeak(s: State, t: nat, x: Thread): State
    requires t < |s.threads|
  {
    Set(s, t, x.(pc := if s.weakCount - 1 == -1 then Freeing else Idle)).(weakCount := s.weakCount - 1)
  }

  function Apply(s: State, e: Event): State
    requires Enabled(s, e)
  {
    var x := s.threads[e.t];
    match e
    case AddShared(t) => Set(s, t, x.(strong := x.strong + 1)).(shared := s.shared + 1)
    case AddWeak(t) => Set(s, t, x.(weak := x.weak + 1)).(weakCount := s.weakCount + 1)
    case ReleaseShared(t) =>
      Set(s, t, Thread(x.strong - 1, x.weak, if s.shared - 1 == -1 then Zeroing else Idle)).(shared := s.shared - 1)
    case ReleaseWeak(t) => DropWeak(s, t, x.(weak := x.weak - 1))
    case Destroy(t) => Set(s, t, x.(pc := LettingGo)).(objectGone := s.objectGone + 1)
    case LetGo(t) => DropWeak(s, t, x)
    case Free(t) => Set(s, t, x.(pc := Idle)).(blockGone := s.blockGone + 1)
    case LockLoad(t) => Set(s, t, x.(pc := Locking(s.shared)))
    case LockStep(t) =>
      if x.pc.seen == -1 then Set(s, t, x.(pc := Idle))
      else if s.shared == x.pc.seen then Set(s, t, Thread(x.strong + 1, x.weak, Idle)).(shared := x.pc.seen + 1)
      else Set(s, t, x.(pc := Reloading))
    case LockReload(t) => Set(s, t, x.(pc := Locking(s.shared)))
    case GiveStrong(t, u) =>
      var y := s.threads[u];
      Set(Set(s, t, x.(strong := x.strong - 1)), u, y.(strong := y.strong + 1))
    case GiveWeak(t, u) =>
      var y := s.threads[u];
      Set(Set(s, t, x.(weak := x.weak - 1)), u, y.(weak := y.weak + 1))
  }

  predicate Run(s: State, es: seq<Event>, t: State)
    decreases |es|
  {
    if es == [] then s == t else Enabled(s, es[0]) && Run(Apply(s, es[0]), es[1..], t)
  }

  // ----- shares

  function StrongOf(): Thread -> nat { (x: Thread) => x.strong }
  function WeakOf(): Thread -> nat { (x: Thread) => x.weak }
  function ZeroingOf(): Thread -> nat { (x: Thread) => if x.pc == Zeroing then 1 else 0 }
  function LettingOf(): Thread -> nat { (x: Thread) => if x.pc == LettingGo then 1 else 0 }
  function FreeingOf(): Thread -> nat { (x: Thread) => if x.pc == Freeing then 1 else 0 }

  function Strong(s: State): nat { Sum(s.threads, StrongOf()) }
  function Weak(s: State): nat { Sum(s.threads, WeakOf()) }
  function Zeroers(s: State): nat { Sum(s.threads, ZeroingOf()) }
  function Letters(s: State): nat { Sum(s.threads, LettingOf()) }
  function Freers(s: State): nat { Sum(s.threads, FreeingOf()) }

  /** The weak owner that the strong owners hold together, until the last one has let go of it. */
  function Common(s: State): nat {
    if Strong(s) > 0 then 1 else Zeroers(s) + Letters(s)
  }

  ghost predicate Counts(s: State) {
    && s.shared == Strong(s) - 1
    && s.weakCount == Weak(s) + Common(s) - 1
    && Zeroers(s) + Letters(s) <= 1 && Freers(s) <= 1
    && (Zeroers(s) + Letters(s) > 0 ==> Strong(s) == 0)
    && (Freers(s) > 0 ==> s.weakCount == -1)
    && s.objectGone + Zeroers(s) == (if Strong(s) == 0 then 1 else 0)
    && s.blockGone + Freers(s) == (if s.weakCount == -1 then 1 else 0)
  }

  /** A thread in lock() has a weak owner, and a count of -1 that it has loaded is still -1. */
  ghost predicate Disciplined(s: State) {
    forall t | 0 <= t < |s.threads| && (s.threads[t].pc.Locking? || s.threads[t].pc.Reloading?) ::
      s.threads[t].weak > 0 && (s.threads[t].pc == Locking(-1) ==> s.shared == -1)
  }

  ghost predicate Invariant(s: State) {
    Counts(s) && Disciplined(s)
  }

  lemma Shares(s: State, t: nat, x: Thread)
    requires t < |s.threads|
    ensures var r := Set(s, t, x);
            var o := s.threads[t];
            && Strong(r) + o.strong == Strong(s) + x.strong
            && Weak(r) + o.weak == Weak(s) + x.weak
            && Zeroers(r) + ZeroingOf()(o) == Zeroers(s) + ZeroingOf()(x)
            && Letters(r) + LettingOf()(o) == Letters(s) + LettingOf()(x)
            && Freers(r) + FreeingOf()(o) == Freers(s) + FreeingOf()(x)
  {
    SumUpdate(s.threads, StrongOf(), t, x);
    SumUpdate(s.threads, WeakOf(), t, x);
    SumUpdate(s.threads, ZeroingOf(), t, x);
    SumUpdate(s.threads, LettingOf(), t, x);
    SumUpdate(s.threads, FreeingOf(), t, x);
  }

  lemma Share(s: State, t: nat)
    requires t < |s.threads|
    ensures var o := s.threads[t];
            && o.strong <= Strong(s) && o.weak <= Weak(s)
            && ZeroingOf()(o) <= Zeroers(s) && LettingOf()(o) <= Letters(s) && FreeingOf()(o) <= Freers(s)
  {
    SumAt(s.threads, StrongOf(), t);
    SumAt(s.threads, WeakOf(), t);
    SumAt(s.threads, ZeroingOf(), t);
    SumAt(s.threads, LettingOf(), t);
    SumAt(s.threads, FreeingOf(), t);
  }

  lemma KeepCounts(s: State, e: Event)
    requires Counts(s) && Enabled(s, e)
    ensures Counts(Apply(s, e))
  {
    var r := Apply(s, e);
    if e.GiveStrong? || e.GiveWeak? {
      KeepGive(s, e);
    } else {
      Share(s, e.t);
      Shares(s, e.t, r.threads[e.t]);
    }
  }

  lemma KeepGive(s: State, e: Event)
    requires Counts(s) && Enabled(s, e) && (e.GiveStrong? || e.GiveWeak?)
    ensures Counts(Apply(s, e))
  {
    var r := Apply(s, e);
    var mid := Set(s, e.t, r.threads[e.t]);
    assert r == Set(mid, e.u, r.threads[e.u]);
    Shares(s, e.t, r.threads[e.t]);
    Shares(mid, e.u, r.threads[e.u]);
  }

  /** A count of -1 stays, because nobody has a strong owner to copy. */
  lemma GoneStays(s: State, e: Event)
    requires Counts(s) && Enabled(s, e) && s.shared == -1
    ensures Apply(s, e).shared == -1
  {
    Share(s, e.t);
  }

  lemma KeepDisciplined(s: State, e: Event)
    requires Counts(s) && Disciplined(s) && Enabled(s, e)
    ensures Disciplined(Apply(s, e))
  {
    if s.shared == -1 {
      GoneStays(s, e);
    }
  }

  lemma Keep(s: State, e: Event)
    requires Invariant(s) && Enabled(s, e)
    ensures Invariant(Apply(s, e))
  {
    KeepCounts(s, e);
    KeepDisciplined(s, e);
  }

  lemma {:induction false} KeepRun(s: State, es: seq<Event>, t: State)
    requires Invariant(s) && Run(s, es, t)
    ensures Invariant(t)
    decreases |es|
  {
    if es != [] {
      Keep(s, es[0]);
      KeepRun(Apply(s, es[0]), es[1..], t);
    }
  }

  lemma InitialOk(threads: nat)
    requires threads > 0
    ensures Invariant(Initial(threads))
  {
    var s := Initial(threads);
    var rest := s.threads[1..];
    NoShares(rest, StrongOf());
    NoShares(rest, WeakOf());
    NoShares(rest, ZeroingOf());
    NoShares(rest, LettingOf());
    NoShares(rest, FreeingOf());
  }

  ghost predicate Reached(s: State) {
    exists threads: nat, es :: threads > 0 && Run(Initial(threads), es, s)
  }

  /** Some run of some number of threads ends in s. Worded so that the verifier looks inside only where
      Reached is mentioned. */
  ghost predicate Reachable(s: State) {
    forall r | r == s :: Reached(r)
  }

  lemma Always(s: State)
    requires Reachable(s)
    ensures Invariant(s)
  {
    assert Reached(s);
    var threads: nat, es :| threads > 0 && Run(Initial(threads), es, s);
    InitialOk(threads);
    KeepRun(Initial(threads), es, s);
  }

  // ----- main results

  /** The object is destroyed at most once, exactly when the last strong owner has left; the control
      block at most once, after that, and when the last weak owner has left too. */
  lemma DestroyedOnce(s: State)
    requires Reachable(s)
    ensures s.objectGone <= 1 && s.blockGone <= 1
    ensures s.objectGone == 1 <==> Strong(s) == 0 && Zeroers(s) == 0
    ensures s.blockGone == 1 <==> Strong(s) == 0 && Weak(s) == 0 && Zeroers(s) == 0 && Letters(s) == 0 && Freers(s) == 0
    ensures s.blockGone <= s.objectGone
  {
    Always(s);
  }

  /** Nothing is used after it is gone: a strong owner still has its object, and whoever has an owner or
      is inside a call still has the control block. */
  lemma NoUseAfterDestruction(s: State, t: nat)
    requires Reachable(s) && t < |s.threads|
    ensures s.threads[t].strong > 0 || s.threads[t].pc == Zeroing ==> s.objectGone == 0
    ensures s.threads[t].strong > 0 || s.threads[t].weak > 0 || s.threads[t].pc != Idle ==> s.blockGone == 0
  {
    Always(s);
    Share(s, t);
  }

  lemma StaysGone(s: State, e: Event)
    requires Invariant(s) && Enabled(s, e) && s.shared == -1
    ensures Apply(s, e).shared == -1 && Strong(Apply(s, e)) == 0
  {
    GoneStays(s, e);
    Keep(s, e);
  }

  /** A count that has reached -1 is never revived, whatever lock() calls are under way. */
  lemma {:induction false} NeverRevived(s: State, es: seq<Event>, t: State)
    requires Invariant(s) && Run(s, es, t) && s.shared == -1
    ensures t.shared == -1 && Strong(t) == 0
    decreases |es|
  {
    if es != [] {
      StaysGone(s, es[0]);
      Keep(s, es[0]);
      NeverRevived(Apply(s, es[0]), es[1..], t);
    }
  }

  /** A lock() that succeeds gives an owner to an object that is still there; one that gives up does so
      when there is no strong owner. */
  lemma LockMeaning(s: State, t: nat)
    requires Reachable(s) && Enabled(s, LockStep(t))
    ensures var r := Apply(s, LockStep(t));
            && (r.threads[t].strong > s.threads[t].strong ==> s.objectGone == 0 && Strong(s) > 0)
            && (r.threads[t].pc == Idle && r.threads[t].strong == s.threads[t].strong ==> Strong(s) == 0)
  {
    Always(s);
  }

  // ----- what the calls achieve

  /** What a thread between calls may do: copy, release or hand over an owner that it has, and ask a weak one
      for a strong one. */
  lemma MayCall(s: State, t: nat, u: nat)
    requires Can(s, t) && u < |s.threads| && u != t
    ensures s.threads[t].strong > 0 ==>
      Enabled(s, AddShared(t)) && Enabled(s, ReleaseShared(t)) && Enabled(s, AddWeak(t)) && Enabled(s, GiveStrong(t, u))
    ensures s.threads[t].weak > 0 ==>
      Enabled(s, AddWeak(t)) && Enabled(s, ReleaseWeak(t)) && Enabled(s, LockLoad(t)) && Enabled(s, GiveWeak(t, u))
  {
  }

  /** Who gains or loses an owner by an event: copying and a successful lock() give one more, releasing takes
      one, handing over moves one, and nothing else changes anybody's owners. */
  lemma OwnersMove(s: State, e: Event, u: nat)
    requires Enabled(s, e) && u < |s.threads|
    ensures var r := Apply(s, e);
            && |r.threads| == |s.threads|
            && r.threads[u].strong == s.threads[u].strong
               + (if e == AddShared(u) || (e == LockStep(u) && Locks(s, u)) || (e.GiveStrong? && e.u == u) then 1 else 0)
               - (if e == ReleaseShared(u) || (e.GiveStrong? && e.t == u) then 1 else 0)
            && r.threads[u].weak == s.threads[u].weak
               + (if e == AddWeak(u) || (e.GiveWeak? && e.u == u) then 1 else 0)
               - (if e == ReleaseWeak(u) || (e.GiveWeak? && e.t == u) then 1 else 0)
  {
  }

  /** The compare-and-swap of lock() finds the count it has loaded, and that is not -1. */
  predicate Locks(s: State, t: nat) {
    t < |s.threads| && s.threads[t].pc.Locking? && s.threads[t].pc.seen == s.shared != -1
  }

  /** A lock() that nobody disturbs succeeds exactly if there is a strong owner, and otherwise changes
      nothing. */
  lemma LockAlone(s: State, t: nat)
    requires Reachable(s) && Can(s, t) && s.threads[t].weak > 0
    ensures var x := s.threads[t];
            Apply(Apply(s, LockLoad(t)), LockStep(t))
            == if Strong(s) > 0 then s.(shared := s.shared + 1, threads := s.threads[t := x.(strong := x.strong + 1)]) else s
  {
    Always(s);
    var x, s1 := s.threads[t], Apply(s, LockLoad(t));
    assert s1.threads[t := x] == s.threads;
    assert s1.threads[t := x.(strong := x.strong + 1)] == s.threads[t := x.(strong := x.strong + 1)];
  }

  lemma {:induction false} RunConcat(s: State, es: seq<Event>, r: State, fs: seq<Event>, q: State)
    requires Run(s, es, r) && Run(r, fs, q)
    ensures Run(s, es + fs, q)
    decreases |es|
  {
    if es == [] {
      assert es + fs == fs;
    } else {
      RunConcat(Apply(s, es[0]), es[1..], r, fs, q);
      assert (es + fs)[1..] == es[1..] + fs;
    }
  }

  ghost predicate LeadsHere(s: State, es: seq<Event>, r: State, t: nat) {
    && Run(s, es, r) && Invariant(r) && t < |s.threads| == |r.threads|
    && forall u | 0 <= u < |s.threads| && u != t :: r.threads[u] == s.threads[u]
  }

  /** es are events of thread t alone that lead from s to r. Worded so that the verifier looks inside only
      where LeadsHere is mentioned. */
  ghost predicate Leads(s: State, es: seq<Event>, r: State, t: nat) {
    forall q | q == r :: LeadsHere(s, es, q, t)
  }

  lemma LeadsOne(s: State, e: Event)
    requires Invariant(s) && Enabled(s, e) && !e.GiveStrong? && !e.GiveWeak?
    ensures Leads(s, [e], Apply(s, e), e.t)
  {
    var r := Apply(s, e);
    Keep(s, e);
    assert [e][1..] == [] && Run(r, [], r);
    assert LeadsHere(s, [e], r, e.t);
  }

  lemma LeadsOn(s: State, es: seq<Event>, r: State, fs: seq<Event>, q: State, t: nat)
    requires Leads(s, es, r, t) && Leads(r, fs, q, t)
    ensures Leads(s, es + fs, q, t)
  {
    assert LeadsHere(s, es, r, t) && LeadsHere(r, fs, q, t);
    RunConcat(s, es, r, fs, q);
    assert LeadsHere(s, es + fs, q, t);
  }

  lemma LeadsNowhere(s: State, t: nat)
    requires Invariant(s) && t < |s.threads|
    ensures Leads(s, [], s, t)
  {
    assert LeadsHere(s, [], s, t);
  }

  /** What a thread still has to do before it is between calls again. */
  function Left(p: Pc): nat {
    match p
    case Idle => 0
    case Freeing => 1
    case LettingGo => 2
    case Zeroing => 3
    case _ => 4
  }

  /** Its next event. */
  function Next(p: Pc, t: nat): Event
    requires p != Idle
  {
    match p
    case Freeing => Free(t)
    case LettingGo => LetGo(t)
    case Zeroing => Destroy(t)
    case Locking(_) => LockStep(t)
    case Reloading => LockReload(t)
  }

  /** The end of a release: at most destroying the object, letting go and freeing the block. */
  lemma {:induction false} ReleaseEnds(s: State, t: nat) returns (es: seq<Event>, r: State)
    requires Invariant(s) && t < |s.threads| && Left(s.threads[t].pc) <= 3
    ensures Leads(s, es, r, t) && t < |r.threads| && r.threads[t] == s.threads[t].(pc := Idle)
    decreases Left(s.threads[t].pc)
  {
    es, r := [], s;
    LeadsNowhere(s, t);
    if s.threads[t].pc != Idle {
      var e := Next(s.threads[t].pc, t);
      LeadsOne(s, e);
      Keep(s, e);
      var q := Apply(s, e);
      es, r := ReleaseEnds(q, t);
      LeadsOn(s, [e], q, es, r, t);
      es := [e] + es;
    }
  }

  /** Every lock() under way ends if nobody disturbs it, and succeeds exactly if there is a strong owner. */
  lemma LockEnds(s: State, t: nat) returns (es: seq<Event>, r: State)
    requires Invariant(s) && t < |s.threads| && (s.threads[t].pc.Locking? || s.threads[t].pc.Reloading?)
    ensures Leads(s, es, r, t) && t < |r.threads| && |es| <= 3
    ensures var x := s.threads[t];
            r.threads[t] == Thread(if Strong(s) > 0 then x.strong + 1 else x.strong, x.weak, Idle)
  {
    if s.threads[t].pc.Locking? && (s.threads[t].pc.seen == -1 || s.threads[t].pc.seen == s.shared) {
      es, r := [LockStep(t)], Apply(s, LockStep(t));
      LeadsOne(s, LockStep(t));
    } else if s.threads[t].pc.Reloading? {
      es, r := Reloaded(s, t);
    } else {
      var q := Apply(s, LockStep(t));
      LeadsOne(s, LockStep(t));
      Keep(s, LockStep(t));
      StrongSame(s, q, t);
      es, r := Reloaded(q, t);
      LeadsOn(s, [LockStep(t)], q, es, r, t);
      es := [LockStep(t)] + es;
    }
  }

  lemma StrongSame(s: State, q: State, t: nat)
    requires t < |s.threads| == |q.threads| && q == Set(s, t, q.threads[t]) && q.threads[t].strong == s.threads[t].strong
    ensures Strong(q) == Strong(s)
  {
    Shares(s, t, q.threads[t]);
  }

  lemma Reloaded(s: State, t: nat) returns (es: seq<Event>, r: State)
    requires Invariant(s) && t < |s.threads| && s.threads[t].pc.Reloading?
    ensures Leads(s, es, r, t) && t < |r.threads| && |es| == 2
    ensures var x := s.threads[t];
            r.threads[t] == Thread(if Strong(s) > 0 then x.strong + 1 else x.strong, x.weak, Idle)
  {
    var q := Apply(s, LockReload(t));
    LeadsOne(s, LockReload(t));
    Keep(s, LockReload(t));
    StrongSame(s, q, t);
    LeadsOne(q, LockStep(t));
    r := Apply(q, LockStep(t));
    LeadsOn(s, [LockReload(t)], q, [LockStep(t)], r, t);
    es := [LockReload(t)] + [LockStep(t)];
  }

  /** A thread between calls can give up all its owners. */
  lemma {:induction false} GivesUp(s: State, t: nat) returns (es: seq<Event>, r: State)
    requires Invariant(s) && t < |s.threads| && s.threads[t].pc == Idle
    ensures Leads(s, es, r, t) && t < |r.threads| && r.threads[t] == Thread(0, 0, Idle)
    decreases s.threads[t].strong + s.threads[t].weak
  {
    es, r := [], s;
    LeadsNowhere(s, t);
    if s.threads[t].strong + s.threads[t].weak > 0 {
      var e := if s.threads[t].strong > 0 then ReleaseShared(t) else ReleaseWeak(t);
      LeadsOne(s, e);
      Keep(s, e);
      var p := Apply(s, e);
      var fs, q := ReleaseEnds(p, t);
      LeadsOn(s, [e], p, fs, q, t);
      assert LeadsHere(s, [e] + fs, q, t);
      es, r := GivesUp(q, t);
      LeadsOn(s, [e] + fs, q, es, r, t);
      es := [e] + fs + es;
    }
  }

  /** So can one inside a call. */
  lemma Retires(s: State, t: nat) returns (es: seq<Event>, r: State)
    requires Invariant(s) && t < |s.threads|
    ensures Leads(s, es, r, t) && t < |r.threads| && r.threads[t] == Thread(0, 0, Idle)
  {
    var q;
    if s.threads[t].pc.Locking? || s.threads[t].pc.Reloading? {
      es, q := LockEnds(s, t);
    } else {
      es, q := ReleaseEnds(s, t);
    }
    assert LeadsHere(s, es, q, t);
    var fs;
    fs, r := GivesUp(q, t);
    LeadsOn(s, es, q, fs, r, t);
    es := es + fs;
  }

  lemma {:induction false} RetireFrom(s: State, t: nat) returns (es: seq<Event>, r: State)
    requires Invariant(s) && t <= |s.threads| && forall u | 0 <= u < t :: s.threads[u] == Thread(0, 0, Idle)
    ensures Run(s, es, r) && Invariant(r) && forall u | 0 <= u < |r.threads| :: r.threads[u] == Thread(0, 0, Idle)
    decreases |s.threads| - t
  {
    es, r := [], s;
    if t < |s.threads| {
      var q;
      es, q := Retires(s, t);
      assert LeadsHere(s, es, q, t);
      var fs;
      fs, r := RetireFrom(q, t + 1);
      RunConcat(s, es, q, fs, r);
      es := es + fs;
    }
  }

  /** From every reachable state the owners can all be given up, and then object and control block have each
      been destroyed once: nothing leaks. */
  lemma NothingLeaks(s: State) returns (es: seq<Event>, r: State)
    requires Reachable(s)
    ensures Run(s, es, r) && r.objectGone == 1 && r.blockGone == 1
    ensures forall u | 0 <= u < |r.threads| :: r.threads[u] == Thread(0, 0, Idle)
  {
    Always(s);
    es, r := RetireFrom(s, 0);
    NoShares(r.threads, StrongOf());
    NoShares(r.threads, WeakOf());
    NoShares(r.threads, ZeroingOf());
    NoShares(r.threads, LettingOf());
    NoShares(r.threads, FreeingOf());
  }

  /** The release of the last strong owner destroys the object, and the block too if there is no weak owner;
      no other release destroys the object. */
  lemma ReleaseAlone(s: State, t: nat) returns (es: seq<Event>, r: State)
    requires Reachable(s) && Can(s, t) && s.threads[t].strong > 0
    ensures Run(s, [ReleaseShared(t)] + es, r)
    ensures r.objectGone == 1 <==> Strong(s) == 1
    ensures r.blockGone == 1 <==> Strong(s) == 1 && Weak(s) == 0
  {
    Always(s);
    Share(s, t);
    var q, x := Apply(s, ReleaseShared(t)), s.threads[t];
    LeadsOne(s, ReleaseShared(t));
    Keep(s, ReleaseShared(t));
    es, r := ReleaseEnds(q, t);
    LeadsOn(s, [ReleaseShared(t)], q, es, r, t);
    assert LeadsHere(s, [ReleaseShared(t)] + es, r, t);
    assert r.threads == s.threads[t := Thread(x.strong - 1, x.weak, Idle)];
    Shares(s, t, Thread(x.strong - 1, x.weak, Idle));
    SameSums(r, Set(s, t, Thread(x.strong - 1, x.weak, Idle)));
  }

  lemma SameSums(r: State, q: State)
    requires r.threads == q.threads
    ensures Strong(r) == Strong(q) && Weak(r) == Weak(q)
    ensures Zeroers(r) == Zeroers(q) && Letters(r) == Letters(q) && Freers(r) == Freers(q)
  {
  }
}
