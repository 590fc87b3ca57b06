/** The 64-bit guards of function-local statics in libcxxrt's guard.cc, by section 3.3.2 of the Itanium
    C++ ABI. Bits 56 to 63 of the word, which the source calls its first byte, say that initialisation is
    done; the low half is a spin lock. On a little-endian machine the first byte in memory is another one,
    the low byte of the lock: see FirstByteTest. Every read, write and compare-and-swap of every thread is
    one event, and the |= of the release is a read and a write of the whole word. */
module Guard {
  import opened Threads

  /** Where a thread is in __cxa_guard_acquire, in the initialiser, or in the release or abort:
      outside; before the first read of bits 56 to 63; before the compare-and-swap; before the read
      after a failed one; before the last read, with the lock taken or not; initialising; before the
      read, before the write and before the unlocking store of the release; before that of the abort. */
  datatype Pc =
    | Outside | Entered | Spinning | Rechecking | Deciding(mine: bool)
    | Initialising | Reading | Writing(lock: nat) | Unlocking | Aborting

  /** The guard word: whether bits 56 to 63 are 1, and the low half. Then how many initialisations completed and how
      many calls of acquire returned 0. */
  datatype State = State(done: bool, lock: nat, threads: seq<Pc>, completed: nat, skipped: nat)

  datatype Event = Enter(t: nat) | Step(t: nat) | Fail(t: nat)

  function Initial(threads: nat): State {
    State(false, 0, seq(threads, _ => Outside), 0, 0)
  }

  /** Enter calls acquire; Step goes on, where an initialiser that goes on completes; Fail is an
      initialiser that throws. */
  predicate Enabled(s: State, e: Event) {
    match e
    case Enter(t) => t < |s.threads| && s.threads[t] == Outside
    case Step(t) => t < |s.threads| && s.threads[t] != Outside
    case Fail(t) => t < |s.threads| && s.threads[t] == Initialising
  }

  function Go(s: State, t: nat, pc: Pc): State
    requires t < |s.threads|
  {
    s.(threads := s.threads[t := pc])
  }

  function Apply(s: State, e: Event): State
    requires Enabled(s, e)
  {
    match e
    case Enter(t) => Go(s, t, Entered)
    case Fail(t) => Go(s, t, Aborting)
    case Step(t) =>
      match s.threads[t]
      case Entered => if s.done then Go(s, t, Outside).(skipped := s.skipped + 1) else Go(s, t, Spinning)
      case Spinning => if s.lock == 0 then Go(s, t, Deciding(true)).(lock := 1) else Go(s, t, Rechecking)
      case Rechecking => Go(s, t, if s.done then Deciding(false) else Spinning)
      case Deciding(_) =>
        if s.done then Go(s, t, Outside).(skipped := s.skipped + 1) else Go(s, t, Initialising)
      case Initialising => Go(s, t, Reading).(completed := s.completed + 1)
      case Reading => Go(s, t, Writing(s.lock))
      case Writing(low) => Go(s, t, Unlocking).(done := true, lock := low)
      case Unlocking => Go(s, t, Outside).(lock := 0)
      case Aborting => Go(s, t, Outside).(lock := 0)
      case Outside => s
  }

  predicate Run(s: State, es: seq<Event>, t: State)
    decreases |es|
  {
    if es == [] then s == t else Enabled(s, es[0]) && Run(Apply(s, es[0]), es[1..], t)
  }

  // ----- who holds the lock

  /** Took the lock and has neither left with it nor given it back, while the guard is not done. */
  function HolderOf(): Pc -> nat {
    (p: Pc) => if p == Deciding(true) || p.Initialising? || p.Reading? || p.Writing? || p.Aborting? then 1 else 0
  }

  /** Has completed the initialisation and not yet said so. */
  function AnnouncingOf(): Pc -> nat {
    (p: Pc) => if p.Reading? || p.Writing? then 1 else 0
  }

  function Holders(s: State): nat { Sum(s.threads, HolderOf()) }
  function Announcers(s: State): nat { Sum(s.threads, AnnouncingOf()) }

  /** What a single thread's position says about the guard. */
  ghost predicate PcOk(s: State, p: Pc) {
    && (p == Deciding(false) || p == Unlocking ==> s.done)
    && (p.Initialising? || p.Reading? || p.Writing? || p.Aborting? ==> !s.done)
    && (p.Writing? ==> p.lock == 1)
  }

  ghost predicate Counts(s: State) {
    && s.lock <= 1 && (!s.done ==> Holders(s) == s.lock)
    && s.completed == Announcers(s) + (if s.done then 1 else 0)
    && Announcers(s) <= 1 && (s.done ==> Announcers(s) == 0)
    && (s.skipped > 0 ==> s.done)
  }

  ghost predicate Invariant(s: State) {
    Counts(s) && forall t | 0 <= t < |s.threads| :: PcOk(s, s.threads[t])
  }

  lemma Shares(s: State, t: nat, p: Pc)
    requires t < |s.threads|
    ensures Holders(Go(s, t, p)) + HolderOf()(s.threads[t]) == Holders(s) + HolderOf()(p)
    ensures Announcers(Go(s, t, p)) + AnnouncingOf()(s.threads[t]) == Announcers(s) + AnnouncingOf()(p)
    ensures HolderOf()(s.threads[t]) <= Holders(s) && AnnouncingOf()(s.threads[t]) <= Announcers(s)
  {
    SumUpdate(s.threads, HolderOf(), t, p);
    SumUpdate(s.threads, AnnouncingOf(), t, p);
    SumAt(s.threads, HolderOf(), t);
    SumAt(s.threads, AnnouncingOf(), t);
  }

  /** While one thread holds the lock of a guard that is not done, the others do not. */
  lemma OthersDoNot(s: State, t: nat, u: nat)
    requires Invariant(s) && !s.done && t < |s.threads| && u < |s.threads| && t != u
    requires HolderOf()(s.threads[t]) == 1
    ensures HolderOf()(s.threads[u]) == 0
  {
    AtMostOne(s.threads, HolderOf(), t, u);
  }

  lemma {:induction false} AnnouncersHold(ts: seq<Pc>)
    ensures Sum(ts, AnnouncingOf()) <= Sum(ts, HolderOf())
  {
    if ts != [] {
      AnnouncersHold(ts[1..]);
    }
  }

  lemma KeepCounts(s: State, e: Event)
    requires Counts(s) && Enabled(s, e) && PcOk(s, s.threads[e.t])
    ensures Counts(Apply(s, e))
  {
    var r := Apply(s, e);
    Shares(s, e.t, r.threads[e.t]);
    AnnouncersHold(s.threads);
    AnnouncersHold(r.threads);
  }

  lemma KeepPc(s: State, e: Event)
    requires Counts(s) && Enabled(s, e) && PcOk(s, s.threads[e.t])
    ensures PcOk(Apply(s, e), Apply(s, e).threads[e.t])
  {
    Shares(s, e.t, Apply(s, e).threads[e.t]);
  }

  /** Only the holder of the lock turns the guard to done, and it is never turned back. */
  lemma DoneByHolder(s: State, e: Event)
    requires Enabled(s, e)
    ensures s.done ==> Apply(s, e).done
    ensures !s.done && Apply(s, e).done ==> HolderOf()(s.threads[e.t]) == 1
  {
  }

  lemma Keep(s: State, e: Event)
    requires Invariant(s) && Enabled(s, e)
    ensures Invariant(Apply(s, e))
  {
    var r, t := Apply(s, e), e.t;
    KeepCounts(s, e);
    KeepPc(s, e);
    DoneByHolder(s, e);
    forall u | 0 <= u < |r.threads|
      ensures PcOk(r, r.threads[u])
    {
      if u != t {
        assert PcOk(s, s.threads[u]);
        if r.done && !s.done {
          OthersDoNot(s, t, u);
        }
      }
    }
  }

  lemma {:induction false} KeepRun(s: State, es: seq<Event>, t: State)
    requires Invariant(s) && Run(s, es, t)
    ensures Invariant(t)
    decreases |es|
  {
    if es != [] {
      Keep(s, es[0]);
      KeepRun(Apply(s, es[0]), es[1..], t);
    }
  }

  ghost predicate Reached(s: State) {
    exists threads: nat, es :: Run(Initial(threads), es, s)
  }

  /** Some run of some number of threads ends in s. Worded so that the verifier looks inside only where
      Reached is mentioned. */
  ghost predicate Reachable(s: State) {
    forall r | r == s :: Reached(r)
  }

  lemma Always(s: State)
    requires Reachable(s)
    ensures Invariant(s)
  {
    assert Reached(s);
    var threads: nat, es :| Run(Initial(threads), es, s);
    NoShares(Initial(threads).threads, HolderOf());
    NoShares(Initial(threads).threads, AnnouncingOf());
    KeepRun(Initial(threads), es, s);
  }

  // ----- main results

  /** At most one thread is in the initialiser, or on its way out of it. */
  lemma OneInitialiser(s: State, t: nat, u: nat)
    requires Reachable(s) && t < |s.threads| && u < |s.threads| && t != u && s.threads[t].Initialising?
    ensures HolderOf()(s.threads[u]) == 0
  {
    Always(s);
    assert PcOk(s, s.threads[t]);
    OthersDoNot(s, t, u);
  }

  /** Initialisation completes at most once, and never begins again once it has. */
  lemma CompletesOnce(s: State, t: nat)
    requires Reachable(s)
    ensures s.completed <= 1
    ensures t < |s.threads| && s.threads[t].Initialising? ==> s.completed == 0
  {
    Always(s);
    if t < |s.threads| && s.threads[t].Initialising? {
      assert PcOk(s, s.threads[t]);
      if Announcers(s) > 0 {
        var u := SomeShare(s.threads, AnnouncingOf());
        OthersDoNot(s, t, u);
      }
    }
  }

  /** No acquire returns 0 before the initialisation has completed, even though a late
      compare-and-swap may leave the lock word set for good. */
  lemma ZeroMeansDone(s: State)
    requires Reachable(s) && s.skipped > 0
    ensures s.done && s.completed == 1
  {
    Always(s);
  }

  /** Acquire returns 1 only while nothing has completed; what the last read finds decides. */
  lemma OneMeansNotDone(s: State, t: nat)
    requires Reachable(s) && Enabled(s, Step(t)) && s.threads[t].Deciding?
    ensures Apply(s, Step(t)).threads[t].Initialising? <==> s.completed == 0
  {
    Always(s);
    assert PcOk(s, s.threads[t]);
    if !s.done && Announcers(s) > 0 {
      var u := SomeShare(s.threads, AnnouncingOf());
      OthersDoNot(s, u, t);
    }
  }

  /** While the guard is not done its lock word can be trusted: it is set exactly while a thread holds it. */
  lemma LockIsHeld(s: State)
    requires Reachable(s) && !s.done
    ensures s.lock == Holders(s) <= 1
  {
    Always(s);
  }

  // ----- the first byte in memory

  function Word(s: State): nat {
    (if s.done then 0x100_0000_0000_0000 else 0) + s.lock
  }

  /** The byte at the guard's address. */
  function FirstByte(s: State, littleEndian: bool): nat {
    if littleEndian then Word(s) % 0x100 else Word(s) / 0x100_0000_0000_0000
  }

  /** Section 3.3.2 lets compiled code skip the call of acquire when the byte at the guard's address is not
      0. On a big-endian machine that is when the guard is done. On a little-endian one it is when the
      lock word is set, which before the guard is done means while a thread holds it. */
  lemma FirstByteTest(s: State)
    requires Reachable(s)
    ensures FirstByte(s, false) != 0 <==> s.done
    ensures FirstByte(s, true) != 0 <==> s.lock != 0
    ensures !s.done ==> (FirstByte(s, true) != 0 <==> Holders(s) == 1)
  {
    Always(s);
  }

  /** For instance while the first of two threads initialises: nothing has completed, and the other thread
      would skip the call. */
  lemma SkippedEarly()
    ensures var s := State(false, 1, [Initialising, Spinning], 0, 0);
            Reachable(s) && FirstByte(s, true) != 0 && s.completed == 0
  {
    var es := FirstInitialises();
    assert Reached(State(false, 1, [Initialising, Spinning], 0, 0));
  }

  lemma RunSnoc(s: State, es: seq<Event>, t: State, e: Event)
    requires Run(s, es, t) && Enabled(t, e)
    ensures Run(s, es + [e], Apply(t, e))
    decreases |es|
  {
    if es == [] {
      assert ([] + [e])[1..] == [];
    } else {
      RunSnoc(Apply(s, es[0]), es[1..], t, e);
      assert (es + [e])[1..] == es[1..] + [e];
    }
  }

  /** One more event of two threads. */
  lemma Onward(es: seq<Event>, t: State, e: Event, u: State)
    requires Run(Initial(2), es, t) && Enabled(t, e) && Apply(t, e) == u
    ensures Run(Initial(2), es + [e], u)
  {
    RunSnoc(Initial(2), es, t, e);
  }

  /** Afterwards it cannot: two threads are spinning, one takes the lock, initialises and releases; the
      other's compare-and-swap then succeeds, and it leaves without giving the lock back. */
  lemma LockLeftSet()
    ensures Reachable(State(true, 1, [Outside, Outside], 1, 1))
  {
    var es := FirstReleases();
    var s10 := State(true, 0, [Outside, Spinning], 1, 0);
    var s11 := State(true, 1, [Outside, Deciding(true)], 1, 0);
    Onward(es, s10, Step(1), s11);
    es := es + [Step(1)];
    var s12 := State(true, 1, [Outside, Outside], 1, 1);
    Onward(es, s11, Step(1), s12);
    es := es + [Step(1)];
    assert Reached(s12);
  }

  /** Done, the lock word set and nobody about to give it back. */
  ghost predicate Stuck(s: State) {
    s.done && s.lock != 0 && forall t | 0 <= t < |s.threads| ::
      s.threads[t].Outside? || s.threads[t].Entered? || s.threads[t].Spinning? || s.threads[t].Rechecking? || s.threads[t].Deciding?
  }

  /** From there it stays set, whatever happens. */
  lemma {:induction false} StaysStuck(s: State, es: seq<Event>, t: State)
    requires Stuck(s) && Run(s, es, t)
    ensures Stuck(t)
    decreases |es|
  {
    if es != [] {
      StuckStep(s, es[0]);
      StaysStuck(Apply(s, es[0]), es[1..], t);
    }
  }

  lemma StuckStep(s: State, e: Event)
    requires Stuck(s) && Enabled(s, e)
    ensures Stuck(Apply(s, e))
  {
  }

  lemma FirstReleases() returns (es: seq<Event>)
    ensures Run(Initial(2), es, State(true, 0, [Outside, Spinning], 1, 0))
  {
    es := FirstInitialises();
    var s6 := State(false, 1, [Initialising, Spinning], 0, 0);
    var s7 := State(false, 1, [Reading, Spinning], 1, 0);
    Onward(es, s6, Step(0), s7);
    es := es + [Step(0)];
    var s8 := State(false, 1, [Writing(1), Spinning], 1, 0);
    Onward(es, s7, Step(0), s8);
    es := es + [Step(0)];
    var s9 := State(true, 1, [Unlocking, Spinning], 1, 0);
    Onward(es, s8, Step(0), s9);
    es := es + [Step(0)];
    var s10 := State(true, 0, [Outside, Spinning], 1, 0);
    Onward(es, s9, Step(0), s10);
    es := es + [Step(0)];
  }

  lemma FirstInitialises() returns (es: seq<Event>)
    ensures Run(Initial(2), es, State(false, 1, [Initialising, Spinning], 0, 0))
  {
    es := BothSpinning();
    var s4 := State(false, 0, [Spinning, Spinning], 0, 0);
    var s5 := State(false, 1, [Deciding(true), Spinning], 0, 0);
    Onward(es, s4, Step(0), s5);
    es := es + [Step(0)];
    var s6 := State(false, 1, [Initialising, Spinning], 0, 0);
    Onward(es, s5, Step(0), s6);
    es := es + [Step(0)];
  }

  lemma BothSpinning() returns (es: seq<Event>)
    ensures Run(Initial(2), es, State(false, 0, [Spinning, Spinning], 0, 0))
  {
    es := [];
    var s0 := State(false, 0, [Outside, Outside], 0, 0);
    assert s0 == Initial(2);
    var s1 := State(false, 0, [Entered, Outside], 0, 0);
    Onward(es, s0, Enter(0), s1);
    es := es + [Enter(0)];
    var s2 := State(false, 0, [Spinning, Outside], 0, 0);
    Onward(es, s1, Step(0), s2);
    es := es + [Step(0)];
    var s3 := State(false, 0, [Spinning, Entered], 0, 0);
    Onward(es, s2, Enter(1), s3);
    es := es + [Enter(1)];
    var s4 := State(false, 0, [Spinning, Spinning], 0, 0);
    Onward(es, s3, Step(1), s4);
    es := es + [Step(1)];
  }

  // ----- what a call achieves

  /** Up to k steps of thread t, while the others stand still. */
  function Alone(s: State, t: nat, k: nat): State
    decreases k
  {
    if k == 0 || !Enabled(s, Step(t)) then s else Alone(Apply(s, Step(t)), t, k - 1)
  }

  lemma AloneOne(s: State, t: nat, k: nat, u: State)
    requires k > 0 && Enabled(s, Step(t)) && Apply(s, Step(t)) == u
    ensures Alone(s, t, k) == Alone(u, t, k - 1)
  {
  }

  /** An acquire that finds the guard neither done nor locked returns 1 after three steps, with the lock. */
  lemma AcquireGrants(s: State, t: nat)
    requires t < |s.threads| && s.threads[t] == Outside && !s.done && s.lock == 0
    ensures Alone(Apply(s, Enter(t)), t, 3) == s.(lock := 1, threads := s.threads[t := Initialising])
  {
    var s1 := Apply(s, Enter(t));
    var s2 := Go(s, t, Spinning);
    assert s1.threads[t := Spinning] == s2.threads;
    AloneOne(s1, t, 3, s2);
    SpinnerGranted(s2, t);
    assert s2.threads[t := Initialising] == s.threads[t := Initialising];
  }

  lemma SpinnerGranted(s: State, t: nat)
    requires t < |s.threads| && s.threads[t] == Spinning && !s.done && s.lock == 0
    ensures Alone(s, t, 2) == s.(lock := 1, threads := s.threads[t := Initialising])
  {
    var s1 := Go(s, t, Deciding(true)).(lock := 1);
    var s2 := Go(s, t, Initialising).(lock := 1);
    assert s1.threads[t := Initialising] == s2.threads;
    AloneOne(s, t, 2, s1);
    AloneOne(s1, t, 1, s2);
  }

  /** An initialiser that completes makes the guard done and gives the lock back. */
  lemma ReleaseCompletes(s: State, t: nat)
    requires t < |s.threads| && s.threads[t] == Initialising
    ensures Alone(s, t, 4) == s.(done := true, lock := 0, threads := s.threads[t := Outside], completed := s.completed + 1)
  {
    var s1 := Go(s, t, Reading).(completed := s.completed + 1);
    var s2 := Go(s, t, Writing(s.lock)).(completed := s.completed + 1);
    assert s1.threads[t := Writing(s.lock)] == s2.threads;
    AloneOne(s, t, 4, s1);
    AloneOne(s1, t, 3, s2);
    WriterReleases(s2, t);
    assert s2.threads[t := Outside] == s.threads[t := Outside];
  }

  lemma WriterReleases(s: State, t: nat)
    requires t < |s.threads| && s.threads[t].Writing?
    ensures Alone(s, t, 2) == s.(done := true, lock := 0, threads := s.threads[t := Outside])
  {
    var low := s.threads[t].lock;
    var s1 := Go(s, t, Unlocking).(done := true, lock := low);
    var s2 := Go(s, t, Outside).(done := true, lock := 0);
    assert s1.threads[t := Outside] == s2.threads;
    AloneOne(s, t, 2, s1);
    AloneOne(s1, t, 1, s2);
  }

  /** One that throws gives the lock back and leaves the guard as it was, so the next acquire returns 1. */
  lemma AbortRetries(s: State, t: nat, u: nat)
    requires t < |s.threads| && s.threads[t] == Initialising && !s.done
    requires u < |s.threads| && u != t && s.threads[u] == Outside
    ensures var r := Alone(Apply(s, Fail(t)), t, 1);
            && r == s.(lock := 0, threads := s.threads[t := Outside])
            && Alone(Apply(r, Enter(u)), u, 3).threads[u] == Initialising
  {
    var s1 := Apply(s, Fail(t));
    var r := Go(s, t, Outside).(lock := 0);
    assert s1.threads[t := Outside] == r.threads;
    AloneOne(s1, t, 1, r);
    AcquireGrants(r, u);
  }

  /** In acquire, and not yet decided. */
  predicate Acquiring(p: Pc) {
    p.Entered? || p.Spinning? || p.Rechecking? || p.Deciding?
  }

  /** Once the guard is done, every acquire under way leaves its loop and returns 0 within three steps of its
      own, whatever the lock word holds, and a new one at its first step. */
  lemma DoneReturnsZero(s: State, t: nat)
    requires t < |s.threads| && s.done
    ensures Acquiring(s.threads[t]) ==>
      var r := Alone(s, t, 3);
      r == s.(lock := r.lock, threads := s.threads[t := Outside], skipped := s.skipped + 1)
    ensures s.threads[t] == Outside ==> Alone(Apply(s, Enter(t)), t, 1) == s.(skipped := s.skipped + 1)
  {
    if s.threads[t] == Outside {
      var s1 := Apply(s, Enter(t));
      assert s1.threads[t := Outside] == s.threads;
      AloneOne(s1, t, 1, s.(skipped := s.skipped + 1));
    } else if Acquiring(s.threads[t]) {
      Decided(s, t);
    }
  }

  lemma Decided(s: State, t: nat)
    requires t < |s.threads| && s.done && Acquiring(s.threads[t])
    ensures var r := Alone(s, t, 3);
            r == s.(lock := r.lock, threads := s.threads[t := Outside], skipped := s.skipped + 1)
  {
    var p := s.threads[t];
    var s1 := Apply(s, Step(t));
    AloneOne(s, t, 3, s1);
    if p.Entered? || p.Deciding? {
      assert !Enabled(s1, Step(t)) && Alone(s1, t, 2) == s1;
    } else if p.Rechecking? || s1.threads[t] == Deciding(true) {
      LastRead(s1, t, 2);
      assert s1.threads[t := Outside] == s.threads[t := Outside];
    } else {
      var s2 := Go(s, t, Deciding(false));
      assert s1.threads[t := Deciding(false)] == s2.threads;
      AloneOne(s1, t, 2, s2);
      LastRead(s2, t, 1);
      assert s2.threads[t := Outside] == s.threads[t := Outside];
    }
  }

  lemma LastRead(s: State, t: nat, k: nat)
    requires t < |s.threads| && s.done && s.threads[t].Deciding? && k > 0
    ensures Alone(s, t, k) == s.(threads := s.threads[t := Outside], skipped := s.skipped + 1)
  {
    var r := Apply(s, Step(t));
    AloneOne(s, t, k, r);
    assert !Enabled(r, Step(t));
  }

  // ----- nobody is stuck

  lemma {:induction false} RunConcat(s: State, es: seq<Event>, r: State, fs: seq<Event>, q: State)
    requires Run(s, es, r) && Run(r, fs, q)
    ensures Run(s, es + fs, q)
    decreases |es|
  {
    if es == [] {
      assert es + fs == fs;
    } else {
      RunConcat(Apply(s, es[0]), es[1..], r, fs, q);
      assert (es + fs)[1..] == es[1..] + fs;
    }
  }

  lemma {:induction false} AloneRuns(s: State, t: nat, k: nat) returns (es: seq<Event>)
    requires Invariant(s)
    ensures Run(s, es, Alone(s, t, k)) && Invariant(Alone(s, t, k))
    decreases k
  {
    es := [];
    if k > 0 && Enabled(s, Step(t)) {
      Keep(s, Step(t));
      var fs := AloneRuns(Apply(s, Step(t)), t, k - 1);
      es := [Step(t)] + fs;
      assert es[1..] == fs;
    }
  }

  /** Whoever holds the lock of a guard that is not done gives it back within five steps. */
  lemma HolderFinishes(s: State, u: nat)
    requires u < |s.threads| && HolderOf()(s.threads[u]) > 0 && !s.done
    ensures var r := Alone(s, u, 5);
            && r.threads == s.threads[u := Outside] && r.lock == 0
            && (!s.threads[u].Aborting? ==> r.done)
  {
    var p := s.threads[u];
    var s1 := Apply(s, Step(u));
    AloneOne(s, u, 5, s1);
    if p.Aborting? {
      assert !Enabled(s1, Step(u));
    } else if p.Deciding? {
      ReleaseCompletes(s1, u);
      assert s1.threads[u := Outside] == s.threads[u := Outside];
    } else {
      HolderWrites(s, u);
    }
  }

  lemma HolderWrites(s: State, u: nat)
    requires u < |s.threads| && !s.done && (s.threads[u].Initialising? || s.threads[u].Reading? || s.threads[u].Writing?)
    ensures var r := Alone(s, u, 5); r.threads == s.threads[u := Outside] && r.lock == 0 && r.done
  {
    var p := s.threads[u];
    if p.Initialising? {
      ReleaseCompletes(s, u);
      AloneStops(s, u, 4);
    } else if p.Reading? {
      var s1 := Apply(s, Step(u));
      AloneOne(s, u, 3, s1);
      WriterReleases(s1, u);
      assert s1.threads[u := Outside] == s.threads[u := Outside];
      AloneStops(s, u, 3);
    } else {
      WriterReleases(s, u);
      AloneStops(s, u, 2);
    }
  }

  /** Outside, a thread does not step on. */
  lemma {:induction false} AloneStops(s: State, t: nat, k: nat)
    requires k <= 5 && t < |Alone(s, t, k).threads| && Alone(s, t, k).threads[t] == Outside
    ensures Alone(s, t, 5) == Alone(s, t, k)
  {
    AloneMore(s, t, k, 5);
  }

  lemma {:induction false} AloneMore(s: State, t: nat, k: nat, n: nat)
    requires k <= n && t < |Alone(s, t, k).threads| && Alone(s, t, k).threads[t] == Outside
    ensures Alone(s, t, n) == Alone(s, t, k)
    decreases k
  {
    if k > 0 && Enabled(s, Step(t)) {
      AloneMore(Apply(s, Step(t)), t, k - 1, n - 1);
    }
  }

  /** From every reachable state every thread can get out: some run ends with it outside. If it was in acquire
      the guard is done then, by one completed initialisation. */
  lemma NeverStuck(s: State, t: nat) returns (es: seq<Event>, r: State)
    requires Reachable(s) && t < |s.threads|
    ensures Run(s, es, r) && t < |r.threads| && r.threads[t] == Outside
    ensures Acquiring(s.threads[t]) ==> r.done && r.completed == 1
  {
    Always(s);
    var q;
    es, q := LockComesFree(s, t);
    var fs;
    fs, r := CanLeave(q, t);
    RunConcat(s, es, q, fs, r);
    es := es + fs;
  }

  lemma LockComesFree(s: State, t: nat) returns (es: seq<Event>, r: State)
    requires Invariant(s) && t < |s.threads|
    ensures Run(s, es, r) && Invariant(r) && t < |r.threads| && (r.done || r.lock == 0)
    ensures Acquiring(s.threads[t]) ==> Acquiring(r.threads[t]) || (r.done && r.threads[t] == Outside)
  {
    es, r := [], s;
    if !s.done && s.lock != 0 {
      var u := SomeShare(s.threads, HolderOf());
      HolderFinishes(s, u);
      es := AloneRuns(s, u, 5);
      r := Alone(s, u, 5);
    }
  }

  lemma CanLeave(s: State, t: nat) returns (es: seq<Event>, r: State)
    requires Invariant(s) && t < |s.threads| && (s.done || s.lock == 0)
    ensures Run(s, es, r) && t < |r.threads| && r.threads[t] == Outside
    ensures Acquiring(s.threads[t]) || s.done ==> r.done && r.completed == 1
  {
    var p := s.threads[t];
    assert PcOk(s, p);
    SumAt(s.threads, HolderOf(), t);
    es, r := [], s;
    if s.done {
      if p != Outside {
        es := AloneRuns(s, t, 3);
        r := Alone(s, t, 3);
        if Acquiring(p) {
          Decided(s, t);
        } else {
          AloneOne(s, t, 3, Apply(s, Step(t)));
          assert !Enabled(Apply(s, Step(t)), Step(t));
        }
      }
    } else if Acquiring(p) {
      es, r := SpinnerLeaves(s, t);
    }
  }

  /** With the guard neither done nor locked, a thread in acquire gets the lock and initialises. */
  lemma SpinnerLeaves(s: State, t: nat) returns (es: seq<Event>, r: State)
    requires Invariant(s) && t < |s.threads| && !s.done && s.lock == 0
    requires var p := s.threads[t]; p.Entered? || p.Spinning? || p.Rechecking?
    ensures Run(s, es, r) && Invariant(r) && t < |r.threads| && r.threads[t] == Outside && r.done && r.completed == 1
  {
    es, r := [], s;
    if !s.threads[t].Spinning? {
      es := AloneRuns(s, t, 1);
      r := Apply(s, Step(t));
      AloneOne(s, t, 1, r);
    }
    var fs := AloneRuns(r, t, 2);
    SpinnerGranted(r, t);
    var q := Alone(r, t, 2);
    RunConcat(s, es, r, fs, q);
    es := es + fs;
    fs := AloneRuns(q, t, 4);
    ReleaseCompletes(q, t);
    r := Alone(q, t, 4);
    RunConcat(s, es, q, fs, r);
    es := es + fs;
  }
}
