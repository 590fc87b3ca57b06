/** How throw, catch and rethrow nest in a C++ program, as far as the runtime can see it: the calls a
    compiler emits around handlers, by sections 2.5.3 and 2.5.4 of the Itanium C++ ABI. */
module Handlers {
  import opened Counting

  type Id = nat

  /** An exception in flight, and how many of the open handlers its unwinding has not left. Handlers
      above belong to cleanups that run meanwhile. */
  datatype Flight = Flight(id: Id, base: nat)

  /** Whether the program goes on; a `throw;` ends it when no exception is handled, and when the one
      handled is already in flight. */
  datatype Ending = Running | Terminated | Asserted

  /** The open handlers, innermost last; the exceptions in flight, innermost last; the exception_ptr
      handles of the program; every exception thrown so far; how the program ended, if it has. */
  datatype Nest = Nest(open: seq<Id>, flight: seq<Flight>, ptrs: multiset<Id>, thrown: set<Id>, ending: Ending)

  const EMPTY := Nest([], [], multiset{}, {}, Running)

  datatype Event = Throw(x: Id) | BeginCatch | EndCatch | Rethrow | TakePtr | CopyPtr(x: Id) | DropPtr(x: Id)

  function Top(n: Nest): Flight
    requires n.flight != []
  {
    n.flight[|n.flight| - 1]
  }

  /** Where the flight below the innermost one stands. */
  function Floor(n: Nest): nat {
    if |n.flight| >= 2 then n.flight[|n.flight| - 2].base else 0
  }

  predicate InFlight(n: Nest, x: Id) {
    exists i :: 0 <= i < |n.flight| && n.flight[i].id == x
  }

  /** The unwinder, not the running code, is leaving the innermost handler. */
  predicate Unwinding(n: Nest) {
    n.flight != [] && Top(n).base == |n.open|
  }

  /** Well-nested programs: exceptions are fresh; the innermost flight is caught once the handlers of
      its cleanups are closed; a cleanup may not be left by an exception. `throw;` is allowed anywhere. */
  predicate Enabled(n: Nest, e: Event) {
    n.ending == Running &&
    match e
    case Throw(x) => x !in n.thrown
    case BeginCatch => Unwinding(n)
    case EndCatch => n.open != [] && (Unwinding(n) ==> |n.open| > Floor(n))
    case Rethrow => true
    case TakePtr => true
    case CopyPtr(x) => x in n.ptrs
    case DropPtr(x) => x in n.ptrs
  }

  /** What a `throw;` does to the program: it needs a handled exception that is not already in flight. */
  function RethrowEnding(n: Nest): Ending {
    if n.open == [] then Terminated else if InFlight(n, n.open[|n.open| - 1]) then Asserted else Running
  }

  function Apply(n: Nest, e: Event): Nest
    requires Enabled(n, e)
  {
    match e
    case Throw(x) => n.(flight := n.flight + [Flight(x, |n.open|)], thrown := n.thrown + {x})
    case BeginCatch => n.(open := n.open + [Top(n).id], flight := n.flight[..|n.flight| - 1])
    case EndCatch =>
      n.(open := n.open[..|n.open| - 1],
         flight := if Unwinding(n) then n.flight[|n.flight| - 1 := Flight(Top(n).id, Top(n).base - 1)] else n.flight)
    case Rethrow =>
      if RethrowEnding(n) == Running then n.(flight := n.flight + [Flight(n.open[|n.open| - 1], |n.open|)])
      else n.(ending := RethrowEnding(n))
    case TakePtr => if n.open == [] then n else n.(ptrs := n.ptrs + multiset{n.open[|n.open| - 1]})
    case CopyPtr(x) => n.(ptrs := n.ptrs + multiset{x})
    case DropPtr(x) => n.(ptrs := n.ptrs - multiset{x})
  }

  predicate Run(n: Nest, es: seq<Event>, m: Nest)
    decreases |es|
  {
    if es == [] then n == m else Enabled(n, es[0]) && Run(Apply(n, es[0]), es[1..], m)
  }

  // ----- what well-nested programs keep

  /** The handlers of one exception are next to each other. */
  predicate Grouped(open: seq<Id>) {
    forall i, j, k | 0 <= i < j < k < |open| && open[i] == open[k] :: open[j] == open[i]
  }

  /** If an exception in flight has open handlers, they are where its unwinding stands. */
  predicate FlightOk(f: Flight, open: seq<Id>) {
    f.base <= |open| && (forall k | f.base <= k < |open| :: open[k] != f.id)
    && (f.id in open ==> f.base > 0 && open[f.base - 1] == f.id)
  }

  ghost predicate WellNested(n: Nest) {
    && Grouped(n.open)
    && (forall i | 0 <= i < |n.flight| :: FlightOk(n.flight[i], n.open))
    && (forall i, j | 0 <= i < j < |n.flight| :: n.flight[i].base <= n.flight[j].base && n.flight[i].id != n.flight[j].id)
    && (forall x | x in n.open :: x in n.thrown)
    && (forall i | 0 <= i < |n.flight| :: n.flight[i].id in n.thrown)
    && (forall x | x in n.ptrs :: x in n.thrown)
  }

  /** The same, worded so that the verifier looks inside only where WellNested is mentioned. */
  ghost predicate Nested(n: Nest) {
    forall m | m == n :: WellNested(m)
  }

  lemma KeepThrow(n: Nest, x: Id)
    requires WellNested(n) && Enabled(n, Throw(x))
    ensures WellNested(Apply(n, Throw(x)))
  {
  }

  lemma KeepRethrow(n: Nest)
    requires WellNested(n) && Enabled(n, Rethrow)
    ensures WellNested(Apply(n, Rethrow))
  {
    var m := Apply(n, Rethrow);
    if RethrowEnding(n) != Running {
      return;
    }
    forall i, j | 0 <= i < j < |m.flight|
      ensures m.flight[i].base <= m.flight[j].base && m.flight[i].id != m.flight[j].id
    {
      assert FlightOk(n.flight[i], n.open);
    }
  }

  lemma KeepBegin(n: Nest)
    requires WellNested(n) && Enabled(n, BeginCatch)
    ensures WellNested(Apply(n, BeginCatch))
  {
    var m := Apply(n, BeginCatch);
    var t := |n.flight| - 1;
    assert FlightOk(n.flight[t], n.open);
    forall i | 0 <= i < |m.flight|
      ensures FlightOk(m.flight[i], m.open)
    {
      assert FlightOk(n.flight[i], n.open) && n.flight[i].id != n.flight[t].id;
    }
    forall i, j, k | 0 <= i < j < k < |m.open| && m.open[i] == m.open[k]
      ensures m.open[j] == m.open[i]
    {
      assert m.open[i] in n.open;
    }
  }

  lemma KeepEnd(n: Nest)
    requires WellNested(n) && Enabled(n, EndCatch)
    ensures WellNested(Apply(n, EndCatch))
  {
    var m := Apply(n, EndCatch);
    var last := |n.open| - 1;
    forall i | 0 <= i < |m.flight|
      ensures FlightOk(m.flight[i], m.open)
    {
      var f := n.flight[i];
      assert FlightOk(f, n.open) && (i < |n.flight| - 1 ==> f.base <= Floor(n)) && f.base <= Top(n).base;
      if f.id in m.open && f.base == |n.open| {
        var k :| 0 <= k < |m.open| && m.open[k] == f.id;
        assert n.open[k] == n.open[last];
      }
    }
  }

  lemma KeepPtrs(n: Nest, ptrs: multiset<Id>)
    requires Nested(n) && forall x | x in ptrs :: x in n.thrown
    ensures Nested(n.(ptrs := ptrs))
  {
    assert WellNested(n);
    assert WellNested(n.(ptrs := ptrs));
  }

  lemma KeepEnding(n: Nest, ending: Ending)
    requires Nested(n)
    ensures Nested(n.(ending := ending))
  {
    assert WellNested(n);
    assert WellNested(n.(ending := ending));
  }

  lemma PtrsThrown(n: Nest)
    requires Nested(n)
    ensures forall x | x in n.ptrs :: x in n.thrown
  {
    assert WellNested(n);
  }

  /** Every event of a well-nested program keeps this. */
  lemma Keep(n: Nest, e: Event)
    requires Nested(n) && Enabled(n, e)
    ensures Nested(Apply(n, e))
  {
    assert WellNested(n);
    match e
    case Throw(x) => KeepThrow(n, x);
    case BeginCatch => KeepBegin(n);
    case EndCatch => KeepEnd(n);
    case Rethrow => KeepRethrow(n);
    case _ => KeepPtrs(n, Apply(n, e).ptrs);
  }

  // ----- what a run adds up to

  function One(b: bool): nat {
    if b then 1 else 0
  }

  /** How many events of a run are of some kind in the state they meet. */
  function Calls(n: Nest, es: seq<Event>, kind: (Nest, Event) -> bool): nat
    decreases |es|
  {
    if es == [] || !Enabled(n, es[0]) then 0 else One(kind(n, es[0])) + Calls(Apply(n, es[0]), es[1..], kind)
  }

  predicate Innermost(n: Nest, x: Id) {
    n.open != [] && n.open[|n.open| - 1] == x
  }

  function Exactly(e: Event): (Nest, Event) -> bool {
    (n: Nest, f: Event) => f == e
  }

  /** current_exception() in a handler of x. */
  function TakesOf(x: Id): (Nest, Event) -> bool {
    (n: Nest, e: Event) => e == TakePtr && Innermost(n, x)
  }

  function BeginsOf(x: Id): (Nest, Event) -> bool {
    (n: Nest, e: Event) => e == BeginCatch && n.flight != [] && Top(n).id == x
  }

  function EndsOf(x: Id): (Nest, Event) -> bool {
    (n: Nest, e: Event) => e == EndCatch && Innermost(n, x)
  }

  /** A `throw;` in a handler of x that does not end the program. */
  function RethrowsOf(x: Id): (Nest, Event) -> bool {
    (n: Nest, e: Event) => e == Rethrow && Innermost(n, x) && RethrowEnding(n) == Running
  }

  /** How often x is in flight. */
  function Flying(fs: seq<Flight>, x: Id): nat {
    if fs == [] then 0 else Flying(fs[..|fs| - 1], x) + One(fs[|fs| - 1].id == x)
  }

  lemma {:induction false} FlyingIn(fs: seq<Flight>, x: Id)
    ensures Flying(fs, x) > 0 <==> exists i :: 0 <= i < |fs| && fs[i].id == x
  {
    if fs != [] {
      var rest := fs[..|fs| - 1];
      FlyingIn(rest, x);
      if exists i :: 0 <= i < |rest| && rest[i].id == x {
        var i :| 0 <= i < |rest| && rest[i].id == x;
        assert fs[i].id == x;
      }
      assert Flying(fs, x) > 0 ==> exists i :: 0 <= i < |fs| && fs[i].id == x by {
        if Flying(fs, x) > 0 && Flying(rest, x) == 0 {
          assert fs[|fs| - 1].id == x;
        }
      }
      if exists i :: 0 <= i < |fs| && fs[i].id == x {
        var i :| 0 <= i < |fs| && fs[i].id == x;
        assert i < |rest| ==> rest[i].id == x;
      }
    }
  }

  lemma FlyingSnoc(fs: seq<Flight>, f: Flight, x: Id)
    ensures Flying(fs + [f], x) == Flying(fs, x) + One(f.id == x)
  {
    assert (fs + [f])[..|fs|] == fs;
  }

  /** How many handles to x the program has, how many handlers of x are open and how often x is in flight. */
  datatype Balance = Balance(handles: int, handlers: int, flights: int)

  function BalanceOf(n: Nest, x: Id): Balance {
    Balance(n.ptrs[x], Count(n.open, x), Flying(n.flight, x))
  }

  /** One event moves the balance of x by what it is: a take or a copy adds a handle and a drop takes one;
      a catch makes a flight a handler, and the end of one closes it; a throw or a rethrow is one more
      flight. */
  lemma {:induction false} StepBalance(n: Nest, e: Event, x: Id)
    requires Enabled(n, e)
    ensures var a, b := BalanceOf(n, x), BalanceOf(Apply(n, e), x);
            && b.handles == a.handles + One(TakesOf(x)(n, e)) + One(e == CopyPtr(x)) - One(e == DropPtr(x))
            && b.handlers == a.handlers + One(BeginsOf(x)(n, e)) - One(EndsOf(x)(n, e))
            && b.flights == a.flights + One(e == Throw(x)) + One(RethrowsOf(x)(n, e)) - One(BeginsOf(x)(n, e))
  {
    var m := Apply(n, e);
    match e
    case Throw(y) =>
      FlyingSnoc(n.flight, Flight(y, |n.open|), x);
    case BeginCatch =>
      CountSnoc(n.open, Top(n).id, x);
    case EndCatch =>
      FlyingSame(n.flight, m.flight, x);
    case Rethrow =>
      if RethrowEnding(n) == Running {
        FlyingSnoc(n.flight, Flight(n.open[|n.open| - 1], |n.open|), x);
      }
    case _ =>
  }

  lemma {:induction false} FlyingSame(a: seq<Flight>, b: seq<Flight>, x: Id)
    requires |a| == |b| && forall i | 0 <= i < |a| :: a[i].id == b[i].id
    ensures Flying(a, x) == Flying(b, x)
  {
    if a != [] {
      FlyingSame(a[..|a| - 1], b[..|b| - 1], x);
    }
  }

  /** Over every run: the handles to x are the takes in its handlers and the copies, less the drops; its open
      handlers are the catches of it less their ends; its flights the throws and rethrows less the catches. */
  lemma {:induction false} RunBalance(n: Nest, es: seq<Event>, m: Nest, x: Id)
    requires Run(n, es, m)
    ensures var a, b := BalanceOf(n, x), BalanceOf(m, x);
            && b.handles == a.handles + Calls(n, es, TakesOf(x)) + Calls(n, es, Exactly(CopyPtr(x))) - Calls(n, es, Exactly(DropPtr(x)))
            && b.handlers == a.handlers + Calls(n, es, BeginsOf(x)) - Calls(n, es, EndsOf(x))
            && b.flights == a.flights + Calls(n, es, Exactly(Throw(x))) + Calls(n, es, RethrowsOf(x)) - Calls(n, es, BeginsOf(x))
    decreases |es|
  {
    if es != [] {
      StepBalance(n, es[0], x);
      RunBalance(Apply(n, es[0]), es[1..], m, x);
    }
  }

  lemma {:induction false} ThrownByRun(n: Nest, es: seq<Event>, m: Nest, x: Id)
    requires Run(n, es, m)
    ensures x in m.thrown <==> x in n.thrown || Throw(x) in es
    decreases |es|
  {
    if es != [] {
      ThrownByRun(Apply(n, es[0]), es[1..], m, x);
      assert Throw(x) in es <==> es[0] == Throw(x) || Throw(x) in es[1..] by { assert es == [es[0]] + es[1..]; }
    }
  }

  /** By the calls of a run alone: x was thrown, every flight of it was caught, every handler of it ended and
      every handle to it dropped. */
  ghost predicate Settled(es: seq<Event>, x: Id) {
    && Throw(x) in es
    && Calls(EMPTY, es, Exactly(Throw(x))) + Calls(EMPTY, es, RethrowsOf(x)) == Calls(EMPTY, es, BeginsOf(x))
    && Calls(EMPTY, es, BeginsOf(x)) == Calls(EMPTY, es, EndsOf(x))
    && Calls(EMPTY, es, TakesOf(x)) + Calls(EMPTY, es, Exactly(CopyPtr(x))) == Calls(EMPTY, es, Exactly(DropPtr(x)))
  }

  lemma SettledMeans(es: seq<Event>, m: Nest, x: Id)
    requires Run(EMPTY, es, m)
    ensures Settled(es, x) <==> x in m.thrown && !InFlight(m, x) && x !in m.open && x !in m.ptrs
  {
    RunBalance(EMPTY, es, m, x);
    ThrownByRun(EMPTY, es, m, x);
    CountIn(m.open, x);
    FlyingIn(m.flight, x);
  }

  /** A destructor that runs while a rethrown exception unwinds and says `throw;` itself ends the program,
      even if it would catch the exception again. */
  lemma RethrowInCleanup(x: Id) returns (m: Nest)
    ensures Run(EMPTY, [Throw(x), BeginCatch, Rethrow, Rethrow], m) && m.ending == Asserted
  {
    var n1 := EMPTY.(flight := [Flight(x, 0)], thrown := {x});
    var n2 := n1.(open := [x], flight := []);
    var n3 := n2.(flight := [Flight(x, 1)]);
    m := n3.(ending := Asserted);
    assert Apply(EMPTY, Throw(x)) == n1 && Apply(n1, BeginCatch) == n2 && Apply(n2, Rethrow) == n3;
    assert n3.flight[0].id == x && InFlight(n3, x) && Apply(n3, Rethrow) == m;
    assert Run(m, [], m);
    RunOne(n3, Rethrow, m, [], m);
    RunOne(n2, Rethrow, n3, [Rethrow], m);
    RunOne(n1, BeginCatch, n2, [Rethrow, Rethrow], m);
    RunOne(EMPTY, Throw(x), n1, [BeginCatch, Rethrow, Rethrow], m);
  }

  /** An exception_ptr taken in a handler outlives it: after the handler has ended the exception is still
      referred to, and no longer after the handle is dropped. */
  lemma HandleOutlives(x: Id) returns (m: Nest, r: Nest)
    ensures Run(EMPTY, [Throw(x), BeginCatch, TakePtr, EndCatch], m) && m.open == [] && m.flight == [] && x in m.ptrs
    ensures Run(m, [CopyPtr(x), DropPtr(x), DropPtr(x)], r) && x !in r.ptrs
  {
    m := HandleTaken(x);
    r := HandleDropped(m, x);
  }

  lemma {:induction false} HandleTaken(x: Id) returns (m: Nest)
    ensures Run(EMPTY, [Throw(x), BeginCatch, TakePtr, EndCatch], m)
    ensures m == Nest([], [], multiset{x}, {x}, Running)
  {
    var n1 := EMPTY.(flight := [Flight(x, 0)], thrown := {x});
    var n2 := n1.(open := [x], flight := []);
    var n3 := n2.(ptrs := multiset{x});
    m := n3.(open := []);
    assert Run(m, [], m);
    RunOne(n3, EndCatch, m, [], m);
    RunOne(n2, TakePtr, n3, [EndCatch], m);
    RunOne(n1, BeginCatch, n2, [TakePtr, EndCatch], m);
    RunOne(EMPTY, Throw(x), n1, [BeginCatch, TakePtr, EndCatch], m);
  }

  lemma {:induction false} HandleDropped(m: Nest, x: Id) returns (r: Nest)
    requires m.ending == Running && m.ptrs == multiset{x}
    ensures Run(m, [CopyPtr(x), DropPtr(x), DropPtr(x)], r) && x !in r.ptrs
  {
    var m1, m2 := m.(ptrs := multiset{x, x}), m;
    r := m.(ptrs := multiset{});
    assert Run(r, [], r);
    RunOne(m2, DropPtr(x), r, [], r);
    RunOne(m1, DropPtr(x), m2, [DropPtr(x)], r);
    RunOne(m, CopyPtr(x), m1, [DropPtr(x), DropPtr(x)], r);
  }

  lemma {:induction false} RunOne(n: Nest, e: Event, m: Nest, es: seq<Event>, r: Nest)
    requires Enabled(n, e) && Apply(n, e) == m && Run(m, es, r)
    ensures Run(n, [e] + es, r)
  {
    assert ([e] + es)[1..] == es;
  }
}
