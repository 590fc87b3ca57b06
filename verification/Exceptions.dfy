/** libcxxrt's bookkeeping for native exceptions (exception.cc): handler counts, the list of caught
    exceptions and reference counts, proved against the nesting of module Handlers. */
module Exceptions {
  import opened Counting
  import opened Handlers
  import opened Wrappers

  /** The fields of __cxa_exception that the handler protocol uses. */
  datatype Exc = Exc(handlerCount: int, referenceCount: int, next: Option<Id>)

  // ----- what the fields should be

  /** The exceptions with open handlers, innermost first, each once. */
  function Groups(open: seq<Id>): seq<Id> {
    if open == [] then []
    else
      var rest := open[..|open| - 1];
      if rest != [] && rest[|rest| - 1] == open[|open| - 1] then Groups(rest) else [open[|open| - 1]] + Groups(rest)
  }

  /** As many as there are open handlers, negative while the exception is in flight. */
  function HandlerCount(n: Nest, x: Id): int {
    if InFlight(n, x) then 0 - Count(n.open, x) else Count(n.open, x)
  }

  /** One reference for the handlers and the flight together, one for each exception_ptr. */
  function References(n: Nest, x: Id): nat {
    (if InFlight(n, x) || Count(n.open, x) > 0 then 1 else 0) + n.ptrs[x]
  }

  /** The list of caught exceptions, through the next pointers, is ids. */
  ghost predicate Linked(objects: map<Id, Exc>, head: Option<Id>, ids: seq<Id>)
    decreases |ids|
  {
    if ids == [] then head == None
    else head == Some(ids[0]) && ids[0] in objects && Linked(objects, objects[ids[0]].next, ids[1..])
  }

  ghost predicate Fields(objects: map<Id, Exc>, n: Nest) {
    && (forall x :: x in objects <==> x in n.thrown && References(n, x) > 0)
    && (forall x | x in objects ::
          objects[x].handlerCount == HandlerCount(n, x) && objects[x].referenceCount == References(n, x))
  }

  predicate NoDuplicates(s: seq<Id>) {
    forall i, j | 0 <= i < j < |s| :: s[i] != s[j]
  }

  /** Every exception thrown was destroyed once, or is still there. */
  ghost predicate Logged(destroyed: seq<Id>, objects: map<Id, Exc>, n: Nest) {
    NoDuplicates(destroyed) && forall x :: x in destroyed <==> x in n.thrown && x !in objects
  }

  // ----- facts about them

  lemma {:induction false} GroupsIn(open: seq<Id>, x: Id)
    ensures x in Groups(open) <==> x in open
  {
    if open != [] {
      var rest := open[..|open| - 1];
      GroupsIn(rest, x);
      assert open == rest + [open[|open| - 1]];
    }
  }

  lemma GroupsSnoc(open: seq<Id>, x: Id)
    ensures Groups(open + [x]) == if open != [] && open[|open| - 1] == x then Groups(open) else [x] + Groups(open)
  {
    var all := open + [x];
    assert all[..|all| - 1] == open && all[|all| - 1] == x;
  }

  lemma GroupedPrefix(open: seq<Id>)
    requires open != [] && Grouped(open)
    ensures var rest := open[..|open| - 1];
            Grouped(rest) && (open[|open| - 1] in rest ==> rest[|rest| - 1] == open[|open| - 1])
  {
  }

  lemma {:induction false} GroupsHead(open: seq<Id>)
    requires open != []
    ensures Groups(open) != [] && Groups(open)[0] == open[|open| - 1]
  {
    var rest := open[..|open| - 1];
    if rest != [] && rest[|rest| - 1] == open[|open| - 1] {
      GroupsHead(rest);
    }
  }

  /** Each exception is on the list at most once. */
  lemma {:induction false} GroupsOnce(open: seq<Id>)
    requires Grouped(open)
    ensures NoDuplicates(Groups(open))
  {
    if open != [] {
      var rest, x := open[..|open| - 1], open[|open| - 1];
      GroupedPrefix(open);
      GroupsOnce(rest);
      if x !in rest {
        GroupsIn(rest, x);
        forall j | 0 <= j < |Groups(rest)| ensures Groups(rest)[j] != x { assert Groups(rest)[j] in Groups(rest); }
      }
    }
  }

  lemma {:induction false} LinkedSame(a: map<Id, Exc>, b: map<Id, Exc>, head: Option<Id>, ids: seq<Id>)
    requires Linked(a, head, ids) && forall x | x in ids && x in a :: x in b && b[x].next == a[x].next
    ensures Linked(b, head, ids)
    decreases |ids|
  {
    if ids != [] {
      assert ids[0] in ids;
      LinkedSame(a, b, a[ids[0]].next, ids[1..]);
    }
  }

  // ----- the invariant of the runtime

  ghost predicate Sound(objects: map<Id, Exc>, caught: Option<Id>, destroyed: seq<Id>, n: Nest) {
    && Nested(n) && Fields(objects, n)
    && Linked(objects, caught, Groups(n.open))
    && Logged(destroyed, objects, n)
  }

  /** The same, worded so that the verifier looks inside only where Sound is mentioned. */
  ghost predicate Coherent(objects: map<Id, Exc>, caught: Option<Id>, destroyed: seq<Id>, n: Nest) {
    forall m | m == n :: Sound(objects, caught, destroyed, m)
  }

  // ----- the code

  /** One thread's exception globals, the exceptions it deals with, and the log of those destroyed. */
  class Runtime {
    var objects: map<Id, Exc>
    var caught: Option<Id>
    var destroyed: seq<Id>
    ghost var nest: Nest

    ghost predicate Valid()
      reads this
    {
      Coherent(objects, caught, destroyed, nest)
    }

    constructor ()
      ensures Valid() && nest == EMPTY
    {
      objects, caught, destroyed, nest := map[], None, [], EMPTY;
      assert WellNested(EMPTY);
      assert Sound(map[], None, [], EMPTY);
    }

    /** __cxa_throw, up to the unwinder. */
    method Throw(x: Id)
      requires Valid() && Enabled(nest, Event.Throw(x))
      modifies this
      ensures Valid() && nest == Apply(old(nest), Event.Throw(x))
      ensures objects == old(objects)[x := Exc(0, 1, None)] && caught == old(caught) && destroyed == old(destroyed)
    {
      ThrowSound(nest, objects, caught, destroyed, x);
      objects := objects[x := Exc(0, 1, None)];
      nest := Apply(nest, Event.Throw(x));
    }

    /** __cxa_begin_catch. The personality function passes the exception in flight. */
    method BeginCatch(x: Id)
      requires Valid() && Enabled(nest, Event.BeginCatch) && x == Top(nest).id
      modifies this
      ensures Valid() && nest == Apply(old(nest), Event.BeginCatch)
      ensures x in old(objects) && caught == Some(x) && destroyed == old(destroyed)
      ensures var h := old(objects)[x].handlerCount;
              var first := h == 0;
              objects == old(objects)[x := Exc((if h < 0 then -h else h) + 1, old(objects)[x].referenceCount,
                                               if first then old(caught) else old(objects)[x].next)]
    {
      TopIsThere(nest, objects, caught, destroyed);
      BeginSound(nest, objects, caught, destroyed);
      BeginHead(nest, objects, caught, destroyed);
      var ex := objects[x];
      if ex.handlerCount == 0 {
        ex := ex.(next := caught);
        caught := Some(x);
      }
      if ex.handlerCount < 0 {
        ex := ex.(handlerCount := -ex.handlerCount + 1);
      } else {
        ex := ex.(handlerCount := ex.handlerCount + 1);
      }
      objects := objects[x := ex];
      nest := Apply(nest, Event.BeginCatch);
    }

    /** __cxa_rethrow, up to the unwinder. It terminates the program when no exception is caught, and its
        assertion on the handler count fails exactly when the innermost one is already in flight. */
    method Rethrow() returns (ending: Ending)
      requires Valid() && Enabled(nest, Event.Rethrow)
      modifies this
      ensures Valid() && nest == Apply(old(nest), Event.Rethrow) && caught == old(caught)
      ensures ending == RethrowEnding(old(nest)) && destroyed == old(destroyed)
      ensures ending != Running ==> objects == old(objects)
      ensures ending == Running ==>
        && caught.Some? && caught.value in old(objects) && old(objects)[caught.value].handlerCount > 0
        && objects == old(objects)[caught.value :=
                        old(objects)[caught.value].(handlerCount := -old(objects)[caught.value].handlerCount)]
    {
      HeadIsThere(nest, objects, caught, destroyed);
      if caught == None {
        EndedSound(nest, objects, caught, destroyed, Terminated);
        nest := nest.(ending := Terminated);
        return Terminated;
      }
      HeadCount(nest, objects, caught, destroyed);
      var x := caught.value;
      var ex := objects[x];
      if !(ex.handlerCount > 0) {
        EndedSound(nest, objects, caught, destroyed, Asserted);
        nest := nest.(ending := Asserted);
        return Asserted;
      }
      RethrowSound(nest, objects, caught, destroyed);
      objects := objects[x := ex.(handlerCount := -ex.handlerCount)];
      nest := Apply(nest, Event.Rethrow);
      return Running;
    }

    /** releaseException: an exception with one reference is destroyed, one with more has one less, and
        no other exception is affected. */
    method Release(x: Id)
      requires x in objects
      modifies this`objects, this`destroyed
      ensures x in objects <==> old(objects)[x].referenceCount != 1
      ensures x in objects ==>
        objects[x] == old(objects)[x].(referenceCount := old(objects)[x].referenceCount - 1) && destroyed == old(destroyed)
      ensures x !in objects ==> destroyed == old(destroyed) + [x]
      ensures forall y | y != x :: (y in objects <==> y in old(objects)) && (y in objects ==> objects[y] == old(objects)[y])
    {
      var ex := objects[x];
      ex := ex.(referenceCount := ex.referenceCount - 1);
      if ex.referenceCount == 0 {
        objects := objects - {x};
        destroyed := destroyed + [x];
      } else {
        objects := objects[x := ex];
      }
    }

    /** __cxa_end_catch. The handlers' reference is released with the last open handler, unless the
        exception is in flight. */
    method EndCatch()
      requires Valid() && Enabled(nest, Event.EndCatch)
      modifies this
      ensures Valid() && nest == Apply(old(nest), Event.EndCatch)
      ensures old(caught).Some? && old(caught).value in old(objects)
      ensures Closes(old(objects), objects, old(caught), caught, old(destroyed), destroyed)
      ensures var x := old(nest).open[|old(nest).open| - 1];
              && x in old(objects)
              && (x in objects && objects[x].referenceCount == old(objects)[x].referenceCount
                  <==> Count(old(nest).open, x) > 1 || InFlight(old(nest), x))
    {
      HeadIsThere(nest, objects, caught, destroyed);
      Close();
      EndSound(nest, old(objects), objects, old(caught), caught, old(destroyed), destroyed);
      nest := Apply(nest, Event.EndCatch);
    }

    /** The code of __cxa_end_catch. */
    method Close()
      requires caught.Some? && caught.value in objects
      modifies this`objects, this`caught, this`destroyed
      ensures Closes(old(objects), objects, old(caught), caught, old(destroyed), destroyed)
    {
      var x := caught.value;
      var ex := objects[x];
      var deleteException := true;
      if ex.handlerCount < 0 {
        ex := ex.(handlerCount := ex.handlerCount + 1);
        deleteException := false;
      } else {
        ex := ex.(handlerCount := ex.handlerCount - 1);
      }
      objects := objects[x := ex];
      if ex.handlerCount == 0 {
        caught := ex.next;
        if deleteException {
          ghost var before := objects;
          Release(x);
          ReleasedByEffect(before, objects, x);
          assert before - {x} == old(objects) - {x};
        }
      }
    }

    /** __cxa_current_primary_exception: a new handle to the innermost caught exception, if any. */
    method CurrentPrimary() returns (r: Option<Id>)
      requires Valid() && Enabled(nest, TakePtr)
      modifies this
      ensures Valid() && nest == Apply(old(nest), TakePtr)
      ensures r == (if nest.open == [] then None else Some(nest.open[|nest.open| - 1])) && r == caught
      ensures caught == old(caught) && destroyed == old(destroyed)
      ensures r == None ==> objects == old(objects)
      ensures r.Some? ==> r.value in old(objects) && objects == OneMore(old(objects), r.value)
    {
      HeadIsThere(nest, objects, caught, destroyed);
      if caught == None {
        return None;
      }
      Increment(caught.value);
      return caught;
    }

    /** __cxa_increment_exception_refcount, on an exception that is there. */
    method Increment(x: Id)
      requires Valid() && x in objects
      modifies this
      ensures Valid() && nest == old(nest).(ptrs := old(nest).ptrs + multiset{x}) && caught == old(caught)
      ensures objects == OneMore(old(objects), x) && destroyed == old(destroyed)
    {
      IncrementSound(nest, objects, caught, destroyed, x);
      var ex := objects[x];
      objects := objects[x := ex.(referenceCount := ex.referenceCount + 1)];
      nest := nest.(ptrs := nest.ptrs + multiset{x});
    }

    /** __cxa_decrement_exception_refcount, on a handle the program has. */
    method Decrement(x: Id)
      requires Valid() && Enabled(nest, DropPtr(x))
      modifies this
      ensures Valid() && nest == Apply(old(nest), DropPtr(x)) && caught == old(caught)
      ensures x in old(objects) && (x in objects <==> old(objects)[x].referenceCount > 1)
      ensures x in objects ==> OneMore(objects, x) == old(objects) && destroyed == old(destroyed)
      ensures x !in objects ==> objects == old(objects) - {x} && destroyed == old(destroyed) + [x]
    {
      HandleIsThere(nest, objects, caught, destroyed, x);
      DecrementSound(nest, objects, caught, destroyed, x);
      Release(x);
      ReleasedByEffect(old(objects), objects, x);
      nest := Apply(nest, DropPtr(x));
    }
  }

  /** One more reference to x, and nothing else. */
  function OneMore(objects: map<Id, Exc>, x: Id): map<Id, Exc>
    requires x in objects
  {
    objects[x := objects[x].(referenceCount := objects[x].referenceCount + 1)]
  }

  /** releaseException as a function. */
  function Released(a: map<Id, Exc>, x: Id): map<Id, Exc>
    requires x in a
  {
    var ex := a[x].(referenceCount := a[x].referenceCount - 1);
    if ex.referenceCount == 0 then a - {x} else a[x := ex]
  }

  lemma ReleasedByEffect(a: map<Id, Exc>, b: map<Id, Exc>, x: Id)
    requires x in a && (x in b <==> a[x].referenceCount != 1)
    requires x in b ==> b[x] == a[x].(referenceCount := a[x].referenceCount - 1)
    requires forall y | y != x :: (y in b <==> y in a) && (y in b ==> b[y] == a[y])
    ensures b == Released(a, x)
  {
    assert b.Keys == Released(a, x).Keys;
  }

  // ----- what the code finds

  lemma TopIsThere(n: Nest, a: map<Id, Exc>, c: Option<Id>, d: seq<Id>)
    requires Coherent(a, c, d, n) && n.flight != []
    ensures Top(n).id in a
  {
    assert Sound(a, c, d, n);
    FlightIsLive(n, |n.flight| - 1);
  }

  /** The exception that is caught is at the head of the list afterwards. */
  lemma BeginHead(n: Nest, a: map<Id, Exc>, c: Option<Id>, d: seq<Id>)
    requires Coherent(a, c, d, n) && Enabled(n, Event.BeginCatch) && Top(n).id in a
    ensures a[Top(n).id].handlerCount != 0 ==> c == Some(Top(n).id)
  {
    assert Sound(a, c, d, n);
    CaughtNext(n);
    HeadIsThere(n, a, c, d);
  }

  lemma HeadIsThere(n: Nest, a: map<Id, Exc>, c: Option<Id>, d: seq<Id>)
    requires Coherent(a, c, d, n)
    ensures if n.open == [] then c == None else c == Some(n.open[|n.open| - 1]) && c.value in a
  {
    assert Sound(a, c, d, n);
    if n.open != [] {
      GroupsHead(n.open);
    }
  }

  lemma HandleIsThere(n: Nest, a: map<Id, Exc>, c: Option<Id>, d: seq<Id>, x: Id)
    requires Coherent(a, c, d, n) && x in n.ptrs
    ensures x in a && a[x].referenceCount >= 1
  {
    assert Sound(a, c, d, n);
    PtrsThrown(n);
  }

  // ----- every call keeps the invariant

  lemma ThrowSound(n: Nest, a: map<Id, Exc>, c: Option<Id>, d: seq<Id>, x: Id)
    requires Coherent(a, c, d, n) && Enabled(n, Event.Throw(x))
    ensures Coherent(a[x := Exc(0, 1, None)], c, d, Apply(n, Event.Throw(x)))
  {
    assert Sound(a, c, d, n);
    var b, m := a[x := Exc(0, 1, None)], Apply(n, Event.Throw(x));
    Keep(n, Event.Throw(x));
    ThrowFields(n, x);
    LinkedSame(a, b, c, Groups(n.open));
    assert Sound(b, c, d, m);
  }

  /** The exception after __cxa_begin_catch. */
  function Begun(ex: Exc, c: Option<Id>): Exc {
    Exc(if ex.handlerCount < 0 then 1 - ex.handlerCount else ex.handlerCount + 1,
        ex.referenceCount, if ex.handlerCount == 0 then c else ex.next)
  }

  lemma BeginSound(n: Nest, a: map<Id, Exc>, c: Option<Id>, d: seq<Id>)
    requires Coherent(a, c, d, n) && Enabled(n, Event.BeginCatch) && Top(n).id in a
    ensures var x := Top(n).id;
            Coherent(a[x := Begun(a[x], c)], if a[x].handlerCount == 0 then Some(x) else c, d, Apply(n, Event.BeginCatch))
  {
    assert Sound(a, c, d, n);
    var x, m := Top(n).id, Apply(n, Event.BeginCatch);
    var b := a[x := Begun(a[x], c)];
    var c' := if a[x].handlerCount == 0 then Some(x) else c;
    Keep(n, Event.BeginCatch);
    BeginFields(n);
    FieldsUpdate(a, b, n, m, x);
    LoggedUpdate(d, d, a, b, n, m, x);
    BeginList(n, a, c);
    assert Sound(b, c', d, m);
  }

  lemma BeginList(n: Nest, a: map<Id, Exc>, c: Option<Id>)
    requires Nested(n) && Fields(a, n) && Linked(a, c, Groups(n.open)) && Enabled(n, Event.BeginCatch) && Top(n).id in a
    ensures var x := Top(n).id;
            Linked(a[x := Begun(a[x], c)], if a[x].handlerCount == 0 then Some(x) else c, Groups(n.open + [x]))
  {
    var x := Top(n).id;
    var b := a[x := Begun(a[x], c)];
    FlightIsLive(n, |n.flight| - 1);
    CaughtNext(n);
    LinkedSame(a, b, c, Groups(n.open));
    GroupsSnoc(n.open, x);
    if a[x].handlerCount == 0 {
      assert Groups(n.open + [x])[1..] == Groups(n.open);
    }
  }

  /** The innermost handled exception has a positive handler count exactly when it is not in flight. */
  lemma HeadCount(n: Nest, a: map<Id, Exc>, c: Option<Id>, d: seq<Id>)
    requires Coherent(a, c, d, n) && n.open != [] && c == Some(n.open[|n.open| - 1]) && c.value in a
    ensures a[c.value].handlerCount > 0 <==> RethrowEnding(n) == Running
  {
    assert Sound(a, c, d, n);
    CountIn(n.open, c.value);
  }

  lemma EndedSound(n: Nest, a: map<Id, Exc>, c: Option<Id>, d: seq<Id>, ending: Ending)
    requires Coherent(a, c, d, n)
    ensures Coherent(a, c, d, n.(ending := ending))
  {
    assert Sound(a, c, d, n);
    var m := n.(ending := ending);
    KeepEnding(n, ending);
    forall y: Id
      ensures HandlerCount(m, y) == HandlerCount(n, y) && References(m, y) == References(n, y)
    {
      SameFlight(n, m, y);
    }
    assert Fields(a, m);
    assert Sound(a, c, d, m);
  }

  lemma RethrowSound(n: Nest, a: map<Id, Exc>, c: Option<Id>, d: seq<Id>)
    requires Coherent(a, c, d, n) && Enabled(n, Event.Rethrow) && RethrowEnding(n) == Running
    requires c == Some(n.open[|n.open| - 1]) && c.value in a
    ensures var ex := a[c.value];
            Coherent(a[c.value := ex.(handlerCount := -ex.handlerCount)], c, d, Apply(n, Event.Rethrow))
  {
    assert Sound(a, c, d, n);
    var x, m := c.value, Apply(n, Event.Rethrow);
    var b := a[x := a[x].(handlerCount := -a[x].handlerCount)];
    Keep(n, Event.Rethrow);
    RethrowFields(n);
    FieldsUpdate(a, b, n, m, x);
    LoggedUpdate(d, d, a, b, n, m, x);
    LinkedSame(a, b, c, Groups(n.open));
    assert Sound(b, c, d, m);
  }

  lemma EndSound(n: Nest, a: map<Id, Exc>, b: map<Id, Exc>, c: Option<Id>, c': Option<Id>, d: seq<Id>, e: seq<Id>)
    requires Coherent(a, c, d, n) && Enabled(n, Event.EndCatch) && c == Some(n.open[|n.open| - 1]) && c.value in a
    requires Closes(a, b, c, c', d, e)
    ensures Coherent(b, c', e, Apply(n, Event.EndCatch))
    ensures var x := c.value;
            (x in b && b[x].referenceCount == a[x].referenceCount <==> Count(n.open, x) > 1 || InFlight(n, x))
  {
    assert Sound(a, c, d, n);
    EndKeepsFields(n, a, b, c, c', d, e);
    EndKeepsList(n, a, b, c, c', d, e);
    assert Sound(b, c', e, Apply(n, Event.EndCatch));
  }

  lemma IncrementSound(n: Nest, a: map<Id, Exc>, c: Option<Id>, d: seq<Id>, x: Id)
    requires Coherent(a, c, d, n) && x in a
    ensures Coherent(a[x := a[x].(referenceCount := a[x].referenceCount + 1)], c, d, n.(ptrs := n.ptrs + multiset{x}))
  {
    assert Sound(a, c, d, n);
    var b, m := a[x := a[x].(referenceCount := a[x].referenceCount + 1)], n.(ptrs := n.ptrs + multiset{x});
    PtrsThrown(n);
    KeepPtrs(n, m.ptrs);
    assert Fields(b, m) by {
      PtrFields(n, m, x);
      FieldsUpdate(a, b, n, m, x);
    }
    LoggedUpdate(d, d, a, b, n, m, x);
    LinkedSame(a, b, c, Groups(n.open));
    assert Sound(b, c, d, m);
  }

  lemma DecrementSound(n: Nest, a: map<Id, Exc>, c: Option<Id>, d: seq<Id>, x: Id)
    requires Coherent(a, c, d, n) && x in a && Enabled(n, DropPtr(x))
    ensures var b := Released(a, x);
            Coherent(b, c, if x in b then d else d + [x], Apply(n, DropPtr(x)))
  {
    assert Sound(a, c, d, n);
    var b, m := Released(a, x), Apply(n, DropPtr(x));
    var e := if x in b then d else d + [x];
    PtrsThrown(n);
    KeepPtrs(n, m.ptrs);
    assert Fields(b, m) by {
      PtrFields(n, m, x);
      FieldsUpdate(a, b, n, m, x);
    }
    LoggedUpdate(d, e, a, b, n, m, x);
    StillLinked(n, m, a, b, c);
    assert Sound(b, c, e, m);
  }

  lemma ThrowFields(n: Nest, x: Id)
    requires Nested(n) && Enabled(n, Event.Throw(x))
    ensures var m := Apply(n, Event.Throw(x));
            && HandlerCount(m, x) == 0 && References(m, x) == 1
            && forall y | y != x :: HandlerCount(m, y) == HandlerCount(n, y) && References(m, y) == References(n, y)
  {
    assert WellNested(n);
    var m := Apply(n, Event.Throw(x));
    CountIn(n.open, x);
    assert m.flight[|n.flight|].id == x;
    forall y | y != x ensures InFlight(m, y) <==> InFlight(n, y) { PushFlight(n, m, x, y); }
  }

  lemma PushFlight(n: Nest, m: Nest, x: Id, y: Id)
    requires exists b :: m.flight == n.flight + [Flight(x, b)]
    ensures InFlight(m, y) <==> InFlight(n, y) || y == x
  {
    var b :| m.flight == n.flight + [Flight(x, b)];
    if InFlight(n, y) {
      var i :| 0 <= i < |n.flight| && n.flight[i].id == y;
      assert m.flight[i].id == y;
    }
    if y == x {
      assert m.flight[|n.flight|].id == y;
    }
  }

  lemma PopFlight(n: Nest, m: Nest, y: Id)
    requires Nested(n) && n.flight != [] && m.flight == n.flight[..|n.flight| - 1]
    ensures InFlight(n, y) <==> InFlight(m, y) || y == Top(n).id
    ensures !InFlight(m, Top(n).id)
  {
    assert WellNested(n);
    if InFlight(m, y) {
      var i :| 0 <= i < |m.flight| && m.flight[i].id == y;
      assert n.flight[i].id == y;
    }
    if y == Top(n).id {
      assert n.flight[|n.flight| - 1].id == y;
    }
    if InFlight(n, y) && y != Top(n).id {
      var i :| 0 <= i < |n.flight| && n.flight[i].id == y;
      assert m.flight[i].id == y;
    }
  }

  /** What is in flight is there. */
  lemma FlightIsLive(n: Nest, i: nat)
    requires Nested(n) && i < |n.flight|
    ensures InFlight(n, n.flight[i].id) && n.flight[i].id in n.thrown && References(n, n.flight[i].id) > 0
  {
    assert WellNested(n);
  }

  lemma BeginFields(n: Nest)
    requires Nested(n) && Enabled(n, Event.BeginCatch)
    ensures var m, x := Apply(n, Event.BeginCatch), Top(n).id;
            && HandlerCount(m, x) == Count(n.open, x) + 1 && HandlerCount(n, x) == 0 - Count(n.open, x)
            && References(m, x) == References(n, x)
            && forall y | y != x :: HandlerCount(m, y) == HandlerCount(n, y) && References(m, y) == References(n, y)
  {
    assert WellNested(n);
    var m, x := Apply(n, Event.BeginCatch), Top(n).id;
    FlightIsLive(n, |n.flight| - 1);
    forall y: Id
      ensures Count(m.open, y) == Count(n.open, y) + (if x == y then 1 else 0)
      ensures InFlight(n, y) <==> InFlight(m, y) || y == x
    {
      CountSnoc(n.open, x, y);
      PopFlight(n, m, y);
    }
    PopFlight(n, m, x);
  }

  /** If the exception about to be caught has open handlers, the innermost is one of them. */
  lemma CaughtNext(n: Nest)
    requires Nested(n) && Enabled(n, Event.BeginCatch)
    ensures Count(n.open, Top(n).id) > 0 <==> n.open != [] && n.open[|n.open| - 1] == Top(n).id
    ensures Count(n.open, Top(n).id) > 0 <==> Top(n).id in Groups(n.open)
  {
    assert WellNested(n);
    CountIn(n.open, Top(n).id);
    GroupsIn(n.open, Top(n).id);
    assert FlightOk(n.flight[|n.flight| - 1], n.open);
  }

  lemma RethrowFields(n: Nest)
    requires Nested(n) && Enabled(n, Event.Rethrow) && RethrowEnding(n) == Running
    ensures var m, x := Apply(n, Event.Rethrow), n.open[|n.open| - 1];
            && HandlerCount(n, x) == Count(n.open, x) && HandlerCount(m, x) == 0 - Count(n.open, x)
            && References(m, x) == References(n, x)
            && forall y | y != x :: HandlerCount(m, y) == HandlerCount(n, y) && References(m, y) == References(n, y)
  {
    assert WellNested(n);
    var m, x := Apply(n, Event.Rethrow), n.open[|n.open| - 1];
    CountIn(n.open, x);
    forall y: Id ensures InFlight(m, y) <==> InFlight(n, y) || y == x { PushFlight(n, m, x, y); }
  }

  lemma EndFields(n: Nest)
    requires Nested(n) && Enabled(n, Event.EndCatch)
    ensures var m, x := Apply(n, Event.EndCatch), n.open[|n.open| - 1];
            && Count(n.open, x) > 0 && Count(m.open, x) == Count(n.open, x) - 1
            && (forall y :: InFlight(m, y) <==> InFlight(n, y))
            && (forall y | y != x :: HandlerCount(m, y) == HandlerCount(n, y) && References(m, y) == References(n, y))
  {
    assert WellNested(n);
    var m, x := Apply(n, Event.EndCatch), n.open[|n.open| - 1];
    assert n.open == m.open + [x];
    forall y: Id
      ensures Count(n.open, y) == Count(m.open, y) + (if x == y then 1 else 0)
      ensures InFlight(m, y) <==> InFlight(n, y)
    {
      CountSnoc(m.open, x, y);
      SameFlight(n, m, y);
    }
  }

  lemma SameFlight(n: Nest, m: Nest, y: Id)
    requires |n.flight| == |m.flight| && forall i | 0 <= i < |n.flight| :: n.flight[i].id == m.flight[i].id
    ensures InFlight(m, y) <==> InFlight(n, y)
  {
  }

  /** Closing a handler takes its exception off the list exactly when it was the last one. */
  lemma EndGroups(open: seq<Id>)
    requires open != [] && Grouped(open)
    ensures var rest, x := open[..|open| - 1], open[|open| - 1];
            if Count(open, x) == 1 then Groups(open) == [x] + Groups(rest) && x !in Groups(rest) else Groups(open) == Groups(rest)
  {
    var rest, x := open[..|open| - 1], open[|open| - 1];
    CountIn(rest, x);
    GroupsIn(rest, x);
    GroupedPrefix(open);
  }

  /** A step that changes the fields of one exception only. */
  lemma FieldsUpdate(a: map<Id, Exc>, b: map<Id, Exc>, n: Nest, m: Nest, x: Id)
    requires Fields(a, n) && m.thrown == n.thrown && x in a
    requires forall y | y != x :: HandlerCount(m, y) == HandlerCount(n, y) && References(m, y) == References(n, y)
    requires forall y | y != x :: (y in b <==> y in a) && (y in a ==> b[y] == a[y])
    requires x in b <==> References(m, x) > 0
    requires x in b ==> b[x].handlerCount == HandlerCount(m, x) && b[x].referenceCount == References(m, x)
    ensures Fields(b, m)
  {
  }

  lemma LoggedUpdate(d: seq<Id>, e: seq<Id>, a: map<Id, Exc>, b: map<Id, Exc>, n: Nest, m: Nest, x: Id)
    requires Logged(d, a, n) && m.thrown == n.thrown && x in a && x in n.thrown
    requires forall y | y != x :: y in b <==> y in a
    requires e == if x in b then d else d + [x]
    ensures Logged(e, b, m)
  {
  }

  /** What closing a handler does to the exception at the head of the list. */
  ghost predicate Closes(a: map<Id, Exc>, b: map<Id, Exc>, c: Option<Id>, c': Option<Id>, d: seq<Id>, e: seq<Id>)
    requires c.Some? && c.value in a
  {
    var x, ex := c.value, a[c.value];
    var h := if ex.handlerCount < 0 then ex.handlerCount + 1 else ex.handlerCount - 1;
    if h != 0 then c' == c && b == a[x := ex.(handlerCount := h)] && e == d
    else if ex.handlerCount < 0 then c' == ex.next && b == a[x := ex.(handlerCount := 0)] && e == d
    else if ex.referenceCount == 1 then c' == ex.next && b == a - {x} && e == d + [x]
    else c' == ex.next && b == a[x := ex.(handlerCount := 0, referenceCount := ex.referenceCount - 1)] && e == d
  }

  lemma EndKeepsFields(n: Nest, a: map<Id, Exc>, b: map<Id, Exc>, c: Option<Id>, c': Option<Id>, d: seq<Id>, e: seq<Id>)
    requires Nested(n) && Enabled(n, Event.EndCatch) && Fields(a, n) && Logged(d, a, n)
    requires c == Some(n.open[|n.open| - 1]) && c.value in a && Closes(a, b, c, c', d, e)
    ensures var m, x := Apply(n, Event.EndCatch), c.value;
            && Nested(m) && Fields(b, m) && Logged(e, b, m)
            && (x in b && b[x].referenceCount == a[x].referenceCount <==> Count(n.open, x) > 1 || InFlight(n, x))
  {
    var m, x := Apply(n, Event.EndCatch), c.value;
    Keep(n, Event.EndCatch);
    EndFields(n);
    FieldsUpdate(a, b, n, m, x);
    LoggedUpdate(d, e, a, b, n, m, x);
  }

  lemma EndKeepsList(n: Nest, a: map<Id, Exc>, b: map<Id, Exc>, c: Option<Id>, c': Option<Id>, d: seq<Id>, e: seq<Id>)
    requires Nested(n) && Enabled(n, Event.EndCatch) && Fields(a, n) && Linked(a, c, Groups(n.open))
    requires c == Some(n.open[|n.open| - 1]) && c.value in a && Closes(a, b, c, c', d, e)
    ensures Linked(b, c', Groups(Apply(n, Event.EndCatch).open))
  {
    var m, x := Apply(n, Event.EndCatch), c.value;
    EndFields(n);
    assert Grouped(n.open) by { assert WellNested(n); }
    EndGroups(n.open);
    LinkedSame(a, b, c', Groups(m.open));
  }

  lemma PtrFields(n: Nest, m: Nest, x: Id)
    requires m == n.(ptrs := n.ptrs + multiset{x}) || (x in n.ptrs && m == n.(ptrs := n.ptrs - multiset{x}))
    ensures forall y :: HandlerCount(m, y) == HandlerCount(n, y)
    ensures forall y | y != x :: References(m, y) == References(n, y)
    ensures References(m, x) + n.ptrs[x] == References(n, x) + m.ptrs[x]
  {
    forall y: Id ensures InFlight(m, y) <==> InFlight(n, y) { SameFlight(n, m, y); }
  }

  /** Dropping a handle never destroys an exception that is on the list. */
  lemma StillLinked(n: Nest, m: Nest, a: map<Id, Exc>, b: map<Id, Exc>, caught: Option<Id>)
    requires Fields(a, n) && Fields(b, m) && Linked(a, caught, Groups(n.open)) && m.open == n.open && m.thrown == n.thrown
    requires forall y | y in a && y in b :: b[y].next == a[y].next
    ensures Linked(b, caught, Groups(n.open))
  {
    forall y | y in Groups(n.open) && y in a
      ensures y in b
    {
      GroupsIn(n.open, y);
      CountIn(n.open, y);
    }
    LinkedSame(a, b, caught, Groups(n.open));
  }

  /** One event, as the unwinder and the compiled code bring it about. */
  method Step(r: Runtime, e: Event, unwinder: seq<Id>) returns (unwinder': seq<Id>, ending: Ending)
    requires r.Valid() && Enabled(r.nest, e) && Tracks(unwinder, r.nest)
    modifies r
    ensures r.Valid() && r.nest == Apply(old(r.nest), e) && Tracks(unwinder', r.nest) && ending == r.nest.ending
  {
    unwinder', ending := unwinder, Running;
    match e {
      case Throw(x) =>
        r.Throw(x);
        unwinder' := unwinder + [x];
      case BeginCatch =>
        r.BeginCatch(unwinder[|unwinder| - 1]);
        unwinder' := unwinder[..|unwinder| - 1];
      case Rethrow =>
        HeadIsThere(r.nest, r.objects, r.caught, r.destroyed);
        ending := r.Rethrow();
        if ending == Running {
          unwinder' := unwinder + [r.caught.value];
        }
      case _ =>
        StepInside(r, e);
    }
  }

  /** The events that leave the unwinder where it is. */
  method StepInside(r: Runtime, e: Event)
    requires r.Valid() && Enabled(r.nest, e) && !e.Throw? && !e.BeginCatch? && !e.Rethrow?
    modifies r
    ensures r.Valid() && r.nest == Apply(old(r.nest), e)
    ensures |r.nest.flight| == |old(r.nest.flight)|
    ensures forall k | 0 <= k < |r.nest.flight| :: r.nest.flight[k].id == old(r.nest.flight)[k].id
  {
    match e {
      case EndCatch =>
        r.EndCatch();
      case TakePtr =>
        var p := r.CurrentPrimary();
      case CopyPtr(x) =>
        HandleIsThere(r.nest, r.objects, r.caught, r.destroyed, x);
        r.Increment(x);
      case DropPtr(x) =>
        r.Decrement(x);
    }
  }

  /** The unwinder knows which exceptions are in flight. */
  ghost predicate Tracks(unwinder: seq<Id>, n: Nest) {
    |unwinder| == |n.flight| && forall k | 0 <= k < |unwinder| :: unwinder[k] == n.flight[k].id
  }

  /** What the fields say about an exception. */
  predicate CountsHandlers(ex: Exc, m: Nest, x: Id) {
    && (if ex.handlerCount < 0 then 0 - ex.handlerCount else ex.handlerCount) == Count(m.open, x)
    && (ex.handlerCount < 0 <==> InFlight(m, x) && x in m.open)
  }

  /** Over every well-nested run: each exception is on the caught list at most once, its handler count
      is the number of its open handlers and negative exactly while it is in flight with handlers open,
      and it has been destroyed, once, exactly when it has left flight, handlers and handles. */
  method Perform(es: seq<Event>, ghost m: Nest)
    returns (objects: map<Id, Exc>, caught: Option<Id>, destroyed: seq<Id>, ending: Ending)
    requires Run(EMPTY, es, m)
    ensures ending == m.ending
    ensures Linked(objects, caught, Groups(m.open)) && NoDuplicates(Groups(m.open))
    ensures forall x | x in objects :: CountsHandlers(objects[x], m, x)
    ensures NoDuplicates(destroyed)
    ensures forall x :: x in destroyed <==> x in m.thrown && !InFlight(m, x) && x !in m.open && x !in m.ptrs
    ensures forall x :: x in destroyed <==> Settled(es, x)
  {
    var r := new Runtime();
    var i := 0;
    var unwinder: seq<Id> := [];
    ending := Running;
    while i < |es|
      invariant 0 <= i <= |es| && r.Valid() && fresh(r) && ending == r.nest.ending
      invariant Run(r.nest, es[i..], m) && Tracks(unwinder, r.nest)
    {
      assert es[i..][1..] == es[i + 1..];
      unwinder, ending := Step(r, es[i], unwinder);
      i := i + 1;
    }
    assert Sound(r.objects, r.caught, r.destroyed, r.nest);
    Summary(r.objects, r.destroyed, m);
    forall x: Id
      ensures Settled(es, x) <==> x in m.thrown && !InFlight(m, x) && x !in m.open && x !in m.ptrs
    {
      SettledMeans(es, m, x);
    }
    return r.objects, r.caught, r.destroyed, ending;
  }

  lemma Summary(objects: map<Id, Exc>, destroyed: seq<Id>, m: Nest)
    requires Nested(m) && Fields(objects, m) && Logged(destroyed, objects, m)
    ensures NoDuplicates(Groups(m.open))
    ensures forall x | x in objects :: CountsHandlers(objects[x], m, x)
    ensures forall x :: x in destroyed <==> x in m.thrown && !InFlight(m, x) && x !in m.open && x !in m.ptrs
  {
    assert WellNested(m);
    GroupsOnce(m.open);
    forall x: Id ensures x in m.open <==> Count(m.open, x) > 0 { CountIn(m.open, x); }
  }
}
