/** The iterator-debugging database of libc++ (debug.cpp): which iterators and containers exist, which
    container each iterator belongs to, and which iterators each container knows of. This module says what
    each operation does to that two-way index, also when it runs out of memory on the way. */
module DebugDb {
  import opened ChainTable
  import opened Counting
  import opened Wrappers

  // ----- the index and what keeps it consistent

  /** Each iterator with its container, each container with the list of its iterators. */
  datatype Db = Db(iters: map<Addr, Option<Addr>>, conts: map<Addr, seq<Addr>>)

  predicate PointsTo(d: Db, i: Addr, c: Addr) {
    i in d.iters && d.iters[i] == Some(c)
  }

  ghost predicate IndexOk(d: Db) {
    && (forall i, c | PointsTo(d, i, c) :: c in d.conts)
    && (forall i, c | c in d.conts :: Count(d.conts[c], i) == if PointsTo(d, i, c) then 1 else 0)
  }

  /** An iterator points to a container exactly when the container lists it, exactly once. Worded so that
      the verifier looks inside only where IndexOk is mentioned. */
  ghost predicate Consistent(d: Db) {
    forall e | e == d :: IndexOk(e)
  }

  /** memmove: the list without its entry for i. */
  function Without(list: seq<Addr>, i: Addr): seq<Addr> {
    if list == [] then [] else if list[0] == i then list[1..] else [list[0]] + Without(list[1..], i)
  }

  /** Every iterator on the list is made to point to v. */
  function Redirect(iters: map<Addr, Option<Addr>>, list: seq<Addr>, v: Option<Addr>): map<Addr, Option<Addr>> {
    map i | i in iters :: if i in list then v else iters[i]
  }

  datatype Op =
    | InsertI(i: Addr)
    | InsertIc(i: Addr, c: Addr)
    | InsertC(c: Addr)
    | EraseI(i: Addr)
    | EraseC(c: Addr)
    | InvalidateAll(c: Addr)
    | IteratorCopy(i: Addr, i0: Addr)
    | Swap(c1: Addr, c2: Addr)

  /** What the callers promise: inserted addresses are fresh and named containers are registered. */
  predicate Allowed(d: Db, op: Op) {
    match op
    case InsertI(i) => i !in d.iters
    case InsertIc(i, c) => i !in d.iters && c in d.conts
    case InsertC(c) => c !in d.conts
    case EraseI(i) => true
    case EraseC(c) => c in d.conts
    case InvalidateAll(c) => c in d.conts
    case IteratorCopy(i, i0) => true
    case Swap(c1, c2) => c1 in d.conts && c2 in d.conts
  }

  function Container(d: Db, i: Addr): Option<Addr> {
    if i in d.iters then d.iters[i] else None
  }

  function Detach(d: Db, i: Addr): Db {
    match Container(d, i)
    case None => d
    case Some(c) =>
      if c in d.conts then Db(d.iters[i := None], d.conts[c := Without(d.conts[c], i)]) else d
  }

  function Attach(d: Db, i: Addr, c: Addr): Db
    requires c in d.conts
  {
    Db(d.iters[i := Some(c)], d.conts[c := d.conts[c] + [i]])
  }

  function Apply(d: Db, op: Op): Db
    requires Allowed(d, op)
  {
    match op
    case InsertI(i) => d.(iters := d.iters[i := None])
    case InsertIc(i, c) => Attach(d, i, c)
    case InsertC(c) => d.(conts := d.conts[c := []])
    case EraseI(i) => var e := Detach(d, i); e.(iters := e.iters - {i})
    case EraseC(c) => Db(Redirect(d.iters, d.conts[c], None), d.conts - {c})
    case InvalidateAll(c) => Db(Redirect(d.iters, d.conts[c], None), d.conts[c := []])
    case IteratorCopy(i, i0) =>
      if i !in d.iters && i0 !in d.iters then d
      else
        var e := Registered(d, i);
        var c0 := Container(e, i0);
        if Container(e, i) == c0 then e
        else
          var f := Detach(e, i);
          if c0.Some? && c0.value in f.conts then Attach(f, i, c0.value) else f
    case Swap(c1, c2) =>
      var l1, l2 := d.conts[c1], d.conts[c2];
      Db(Redirect(Redirect(d.iters, l2, Some(c1)), l1, Some(c2)), d.conts[c1 := l2][c2 := l1])
  }

  // ----- lists

  lemma {:induction false} CountWithout(list: seq<Addr>, i: Addr, j: Addr)
    requires Count(list, i) > 0
    ensures Count(Without(list, i), j) == Count(list, j) - if i == j then 1 else 0
  {
    CountHead(list, i);
    CountHead(list, j);
    if list[0] != i {
      CountWithout(list[1..], i, j);
      assert Without(list, i)[1..] == Without(list[1..], i);
      CountHead(Without(list, i), j);
    }
  }

  // ----- every operation keeps the index consistent

  lemma Listed(d: Db, i: Addr, c: Addr)
    requires Consistent(d) && c in d.conts
    ensures i in d.conts[c] <==> PointsTo(d, i, c)
  {
    assert IndexOk(d);
    CountIn(d.conts[c], i);
  }

  lemma DetachKeeps(d: Db, i: Addr)
    requires Consistent(d) && i in d.iters
    ensures Consistent(Detach(d, i)) && Detach(d, i).iters == d.iters[i := None] && Detach(d, i).conts.Keys == d.conts.Keys
  {
    assert IndexOk(d);
    if d.iters[i].Some? {
      var c := d.iters[i].value;
      var e := Detach(d, i);
      assert PointsTo(d, i, c);
      forall j, a | a in e.conts
        ensures Count(e.conts[a], j) == if PointsTo(e, j, a) then 1 else 0
      {
        if a == c {
          CountWithout(d.conts[c], i, j);
        }
      }
      forall j, a | PointsTo(e, j, a) ensures a in e.conts { assert PointsTo(d, j, a); }
    }
    assert IndexOk(Detach(d, i));
  }

  lemma AttachKeeps(d: Db, i: Addr, c: Addr)
    requires Consistent(d) && c in d.conts && Container(d, i) == None
    ensures Consistent(Attach(d, i, c))
  {
    assert IndexOk(d);
    var e := Attach(d, i, c);
    forall j, a | a in e.conts
      ensures Count(e.conts[a], j) == if PointsTo(e, j, a) then 1 else 0
    {
      CountSnoc(d.conts[c], i, j);
    }
    forall j, a | PointsTo(e, j, a) ensures a in e.conts { assert j == i || PointsTo(d, j, a); }
    assert IndexOk(e);
  }

  lemma EmptyKeeps(d: Db, c: Addr, conts: map<Addr, seq<Addr>>)
    requires Consistent(d) && c in d.conts
    requires conts == d.conts[c := []] || conts == d.conts - {c}
    ensures Consistent(Db(Redirect(d.iters, d.conts[c], None), conts))
  {
    assert IndexOk(d);
    var e := Db(Redirect(d.iters, d.conts[c], None), conts);
    forall j, a: Addr
      ensures PointsTo(e, j, a) <==> PointsTo(d, j, a) && a != c
    {
      Listed(d, j, c);
    }
    assert IndexOk(e);
  }

  lemma SwapKeeps(d: Db, c1: Addr, c2: Addr)
    requires Consistent(d) && Allowed(d, Swap(c1, c2))
    ensures Consistent(Apply(d, Swap(c1, c2)))
  {
    assert IndexOk(d);
    var e := Apply(d, Swap(c1, c2));
    forall j, a: Addr
      ensures PointsTo(e, j, a) <==> PointsTo(d, j, if a == c1 then c2 else if a == c2 then c1 else a)
    {
      Listed(d, j, c1);
      Listed(d, j, c2);
    }
    forall j, a | PointsTo(e, j, a)
      ensures a in e.conts
    {
      assert PointsTo(d, j, if a == c1 then c2 else if a == c2 then c1 else a);
    }
    assert IndexOk(e);
  }

  lemma CopyKeeps(d: Db, i: Addr, i0: Addr)
    requires Consistent(d)
    ensures Consistent(Apply(d, IteratorCopy(i, i0)))
  {
    assert IndexOk(d);
    if i in d.iters || i0 in d.iters {
      var e := Registered(d, i);
      FreshKeeps(d, i);
      var c0 := Container(e, i0);
      if Container(e, i) != c0 {
        DetachKeeps(e, i);
        var f := Detach(e, i);
        if c0.Some? {
          assert IndexOk(e) && PointsTo(e, i0, c0.value);
          AttachKeeps(f, i, c0.value);
        }
      }
    }
  }

  lemma FreshKeeps(d: Db, i: Addr)
    requires Consistent(d)
    ensures i !in d.iters ==> Consistent(d.(iters := d.iters[i := None]))
  {
    assert IndexOk(d);
    var e := d.(iters := d.iters[i := None]);
    if i !in d.iters {
      assert forall j, a :: PointsTo(e, j, a) <==> PointsTo(d, j, a);
      assert IndexOk(e);
    }
  }

  lemma EraseKeeps(d: Db, i: Addr)
    requires Consistent(d)
    ensures Consistent(Apply(d, EraseI(i)))
  {
    assert IndexOk(d);
    var e := Detach(d, i);
    var f := e.(iters := e.iters - {i});
    if i in d.iters {
      DetachKeeps(d, i);
      assert IndexOk(e) && forall j, a :: PointsTo(f, j, a) <==> PointsTo(e, j, a);
    } else {
      assert f.iters == d.iters;
    }
    assert IndexOk(f);
  }

  /** Erasing removes the iterator and its one listing. */
  lemma EraseIs(d: Db, i: Addr)
    requires Consistent(d)
    ensures Container(d, i).Some? ==> Container(d, i).value in d.conts && i in d.conts[Container(d, i).value]
    ensures Apply(d, EraseI(i)) == Db(d.iters - {i},
      match Container(d, i) case None => d.conts case Some(c) => d.conts[c := Without(d.conts[c], i)])
  {
    assert IndexOk(d);
    if Container(d, i).Some? {
      var c := Container(d, i).value;
      assert PointsTo(d, i, c);
      Listed(d, i, c);
      assert d.iters[i := None] - {i} == d.iters - {i};
    }
  }

  lemma Keep(d: Db, op: Op)
    requires Consistent(d) && Allowed(d, op)
    ensures Consistent(Apply(d, op))
  {
    match op
    case InsertI(i) => FreshKeeps(d, i);
    case InsertIc(i, c) => AttachKeeps(d, i, c);
    case InsertC(c) =>
      var e := Apply(d, op);
      assert IndexOk(d) && forall j, a :: PointsTo(e, j, a) <==> PointsTo(d, j, a);
      assert IndexOk(e);
    case EraseI(i) => EraseKeeps(d, i);
    case EraseC(c) => EmptyKeeps(d, c, d.conts - {c});
    case InvalidateAll(c) => EmptyKeeps(d, c, d.conts[c := []]);
    case IteratorCopy(i, i0) => CopyKeeps(d, i, i0);
    case Swap(c1, c2) => SwapKeeps(d, c1, c2);
  }

  // ----- running out of memory

  /** How an operation ends: normally; before it changed anything, for want of a larger array of
      buckets; for want of a node, when it has already overwritten the head of the node's chain; for
      want of a longer list of iterators, when it has already done what comes before. */
  datatype Outcome = Done | NoArray | NoNode | NoList

  /** What the code has done of a copy when the list of the new container cannot grow: the iterator
      points to that container and is not on its list. */
  function HalfCopied(d: Db, i: Addr, i0: Addr): Db {
    var e := Registered(d, i);
    var f := Detach(e, i);
    f.(iters := f.iters[i := Container(e, i0)])
  }

  /** Where a copy starts from: the iterator is registered. */
  function Registered(d: Db, i: Addr): Db {
    if i in d.iters then d else d.(iters := d.iters[i := None])
  }

  /** What is left to do is to leave one container and join the other. */
  lemma CopyIs(d: Db, i: Addr, i0: Addr)
    requires Consistent(d) && (i in d.iters || i0 in d.iters)
    ensures var e, c0 := Registered(d, i), Container(d, i0);
            var f := Detach(e, i);
            && Consistent(e) && Consistent(f) && (c0.Some? ==> c0.value in e.conts && c0.value in f.conts)
            && HalfCopied(d, i, i0) == f.(iters := f.iters[i := c0])
            && Apply(d, IteratorCopy(i, i0)) == if Container(d, i) == c0 then e else if c0.Some? then Attach(f, i, c0.value) else f
  {
    var e := Registered(d, i);
    FreshKeeps(d, i);
    DetachKeeps(e, i);
    if Container(d, i0).Some? {
      assert IndexOk(e) && PointsTo(e, i0, Container(d, i0).value);
    }
  }

  /** The copy gives the iterator a container that it does not have yet. */
  predicate Joins(d: Db, i: Addr, i0: Addr) {
    Container(d, i0).Some? && Container(d, i0) != Container(d, i)
  }

  /** The index that an operation leaves; lost are the addresses on the chain that it overwrote. */
  function After(d: Db, op: Op, r: Outcome, lost: set<Addr>): Db
    requires Allowed(d, op)
  {
    match r
    case Done => Apply(d, op)
    case NoArray => d
    case NoNode => if op.InsertC? then d.(conts := d.conts - lost) else d.(iters := d.iters - lost)
    case NoList =>
      match op
      case InsertIc(i, c) => d.(iters := d.iters[i := None])
      case IteratorCopy(i, i0) => HalfCopied(d, i, i0)
      case _ => d
  }

  /** The outcomes that do no harm: all but a lost chain and a half-made copy. */
  predicate Harmless(op: Op, r: Outcome, lost: set<Addr>) {
    (r == NoNode ==> lost == {}) && (r == NoList ==> !op.IteratorCopy?)
  }

  ghost predicate EndedHere(d: Db, e: Db, op: Op, r: Outcome, lost: set<Addr>, intact: bool) {
    Allowed(d, op) && e == After(d, op, r, lost) && (intact <==> Harmless(op, r, lost))
  }

  /** The operation led from d to e with this outcome, and did harm or not. Worded so that the verifier
      looks inside only where EndedHere is mentioned. */
  ghost predicate Ended(d: Db, e: Db, op: Op, r: Outcome, lost: set<Addr>, intact: bool) {
    forall x | x == e :: EndedHere(d, x, op, r, lost, intact)
  }

  lemma EndedDone(d: Db, op: Op, lost: set<Addr>)
    requires Allowed(d, op)
    ensures Ended(d, Apply(d, op), op, Done, lost, true)
  {
    assert EndedHere(d, Apply(d, op), op, Done, lost, true);
  }

  lemma EndedUnchanged(d: Db, op: Op, lost: set<Addr>)
    requires Allowed(d, op)
    ensures Ended(d, d, op, NoArray, lost, true)
  {
    assert EndedHere(d, d, op, NoArray, lost, true);
  }

  /** An insertion that fails is how the larger operation fails. */
  lemma EndedWithin(d: Db, e: Db, i: Addr, op: Op, r: Outcome, lost: set<Addr>, intact: bool)
    requires Ended(d, e, InsertI(i), r, lost, intact) && (r == NoArray || r == NoNode)
    requires Allowed(d, op) && (op.InsertIc? || op.IteratorCopy?)
    ensures Ended(d, e, op, r, lost, intact)
  {
    assert EndedHere(d, e, InsertI(i), r, lost, intact);
    assert EndedHere(d, e, op, r, lost, intact);
  }

  lemma HarmlessKeeps(d: Db, op: Op, r: Outcome, lost: set<Addr>)
    requires Consistent(d) && Allowed(d, op) && Harmless(op, r, lost)
    ensures Consistent(After(d, op, r, lost))
  {
    match r
    case Done => Keep(d, op);
    case NoArray =>
    case NoNode => assert d.iters - {} == d.iters && d.conts - {} == d.conts;
    case NoList => if op.InsertIc? { FreshKeeps(d, op.i); }
  }

  /** A copy that stops for want of a longer list always breaks the index. */
  lemma HalfCopyBreaks(d: Db, i: Addr, i0: Addr)
    requires Consistent(d) && Joins(d, i, i0)
    ensures !Consistent(HalfCopied(d, i, i0))
  {
    assert IndexOk(d);
    var e := Registered(d, i);
    var c := Container(d, i0).value;
    var h := HalfCopied(d, i, i0);
    FreshKeeps(d, i);
    DetachKeeps(e, i);
    assert i0 != i && PointsTo(e, i0, c) && PointsTo(h, i, c);
    assert IndexOk(Detach(e, i)) && Count(Detach(e, i).conts[c], i) == 0;
    assert !IndexOk(h);
  }

  /** Losing iterators breaks the index exactly when one of them belongs to a container. */
  lemma LostIteratorsBreak(d: Db, lost: set<Addr>)
    requires Consistent(d)
    ensures Consistent(d.(iters := d.iters - lost)) <==> forall i | i in lost :: Container(d, i) == None
  {
    assert IndexOk(d);
    var e := d.(iters := d.iters - lost);
    if forall i | i in lost :: Container(d, i) == None {
      assert forall i, c :: PointsTo(e, i, c) <==> PointsTo(d, i, c);
      assert IndexOk(e);
    } else {
      var i :| i in lost && Container(d, i) != None;
      var c := Container(d, i).value;
      assert PointsTo(d, i, c) && !PointsTo(e, i, c);
      assert c in e.conts && Count(e.conts[c], i) == 1 && !IndexOk(e);
    }
  }

  /** Losing containers breaks the index exactly when an iterator belongs to one of them. */
  lemma LostContainersBreak(d: Db, lost: set<Addr>)
    requires Consistent(d)
    ensures Consistent(d.(conts := d.conts - lost)) <==> forall c | c in lost && c in d.conts :: d.conts[c] == []
  {
    assert IndexOk(d);
    var e := d.(conts := d.conts - lost);
    if forall c | c in lost && c in d.conts :: d.conts[c] == [] {
      forall i, c | PointsTo(e, i, c)
        ensures c in e.conts
      {
        assert PointsTo(d, i, c) && Count(d.conts[c], i) == 1;
      }
      assert forall i, c :: PointsTo(e, i, c) <==> PointsTo(d, i, c);
      assert IndexOk(e);
    } else {
      var c :| c in lost && c in d.conts && d.conts[c] != [];
      Listed(d, d.conts[c][0], c);
      assert PointsTo(e, d.conts[c][0], c) && !IndexOk(e);
    }
  }

  /** For instance: iterator 0 belongs to container 7, whose list is full; copying 0 to 1 without memory
      leaves 1 pointing to 7, which does not list it. Erasing 1 then looks for it there in vain. */
  lemma CopyWithoutMemory()
    ensures var d := Db(map[0 := Some(7)], map[7 := [0]]);
            var h := HalfCopied(d, 1, 0);
            && Consistent(d) && h == Db(map[0 := Some(7), 1 := Some(7)], map[7 := [0]])
            && !Consistent(h) && Container(h, 1) == Some(7) && 1 !in h.conts[7]
  {
    var d := Db(map[0 := Some(7)], map[7 := [0]]);
    assert d.conts[7] == [] + [0];
    forall j ensures Count(d.conts[7], j) == Is(0, j) { CountSnoc([], 0, j); }
    assert IndexOk(d);
    HalfCopyBreaks(d, 1, 0);
  }

  // ----- runs

  /** An operation and how it ended. */
  datatype Attempt = Attempt(op: Op, r: Outcome)

  /** The attempts lead from d to e, and none of them did harm; failures may be among them. */
  predicate Run(d: Db, attempts: seq<Attempt>, e: Db)
    decreases |attempts|
  {
    if attempts == [] then d == e
    else
      var a := attempts[0];
      Allowed(d, a.op) && Harmless(a.op, a.r, {}) && Run(After(d, a.op, a.r, {}), attempts[1..], e)
  }

  const EMPTY := Db(map[], map[])

  /** Over every run from a consistent database, such as the empty one. */
  lemma {:induction false} ConsistentRun(d: Db, attempts: seq<Attempt>, e: Db)
    requires Consistent(d) && Run(d, attempts, e)
    ensures Consistent(e)
    decreases |attempts|
  {
    if attempts != [] {
      var a := attempts[0];
      HarmlessKeeps(d, a.op, a.r, {});
      ConsistentRun(After(d, a.op, a.r, {}), attempts[1..], e);
    }
  }

  // ----- what each operation means

  /** Taking out an entry closes the gap: the others stay in order. */
  lemma {:induction false} WithoutMeaning(list: seq<Addr>, i: Addr) returns (k: nat)
    requires i in list
    ensures k < |list| && list[k] == i && i !in list[..k] && Without(list, i) == list[..k] + list[k + 1..]
  {
    if list[0] == i {
      k := 0;
    } else {
      k := WithoutMeaning(list[1..], i);
      assert list[..k + 1] == [list[0]] + list[1..][..k] && list[1..][k + 1..] == list[k + 2..];
      k := k + 1;
    }
  }

  /** The same iterators and containers, the same belonging and the same lists, except for those named. */
  ghost predicate SameBut(d: Db, e: Db, iters: set<Addr>, conts: set<Addr>) {
    && (forall j | j !in iters :: (j in e.iters <==> j in d.iters) && Container(e, j) == Container(d, j))
    && (forall c | c !in conts :: (c in e.conts <==> c in d.conts) && (c in d.conts ==> e.conts[c] == d.conts[c]))
  }

  /** A new iterator belongs nowhere, or to the container it is inserted into, at the end of its list; a new
      container has no iterators. */
  lemma InsertMeaning(d: Db, i: Addr, c: Addr)
    ensures i !in d.iters ==>
      var e := Apply(d, InsertI(i));
      SameBut(d, e, {i}, {}) && i in e.iters && Container(e, i) == None
    ensures i !in d.iters && c in d.conts ==>
      var e := Apply(d, InsertIc(i, c));
      && SameBut(d, e, {i}, {c}) && i in e.iters && Container(e, i) == Some(c)
      && c in e.conts && e.conts[c] == d.conts[c] + [i]
    ensures c !in d.conts ==>
      var e := Apply(d, InsertC(c));
      SameBut(d, e, {}, {c}) && c in e.conts && e.conts[c] == []
  {
  }

  /** An erased iterator is gone from the index and from the list of its container, which keeps its order. */
  lemma EraseMeaning(d: Db, i: Addr) returns (k: nat)
    requires Consistent(d)
    ensures var e := Apply(d, EraseI(i));
            && i !in e.iters
            && match Container(d, i)
               case None => SameBut(d, e, {i}, {})
               case Some(c) =>
                 && SameBut(d, e, {i}, {c}) && c in d.conts && c in e.conts
                 && k < |d.conts[c]| && d.conts[c][k] == i && e.conts[c] == d.conts[c][..k] + d.conts[c][k + 1..]
                 && i !in e.conts[c]
  {
    k := 0;
    EraseIs(d, i);
    var e := Apply(d, EraseI(i));
    if Container(d, i).Some? {
      var c := Container(d, i).value;
      k := WithoutMeaning(d.conts[c], i);
      EraseKeeps(d, i);
      Listed(e, i, c);
    }
  }

  /** An erased container is gone, an invalidated one has an empty list; either way exactly the iterators that
      belonged to it belong nowhere now, and are still registered. */
  lemma EmptyMeaning(d: Db, op: Op)
    requires Consistent(d) && (op.EraseC? || op.InvalidateAll?) && op.c in d.conts
    ensures var e := Apply(d, op);
            && (if op.EraseC? then op.c !in e.conts else op.c in e.conts && e.conts[op.c] == [])
            && SameBut(d, e, e.iters.Keys, {op.c}) && e.iters.Keys == d.iters.Keys
            && forall j :: Container(e, j) == if Container(d, j) == Some(op.c) then None else Container(d, j)
  {
    forall j: Addr
      ensures j in d.conts[op.c] <==> Container(d, j) == Some(op.c)
    {
      Listed(d, j, op.c);
    }
  }

  /** A swap exchanges the two lists, in order, and who belongs to which of the two. */
  lemma SwapMeaning(d: Db, c1: Addr, c2: Addr)
    requires Consistent(d) && c1 in d.conts && c2 in d.conts
    ensures var e := Apply(d, Swap(c1, c2));
            && e.iters.Keys == d.iters.Keys && SameBut(d, e, e.iters.Keys, {c1, c2})
            && c1 in e.conts && c2 in e.conts && e.conts[c1] == d.conts[c2] && e.conts[c2] == d.conts[c1]
            && forall j :: Container(e, j) == (if Container(d, j) == Some(c1) then Some(c2)
                                               else if Container(d, j) == Some(c2) then Some(c1) else Container(d, j))
  {
    forall j: Addr
      ensures j in d.conts[c1] <==> Container(d, j) == Some(c1)
      ensures j in d.conts[c2] <==> Container(d, j) == Some(c2)
    {
      Listed(d, j, c1);
      Listed(d, j, c2);
    }
  }

  /** Copying an iterator makes it belong where the original does, at the end of the list there; if the
      original is unknown the copy is detached. Nobody else is affected, and no other list. */
  lemma CopyMeaning(d: Db, i: Addr, i0: Addr)
    requires Consistent(d)
    ensures var e := Apply(d, IteratorCopy(i, i0));
            && Container(e, i) == Container(d, i0) && (i in e.iters <==> i in d.iters || i0 in d.iters)
            && SameBut(d, e, {i}, ListsOf(d, i) + ListsOf(d, i0))
            && (Container(d, i) == Container(d, i0) ==> e.conts == d.conts)
            && (Container(d, i) != Container(d, i0) ==>
                  && (forall c | Container(d, i) == Some(c) :: c in e.conts && c in d.conts && e.conts[c] == Without(d.conts[c], i))
                  && (forall c | Container(d, i0) == Some(c) :: c in e.conts && c in d.conts && e.conts[c] == d.conts[c] + [i]))
  {
    assert IndexOk(d);
    if i in d.iters || i0 in d.iters {
      CopyIs(d, i, i0);
      CopyLists(d, i, i0);
    }
  }

  /** The container of an iterator, if it has one. */
  function ListsOf(d: Db, i: Addr): set<Addr> {
    match Container(d, i) case None => {} case Some(c) => {c}
  }

  lemma CopyLists(d: Db, i: Addr, i0: Addr)
    requires Consistent(d) && (i in d.iters || i0 in d.iters)
    ensures var e := Registered(d, i);
            var f := Detach(e, i);
            && Container(f, i) == None && SameBut(d, f, {i}, ListsOf(d, i)) && i in f.iters
            && (forall c | Container(d, i) == Some(c) :: c in f.conts && c in d.conts && f.conts[c] == Without(d.conts[c], i))
  {
    assert IndexOk(d);
    var e := Registered(d, i);
    FreshKeeps(d, i);
    DetachKeeps(e, i);
    if Container(d, i).Some? {
      assert PointsTo(d, i, Container(d, i).value);
    }
  }

  /** What a failure leaves: nothing for want of buckets; for want of a node the lost chain is missing and
      nothing else has changed; for want of a longer list the iterator is registered and in no list, and
      a copy nevertheless points to the container. */
  lemma FailureMeaning(d: Db, op: Op, r: Outcome, lost: set<Addr>)
    requires Consistent(d) && Allowed(d, op) && r != Done
    ensures var e := After(d, op, r, lost);
            && (r == NoArray ==> e == d)
            && (r == NoNode && op.InsertC? ==> SameBut(d, e, {}, lost) && forall c | c in lost :: c !in e.conts)
            && (r == NoNode && !op.InsertC? ==> SameBut(d, e, lost, {}) && forall i | i in lost :: i !in e.iters)
            && (r == NoList && op.InsertIc? ==> SameBut(d, e, {op.i}, {}) && op.i in e.iters && Container(e, op.i) == None)
            && (r == NoList && op.IteratorCopy? && Joins(d, op.i, op.i0) ==>
                  && SameBut(d, e, {op.i}, ListsOf(d, op.i)) && Container(e, op.i) == Container(d, op.i0)
                  && forall c | c in e.conts :: op.i !in e.conts[c])
  {
    if r == NoList && op.IteratorCopy? && Joins(d, op.i, op.i0) {
      HalfCopyMeaning(d, op.i, op.i0);
    }
  }

  lemma HalfCopyMeaning(d: Db, i: Addr, i0: Addr)
    requires Consistent(d) && Joins(d, i, i0)
    ensures var e := HalfCopied(d, i, i0);
            && SameBut(d, e, {i}, ListsOf(d, i)) && Container(e, i) == Container(d, i0)
            && forall c | c in e.conts :: i !in e.conts[c]
  {
    var e := Registered(d, i);
    var f := Detach(e, i);
    CopyLists(d, i, i0);
    CopyIs(d, i, i0);
    forall c | c in f.conts ensures i !in f.conts[c] { Listed(f, i, c); }
  }
}
