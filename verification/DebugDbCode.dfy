/** The code of libc++'s iterator-debugging database on its two hash tables, proved against the
    operations of module DebugDb. */
module DebugDbCode {
  import opened NumberTheory
  import opened ChainTable
  import opened DebugDb
  import opened Wrappers
  import NextPrime

  /** Whether the system finds memory, for an array of buckets, for a node and for a list of iterators. */
  datatype Memory = Memory(table: bool, node: bool, list: bool)

  /** beg_, end_ and cap_ of a __c_node: the iterators listed and how many fit before it grows. */
  datatype Items = Items(list: seq<Addr>, cap: nat)

  /** __c_node::__add. */
  function Add(n: Items, i: Addr): Items {
    if |n.list| == n.cap then Items(n.list + [i], if n.cap == 0 then 1 else 2 * n.cap) else Items(n.list + [i], n.cap)
  }

  predicate Fit(nodes: map<Addr, Items>) {
    forall c | c in nodes :: |nodes[c].list| <= nodes[c].cap
  }

  function Lists(nodes: map<Addr, Items>): map<Addr, seq<Addr>> {
    map c | c in nodes :: nodes[c].list
  }

  /** sizeof(void*). */
  function PointerSize(size: NextPrime.SizeT): nat {
    if size.Bits32? then 4 else 8
  }

  /** A number of buckets: none or a prime, and the array of pointers fits in memory. */
  ghost predicate BucketCount(n: nat, size: NextPrime.SizeT) {
    (n == 0 || IsPrime(n)) && n * PointerSize(size) < size.Modulus()
  }

  /** There is a next number of buckets and its array of pointers can be had. */
  ghost predicate CanGrow(n: nat, size: NextPrime.SizeT, memory: bool) {
    memory && exists p: nat :: LeastPrimeFrom(2 * n + 1, p) && p * PointerSize(size) < size.Modulus()
  }

  /** p is the next number of buckets. Worded so that the verifier looks inside only where LeastPrimeFrom is
      mentioned. */
  ghost predicate NextCount(least: nat, p: nat) {
    forall q | q == p :: LeastPrimeFrom(least, q)
  }

  /** The growth shared by __insert_c and __insert_iterator: one more entry must not outnumber the
      buckets. Fails when there is no larger prime or no memory, and then changes nothing. */
  method Reserve<V>(hash: Addr -> nat, bs: seq<Chain<V>>, sz: nat, size: NextPrime.SizeT, memory: bool, ghost m: map<Addr, V>)
    returns (ok: bool, r: seq<Chain<V>>)
    requires Holds(hash, bs, m) && sz <= |bs| && BucketCount(|bs|, size)
    ensures ok <==> sz < |bs| || CanGrow(|bs|, size, memory)
    ensures ok ==> sz + 1 <= |r| && Holds(hash, r, m) && BucketCount(|r|, size)
    ensures ok && sz == |bs| ==> NextCount(2 * |bs| + 1, |r|)
    ensures !ok || sz < |bs| ==> r == bs
  {
    if sz + 1 <= |bs| {
      return true, bs;
    }
    var found := NextPrime.Search(2 * |bs| + 1, size);
    if found.OverflowError? || !memory || found.value * PointerSize(size) >= size.Modulus() {
      NoGrowth(|bs|, size, memory, found);
      return false, bs;
    }
    r := Rehash(hash, bs, found.value, m);
    return true, r;
  }

  lemma NoGrowth(n: nat, size: NextPrime.SizeT, memory: bool, found: NextPrime.Outcome)
    requires found.Found? ==> LeastPrimeFrom(2 * n + 1, found.value)
    requires found.OverflowError? ==> NoPrimeIn(2 * n + 1, size.Modulus())
    requires found.OverflowError? || !memory || found.value * PointerSize(size) >= size.Modulus()
    ensures !CanGrow(n, size, memory)
  {
  }

  class Database {
    const hash: Addr -> nat
    const size: NextPrime.SizeT
    var ibuckets: seq<Chain<Option<Addr>>>
    var isz: nat
    var cbuckets: seq<Chain<Items>>
    var csz: nat
    ghost var iters: map<Addr, Option<Addr>>
    ghost var nodes: map<Addr, Items>

    /** The tables represent iters and nodes, and the sizes never exceed the numbers of buckets. */
    ghost predicate Tables()
      reads this
    {
      && Holds(hash, ibuckets, iters) && Holds(hash, cbuckets, nodes)
      && |iters| <= isz <= |ibuckets| && |nodes| <= csz <= |cbuckets|
      && BucketCount(|ibuckets|, size) && BucketCount(|cbuckets|, size)
      && Fit(nodes)
    }

    /** And no entry has been lost. */
    ghost predicate Shape()
      reads this
    {
      Tables() && isz == |iters| && csz == |nodes|
    }

    ghost predicate Valid()
      reads this
    {
      Shape() && Consistent(View())
    }

    ghost function View(): Db
      reads this
    {
      Db(iters, Lists(nodes))
    }

    constructor (hash: Addr -> nat, size: NextPrime.SizeT)
      ensures Valid() && View() == EMPTY && this.hash == hash && this.size == size
    {
      this.hash, this.size := hash, size;
      ibuckets, isz, cbuckets, csz := [], 0, [], 0;
      iters, nodes := map[], map[];
      EmptyHolds<Option<Addr>>(hash);
      EmptyHolds<Items>(hash);
      assert IndexOk(EMPTY);
    }

    /** One more iterator or container can be taken in. */
    ghost predicate IteratorFits(memory: bool)
      reads this
    {
      isz < |ibuckets| || CanGrow(|ibuckets|, size, memory)
    }

    ghost predicate ContainerFits(memory: bool)
      reads this
    {
      csz < |cbuckets| || CanGrow(|cbuckets|, size, memory)
    }

    /** __find_iterator. */
    method FindIterator(i: Addr) returns (r: Option<Option<Addr>>)
      requires Valid()
      ensures r == if i in View().iters then Some(View().iters[i]) else None
    {
      r := Lookup(hash, ibuckets, i, iters);
    }

    /** __find_c: the caller knows the container to be registered. */
    method FindC(c: Addr) returns (r: Items)
      requires Valid() && c in View().conts
      ensures c in nodes && r == nodes[c]
    {
      var n := Lookup(hash, cbuckets, c, nodes);
      r := n.value;
    }

    /** __comparable: both belong to the same container. */
    method Comparable(i: Addr, j: Addr) returns (r: bool)
      requires Valid()
      ensures r <==> exists c :: PointsTo(View(), i, c) && PointsTo(View(), j, c)
    {
      var ni := FindIterator(i);
      var nj := FindIterator(j);
      var ci := if ni.Some? then ni.value else None;
      var cj := if nj.Some? then nj.value else None;
      r := ci != None && ci == cj;
      if r {
        assert PointsTo(View(), i, ci.value) && PointsTo(View(), j, ci.value);
      }
    }

    /** The list of a container has no room for one more iterator. */
    ghost predicate ListFull(c: Addr)
      reads this
    {
      c in nodes && |nodes[c].list| == nodes[c].cap
    }

    /** __insert_i, by way of __insert_iterator. For want of a node the whole chain of the new one is
        lost; the database is then damaged exactly if that chain was not empty. */
    method InsertIterator(i: Addr, mem: Memory) returns (r: Outcome, intact: bool)
      requires Valid() && Allowed(View(), InsertI(i))
      modifies this
      ensures r == old(InsertOutcome(IteratorFits(mem.table), mem.node))
      ensures nodes == old(nodes) && cbuckets == old(cbuckets) && csz == old(csz)
      ensures var lost := Neighbours(hash, old(iters).Keys, i, |ibuckets|);
              Tables() && Ended(old(View()), View(), InsertI(i), r, lost, intact)
      ensures intact <==> Valid()
      ensures r == NoArray ==> unchanged(this)
    {
      ghost var d := View();
      var ok;
      ok, ibuckets := Reserve(hash, ibuckets, isz, size, mem.table, iters);
      ghost var lost := Neighbours(hash, iters.Keys, i, |ibuckets|);
      if !ok {
        EndedUnchanged(d, InsertI(i), lost);
        return NoArray, true;
      }
      r, intact := InsertNode(i, mem.node);
    }

    /** The rest of __insert_iterator, with room in the table. */
    method InsertNode(i: Addr, node: bool) returns (r: Outcome, intact: bool)
      requires Valid() && Allowed(View(), InsertI(i)) && isz < |ibuckets|
      modifies this`ibuckets, this`isz, this`iters
      ensures r == (if node then Done else NoNode) && |ibuckets| == |old(ibuckets)|
      ensures var lost := Neighbours(hash, old(iters).Keys, i, |ibuckets|);
              Tables() && Ended(old(View()), View(), InsertI(i), r, lost, intact)
      ensures intact <==> Valid()
    {
      ghost var d := View();
      ghost var lost := Neighbours(hash, iters.Keys, i, |ibuckets|);
      if !node {
        intact := LoseIterators(i);
        assert EndedHere(d, View(), InsertI(i), NoNode, lost, intact);
        return NoNode, intact;
      }
      Keep(d, InsertI(i));
      EndedDone(d, InsertI(i), lost);
      PushIterator(i);
      return Done, true;
    }

    method PushIterator(i: Addr)
      requires Shape() && i !in iters && isz < |ibuckets|
      modifies this`ibuckets, this`isz, this`iters
      ensures Shape() && iters == old(iters)[i := None] && |ibuckets| == |old(ibuckets)|
    {
      PushHolds(hash, ibuckets, iters, Node(i, None));
      ibuckets := Push(hash, ibuckets, Node(i, None));
      isz := isz + 1;
      iters := iters[i := None];
    }

    /** __insert_c. */
    method InsertContainer(c: Addr, mem: Memory) returns (r: Outcome, intact: bool)
      requires Valid() && Allowed(View(), InsertC(c))
      modifies this
      ensures r == old(InsertOutcome(ContainerFits(mem.table), mem.node))
      ensures iters == old(iters) && ibuckets == old(ibuckets) && isz == old(isz)
      ensures var lost := Neighbours(hash, old(nodes).Keys, c, |cbuckets|);
              Tables() && Ended(old(View()), View(), InsertC(c), r, lost, intact)
      ensures intact <==> Valid()
      ensures r == NoArray ==> unchanged(this)
    {
      ghost var d := View();
      var ok;
      ok, cbuckets := Reserve(hash, cbuckets, csz, size, mem.table, nodes);
      ghost var lost := Neighbours(hash, nodes.Keys, c, |cbuckets|);
      if !ok {
        EndedUnchanged(d, InsertC(c), lost);
        return NoArray, true;
      }
      if !mem.node {
        intact := LoseContainers(c);
        assert EndedHere(d, View(), InsertC(c), NoNode, lost, intact);
        return NoNode, intact;
      }
      Keep(d, InsertC(c));
      EndedDone(d, InsertC(c), lost);
      PushContainer(c);
      return Done, true;
    }

    method PushContainer(c: Addr)
      requires Shape() && c !in nodes && csz < |cbuckets|
      modifies this`cbuckets, this`csz, this`nodes
      ensures Shape() && Lists(nodes) == Lists(old(nodes))[c := []] && |cbuckets| == |old(cbuckets)|
    {
      var node := Node(c, Items([], 0));
      PushHolds(hash, cbuckets, nodes, node);
      ListsUpdate(nodes, c, Items([], 0));
      cbuckets := Push(hash, cbuckets, node);
      csz := csz + 1;
      nodes := nodes[c := Items([], 0)];
    }

    /** The head of a chain is overwritten with the null pointer that stands for the missing node. */
    method LoseIterators(i: Addr) returns (intact: bool)
      requires Valid() && |ibuckets| > 0
      modifies this`ibuckets, this`iters
      ensures Tables() && iters == old(iters) - Neighbours(hash, old(iters).Keys, i, |ibuckets|)
      ensures |ibuckets| == |old(ibuckets)|
      ensures (intact <==> Valid()) && (intact <==> Neighbours(hash, old(iters).Keys, i, |ibuckets|) == {})
    {
      ghost var lost := Neighbours(hash, iters.Keys, i, |ibuckets|);
      intact := |ibuckets[Slot(hash, i, |ibuckets|)]| == 0;
      LoseExact(hash, ibuckets, iters, i);
      LoseHolds(hash, ibuckets, iters, i);
      LoseFewer(iters, lost);
      iters := iters - lost;
      ibuckets := Lose(hash, ibuckets, i);
    }

    method LoseContainers(c: Addr) returns (intact: bool)
      requires Valid() && |cbuckets| > 0
      modifies this`cbuckets, this`nodes
      ensures Tables() && Lists(nodes) == Lists(old(nodes)) - Neighbours(hash, old(nodes).Keys, c, |cbuckets|)
      ensures |cbuckets| == |old(cbuckets)|
      ensures (intact <==> Valid()) && (intact <==> Neighbours(hash, old(nodes).Keys, c, |cbuckets|) == {})
    {
      ghost var lost := Neighbours(hash, nodes.Keys, c, |cbuckets|);
      intact := |cbuckets[Slot(hash, c, |cbuckets|)]| == 0;
      LoseExact(hash, cbuckets, nodes, c);
      LoseHolds(hash, cbuckets, nodes, c);
      LoseFewer(nodes, lost);
      ListsLose(nodes, lost);
      nodes := nodes - lost;
      cbuckets := Lose(hash, cbuckets, c);
    }

    // ----- single nodes

    /** i->__c_ = v. */
    method Point(i: Addr, v: Option<Addr>)
      requires Shape() && i in iters
      modifies this`ibuckets, this`iters
      ensures Shape() && iters == old(iters)[i := v] && |ibuckets| == |old(ibuckets)|
    {
      AssignHolds(hash, ibuckets, iters, i, v);
      ibuckets := Assign(hash, ibuckets, i, v);
      iters := iters[i := v];
    }

    method SetItems(c: Addr, n: Items)
      requires Shape() && c in nodes && |n.list| <= n.cap
      modifies this`cbuckets, this`nodes
      ensures Shape() && nodes == old(nodes)[c := n]
    {
      AssignHolds(hash, cbuckets, nodes, c, n);
      ListsUpdate(nodes, c, n);
      cbuckets := Assign(hash, cbuckets, c, n);
      nodes := nodes[c := n];
    }

    /** __c_node::__add on a registered container; fails, before it changes anything, exactly when the
        list is full and cannot grow. */
    method AddTo(c: Addr, i: Addr, memory: bool) returns (ok: bool)
      requires Shape() && c in nodes
      modifies this`cbuckets, this`nodes
      ensures Shape() && nodes.Keys == old(nodes).Keys && (ok <==> !old(ListFull(c)) || memory)
      ensures nodes == if ok then old(nodes)[c := Add(old(nodes)[c], i)] else old(nodes)
      ensures ok ==> Lists(nodes) == Lists(old(nodes))[c := Lists(old(nodes))[c] + [i]]
      ensures ok ==> nodes[c].cap == if !old(ListFull(c)) then old(nodes)[c].cap else if old(nodes)[c].cap == 0 then 1
                                     else 2 * old(nodes)[c].cap
    {
      var n := Lookup(hash, cbuckets, c, nodes);
      if |n.value.list| == n.value.cap && !memory {
        return false;
      }
      ListsUpdate(nodes, c, Add(n.value, i));
      SetItems(c, Add(n.value, i));
      return true;
    }

    /** __c_node::__remove: finds the entry and closes the gap. */
    method RemoveFrom(c: Addr, i: Addr)
      requires Shape() && c in nodes && i in nodes[c].list
      modifies this`cbuckets, this`nodes
      ensures Shape() && nodes.Keys == old(nodes.Keys)
      ensures nodes == old(nodes)[c := Items(Without(old(nodes)[c].list, i), old(nodes)[c].cap)]
      ensures Lists(nodes) == Lists(old(nodes))[c := Without(Lists(old(nodes))[c], i)]
    {
      var n := Lookup(hash, cbuckets, c, nodes);
      var list := n.value.list;
      var r := 0;
      while list[r] != i
        invariant r < |list| && forall k | 0 <= k < r :: list[k] != i
        decreases |list| - r
      {
        r := r + 1;
      }
      WithoutAt(list, i, r);
      ListsUpdate(nodes, c, Items(list[..r] + list[r + 1..], n.value.cap));
      SetItems(c, Items(list[..r] + list[r + 1..], n.value.cap));
    }

    /** The loops of swap. */
    method PointAll(list: seq<Addr>, v: Option<Addr>)
      requires Shape() && forall i | i in list :: i in iters
      modifies this`ibuckets, this`iters
      ensures Shape() && iters == Redirect(old(iters), list, v)
    {
      for k := 0 to |list|
        invariant Shape() && iters == Redirect(old(iters), list[..k], v)
      {
        assert list[k] in list;
        RedirectOne(old(iters), list[..k], list[k], v);
        assert list[..k + 1] == list[..k] + [list[k]];
        Point(list[k], v);
      }
      assert list[..|list|] == list;
    }

    /** The loops of __invalidate_all and __erase_c, which pop from the end of the list. */
    method PopAll(list: seq<Addr>)
      requires Shape() && forall i | i in list :: i in iters
      modifies this`ibuckets, this`iters
      ensures Shape() && iters == Redirect(old(iters), list, None)
    {
      var end := |list|;
      while end != 0
        invariant Shape() && 0 <= end <= |list| && iters == Redirect(old(iters), list[end..], None)
      {
        end := end - 1;
        assert list[end] in list;
        RedirectFirst(old(iters), list[end + 1..], list[end], None);
        assert list[end..] == [list[end]] + list[end + 1..];
        Point(list[end], None);
      }
      assert list[0..] == list;
    }

    // ----- operations

    /** __insert_ic. For want of a longer list the iterator stays registered without a container. */
    method InsertIteratorInto(i: Addr, c: Addr, mem: Memory) returns (r: Outcome, intact: bool)
      requires Valid() && Allowed(View(), InsertIc(i, c))
      modifies this
      ensures r == old(ListOutcome(InsertOutcome(IteratorFits(mem.table), mem.node), ListFull(c), mem.list))
      ensures nodes.Keys == old(nodes).Keys
      ensures var lost := Neighbours(hash, old(iters).Keys, i, |ibuckets|);
              Tables() && Ended(old(View()), View(), InsertIc(i, c), r, lost, intact)
      ensures intact <==> Valid()
    {
      ghost var d := View();
      r, intact := InsertIterator(i, mem);
      ghost var lost := Neighbours(hash, d.iters.Keys, i, |ibuckets|);
      if r != Done {
        EndedWithin(d, View(), i, InsertIc(i, c), r, lost, intact);
        return;
      }
      assert EndedHere(d, View(), InsertI(i), Done, lost, intact);
      r := JoinFirst(i, c, mem.list, d);
    }

    /** The rest of __insert_ic: the list is extended before the iterator points to its container. */
    method JoinFirst(i: Addr, c: Addr, memory: bool, ghost d: Db) returns (r: Outcome)
      requires Valid() && Consistent(d) && Allowed(d, InsertIc(i, c)) && View() == d.(iters := d.iters[i := None])
      modifies this`ibuckets, this`iters, this`cbuckets, this`nodes
      ensures r == ListOutcome(Done, old(ListFull(c)), memory)
      ensures Valid() && nodes.Keys == old(nodes).Keys && |ibuckets| == |old(ibuckets)|
      ensures Ended(d, View(), InsertIc(i, c), r, Neighbours(hash, d.iters.Keys, i, |ibuckets|), true)
    {
      ghost var lost := Neighbours(hash, d.iters.Keys, i, |ibuckets|);
      var ok := AddTo(c, i, memory);
      if !ok {
        assert EndedHere(d, View(), InsertIc(i, c), NoList, lost, true);
        return NoList;
      }
      Point(i, Some(c));
      assert iters == d.iters[i := Some(c)];
      Keep(d, InsertIc(i, c));
      EndedDone(d, InsertIc(i, c), lost);
      return Done;
    }

    method EraseIterator(i: Addr)
      requires Valid()
      modifies this
      ensures Valid() && View() == Apply(old(View()), EraseI(i))
    {
      ghost var d := View();
      EraseIs(d, i);
      var found := UnlinkIterator(i);
      if found.Some? && found.value.Some? {
        RemoveFrom(found.value.value, i);
      }
      assert View() == Apply(d, EraseI(i));
      Keep(d, EraseI(i));
    }

    /** The first part of __erase_i: takes the node out of its table. */
    method UnlinkIterator(i: Addr) returns (found: Option<Option<Addr>>)
      requires Shape()
      modifies this`ibuckets, this`isz, this`iters
      ensures Shape() && iters == old(iters) - {i}
      ensures found == if i in old(iters) then Some(old(iters)[i]) else None
    {
      if |ibuckets| == 0 {
        return None;
      }
      found, ibuckets := Unlink(hash, ibuckets, i, iters);
      if found == None {
        assert iters - {i} == iters;
        return;
      }
      RemoveKey(iters, i);
      isz := isz - 1;
      iters := iters - {i};
    }

    method Invalidate(c: Addr)
      requires Valid() && Allowed(View(), InvalidateAll(c))
      modifies this
      ensures Valid() && View() == Apply(old(View()), InvalidateAll(c))
    {
      Keep(View(), InvalidateAll(c));
      var n := FindC(c);
      ListedKnown(View(), c);
      PopAll(n.list);
      ListsUpdate(nodes, c, Items([], n.cap));
      SetItems(c, Items([], n.cap));
    }

    method EraseContainer(c: Addr)
      requires Valid() && Allowed(View(), EraseC(c))
      modifies this
      ensures Valid() && View() == Apply(old(View()), EraseC(c))
    {
      Keep(View(), EraseC(c));
      ListedKnown(View(), c);
      var found;
      found, cbuckets := Unlink(hash, cbuckets, c, nodes);
      RemoveKey(nodes, c);
      ListsRemove(nodes, c);
      nodes := nodes - {c};
      csz := csz - 1;
      PopAll(found.value.list);
    }

    method SwapContainers(c1: Addr, c2: Addr)
      requires Valid() && Allowed(View(), Swap(c1, c2))
      modifies this
      ensures Valid() && View() == Apply(old(View()), Swap(c1, c2))
    {
      Keep(View(), Swap(c1, c2));
      var n1 := FindC(c1);
      var n2 := FindC(c2);
      ListedKnown(View(), c1);
      ListedKnown(View(), c2);
      ListsUpdate(nodes, c1, n2);
      ListsUpdate(nodes[c1 := n2], c2, n1);
      SetItems(c1, n2);
      SetItems(c2, n1);
      PointAll(n2.list, Some(c1));
      PointAll(n1.list, Some(c2));
    }

    /** __iterator_copy. */
    method CopyIterator(i: Addr, i0: Addr, mem: Memory) returns (r: Outcome, intact: bool)
      requires Valid()
      modifies this
      ensures r == old(CopyOutcome(i, i0, mem))
      ensures nodes.Keys == old(nodes).Keys
      ensures var lost := Neighbours(hash, old(iters).Keys, i, |ibuckets|);
              Tables() && Ended(old(View()), View(), IteratorCopy(i, i0), r, lost, intact)
      ensures intact <==> Valid()
    {
      ghost var d := View();
      var ni := FindIterator(i);
      var ni0 := FindIterator(i0);
      var c0 := if ni0.Some? then ni0.value else None;
      if ni.None? && ni0.None? {
        EndedDone(d, IteratorCopy(i, i0), Neighbours(hash, d.iters.Keys, i, |ibuckets|));
        return Done, true;
      }
      if ni.None? {
        r, intact := InsertIterator(i, mem);
        ghost var lost := Neighbours(hash, d.iters.Keys, i, |ibuckets|);
        if r != Done {
          EndedWithin(d, View(), i, IteratorCopy(i, i0), r, lost, intact);
          return;
        }
        assert EndedHere(d, View(), InsertI(i), Done, lost, intact);
        ni := Some(None);
      }
      r, intact := CopyRegistered(i, i0, ni.value, c0, mem.list, d);
    }

    /** The rest of __iterator_copy, with the iterator registered. */
    method CopyRegistered(i: Addr, i0: Addr, c: Option<Addr>, c0: Option<Addr>, memory: bool, ghost d: Db)
      returns (r: Outcome, intact: bool)
      requires Valid() && Consistent(d) && (i in d.iters || i0 in d.iters) && View() == Registered(d, i)
      requires c == Container(d, i) && c0 == Container(d, i0)
      modifies this`ibuckets, this`iters, this`cbuckets, this`nodes
      ensures r == ListOutcome(Done, Joins(d, i, i0) && old(ListFull(Container(d, i0).value)), memory)
      ensures nodes.Keys == old(nodes).Keys && |ibuckets| == |old(ibuckets)|
      ensures var lost := Neighbours(hash, d.iters.Keys, i, |ibuckets|);
              Tables() && Ended(d, View(), IteratorCopy(i, i0), r, lost, intact)
      ensures intact <==> Valid()
    {
      CopyIs(d, i, i0);
      var ok := MoveTo(i, c, c0, memory);
      ghost var lost := Neighbours(hash, d.iters.Keys, i, |ibuckets|);
      if !ok {
        HalfCopyBreaks(d, i, i0);
        assert EndedHere(d, View(), IteratorCopy(i, i0), NoList, lost, false);
        return NoList, false;
      }
      Keep(d, IteratorCopy(i, i0));
      EndedDone(d, IteratorCopy(i, i0), lost);
      return Done, true;
    }

    /** How a copy ends: it may need a node for the iterator, and a place on the list it joins. */
    ghost function CopyOutcome(i: Addr, i0: Addr, mem: Memory): Outcome
      reads this
    {
      var joins := Joins(View(), i, i0) && ListFull(Container(View(), i0).value);
      if i !in iters && i0 in iters then
        ListOutcome(InsertOutcome(IteratorFits(mem.table), mem.node), joins, mem.list)
      else ListOutcome(Done, joins, mem.list)
    }

    /** The last part of __iterator_copy: leave c, join c0, whose list is extended last. */
    method MoveTo(i: Addr, c: Option<Addr>, c0: Option<Addr>, memory: bool) returns (ok: bool)
      requires Valid() && i in iters && iters[i] == c && (c0.Some? ==> c0.value in nodes)
      modifies this`ibuckets, this`iters, this`cbuckets, this`nodes
      ensures Shape() && nodes.Keys == old(nodes).Keys && |ibuckets| == |old(ibuckets)|
      ensures ok <==> c == c0 || c0 == None || !old(ListFull(c0.value)) || memory
      ensures var f := Detach(old(View()), i);
              if c == c0 then View() == old(View())
              else if !ok then View() == f.(iters := f.iters[i := c0])
              else View() == if c0.Some? && c0.value in f.conts then Attach(f, i, c0.value) else f
    {
      ok := true;
      if c == c0 {
        return;
      }
      Leave(i, c);
      if c0.Some? {
        Point(i, c0);
        ok := AddTo(c0.value, i, memory);
      }
    }

    /** The iterator is taken off the list it is on. */
    method Leave(i: Addr, c: Option<Addr>)
      requires Valid() && i in iters && iters[i] == c
      modifies this`ibuckets, this`iters, this`cbuckets, this`nodes
      ensures Shape() && nodes.Keys == old(nodes).Keys && View() == Detach(old(View()), i)
      ensures forall a | a in nodes && c != Some(a) :: nodes[a] == old(nodes)[a]
      ensures iters == old(iters)[i := None] && |ibuckets| == |old(ibuckets)|
    {
      DetachKeeps(View(), i);
      if c.Some? {
        assert PointsTo(View(), i, c.value) && IndexOk(View());
        Listed(View(), i, c.value);
        RemoveFrom(c.value, i);
      }
      Point(i, None);
    }
  }

  /** How an insertion ends. */
  function InsertOutcome(fits: bool, node: bool): Outcome {
    if !fits then NoArray else if !node then NoNode else Done
  }

  /** How an operation ends that extends a list last. */
  function ListOutcome(r: Outcome, full: bool, list: bool): Outcome {
    if r == Done && full && !list then NoList else r
  }

  /** How an operation ends, given what it finds. */
  ghost function Expected(db: Database, op: Op, mem: Memory): Outcome
    reads db
  {
    match op
    case InsertI(i) => InsertOutcome(db.IteratorFits(mem.table), mem.node)
    case InsertIc(i, c) =>
      ListOutcome(InsertOutcome(db.IteratorFits(mem.table), mem.node), db.ListFull(c), mem.list)
    case InsertC(c) => InsertOutcome(db.ContainerFits(mem.table), mem.node)
    case IteratorCopy(i, i0) => db.CopyOutcome(i, i0, mem)
    case _ => Done
  }

  /** What shares the chain of the node that an operation adds. */
  function LostBy(hash: Addr -> nat, d: Db, op: Op, n: nat, k: nat): set<Addr> {
    match op
    case InsertI(i) => Neighbours(hash, d.iters.Keys, i, n)
    case InsertIc(i, c) => Neighbours(hash, d.iters.Keys, i, n)
    case IteratorCopy(i, i0) => Neighbours(hash, d.iters.Keys, i, n)
    case InsertC(c) => Neighbours(hash, d.conts.Keys, c, k)
    case _ => {}
  }

  /** Every operation, with any memory: how it ends, what it leaves, and that the database stays intact
      exactly when no chain with entries was lost and no copy stopped half-way. */
  method Perform(db: Database, op: Op, mem: Memory) returns (r: Outcome, intact: bool)
    requires db.Valid() && Allowed(db.View(), op)
    modifies db
    ensures r == old(Expected(db, op, mem))
    ensures var lost := LostBy(db.hash, old(db.View()), op, |db.ibuckets|, |db.cbuckets|);
            db.Tables() && Ended(old(db.View()), db.View(), op, r, lost, intact)
    ensures intact <==> db.Valid()
  {
    r, intact := Done, true;
    EndedDone(db.View(), op, {});
    match op {
      case InsertI(i) => r, intact := db.InsertIterator(i, mem);
      case InsertIc(i, c) => r, intact := db.InsertIteratorInto(i, c, mem);
      case InsertC(c) =>
        assert db.View().conts.Keys == db.nodes.Keys;
        r, intact := db.InsertContainer(c, mem);
      case IteratorCopy(i, i0) => r, intact := db.CopyIterator(i, i0, mem);
      case EraseI(i) => db.EraseIterator(i);
      case EraseC(c) => db.EraseContainer(c);
      case InvalidateAll(c) => db.Invalidate(c);
      case Swap(c1, c2) => db.SwapContainers(c1, c2);
    }
  }

  /** What a database guarantees about its two tables: they hold the index, entries never outnumber
      buckets, and there are no buckets or a prime number of them. */
  ghost predicate TablesHold(hash: Addr -> nat, size: NextPrime.SizeT, d: Db,
                             ibuckets: seq<Chain<Option<Addr>>>, cbuckets: seq<Chain<Items>>)
  {
    && Holds(hash, ibuckets, d.iters) && |d.iters| <= |ibuckets| && BucketCount(|ibuckets|, size)
    && (exists nodes :: Lists(nodes) == d.conts && Holds(hash, cbuckets, nodes))
    && |d.conts| <= |cbuckets| && BucketCount(|cbuckets|, size)
  }

  lemma DatabaseHolds(db: Database)
    requires db.Valid()
    ensures TablesHold(db.hash, db.size, db.View(), db.ibuckets, db.cbuckets)
  {
    var lists := Lists(db.nodes);
    assert lists.Keys == db.nodes.Keys;
    assert |lists| == |lists.Keys| && |db.nodes| == |db.nodes.Keys|;
  }

  /** Whether the callers may ask for an operation now. */
  method Permits(db: Database, op: Op) returns (ok: bool)
    requires db.Valid()
    ensures ok <==> Allowed(db.View(), op)
  {
    match op {
      case InsertI(i) =>
        var x := db.FindIterator(i);
        ok := x.None?;
      case InsertIc(i, c) =>
        var x := db.FindIterator(i);
        var y := Lookup(db.hash, db.cbuckets, c, db.nodes);
        ok := x.None? && y.Some?;
      case InsertC(c) =>
        var y := Lookup(db.hash, db.cbuckets, c, db.nodes);
        ok := y.None?;
      case EraseC(c) =>
        var y := Lookup(db.hash, db.cbuckets, c, db.nodes);
        ok := y.Some?;
      case InvalidateAll(c) =>
        var y := Lookup(db.hash, db.cbuckets, c, db.nodes);
        ok := y.Some?;
      case Swap(c1, c2) =>
        var y := Lookup(db.hash, db.cbuckets, c1, db.nodes);
        var z := Lookup(db.hash, db.cbuckets, c2, db.nodes);
        ok := y.Some? && z.Some?;
      case _ =>
        ok := true;
    }
  }

  function Attempts(ops: seq<Op>, results: seq<Outcome>): (a: seq<Attempt>)
    requires |results| <= |ops|
    ensures |a| == |results|
  {
    seq(|results|, k requires 0 <= k < |results| => Attempt(ops[k], results[k]))
  }

  ghost predicate RanHere(ops: seq<Op>, results: seq<Outcome>, d: Db) {
    |results| <= |ops| && Run(EMPTY, Attempts(ops, results), d)
  }

  /** The operations so far, with these outcomes, lead to d. Worded so that the verifier looks inside only
      where RanHere is mentioned. */
  ghost predicate Ran(ops: seq<Op>, results: seq<Outcome>, d: Db) {
    forall e | e == d :: RanHere(ops, results, e)
  }

  lemma RanNext(ops: seq<Op>, results: seq<Outcome>, d: Db, e: Db, r: Outcome, lost: set<Addr>)
    requires |results| < |ops| && Ran(ops, results, d) && Ended(d, e, ops[|results|], r, lost, true)
    ensures Ran(ops, results + [r], e)
  {
    assert RanHere(ops, results, d);
    var op, next := ops[|results|], results + [r];
    assert EndedHere(d, e, op, r, lost, true);
    RunSnoc(EMPTY, Attempts(ops, results), d, Attempt(op, r));
    assert Attempts(ops, next) == Attempts(ops, results) + [Attempt(op, r)];
    assert RanHere(ops, next, e);
  }

  /** Over every run of operations, each with its own answers for memory, failures included: as long as
      no chain with entries is lost and no copy stops half-way, the tables hold exactly the index that the
      operations describe, and that index is consistent. */
  method Replay(hash: Addr -> nat, size: NextPrime.SizeT, ops: seq<Op>, mems: seq<Memory>)
    returns (results: seq<Outcome>, ibuckets: seq<Chain<Option<Addr>>>, cbuckets: seq<Chain<Items>>, ghost d: Db)
    requires |ops| == |mems|
    ensures |results| <= |ops| && Run(EMPTY, Attempts(ops, results), d) && Consistent(d)
    ensures TablesHold(hash, size, d, ibuckets, cbuckets)
    ensures |results| < |ops| ==>
      var op, mem := ops[|results|], mems[|results|];
      !Allowed(d, op) || !mem.node || (op.IteratorCopy? && !mem.list)
    ensures forall k | 0 <= k < |results| && mems[k] == Memory(true, true, true) :: results[k] == Done || results[k] == NoArray
  {
    var db := new Database(hash, size);
    results := [];
    assert RanHere(ops, results, EMPTY);
    while true
      invariant fresh(db) && db.Valid() && db.hash == hash && db.size == size
      invariant |results| <= |ops| && Ran(ops, results, db.View())
      invariant forall k | 0 <= k < |results| && mems[k] == Memory(true, true, true) :: results[k] == Done || results[k] == NoArray
      decreases |ops| - |results|
    {
      ibuckets, cbuckets, d := db.ibuckets, db.cbuckets, db.View();
      DatabaseHolds(db);
      assert RanHere(ops, results, d);
      if |results| == |ops| {
        return;
      }
      var r := Try(db, ops, mems, results);
      if r == None {
        return;
      }
      results := results + [r.value];
    }
  }

  /** One more operation, unless it is not permitted or does harm. */
  method Try(db: Database, ops: seq<Op>, mems: seq<Memory>, results: seq<Outcome>) returns (r: Option<Outcome>)
    requires db.Valid() && |results| < |ops| == |mems| && Ran(ops, results, db.View())
    modifies db
    ensures r.Some? ==> db.Valid() && Ran(ops, results + [r.value], db.View())
    ensures var op, mem := ops[|results|], mems[|results|];
            && (r == None ==> !Allowed(old(db.View()), op) || !mem.node || (op.IteratorCopy? && !mem.list))
            && (mem == Memory(true, true, true) && r.Some? ==> r.value == Done || r.value == NoArray)
  {
    var op, mem := ops[|results|], mems[|results|];
    ghost var d := db.View();
    var ok := Permits(db, op);
    if !ok {
      return None;
    }
    EnoughMemory(db, op, mem);
    var o, intact := Perform(db, op, mem);
    ghost var lost := LostBy(db.hash, d, op, |db.ibuckets|, |db.cbuckets|);
    if !intact {
      HarmNeeds(d, db.View(), op, o, lost);
      return None;
    }
    RanNext(ops, results, d, db.View(), o, lost);
    return Some(o);
  }

  lemma HarmNeeds(d: Db, e: Db, op: Op, r: Outcome, lost: set<Addr>)
    requires Ended(d, e, op, r, lost, false)
    ensures r == NoNode || (r == NoList && op.IteratorCopy?)
  {
    assert EndedHere(d, e, op, r, lost, false);
  }

  /** With memory for nodes and lists, an operation ends normally or before it has begun. */
  lemma EnoughMemory(db: Database, op: Op, mem: Memory)
    ensures mem.node ==> Expected(db, op, mem) != NoNode
    ensures mem.list ==> Expected(db, op, mem) != NoList
  {
  }

  lemma {:induction false} RunSnoc(a: Db, attempts: seq<Attempt>, b: Db, x: Attempt)
    requires Run(a, attempts, b) && Allowed(b, x.op) && Harmless(x.op, x.r, {})
    ensures Run(a, attempts + [x], After(b, x.op, x.r, {}))
    decreases |attempts|
  {
    if attempts == [] {
      assert ([] + [x])[1..] == [];
    } else {
      var y := attempts[0];
      RunSnoc(After(a, y.op, y.r, {}), attempts[1..], b, x);
      assert (attempts + [x])[1..] == attempts[1..] + [x];
    }
  }

  lemma LoseFewer<V>(m: map<Addr, V>, lost: set<Addr>)
    requires lost <= m.Keys
    ensures lost == {} ==> m - lost == m
    ensures lost != {} ==> |m - lost| < |m|
    ensures |m - lost| <= |m|
  {
    assert (m - lost).Keys == m.Keys - lost;
    assert |m - lost| == |(m - lost).Keys| && |m| == |m.Keys|;
    assert |m.Keys - lost| == |m.Keys| - |lost|;
  }

  lemma ListsLose(nodes: map<Addr, Items>, lost: set<Addr>)
    ensures Lists(nodes - lost) == Lists(nodes) - lost
    ensures Fit(nodes) ==> Fit(nodes - lost)
  {
  }

  lemma ListsUpdate(nodes: map<Addr, Items>, c: Addr, n: Items)
    ensures Lists(nodes[c := n]) == Lists(nodes)[c := n.list]
    ensures Fit(nodes) && |n.list| <= n.cap ==> Fit(nodes[c := n])
  {
  }

  lemma {:induction false} WithoutAt(list: seq<Addr>, i: Addr, r: nat)
    requires r < |list| && list[r] == i && forall k | 0 <= k < r :: list[k] != i
    ensures Without(list, i) == list[..r] + list[r + 1..]
  {
    if r > 0 {
      WithoutAt(list[1..], i, r - 1);
      assert list[..r] == [list[0]] + list[1..][..r - 1] && list[1..][r..] == list[r + 1..];
    }
  }

  lemma RedirectOne(iters: map<Addr, Option<Addr>>, list: seq<Addr>, i: Addr, v: Option<Addr>)
    requires i in iters
    ensures Redirect(iters, list, v)[i := v] == Redirect(iters, list + [i], v)
  {
  }

  lemma RedirectFirst(iters: map<Addr, Option<Addr>>, list: seq<Addr>, i: Addr, v: Option<Addr>)
    requires i in iters
    ensures Redirect(iters, list, v)[i := v] == Redirect(iters, [i] + list, v)
  {
  }

  lemma RemoveKey<V>(m: map<Addr, V>, k: Addr)
    requires k in m
    ensures |m - {k}| == |m| - 1
  {
    assert m == (m - {k})[k := m[k]];
  }

  lemma ListsRemove(nodes: map<Addr, Items>, c: Addr)
    ensures Lists(nodes - {c}) == Lists(nodes) - {c}
    ensures Fit(nodes) ==> Fit(nodes - {c})
  {
  }

  /** Listed iterators are registered, so the loops never follow a dangling pointer. */
  lemma ListedKnown(d: Db, c: Addr)
    requires Consistent(d) && c in d.conts
    ensures forall i | i in d.conts[c] :: i in d.iters
  {
    forall i | i in d.conts[c]
      ensures i in d.iters
    {
      Listed(d, i, c);
    }
  }
}
