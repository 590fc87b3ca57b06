/** The chained hash tables inside libc++'s iterator-debugging database (debug.cpp). Both tables, the
    one of iterators and the one of containers, are run by the same code. */
module ChainTable {
  import opened Wrappers
  import NumberTheory

  type Addr = nat

  /** A node of a chain. Its identity is the address it is registered under. */
  datatype Node<V> = Node(key: Addr, val: V)

  type Chain<V> = seq<Node<V>>

  // ----- chains

  function Find<V>(c: Chain<V>, k: Addr): Option<V> {
    if c == [] then None else if c[0].key == k then Some(c[0].val) else Find(c[1..], k)
  }

  predicate Distinct<V>(c: Chain<V>) {
    forall i, j | 0 <= i < j < |c| :: c[i].key != c[j].key
  }

  lemma {:induction false} FindAt<V>(c: Chain<V>, j: nat)
    requires Distinct(c) && j < |c|
    ensures Find(c, c[j].key) == Some(c[j].val)
  {
    if j > 0 {
      assert c[0].key != c[j].key;
      FindAt(c[1..], j - 1);
    }
  }

  lemma {:induction false} FindNone<V>(c: Chain<V>, k: Addr)
    ensures Find(c, k) == None <==> forall j | 0 <= j < |c| :: c[j].key != k
  {
    if c != [] {
      FindNone(c[1..], k);
      assert forall j | 0 <= j < |c[1..]| :: c[1..][j] == c[j + 1];
    }
  }

  /** A node skipped from the front of a chain. */
  lemma FindTail<V>(c: Chain<V>, k: Addr)
    requires c != [] && Distinct(c)
    ensures Distinct(c[1..]) && Find(c[1..], c[0].key) == None
    ensures k != c[0].key ==> Find(c[1..], k) == Find(c, k)
  {
    FindNone(c[1..], c[0].key);
  }

  // ----- tables

  function Slot(hash: Addr -> nat, k: Addr, n: nat): (h: nat)
    requires n > 0
    ensures h < n
  {
    hash(k) % n
  }

  /** The chain in bucket b holds exactly the entries of m that belong there, once each. */
  ghost predicate ChainHolds<V>(hash: Addr -> nat, c: Chain<V>, b: nat, n: nat, m: map<Addr, V>)
    requires n > 0
  {
    Distinct(c) && forall k :: Find(c, k) == if k in m && Slot(hash, k, n) == b then Some(m[k]) else None
  }

  ghost predicate Represents<V>(hash: Addr -> nat, bs: seq<Chain<V>>, m: map<Addr, V>) {
    if bs == [] then m == map[] else forall b | 0 <= b < |bs| :: ChainHolds(hash, bs[b], b, |bs|, m)
  }

  /** The table is a representation of the map m. Worded so that the verifier looks inside only where
      Represents is mentioned. */
  ghost predicate Holds<V>(hash: Addr -> nat, bs: seq<Chain<V>>, m: map<Addr, V>) {
    forall n | n == m :: Represents(hash, bs, n)
  }

  lemma EmptyHolds<V>(hash: Addr -> nat)
    ensures Holds<V>(hash, [], map[])
  {
    assert Represents<V>(hash, [], map[]);
  }

  /** A table represents one map only. */
  lemma HoldsOne<V>(hash: Addr -> nat, bs: seq<Chain<V>>, m: map<Addr, V>, m': map<Addr, V>)
    requires Holds(hash, bs, m) && Holds(hash, bs, m')
    ensures m == m'
  {
    assert Represents(hash, bs, m) && Represents(hash, bs, m');
    if bs != [] {
      forall k: Addr
        ensures (k in m <==> k in m') && (k in m ==> m[k] == m'[k])
      {
        var b := Slot(hash, k, |bs|);
        assert ChainHolds(hash, bs[b], b, |bs|, m) && ChainHolds(hash, bs[b], b, |bs|, m');
        assert Find(bs[b], k) == if k in m then Some(m[k]) else None;
      }
      assert m.Keys == m'.Keys;
    }
  }

  /** A new node goes to the front of its chain. */
  function Push<V>(hash: Addr -> nat, bs: seq<Chain<V>>, node: Node<V>): seq<Chain<V>>
    requires bs != []
  {
    var h := Slot(hash, node.key, |bs|);
    bs[h := [node] + bs[h]]
  }

  lemma PushHolds<V>(hash: Addr -> nat, bs: seq<Chain<V>>, m: map<Addr, V>, node: Node<V>)
    requires bs != [] && Holds(hash, bs, m) && node.key !in m
    ensures Holds(hash, Push(hash, bs, node), m[node.key := node.val])
  {
    assert Represents(hash, bs, m);
    var h := Slot(hash, node.key, |bs|);
    var c := [node] + bs[h];
    forall b | 0 <= b < |bs|
      ensures ChainHolds(hash, Push(hash, bs, node)[b], b, |bs|, m[node.key := node.val])
    {
      assert ChainHolds(hash, bs[b], b, |bs|, m);
      if b == h {
        PushChain(hash, bs[b], b, |bs|, m, node);
      }
    }
    assert Represents(hash, Push(hash, bs, node), m[node.key := node.val]);
  }

  lemma PushChain<V>(hash: Addr -> nat, c: Chain<V>, b: nat, n: nat, m: map<Addr, V>, node: Node<V>)
    requires n > 0 && ChainHolds(hash, c, b, n, m) && node.key !in m && Slot(hash, node.key, n) == b
    ensures ChainHolds(hash, [node] + c, b, n, m[node.key := node.val])
  {
    var d := [node] + c;
    assert d[1..] == c;
    FindNone(c, node.key);
    forall i, j | 0 <= i < j < |d|
      ensures d[i].key != d[j].key
    {
      assert d[j] == c[j - 1];
      assert i > 0 ==> d[i] == c[i - 1];
    }
  }

  /** The chain without the node under k. */
  function Drop<V>(c: Chain<V>, k: Addr): Chain<V> {
    if c == [] then [] else if c[0].key == k then c[1..] else [c[0]] + Drop(c[1..], k)
  }

  lemma {:induction false} DropFinds<V>(c: Chain<V>, k: Addr, j: Addr)
    requires Distinct(c)
    ensures Find(Drop(c, k), j) == if j == k then None else Find(c, j)
  {
    if c != [] {
      if c[0].key == k {
        FindTail(c, j);
      } else {
        DropFinds(c[1..], k, j);
        assert Drop(c, k)[1..] == Drop(c[1..], k);
      }
    }
  }

  lemma {:induction false} DropAt<V>(c: Chain<V>, k: Addr, p: nat)
    requires p < |c| && c[p].key == k && forall j | 0 <= j < p :: c[j].key != k
    ensures Drop(c, k) == c[..p] + c[p + 1..]
  {
    if p > 0 {
      DropAt(c[1..], k, p - 1);
      assert c[..p] == [c[0]] + c[1..][..p - 1] && c[1..][p..] == c[p + 1..];
    }
  }

  lemma {:induction false} DropDistinct<V>(c: Chain<V>, k: Addr)
    requires Distinct(c)
    ensures Distinct(Drop(c, k))
  {
    if c != [] && c[0].key != k {
      DropDistinct(c[1..], k);
      var d := Drop(c[1..], k);
      FindTail(c, k);
      DropFinds(c[1..], k, c[0].key);
      FindNone(d, c[0].key);
    }
  }

  /** The chain with the value under k replaced. */
  function Alter<V>(c: Chain<V>, k: Addr, v: V): (d: Chain<V>)
    ensures |d| == |c| && forall i | 0 <= i < |c| :: d[i].key == c[i].key
  {
    if c == [] then [] else if c[0].key == k then [Node(k, v)] + c[1..] else [c[0]] + Alter(c[1..], k, v)
  }

  lemma {:induction false} AlterFinds<V>(c: Chain<V>, k: Addr, v: V, j: Addr)
    ensures Find(Alter(c, k, v), j) == if j == k && Find(c, k).Some? then Some(v) else Find(c, j)
  {
    if c != [] {
      if c[0].key == k {
        assert Alter(c, k, v)[1..] == c[1..];
      } else {
        AlterFinds(c[1..], k, v, j);
        assert Alter(c, k, v)[1..] == Alter(c[1..], k, v);
      }
    }
  }

  function Erase<V>(hash: Addr -> nat, bs: seq<Chain<V>>, k: Addr): seq<Chain<V>>
    requires bs != []
  {
    var h := Slot(hash, k, |bs|);
    bs[h := Drop(bs[h], k)]
  }

  lemma EraseHolds<V>(hash: Addr -> nat, bs: seq<Chain<V>>, m: map<Addr, V>, k: Addr)
    requires bs != [] && Holds(hash, bs, m)
    ensures Holds(hash, Erase(hash, bs, k), m - {k})
  {
    assert Represents(hash, bs, m);
    var h := Slot(hash, k, |bs|);
    forall b | 0 <= b < |bs|
      ensures ChainHolds(hash, Erase(hash, bs, k)[b], b, |bs|, m - {k})
    {
      assert ChainHolds(hash, bs[b], b, |bs|, m);
      if b == h {
        DropDistinct(bs[b], k);
        forall j: Addr
          ensures Find(Drop(bs[b], k), j) == if j == k then None else Find(bs[b], j)
        {
          DropFinds(bs[b], k, j);
        }
      }
    }
    assert Represents(hash, Erase(hash, bs, k), m - {k});
  }

  // ----- losing a chain

  /** The head of the chain of k is overwritten. */
  function Lose<V>(hash: Addr -> nat, bs: seq<Chain<V>>, k: Addr): seq<Chain<V>>
    requires bs != []
  {
    bs[Slot(hash, k, |bs|) := []]
  }

  /** Two addresses share a chain exactly if their hash values agree modulo the number of buckets; in one
      bucket all do. */
  lemma SharesChain(hash: Addr -> nat, keys: set<Addr>, j: Addr, k: Addr, n: nat)
    requires n > 0 && j in keys
    ensures j in Neighbours(hash, keys, k, n) <==> exists q: int :: hash(j) == hash(k) + q * n
  {
    var a, b := hash(j), hash(k);
    if a % n == b % n {
      assert a == b + (a / n - b / n) * n;
    } else if exists q: int :: a == b + q * n {
      var q: int :| a == b + q * n;
      ModSame(b, q, n);
    }
  }

  lemma ModSame(b: nat, q: int, n: nat)
    requires n > 0 && b + q * n >= 0
    ensures (b + q * n) % n == b % n
  {
    var d, r := b / n, b % n;
    assert b == n * d + r;
    assert n * (d + q) == n * d + n * q;
    NumberTheory.DivModUnique(b + q * n, n, d + q, r);
  }

  /** The keys that share the chain of k; none if there are no buckets. */
  function Neighbours(hash: Addr -> nat, keys: set<Addr>, k: Addr, n: nat): set<Addr> {
    if n == 0 then {} else set j | j in keys && Slot(hash, j, n) == Slot(hash, k, n)
  }

  /** Exactly the neighbours are gone. */
  lemma LoseHolds<V>(hash: Addr -> nat, bs: seq<Chain<V>>, m: map<Addr, V>, k: Addr)
    requires bs != [] && Holds(hash, bs, m)
    ensures Holds(hash, Lose(hash, bs, k), m - Neighbours(hash, m.Keys, k, |bs|))
  {
    assert Represents(hash, bs, m);
    var r, rest := Lose(hash, bs, k), m - Neighbours(hash, m.Keys, k, |bs|);
    forall b | 0 <= b < |bs|
      ensures ChainHolds(hash, r[b], b, |bs|, rest)
    {
      assert ChainHolds(hash, bs[b], b, |bs|, m);
    }
    assert Represents(hash, r, rest);
  }

  /** So the table still holds its map exactly when that chain was empty. */
  lemma LoseExact<V>(hash: Addr -> nat, bs: seq<Chain<V>>, m: map<Addr, V>, k: Addr)
    requires bs != [] && Holds(hash, bs, m)
    ensures Holds(hash, Lose(hash, bs, k), m) <==> bs[Slot(hash, k, |bs|)] == []
    ensures bs[Slot(hash, k, |bs|)] == [] <==> Neighbours(hash, m.Keys, k, |bs|) == {}
  {
    var h, lost := Slot(hash, k, |bs|), Neighbours(hash, m.Keys, k, |bs|);
    assert Represents(hash, bs, m);
    assert ChainHolds(hash, bs[h], h, |bs|, m);
    LoseHolds(hash, bs, m, k);
    if bs[h] == [] {
      forall j ensures j !in lost { assert Find(bs[h], j) == None; }
      assert lost == {} && m - lost == m;
    } else {
      var j := bs[h][0].key;
      assert Find(bs[h], j).Some? && j in lost && j !in m - lost;
      if Holds(hash, Lose(hash, bs, k), m) {
        HoldsOne(hash, Lose(hash, bs, k), m, m - lost);
      }
    }
  }

  /** For instance: with every address in the first of two buckets, a failed insertion of 1 loses 0. */
  lemma InsertWithoutMemory()
    ensures var hash, bs := (_: Addr) => 0, [[Node(0, 5)], []];
            && Holds(hash, bs, map[0 := 5]) && Lose(hash, bs, 1) == [[], []]
            && !Holds(hash, Lose(hash, bs, 1), map[0 := 5]) && Holds(hash, Lose(hash, bs, 1), map[])
  {
    var hash, bs := (_: Addr) => 0, [[Node(0, 5)], []];
    assert ChainHolds(hash, bs[0], 0, 2, map[0 := 5]);
    assert ChainHolds(hash, bs[1], 1, 2, map[0 := 5]);
    assert Represents(hash, bs, map[0 := 5]);
    LoseExact(hash, bs, map[0 := 5], 1);
    LoseHolds(hash, bs, map[0 := 5], 1);
    assert map[0 := 5] - Neighbours(hash, map[0 := 5].Keys, 1, 2) == map[];
  }

  function Assign<V>(hash: Addr -> nat, bs: seq<Chain<V>>, k: Addr, v: V): seq<Chain<V>>
    requires bs != []
  {
    var h := Slot(hash, k, |bs|);
    bs[h := Alter(bs[h], k, v)]
  }

  lemma AssignHolds<V>(hash: Addr -> nat, bs: seq<Chain<V>>, m: map<Addr, V>, k: Addr, v: V)
    requires bs != [] && Holds(hash, bs, m) && k in m
    ensures Holds(hash, Assign(hash, bs, k, v), m[k := v])
  {
    assert Represents(hash, bs, m);
    var h := Slot(hash, k, |bs|);
    forall b | 0 <= b < |bs|
      ensures ChainHolds(hash, Assign(hash, bs, k, v)[b], b, |bs|, m[k := v])
    {
      assert ChainHolds(hash, bs[b], b, |bs|, m);
      if b == h {
        forall j: Addr
          ensures Find(Alter(bs[b], k, v), j) == if j == k then Some(v) else Find(bs[b], j)
        {
          AlterFinds(bs[b], k, v, j);
        }
      }
    }
    assert Represents(hash, Assign(hash, bs, k, v), m[k := v]);
  }

  // ----- the code

  /** The walk of __find_iterator and __find_c. */
  method Lookup<V>(hash: Addr -> nat, bs: seq<Chain<V>>, k: Addr, ghost m: map<Addr, V>) returns (r: Option<V>)
    requires Holds(hash, bs, m)
    ensures r == if k in m then Some(m[k]) else None
  {
    assert Represents(hash, bs, m);
    r := None;
    if |bs| == 0 {
      return;
    }
    var h := Slot(hash, k, |bs|);
    assert ChainHolds(hash, bs[h], h, |bs|, m);
    var rest := bs[h];
    while rest != []
      invariant Find(rest, k) == Find(bs[h], k)
      decreases |rest|
    {
      if rest[0].key == k {
        return Some(rest[0].val);
      }
      rest := rest[1..];
    }
  }

  /** The walk of __erase_i and __erase_c: unlinks the node, from the bucket or from its predecessor. */
  method Unlink<V>(hash: Addr -> nat, bs: seq<Chain<V>>, k: Addr, ghost m: map<Addr, V>)
    returns (found: Option<V>, bs': seq<Chain<V>>)
    requires bs != [] && Holds(hash, bs, m)
    ensures found == (if k in m then Some(m[k]) else None) && |bs'| == |bs| && Holds(hash, bs', m - {k})
  {
    assert Represents(hash, bs, m);
    var h := Slot(hash, k, |bs|);
    var c := bs[h];
    assert ChainHolds(hash, c, h, |bs|, m);
    EraseHolds(hash, bs, m, k);
    var p := 0;
    while p < |c| && c[p].key != k
      invariant p <= |c| && forall j | 0 <= j < p :: c[j].key != k
    {
      p := p + 1;
    }
    if p == |c| {
      FindNone(c, k);
      assert m - {k} == m;
      return None, bs;
    }
    DropAt(c, k, p);
    FindAt(c, p);
    return Some(c[p].val), bs[h := c[..p] + c[p + 1..]];
  }

  /** What the rehashing loop has moved: everything of the buckets before p, and what is no longer in
      the rest of chain p. */
  ghost predicate Moved<V>(hash: Addr -> nat, m: map<Addr, V>, n: nat, p: nat, rest: Chain<V>, moved: map<Addr, V>)
    requires n > 0
  {
    && Distinct(rest)
    && (forall k | k in moved :: k in m && moved[k] == m[k] && Slot(hash, k, n) <= p)
    && (forall k | k in m && Slot(hash, k, n) < p :: k in moved)
    && (forall k | k in m && Slot(hash, k, n) == p :: k in moved <==> Find(rest, k) == None)
    && (forall k | Find(rest, k).Some? :: k in m && Slot(hash, k, n) == p && Find(rest, k) == Some(m[k]))
  }

  /** The rehashing loops: every node is taken from the front of its chain and pushed onto its new one,
      which reverses chains but leaves the map as it was. */
  method Rehash<V>(hash: Addr -> nat, bs: seq<Chain<V>>, nc: nat, ghost m: map<Addr, V>)
    returns (r: seq<Chain<V>>)
    requires nc > 0 && Holds(hash, bs, m)
    ensures |r| == nc && Holds(hash, r, m)
  {
    r := seq(nc, _ => []);
    ghost var moved: map<Addr, V> := map[];
    assert Represents(hash, r, moved);
    MoveFirst(hash, bs, m);
    var p := 0;
    while p < |bs|
      invariant p <= |bs| && |r| == nc && Holds(hash, r, moved)
      invariant bs == [] ==> moved == map[]
      invariant bs != [] ==> Moved(hash, m, |bs|, p, if p < |bs| then bs[p] else [], moved)
    {
      var q := bs[p];
      while q != []
        invariant |r| == nc && Holds(hash, r, moved)
        invariant Moved(hash, m, |bs|, p, q, moved)
        decreases |q|
      {
        MoveOne(hash, m, |bs|, p, q, moved);
        PushHolds(hash, r, moved, q[0]);
        moved := moved[q[0].key := q[0].val];
        r := Push(hash, r, q[0]);
        q := q[1..];
      }
      MoveOn(hash, bs, m, p, moved);
      p := p + 1;
    }
    AllMoved(hash, bs, m, moved);
  }

  lemma MoveFirst<V>(hash: Addr -> nat, bs: seq<Chain<V>>, m: map<Addr, V>)
    requires Holds(hash, bs, m)
    ensures bs != [] ==> Moved(hash, m, |bs|, 0, bs[0], map[])
  {
    assert Represents(hash, bs, m);
    if bs != [] {
      assert ChainHolds(hash, bs[0], 0, |bs|, m);
    }
  }

  lemma MoveOne<V>(hash: Addr -> nat, m: map<Addr, V>, n: nat, p: nat, q: Chain<V>, moved: map<Addr, V>)
    requires n > 0 && q != [] && Moved(hash, m, n, p, q, moved)
    ensures q[0].key !in moved && Moved(hash, m, n, p, q[1..], moved[q[0].key := q[0].val])
  {
    assert Find(q, q[0].key) == Some(q[0].val);
    forall k: Addr
      ensures Find(q[1..], k) == if k == q[0].key then None else Find(q, k)
    {
      FindTail(q, k);
    }
  }

  lemma MoveOn<V>(hash: Addr -> nat, bs: seq<Chain<V>>, m: map<Addr, V>, p: nat, moved: map<Addr, V>)
    requires p < |bs| && Holds(hash, bs, m) && Moved(hash, m, |bs|, p, [], moved)
    ensures Moved(hash, m, |bs|, p + 1, if p + 1 < |bs| then bs[p + 1] else [], moved)
  {
    assert Represents(hash, bs, m);
    if p + 1 < |bs| {
      assert ChainHolds(hash, bs[p + 1], p + 1, |bs|, m);
    }
  }

  lemma AllMoved<V>(hash: Addr -> nat, bs: seq<Chain<V>>, m: map<Addr, V>, moved: map<Addr, V>)
    requires Holds(hash, bs, m) && (bs == [] ==> moved == map[])
    requires bs != [] ==> Moved(hash, m, |bs|, |bs|, [], moved)
    ensures moved == m
  {
    assert Represents(hash, bs, m);
    if bs != [] {
      forall k | k in m ensures k in moved { assert Slot(hash, k, |bs|) < |bs|; }
      assert moved.Keys == m.Keys;
    }
  }
}
