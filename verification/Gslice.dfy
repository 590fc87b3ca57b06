/** gslice::__init in libc++'s valarray.cpp: an odometer that enumerates a generalised slice, adding one
    stride and taking back the wrapped ones at each step. See section 26.6.6 of ISO C++11. */
module Gslice {
  import opened NumberTheory

  // ----- multi-indices and their lexicographic rank

  function Product(sizes: seq<nat>): nat {
    if sizes == [] then 1 else sizes[0] * Product(sizes[1..])
  }

  predicate InBounds(ds: seq<nat>, sizes: seq<nat>) {
    |ds| == |sizes| && forall i | 0 <= i < |ds| :: ds[i] < sizes[i]
  }

  /** How many multi-indices come before ds. */
  function Rank(ds: seq<nat>, sizes: seq<nat>): nat
    requires |ds| == |sizes|
  {
    if ds == [] then 0 else ds[0] * Product(sizes[1..]) + Rank(ds[1..], sizes[1..])
  }

  predicate LexLess(a: seq<nat>, b: seq<nat>)
    requires |a| == |b|
  {
    a != [] && (a[0] < b[0] || (a[0] == b[0] && LexLess(a[1..], b[1..])))
  }

  /** The sum of stride times digit. */
  function Dot(strides: seq<nat>, ds: seq<nat>): nat
    requires |strides| == |ds|
  {
    if ds == [] then 0 else strides[0] * ds[0] + Dot(strides[1..], ds[1..])
  }

  lemma {:induction false} RankBound(ds: seq<nat>, sizes: seq<nat>)
    requires InBounds(ds, sizes)
    ensures Rank(ds, sizes) < Product(sizes)
  {
    if ds != [] {
      var p := Product(sizes[1..]);
      RankBound(ds[1..], sizes[1..]);
      MulMonotone(ds[0] + 1, sizes[0], p);
      assert (ds[0] + 1) * p == ds[0] * p + p;
    }
  }

  lemma SmallerHead(a: seq<nat>, b: seq<nat>, sizes: seq<nat>)
    requires InBounds(a, sizes) && InBounds(b, sizes) && a != [] && a[0] < b[0]
    ensures Rank(a, sizes) < Rank(b, sizes)
  {
    var p := Product(sizes[1..]);
    RankBound(a[1..], sizes[1..]);
    HeadOutweighs(a[0], b[0], p, Rank(a[1..], sizes[1..]));
  }

  lemma HeadOutweighs(x: nat, y: nat, p: nat, r: nat)
    requires x < y && r < p
    ensures x * p + r < y * p
  {
    MulMonotone(x + 1, y, p);
    assert (x + 1) * p == x * p + p;
  }

  /** The rank orders multi-indices as the dictionary does, so it is the position in that order. */
  lemma {:induction false} RankIsLexicographic(a: seq<nat>, b: seq<nat>, sizes: seq<nat>)
    requires InBounds(a, sizes) && InBounds(b, sizes)
    ensures LexLess(a, b) <==> Rank(a, sizes) < Rank(b, sizes)
  {
    if a != [] {
      if a[0] < b[0] {
        SmallerHead(a, b, sizes);
      } else if b[0] < a[0] {
        SmallerHead(b, a, sizes);
      } else {
        RankIsLexicographic(a[1..], b[1..], sizes[1..]);
      }
    }
  }

  /** The multi-index of a given rank. */
  function Digits(k: nat, sizes: seq<nat>): (ds: seq<nat>)
    ensures |ds| == |sizes|
  {
    if sizes == [] then []
    else
      var p := Product(sizes[1..]);
      if p == 0 then [0] + Digits(0, sizes[1..]) else [k / p] + Digits(k % p, sizes[1..])
  }

  lemma DivMod(q: int, p: nat, r: nat)
    requires r < p
    ensures (q * p + r) / p == q && (q * p + r) % p == r
  {
    DivModUnique(q * p + r, p, q, r);
  }

  lemma {:induction false} DigitsOfRank(ds: seq<nat>, sizes: seq<nat>)
    requires InBounds(ds, sizes)
    ensures Digits(Rank(ds, sizes), sizes) == ds
  {
    if ds != [] {
      var p := Product(sizes[1..]);
      RankBound(ds[1..], sizes[1..]);
      DigitsOfRank(ds[1..], sizes[1..]);
      DivMod(ds[0], p, Rank(ds[1..], sizes[1..]));
    }
  }

  /** Every position below the product is the rank of a multi-index within bounds. */
  lemma {:induction false} RankOfDigits(k: nat, sizes: seq<nat>)
    requires k < Product(sizes)
    ensures InBounds(Digits(k, sizes), sizes) && Rank(Digits(k, sizes), sizes) == k
  {
    if sizes != [] {
      var p := Product(sizes[1..]);
      if p != 0 {
        assert k == k / p * p + k % p;
        RankOfDigits(k % p, sizes[1..]);
        if k / p >= sizes[0] {
          MulMonotone(sizes[0], k / p, p);
        }
      }
    }
  }

  // ----- one step of the odometer

  /** What the digits from position i on contribute when they are all at their maximum. */
  function Full(strides: seq<nat>, sizes: seq<nat>): nat
    requires |strides| == |sizes| && forall i | 0 <= i < |sizes| :: sizes[i] > 0
  {
    if sizes == [] then 0 else strides[0] * (sizes[0] - 1) + Full(strides[1..], sizes[1..])
  }

  function FullFrom(strides: seq<nat>, sizes: seq<nat>, i: nat): nat
    requires |strides| == |sizes| && i <= |sizes| && forall j | 0 <= j < |sizes| :: sizes[j] > 0
  {
    Full(strides[i..], sizes[i..])
  }

  lemma FullStep(strides: seq<nat>, sizes: seq<nat>, i: nat)
    requires |strides| == |sizes| && i < |sizes| && forall j | 0 <= j < |sizes| :: sizes[j] > 0
    ensures FullFrom(strides, sizes, i) == strides[i] * (sizes[i] - 1) + FullFrom(strides, sizes, i + 1)
  {
    assert strides[i..][1..] == strides[i + 1..] && sizes[i..][1..] == sizes[i + 1..];
  }

  function Zeros(n: nat): (z: seq<nat>)
    ensures |z| == n && forall i | 0 <= i < n :: z[i] == 0
  {
    seq(n, _ => 0)
  }

  predicate AtMax(ds: seq<nat>, sizes: seq<nat>, i: nat)
    requires |ds| == |sizes|
  {
    forall j | i <= j < |ds| :: ds[j] + 1 == sizes[j]
  }

  lemma {:induction false} RankOfMax(ds: seq<nat>, sizes: seq<nat>)
    requires InBounds(ds, sizes) && AtMax(ds, sizes, 0)
    ensures Rank(ds, sizes) + 1 == Product(sizes)
  {
    if ds != [] {
      var p := Product(sizes[1..]);
      RankOfMax(ds[1..], sizes[1..]);
      assert (ds[0] + 1) * p == ds[0] * p + p;
    }
  }

  lemma {:induction false} RankOfZeros(n: nat, sizes: seq<nat>)
    requires n == |sizes|
    ensures Rank(Zeros(n), sizes) == 0
  {
    if n > 0 {
      RankOfZeros(n - 1, sizes[1..]);
      assert Zeros(n)[1..] == Zeros(n - 1);
    }
  }

  lemma {:induction false} DotOfZeros(n: nat, strides: seq<nat>)
    requires n == |strides|
    ensures Dot(strides, Zeros(n)) == 0
  {
    if n > 0 {
      DotOfZeros(n - 1, strides[1..]);
      assert Zeros(n)[1..] == Zeros(n - 1);
    }
  }

  lemma {:induction false} DotOfMax(strides: seq<nat>, ds: seq<nat>, sizes: seq<nat>)
    requires |strides| == |ds| && InBounds(ds, sizes) && AtMax(ds, sizes, 0)
    ensures Dot(strides, ds) == Full(strides, sizes)
  {
    if ds != [] {
      DotOfMax(strides[1..], ds[1..], sizes[1..]);
    }
  }

  /** The successor: digit i goes up by one and the ones after it start again. */
  function Bump(ds: seq<nat>, i: nat): (r: seq<nat>)
    requires i < |ds|
    ensures |r| == |ds|
  {
    ds[..i] + [ds[i] + 1] + Zeros(|ds| - i - 1)
  }

  lemma {:induction false} BumpRank(ds: seq<nat>, sizes: seq<nat>, i: nat)
    requires InBounds(ds, sizes) && i < |ds| && AtMax(ds, sizes, i + 1)
    ensures Rank(Bump(ds, i), sizes) == Rank(ds, sizes) + 1
  {
    var b := Bump(ds, i);
    if i == 0 {
      var p := Product(sizes[1..]);
      assert b[1..] == Zeros(|ds| - 1);
      RankOfZeros(|ds| - 1, sizes[1..]);
      RankOfMax(ds[1..], sizes[1..]);
      assert (ds[0] + 1) * p == ds[0] * p + p;
    } else {
      BumpRank(ds[1..], sizes[1..], i - 1);
      assert b[1..] == Bump(ds[1..], i - 1);
    }
  }

  lemma {:induction false} BumpDot(strides: seq<nat>, ds: seq<nat>, sizes: seq<nat>, i: nat)
    requires |strides| == |ds| && InBounds(ds, sizes) && i < |ds| && AtMax(ds, sizes, i + 1)
    ensures Dot(strides, Bump(ds, i)) == Dot(strides, ds) + strides[i] - FullFrom(strides, sizes, i + 1)
  {
    var b := Bump(ds, i);
    if i == 0 {
      assert b[1..] == Zeros(|ds| - 1);
      DotOfZeros(|ds| - 1, strides[1..]);
      DotOfMax(strides[1..], ds[1..], sizes[1..]);
      assert strides[0] * (ds[0] + 1) == strides[0] * ds[0] + strides[0];
    } else {
      BumpDot(strides[1..], ds[1..], sizes[1..], i - 1);
      assert b[1..] == Bump(ds[1..], i - 1);
      assert strides[1..][i..] == strides[i + 1..] && sizes[1..][i..] == sizes[i + 1..];
    }
  }

  // ----- size_t arithmetic, modulo m

  lemma ModShift(x: int, k: int, m: nat)
    requires m > 0
    ensures (x + k * m) % m == x % m
  {
    var q, r := x / m, x % m;
    assert x == q * m + r;
    assert x + k * m == (q + k) * m + r;
    DivMod(q + k, m, r);
  }

  lemma ModAdd(x: int, y: int, m: nat)
    requires m > 0
    ensures (x % m + y) % m == (x + y) % m
  {
    var q := x / m;
    assert x == q * m + x % m;
    assert x + y == (x % m + y) + q * m;
    ModShift(x % m + y, q, m);
  }

  lemma ModSub(x: int, y: int, m: nat)
    requires m > 0
    ensures (x % m - y % m) % m == (x - y) % m
  {
    var q := y / m;
    ModAdd(x, -(y % m), m);
    assert y == q * m + y % m;
    assert x - y % m == (x - y) + q * m;
    ModShift(x - y, q, m);
  }

  lemma ModTimes(a: nat, b: nat, m: nat)
    requires m > 0
    ensures ((b % m) * a) % m == (b * a) % m
  {
    ModMul(b, a, m);
    ModMul(b % m, a, m);
    ModSmall(b % m, m);
  }

  lemma ModSmall(x: nat, m: nat)
    requires x < m
    ensures x % m == x
  {
    DivMod(0, m, x);
  }

  // ----- the code

  /** What the slot of a multi-index holds, before it is reduced to a size_t. */
  function Slot(start: nat, strides: seq<nat>, ds: seq<nat>): nat
    requires |strides| == |ds|
  {
    start + Dot(strides, ds)
  }

  /** In three dimensions, as the standard writes it out: slot number i * (m * n) + j * n + k holds
      start + a * i + b * j + c * k. */
  lemma ThreeDimensions(start: nat, sizes: (nat, nat, nat), strides: (nat, nat, nat), i: nat, j: nat, k: nat)
    requires i < sizes.0 && j < sizes.1 && k < sizes.2
    ensures var position := i * (sizes.1 * sizes.2) + j * sizes.2 + k;
            Slot(start, [strides.0, strides.1, strides.2], Digits(position, [sizes.0, sizes.1, sizes.2]))
            == start + strides.0 * i + strides.1 * j + strides.2 * k
  {
    var s, t, ds := [sizes.0, sizes.1, sizes.2], [strides.0, strides.1, strides.2], [i, j, k];
    ThreeRank(ds, s);
    ThreeDot(t, ds);
    DigitsOfRank(ds, s);
  }

  lemma ThreeRank(ds: seq<nat>, s: seq<nat>)
    requires |ds| == |s| == 3
    ensures Rank(ds, s) == ds[0] * (s[1] * s[2]) + ds[1] * s[2] + ds[2]
  {
    assert ds[1..][1..] == [ds[2]] && s[1..][1..] == [s[2]] && [ds[2]][1..] == [] && [s[2]][1..] == [];
    assert Product([]) == 1 && Rank([], []) == 0;
    assert Product([s[2]]) == s[2] * Product([]) && Product(s[1..]) == s[1] * Product([s[2]]);
    assert Rank([ds[2]], [s[2]]) == ds[2] * Product([]) + Rank([], []);
  }

  lemma ThreeDot(t: seq<nat>, ds: seq<nat>)
    requires |t| == |ds| == 3
    ensures Dot(t, ds) == t[0] * ds[0] + t[1] * ds[1] + t[2] * ds[2]
  {
    assert t[1..][1..] == [t[2]] && ds[1..][1..] == [ds[2]] && [t[2]][1..] == [] && [ds[2]][1..] == [];
    assert Dot([t[2]], [ds[2]]) == t[2] * ds[2] + Dot([], []);
  }

  ghost predicate IsMod(v: int, w: int, m: nat) {
    m > 0 && v == w % m
  }

  /** v is w modulo m; worded so that the verifier looks inside only where IsMod is mentioned. */
  ghost predicate Reduced(v: int, w: int, m: nat) {
    forall u | u == w :: IsMod(v, u, m)
  }

  lemma ReducedStep(v: int, w: int, d: int, u: int, m: nat)
    requires Reduced(v, w, m) && Reduced(u, v + d, m)
    ensures Reduced(u, w + d, m)
  {
    assert IsMod(v, w, m) && IsMod(u, v + d, m);
    ModAdd(w, d, m);
    assert IsMod(u, w + d, m);
  }

  lemma ReducedSub(v: int, w: int, d: int, u: int, m: nat)
    requires Reduced(v, w, m) && m > 0 && u == (v - d % m) % m
    ensures Reduced(u, w - d, m)
  {
    assert IsMod(v, w, m);
    ModSub(w, d, m);
    assert IsMod(u, w - d, m);
  }

  lemma {:induction false} AllPositive(sizes: seq<nat>)
    requires Product(sizes) > 0
    ensures forall i | 0 <= i < |sizes| :: sizes[i] > 0
  {
    if sizes != [] {
      assert sizes[0] > 0 && Product(sizes[1..]) > 0;
      AllPositive(sizes[1..]);
    }
  }

  lemma {:induction false} ProductSnoc(sizes: seq<nat>, i: nat)
    requires i < |sizes|
    ensures Product(sizes[..i + 1]) == Product(sizes[..i]) * sizes[i]
  {
    if i == 0 {
      assert sizes[..1][1..] == [] && sizes[..0] == [];
    } else {
      ProductSnoc(sizes[1..], i - 1);
      assert sizes[..i + 1][1..] == sizes[1..][..i] && sizes[..i][1..] == sizes[1..][..i - 1];
      var a, b, c := sizes[0], Product(sizes[1..][..i - 1]), sizes[i];
      assert a * (b * c) == (a * b) * c;
    }
  }

  /** The number of slots allocated: the product, as size_t arithmetic gives it. */
  method CountSlots(sizes: seq<nat>, m: nat) returns (k: nat)
    requires m > 0
    ensures k == if sizes == [] then 0 else Product(sizes) % m
  {
    if |sizes| == 0 {
      return 0;
    }
    k := 1 % m;
    for i := 0 to |sizes|
      invariant k == Product(sizes[..i]) % m
    {
      ProductSnoc(sizes, i);
      ModTimes(sizes[i], Product(sizes[..i]), m);
      k := (k * sizes[i]) % m;
    }
    assert sizes[..|sizes|] == sizes;
  }

  /** Takes back the strides of the digits after i. */
  method TakeBack(x0: nat, strides: seq<nat>, sizes: seq<nat>, i: nat, m: nat) returns (x: nat)
    requires |strides| == |sizes| && i < |sizes| && m > 0 && forall j | 0 <= j < |sizes| :: sizes[j] > 0
    ensures Reduced(x, x0 - FullFrom(strides, sizes, i + 1), m)
  {
    x := x0 % m;
    ghost var taken := 0;
    assert IsMod(x, x0, m);
    for j := i + 1 to |sizes|
      invariant Reduced(x, x0 - taken, m)
      invariant taken + FullFrom(strides, sizes, j) == FullFrom(strides, sizes, i + 1)
    {
      var w := strides[j] * (sizes[j] - 1);
      FullStep(strides, sizes, j);
      var y := (x - w % m) % m;
      ReducedSub(x, x0 - taken, w, y, m);
      x := y;
      taken := taken + w;
    }
  }

  /** Digit i of ds can go up, those after it are at their maximum. */
  predicate Advances(ds: seq<nat>, sizes: seq<nat>, i: nat) {
    InBounds(ds, sizes) && i < |ds| && AtMax(ds, sizes, i + 1) && ds[i] + 1 < sizes[i]
  }

  /** What the odometer relies on: rank numbers the multi-indices from 0 to n - 1 in the order of its
      steps, and each step of it turns the wanted value of one slot into that of the next. */
  ghost predicate Enumerates(rank: seq<nat> -> nat, want: nat -> nat,
                             start: nat, strides: seq<nat>, sizes: seq<nat>, n: nat)
    requires |strides| == |sizes| && forall j | 0 <= j < |sizes| :: sizes[j] > 0
  {
    && rank(Zeros(|sizes|)) == 0 && want(0) == start
    && (forall ds | InBounds(ds, sizes) :: rank(ds) < n && (AtMax(ds, sizes, 0) ==> rank(ds) + 1 == n))
    && (forall ds, i: nat | Advances(ds, sizes, i) :: Stepwise(rank, want, strides, sizes, ds, i))
  }

  ghost predicate Stepwise(rank: seq<nat> -> nat, want: nat -> nat, strides: seq<nat>, sizes: seq<nat>, ds: seq<nat>, i: nat)
    requires |strides| == |sizes| && Advances(ds, sizes, i) && forall j | 0 <= j < |sizes| :: sizes[j] > 0
  {
    && rank(Bump(ds, i)) == rank(ds) + 1
    && want(rank(ds) + 1) == want(rank(ds)) + strides[i] - FullFrom(strides, sizes, i + 1)
  }

  /** gslice::__init for a size_t with m values. If the product of the sizes is one of them, there is
      exactly one slot for each multi-index, in lexicographic order, each holding start plus the sum of
      stride times digit. Otherwise the wrapped product is allocated and the loop writes past its end, or,
      if that is 0, the slice is silently empty. */
  method Init(start: nat, sizes: seq<nat>, strides: seq<nat>, m: nat) returns (out: array<nat>, overrun: bool)
    requires |strides| == |sizes| && start < m
    ensures out.Length == if sizes == [] then 0 else Product(sizes) % m
    ensures sizes != [] ==> (out.Length == Product(sizes) <==> Product(sizes) < m)
    ensures overrun <==> out.Length > 0 && Product(sizes) >= m
    ensures forall k | 0 <= k < out.Length :: IsMod(out[k], Slot(start, strides, Digits(k, sizes)), m)
  {
    overrun := false;
    var n := CountSlots(sizes, m);
    Wrapped(Product(sizes), m);
    if n == 0 {
      out := new nat[0];
      return;
    }
    AllPositive(sizes);
    ghost var rank := (ds: seq<nat>) => if |ds| == |sizes| then Rank(ds, sizes) else 0;
    ghost var want := (k: nat) => Slot(start, strides, Digits(k, sizes));
    SlotsEnumerated(rank, want, start, strides, sizes, Product(sizes));
    out, overrun := Fill(start, sizes, strides, n, m, Product(sizes), rank, want);
    forall k | 0 <= k < n
      ensures IsMod(out[k], Slot(start, strides, Digits(k, sizes)), m)
    {
      assert Reduced(out[k], want(k), m);
      assert IsMod(out[k], want(k), m);
    }
  }

  /** A wrapped number is the number itself or smaller. */
  lemma Wrapped(x: nat, m: nat)
    requires m > 0
    ensures x % m <= x && (x % m == x <==> x < m)
  {
    if x < m {
      ModSmall(x, m);
    }
  }

  /** With sizes 3 and 6148914691236517206 and a 64-bit size_t there are 2^64 + 2 multi-indices and two
      slots; with twice 2^32 there are 2^64 and none. */
  lemma WrappedProducts()
    ensures Product([3, 6148914691236517206]) == 0x1_0000_0000_0000_0002
    ensures Product([3, 6148914691236517206]) % 0x1_0000_0000_0000_0000 == 2
    ensures Product([0x1_0000_0000, 0x1_0000_0000]) % 0x1_0000_0000_0000_0000 == 0
  {
    ProductOfTwo(3, 6148914691236517206);
    ProductOfTwo(0x1_0000_0000, 0x1_0000_0000);
  }

  lemma ProductOfTwo(a: nat, b: nat)
    ensures Product([a, b]) == a * b
  {
    assert [a, b][1..] == [b] && [b][1..] == [];
    assert Product([b]) == b * Product([]);
  }

  /** The loop of gslice::__init, over total multi-indices and n slots; it stops at the first write past
      their end. */
  method Fill(start: nat, sizes: seq<nat>, strides: seq<nat>, n: nat, m: nat, ghost total: nat,
              ghost rank: seq<nat> -> nat, ghost want: nat -> nat) returns (out: array<nat>, overrun: bool)
    requires |strides| == |sizes| > 0 && 0 < n <= total && start < m && forall j | 0 <= j < |sizes| :: sizes[j] > 0
    requires Enumerates(rank, want, start, strides, sizes, total)
    ensures fresh(out) && out.Length == n && forall k | 0 <= k < n :: Reduced(out[k], want(k), m)
    ensures overrun <==> n < total
  {
    out := new nat[n](_ => 0);
    var indices := new nat[|sizes|](_ => 0);
    var k := 0;
    out[0] := start;
    assert indices[..] == Zeros(|sizes|);
    assert IsMod(start, start, m) by { ModSmall(start, m); }
    while true
      invariant fresh(out) && fresh(indices) && indices.Length == |sizes| && out.Length == n
      invariant Stands(rank, want, out[..], indices[..], sizes, k, m)
      decreases n - k
    {
      ghost var ds, before := indices[..], out[..];
      var i := Carry(indices, sizes);
      if i == |sizes| {
        assert rank(ds) + 1 == total;
        return out, false;
      }
      RoomForNext(rank, want, start, strides, sizes, total, ds, i);
      if k + 1 == n {
        return out, true;
      }
      var next := TakeBack(out[k] + strides[i], strides, sizes, i, m);
      out[k + 1] := next;
      StandsNext(rank, want, start, strides, sizes, total, before, ds, i, k, next, m);
      assert out[..] == before[k + 1 := next];
      k := k + 1;
    }
  }

  /** The odometer stands at slot k and everything up to there is filled. */
  ghost predicate Stands(rank: seq<nat> -> nat, want: nat -> nat, out: seq<nat>, ds: seq<nat>, sizes: seq<nat>, k: nat, m: nat) {
    && k < |out| && InBounds(ds, sizes) && rank(ds) == k
    && forall j | 0 <= j <= k :: Reduced(out[j], want(j), m)
  }

  lemma RoomForNext(rank: seq<nat> -> nat, want: nat -> nat,
                    start: nat, strides: seq<nat>, sizes: seq<nat>, n: nat, ds: seq<nat>, i: nat)
    requires |strides| == |sizes| && (forall j | 0 <= j < |sizes| :: sizes[j] > 0)
    requires Enumerates(rank, want, start, strides, sizes, n) && Advances(ds, sizes, i)
    ensures rank(ds) + 1 < n
  {
    assert Stepwise(rank, want, strides, sizes, ds, i);
    assert InBounds(Bump(ds, i), sizes);
  }

  lemma StandsNext(rank: seq<nat> -> nat, want: nat -> nat, start: nat, strides: seq<nat>, sizes: seq<nat>, total: nat,
                   out: seq<nat>, ds: seq<nat>, i: nat, k: nat, next: nat, m: nat)
    requires |strides| == |sizes| && forall j | 0 <= j < |sizes| :: sizes[j] > 0
    requires Enumerates(rank, want, start, strides, sizes, total) && Stands(rank, want, out, ds, sizes, k, m)
    requires Advances(ds, sizes, i) && k + 1 < |out|
    requires Reduced(next, out[k] + strides[i] - FullFrom(strides, sizes, i + 1), m)
    ensures Stands(rank, want, out[k + 1 := next], Bump(ds, i), sizes, k + 1, m)
  {
    assert Stepwise(rank, want, strides, sizes, ds, i);
    ReducedStep(out[k], want(k), strides[i] - FullFrom(strides, sizes, i + 1), next, m);
    assert out[k] + (strides[i] - FullFrom(strides, sizes, i + 1)) == out[k] + strides[i] - FullFrom(strides, sizes, i + 1);
    assert InBounds(Bump(ds, i), sizes);
  }

  lemma SlotsEnumerated(rank: seq<nat> -> nat, want: nat -> nat,
                        start: nat, strides: seq<nat>, sizes: seq<nat>, n: nat)
    requires |strides| == |sizes| && n == Product(sizes) && forall j | 0 <= j < |sizes| :: sizes[j] > 0
    requires forall ds | |ds| == |sizes| :: rank(ds) == Rank(ds, sizes)
    requires forall k: nat :: want(k) == Slot(start, strides, Digits(k, sizes))
    ensures Enumerates(rank, want, start, strides, sizes, n)
  {
    FirstSlot(start, strides, sizes);
    forall ds | InBounds(ds, sizes)
      ensures rank(ds) < n && (AtMax(ds, sizes, 0) ==> rank(ds) + 1 == n)
    {
      RankBound(ds, sizes);
      if AtMax(ds, sizes, 0) {
        RankOfMax(ds, sizes);
      }
    }
    forall ds, i: nat | Advances(ds, sizes, i)
      ensures Stepwise(rank, want, strides, sizes, ds, i)
    {
      BumpRank(ds, sizes, i);
      NextSlot(start, strides, ds, sizes, i);
    }
  }

  lemma FirstSlot(start: nat, strides: seq<nat>, sizes: seq<nat>)
    requires |strides| == |sizes| && forall i | 0 <= i < |sizes| :: sizes[i] > 0
    ensures Rank(Zeros(|sizes|), sizes) == 0 && Slot(start, strides, Digits(0, sizes)) == start
  {
    RankOfZeros(|sizes|, sizes);
    DotOfZeros(|sizes|, strides);
    DigitsOfRank(Zeros(|sizes|), sizes);
  }

  lemma NextSlot(start: nat, strides: seq<nat>, ds: seq<nat>, sizes: seq<nat>, i: nat)
    requires |strides| == |ds| && Advances(ds, sizes, i)
    ensures var k := Rank(ds, sizes);
            Slot(start, strides, Digits(k + 1, sizes))
            == Slot(start, strides, Digits(k, sizes)) + strides[i] - FullFrom(strides, sizes, i + 1)
  {
    BumpRank(ds, sizes, i);
    DigitsOfRank(ds, sizes);
    DigitsOfRank(Bump(ds, i), sizes);
    BumpDot(strides, ds, sizes, i);
  }

  /** The inner loop: the digit that goes up, after those at their maximum are set back; the number of
      digits if there is none. */
  method Carry(indices: array<nat>, sizes: seq<nat>) returns (i: nat)
    requires indices.Length == |sizes| > 0 && InBounds(indices[..], sizes)
    modifies indices
    ensures i <= |sizes|
    ensures i == |sizes| ==> AtMax(old(indices[..]), sizes, 0)
    ensures i < |sizes| ==>
      && AtMax(old(indices[..]), sizes, i + 1) && old(indices[i]) + 1 < sizes[i]
      && indices[..] == Bump(old(indices[..]), i) && InBounds(indices[..], sizes)
  {
    i := |sizes| - 1;
    while true
      invariant i < |sizes|
      invariant forall j | 0 <= j <= i :: indices[j] == old(indices[j])
      invariant forall j | i < j < |sizes| :: indices[j] == 0 && old(indices[j]) + 1 == sizes[j]
      decreases i
    {
      indices[i] := indices[i] + 1;
      if indices[i] < sizes[i] {
        return;
      }
      if i == 0 {
        return |sizes|;
      }
      indices[i] := 0;
      i := i - 1;
    }
  }
}
