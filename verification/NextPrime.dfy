/** The prime search that sizes libc++'s hash tables: __next_prime in hash.cpp, with its two tables,
    its overflow check, and the arithmetic of a 32-bit or 64-bit size_t written out. */
module NextPrime {
  import opened NumberTheory
  import opened PrimeLimits

  /** The two widths for which __check_for_overflow is defined. */
  datatype SizeT = Bits32 | Bits64 {
    function Modulus(): nat {
      if Bits32? then 0x1_0000_0000 else 0x1_0000_0000_0000_0000
    }

    /** The largest argument that __check_for_overflow lets through. */
    function Limit(): nat {
      if Bits32? then LIMIT_32 else LIMIT_64
    }

    function Wrap(x: nat): nat {
      x % Modulus()
    }
  }

  datatype Outcome = Found(value: nat) | OverflowError

  const L: nat := 210

  /** The tables the search runs on. */
  datatype Tables = Tables(smallPrimes: seq<nat>, indices: seq<nat>, steps: seq<nat>) {
    /** What the search relies on: the primes up to 211, the residues modulo 210 that are coprime
        to 210, and the distances between neighbouring residues. */
    ghost predicate Good() {
      && |smallPrimes| == 48 && |indices| == 48 && |steps| == 48
      && Increasing(smallPrimes) && Increasing(indices)
      && smallPrimes[0] == 0 && smallPrimes[1] == 2 && smallPrimes[5] == 11 && smallPrimes[47] == 211
      && indices[0] == 1 && indices[47] == 209 && steps[47] == 2
      && (forall n | 0 < n <= 211 :: n in smallPrimes <==> IsPrime(n))
      && (forall r: nat | r < L :: r in indices <==> Coprime210(r))
      && (forall w | 0 <= w < 47 :: indices[w] + steps[w] == indices[w + 1])
      && (forall w | 0 <= w < 48 :: 2 <= steps[w] <= 10)
    }
  }

  const SMALL_PRIMES: seq<nat> :=
    [0, 2, 3, 5, 7, 11, 13, 17] +
    [19, 23, 29, 31, 37, 41, 43, 47] +
    [53, 59, 61, 67, 71, 73, 79, 83] +
    [89, 97, 101, 103, 107, 109, 113, 127] +
    [131, 137, 139, 149, 151, 157, 163, 167] +
    [173, 179, 181, 191, 193, 197, 199, 211]

  const INDICES: seq<nat> :=
    [1, 11, 13, 17, 19, 23, 29, 31] +
    [37, 41, 43, 47, 53, 59, 61, 67] +
    [71, 73, 79, 83, 89, 97, 101, 103] +
    [107, 109, 113, 121, 127, 131, 137, 139] +
    [143, 149, 151, 157, 163, 167, 169, 173] +
    [179, 181, 187, 191, 193, 197, 199, 209]

  /** The increments of the 48 unrolled blocks of the inner loop, in source order. */
  const STEPS: seq<nat> :=
    [10, 2, 4, 2, 4, 6, 2, 6] +
    [4, 2, 4, 6, 6, 2, 6, 4] +
    [2, 6, 4, 6, 8, 4, 2, 4] +
    [2, 4, 8, 6, 4, 6, 2, 4] +
    [6, 2, 6, 6, 4, 2, 4, 6] +
    [2, 6, 4, 2, 4, 2, 10, 2]

  /** None of 2, 3, 5 and 7 divides n. */
  ghost predicate Coprime210(n: nat) {
    forall p | p in {2, 3, 5, 7} :: !Divides(p, n)
  }

  /** The same, as residues. */
  predicate FourResidues(n: nat) {
    n % 2 != 0 && n % 3 != 0 && n % 5 != 0 && n % 7 != 0
  }

  lemma CoprimeByResidues(n: nat)
    ensures Coprime210(n) <==> FourResidues(n)
  {
    assert 2 in {2, 3, 5, 7} && 3 in {2, 3, 5, 7} && 5 in {2, 3, 5, 7} && 7 in {2, 3, 5, 7};
    assert FourResidues(n) <==> !Divides(2, n) && !Divides(3, n) && !Divides(5, n) && !Divides(7, n);
  }

  lemma ResidueShift(p: nat, q: nat, r: nat)
    requires p > 0
    ensures (p * q + r) % p == r % p
  {
    assert p * q + r == p * (q + r / p) + r % p;
    DivModUnique(p * q + r, p, q + r / p, r % p);
  }

  lemma CoprimePeriodic(k: nat, r: nat)
    ensures Coprime210(L * k + r) <==> Coprime210(r)
  {
    CoprimeByResidues(L * k + r);
    CoprimeByResidues(r);
    ResidueShift(2, 105 * k, r);
    ResidueShift(3, 70 * k, r);
    ResidueShift(5, 42 * k, r);
    ResidueShift(7, 30 * k, r);
  }

  ghost predicate Increasing(a: seq<nat>) {
    forall i, j | 0 <= i < j < |a| :: a[i] < a[j]
  }

  // ----- what the tables hold

  lemma {:induction false} IncreasingByNeighbours(a: seq<nat>)
    requires forall i | 0 < i < |a| :: a[i - 1] < a[i]
    ensures Increasing(a)
  {
    if |a| > 1 {
      var b := a[..|a| - 1];
      IncreasingByNeighbours(b);
      forall i, j | 0 <= i < j < |a|
        ensures a[i] < a[j]
      {
        if j == |a| - 1 && i < j - 1 {
          assert b[i] < b[j - 1];
        } else if j < |a| - 1 {
          assert b[i] < b[j];
        }
      }
    }
  }

  lemma SmallPrimesIncrease()
    ensures Increasing(SMALL_PRIMES)
  {
    IncreasingByNeighbours(SMALL_PRIMES);
  }

  lemma IndicesIncrease()
    ensures Increasing(INDICES)
  {
    IncreasingByNeighbours(INDICES);
  }

  /** INDICES misses no residue modulo 210 that 2, 3, 5 and 7 leave alone. */
  lemma IndicesComplete(r: nat)
    requires r < L && FourResidues(r)
    ensures r in INDICES
  {
    if r < 53 {
      IndicesComplete1(r);
    } else if r < 80 {
      IndicesComplete2(r);
    } else if r < 110 {
      IndicesComplete3(r);
    } else if r < 135 {
      IndicesComplete4(r);
    } else if r < 160 {
      IndicesComplete5(r);
    } else if r < 185 {
      IndicesComplete6(r);
    } else {
      IndicesComplete7(r);
    }
  }

  lemma IndicesComplete1(r: nat)
    requires 0 <= r < 53 && FourResidues(r)
    ensures r in INDICES
  {
  }

  lemma IndicesComplete2(r: nat)
    requires 53 <= r < 80 && FourResidues(r)
    ensures r in INDICES
  {
  }

  lemma IndicesComplete3(r: nat)
    requires 80 <= r < 110 && FourResidues(r)
    ensures r in INDICES
  {
  }

  lemma IndicesComplete4(r: nat)
    requires 110 <= r < 135 && FourResidues(r)
    ensures r in INDICES
  {
  }

  lemma IndicesComplete5(r: nat)
    requires 135 <= r < 160 && FourResidues(r)
    ensures r in INDICES
  {
  }

  lemma IndicesComplete6(r: nat)
    requires 160 <= r < 185 && FourResidues(r)
    ensures r in INDICES
  {
  }

  lemma IndicesComplete7(r: nat)
    requires 185 <= r < 210 && FourResidues(r)
    ensures r in INDICES
  {
  }

  lemma IndicesCoprime(w: nat)
    requires w < 48
    ensures FourResidues(INDICES[w])
  {
  }

  lemma StepBounds(w: nat)
    requires w < 48
    ensures 2 <= STEPS[w] <= 10
  {
  }

  /** The increment after residue INDICES[w] leads to the next residue, or to the next plane. */
  lemma WheelGap(w: nat)
    requires w < 48
    ensures INDICES[w] + STEPS[w] == if w < 47 then INDICES[w + 1] else L + INDICES[0]
  {
    if w < 16 {
      WheelGapLow(w);
    } else if w < 32 {
      WheelGapMiddle(w);
    } else if w < 47 {
      WheelGapHigh(w);
    }
  }

  lemma WheelGapLow(w: nat)
    requires w < 16
    ensures INDICES[w] + STEPS[w] == INDICES[w + 1]
  {
  }

  lemma WheelGapMiddle(w: nat)
    requires 16 <= w < 32
    ensures INDICES[w] + STEPS[w] == INDICES[w + 1]
  {
  }

  lemma WheelGapHigh(w: nat)
    requires 32 <= w < 47
    ensures INDICES[w] + STEPS[w] == INDICES[w + 1]
  {
  }

  ghost function LeastFactor(d: nat): (p: nat)
    requires 2 <= d < 17
    ensures Divides(p, d) && p in {2, 3, 5, 7, 11, 13}
  {
    if d % 2 == 0 then 2 else if d % 3 == 0 then 3 else if d % 5 == 0 then 5 else d
  }

  /** Below 17 * 17, divisibility by the primes up to 13 decides primality. */
  lemma SmallPrimality(n: nat)
    requires 17 <= n < 289
    ensures IsPrime(n) <==> FourResidues(n) && n % 11 != 0 && n % 13 != 0
  {
    if FourResidues(n) && n % 11 != 0 && n % 13 != 0 {
      forall d | 2 <= d < 17
        ensures !Divides(d, n)
      {
        if Divides(d, n) {
          DividesTrans(LeastFactor(d), d, n);
        }
      }
      PrimeBySquareBound(n, 17);
    } else {
      assert Divides(2, n) || Divides(3, n) || Divides(5, n) || Divides(7, n) || Divides(11, n) || Divides(13, n);
    }
  }

  /** SMALL_PRIMES holds exactly the primes up to 211, after its leading 0. */
  lemma SmallPrimesExact(n: nat)
    requires 0 < n <= 211
    ensures n in SMALL_PRIMES <==> IsPrime(n)
  {
    if n < 17 {
      TinyPrimality(n);
    } else {
      SmallPrimality(n);
      SmallTableExact(n);
    }
  }

  lemma TinyPrimality(n: nat)
    requires 0 < n < 17
    ensures n in SMALL_PRIMES <==> IsPrime(n)
  {
    TinyTable(n);
    if n == 2 || n == 3 || n == 5 || n == 7 || n == 11 || n == 13 {
      TinyPrime(n);
    } else if n % 2 == 0 {
      assert Divides(2, n);
    } else if n > 1 {
      assert Divides(3, n);
    }
  }

  lemma TinyPrime(n: nat)
    requires n == 2 || n == 3 || n == 5 || n == 7 || n == 11 || n == 13
    ensures IsPrime(n)
  {
    assert NoDivisorBelow(n, if n < 5 then 2 else 4);
    PrimeBySquareBound(n, if n < 5 then 2 else 4);
  }

  lemma TinyTable(n: nat)
    requires 0 < n < 17
    ensures n in SMALL_PRIMES <==> n == 2 || n == 3 || n == 5 || n == 7 || n == 11 || n == 13
  {
  }

  lemma SmallTableExact(n: nat)
    requires 17 <= n <= 211
    ensures n in SMALL_PRIMES <==> FourResidues(n) && n % 11 != 0 && n % 13 != 0
  {
    if n in SMALL_PRIMES {
      var w :| 0 <= w < 48 && SMALL_PRIMES[w] == n;
      SmallPrimesIncrease();
      assert SMALL_PRIMES[6] == 13;
      if w < 28 {
        SmallTableSound1(w);
      } else {
        SmallTableSound2(w);
      }
    } else if FourResidues(n) && n % 11 != 0 && n % 13 != 0 {
      if n < L {
        IndicesComplete(n);
        SmallTableComplete(n);
      }
    }
  }

  lemma SmallTableComplete(n: nat)
    requires n in INDICES && n >= 17 && n % 11 != 0 && n % 13 != 0
    ensures n in SMALL_PRIMES
  {
  }

  lemma SmallTableSound1(w: nat)
    requires 7 <= w < 28
    ensures var n := SMALL_PRIMES[w]; FourResidues(n) && n % 11 != 0 && n % 13 != 0
  {
  }

  lemma SmallTableSound2(w: nat)
    requires 28 <= w < 48
    ensures var n := SMALL_PRIMES[w]; FourResidues(n) && n % 11 != 0 && n % 13 != 0
  {
  }

  const TABLES := Tables(SMALL_PRIMES, INDICES, STEPS)

  lemma TablesGood()
    ensures TABLES.Good()
  {
    SmallPrimesIncrease();
    IndicesIncrease();
    forall n | 0 < n <= 211
      ensures n in SMALL_PRIMES <==> IsPrime(n)
    {
      SmallPrimesExact(n);
    }
    forall r: nat | r < L
      ensures r in INDICES <==> Coprime210(r)
    {
      CoprimeByResidues(r);
      if FourResidues(r) {
        IndicesComplete(r);
      } else if r in INDICES {
        var w :| 0 <= w < 48 && INDICES[w] == r;
        IndicesCoprime(w);
      }
    }
    forall w | 0 <= w < 48
      ensures w < 47 ==> INDICES[w] + STEPS[w] == INDICES[w + 1]
      ensures 2 <= STEPS[w] <= 10
    {
      WheelGap(w);
      StepBounds(w);
    }
  }

  // ----- candidates

  /** Every prime above 7 is coprime to 210, so it is a candidate 210 * k + indices[w]. */
  lemma PrimeIsCandidate(p: nat)
    requires p > 7 && IsPrime(p)
    ensures Coprime210(p)
  {
  }

  lemma CandidateCoprime(t: Tables, k: nat, w: nat)
    requires t.Good() && w < 48
    ensures Coprime210(L * k + t.indices[w]) && 0 < t.indices[w] < L
  {
    CoprimePeriodic(k, t.indices[w]);
    assert t.indices[w] in t.indices;
    assert 0 < w ==> t.indices[0] < t.indices[w];
    assert w < 47 ==> t.indices[w] < t.indices[47];
  }

  /** No residue strictly between two neighbours of the table is coprime to 210. */
  lemma NoResidueBetween(t: Tables, w: nat, r: nat)
    requires t.Good() && w < 47 && t.indices[w] < r < t.indices[w + 1]
    ensures !Coprime210(r)
  {
    assert w + 1 < 47 ==> t.indices[w + 1] < t.indices[47];
    assert r !in t.indices;
  }

  /** Strictly between two consecutive candidates every number shares a factor with 210. */
  lemma NothingBetween(t: Tables, k: nat, w: nat, m: nat)
    requires t.Good() && w < 48
    requires L * k + t.indices[w] < m < L * k + t.indices[w] + t.steps[w]
    ensures !Coprime210(m)
  {
    var r := m - L * k;
    if w < 47 {
      NoResidueBetween(t, w, r);
    } else {
      CoprimeByResidues(r);
    }
    CoprimePeriodic(k, r);
  }

  lemma NotCoprimeNotPrime(m: nat)
    requires m > 7 && !Coprime210(m)
    ensures !IsPrime(m)
  {
    if IsPrime(m) {
      PrimeIsCandidate(m);
    }
  }

  // ----- divisors

  /** A divisor of a candidate is itself coprime to 210. */
  lemma NotCoprimeNotDivisor(n: nat, d: nat)
    requires Coprime210(n) && d > 0 && !Coprime210(d)
    ensures !Divides(d, n)
  {
    var p :| p in {2, 3, 5, 7} && Divides(p, d);
    if Divides(d, n) {
      DividesTrans(p, d, n);
    }
  }

  lemma {:induction false} SkipComposites(n: nat, lo: nat, hi: nat)
    requires 2 <= lo <= hi && NoDivisorBelow(n, lo) && NoPrimeIn(lo, hi)
    ensures NoDivisorBelow(n, hi)
    decreases hi
  {
    if lo < hi {
      SkipComposites(n, lo, hi - 1);
      CompositeDividesLater(n, hi - 1);
    }
  }

  lemma NoPrimeBetweenNeighbours(t: Tables, j: nat)
    requires t.Good() && j < 47
    ensures NoPrimeIn(t.smallPrimes[j] + 1, t.smallPrimes[j + 1])
    ensures t.smallPrimes[j + 1] <= 211 && t.smallPrimes[j] < t.smallPrimes[j + 1]
  {
    assert j + 1 < 47 ==> t.smallPrimes[j + 1] < t.smallPrimes[47];
    forall m | t.smallPrimes[j] < m < t.smallPrimes[j + 1]
      ensures !IsPrime(m)
    {
      assert m !in t.smallPrimes;
    }
  }

  lemma NextSmallPrime(t: Tables, n: nat, j: nat)
    requires t.Good() && 5 <= j < 47
    requires NoDivisorBelow(n, t.smallPrimes[j]) && !Divides(t.smallPrimes[j], n)
    ensures NoDivisorBelow(n, t.smallPrimes[j + 1])
  {
    NoPrimeBetweenNeighbours(t, j);
    assert t.smallPrimes[1] < t.smallPrimes[j];
    SkipComposites(n, t.smallPrimes[j] + 1, t.smallPrimes[j + 1]);
  }

  lemma NextWheelDivisor(t: Tables, n: nat, k: nat, w: nat)
    requires t.Good() && Coprime210(n) && w < 48
    requires var i := L * k + t.indices[w]; NoDivisorBelow(n, i) && !Divides(i, n)
    ensures NoDivisorBelow(n, L * k + t.indices[w] + t.steps[w])
  {
    var i := L * k + t.indices[w];
    forall d | 2 <= d < i + t.steps[w]
      ensures !Divides(d, n)
    {
      if d > i {
        NothingBetween(t, k, w, d);
        NotCoprimeNotDivisor(n, d);
      }
    }
  }

  lemma NoDivisorBelow11(n: nat)
    requires Coprime210(n)
    ensures NoDivisorBelow(n, 11)
  {
    forall d | 2 <= d < 11
      ensures !Divides(d, n)
    {
      CoprimeByResidues(d);
      NotCoprimeNotDivisor(n, d);
    }
  }

  lemma QuotientBelowDivisor(n: nat, i: nat)
    requires i >= 2 && n >= 2 && NoDivisorBelow(n, i) && n / i < i
    ensures IsPrime(n)
  {
    MulMonotone(n / i, i - 1, i);
    assert n < i * i;
    PrimeBySquareBound(n, i);
  }

  lemma EvenQuotient(n: nat, i: nat)
    requires i >= 2 && n / i >= i
    ensures n == (n / i) * i <==> Divides(i, n)
    ensures Divides(i, n) ==> !IsPrime(n)
    ensures n >= i * i && (n / i) * i <= n && i < n
  {
    assert n == i * (n / i) + n % i;
    MulMonotone(i, n / i, i);
    MulMonotone(2, i, i);
  }

  lemma NoWrap(size: SizeT, x: nat)
    requires x < size.Modulus()
    ensures size.Wrap(x) == x
  {
  }

  // ----- the search

  /** std::lower_bound on an increasing table. */
  method LowerBound(a: seq<nat>, x: nat) returns (first: nat)
    requires Increasing(a)
    ensures first <= |a|
    ensures forall i | 0 <= i < first :: a[i] < x
    ensures forall i | first <= i < |a| :: x <= a[i]
  {
    first := 0;
    var len := |a|;
    while len != 0
      invariant 0 <= len && first + len <= |a|
      invariant forall i | 0 <= i < first :: a[i] < x
      invariant forall i | first + len <= i < |a| :: x <= a[i]
    {
      var half := len / 2;
      var m := first + half;
      if a[m] < x {
        first := m + 1;
        len := len - (half + 1);
      } else {
        len := half;
      }
    }
  }

  /** Trial division of one candidate: true is the source's "return n", false its "goto next". */
  method TrialDivide(t: Tables, n: nat, size: SizeT) returns (prime: bool)
    requires t.Good() && 211 < n < size.Modulus() && Coprime210(n)
    ensures prime <==> IsPrime(n)
  {
    NoDivisorBelow11(n);
    var j := 5;
    while j < 47
      invariant 5 <= j <= 47
      invariant NoDivisorBelow(n, t.smallPrimes[j])
    {
      var p := t.smallPrimes[j];
      assert t.smallPrimes[1] < p;
      var q := n / p;
      if q < p {
        QuotientBelowDivisor(n, p);
        return true;
      }
      EvenQuotient(n, p);
      NoWrap(size, q * p);
      if n == size.Wrap(q * p) {
        return false;
      }
      NextSmallPrime(t, n, j);
      j := j + 1;
    }
    prime := TrialDivideWheel(t, n, size);
  }

  /** The inner loop over potential primes from 211 on; w names the unrolled block. */
  method TrialDivideWheel(t: Tables, n: nat, size: SizeT) returns (prime: bool)
    requires t.Good() && 211 < n < size.Modulus() && Coprime210(n)
    requires NoDivisorBelow(n, 211)
    ensures prime <==> IsPrime(n)
  {
    var i: nat, w: nat := 211, 0;
    ghost var k := 1;
    while true
      invariant 0 <= w < 48 && i >= 211 && k >= 0 && i == L * k + t.indices[w]
      invariant NoDivisorBelow(n, i)
      decreases n + 10 - i
    {
      var q := n / i;
      if q < i {
        QuotientBelowDivisor(n, i);
        return true;
      }
      EvenQuotient(n, i);
      NoWrap(size, q * i);
      if n == size.Wrap(q * i) {
        return false;
      }
      NextWheelDivisor(t, n, k, w);
      MulMonotone(211, i, i);
      NoWrap(size, i + t.steps[w]);
      i := size.Wrap(i + t.steps[w]);
      if w == 47 {
        w, k := 0, k + 1;
      } else {
        w := w + 1;
      }
    }
  }

  lemma LimitIsPrime(size: SizeT)
    ensures IsPrime(size.Limit()) && 211 < size.Limit() < size.Modulus()
    ensures NoPrimeIn(size.Limit() + 1, size.Modulus())
  {
    match size
    case Bits32 =>
      Limit32IsPrime();
      NoPrimeAboveLimit32();
    case Bits64 =>
      Limit64IsPrime();
      NoPrimeAboveLimit64();
  }

  /** __next_prime: 0 for 0, otherwise the least prime that is at least n0; the overflow error is
      raised exactly when no prime of the same width is left. */
  method Search(n0: nat, size: SizeT) returns (r: Outcome)
    requires n0 < size.Modulus()
    ensures n0 == 0 ==> r == Found(0)
    ensures n0 > 0 && r.Found? ==> LeastPrimeFrom(n0, r.value) && r.value <= size.Limit()
    ensures r.OverflowError? <==> n0 > size.Limit()
    ensures r.OverflowError? ==> NoPrimeIn(n0, size.Modulus())
  {
    TablesGood();
    LimitIsPrime(size);
    r := SearchIn(TABLES, n0, size);
  }

  /** The search itself. The limit is prime, so every candidate stays at or below it and the
      explicit wrap-around of each assignment never takes effect. */
  method SearchIn(t: Tables, n0: nat, size: SizeT) returns (r: Outcome)
    requires t.Good() && n0 < size.Modulus()
    requires IsPrime(size.Limit()) && 211 < size.Limit() < size.Modulus()
    requires NoPrimeIn(size.Limit() + 1, size.Modulus())
    ensures n0 == 0 ==> r == Found(0)
    ensures n0 > 0 && r.Found? ==> LeastPrimeFrom(n0, r.value) && r.value <= size.Limit()
    ensures r.OverflowError? <==> n0 > size.Limit()
    ensures r.OverflowError? ==> NoPrimeIn(n0, size.Modulus())
  {
    if n0 <= t.smallPrimes[47] {
      var i := LowerBound(t.smallPrimes, n0);
      SmallAnswer(t, n0, i);
      return Found(t.smallPrimes[i]);
    }
    if n0 > size.Limit() {
      return OverflowError;
    }
    var k: nat := n0 / L;
    var w: nat := LowerBound(t.indices, n0 - k * L);
    ghost var limit := size.Limit();
    FirstCandidate(t, n0, k, w, limit);
    NoWrap(size, L * k + t.indices[w]);
    var n := size.Wrap(L * k + t.indices[w]);
    while true
      invariant 0 <= w < 48 && k >= 0 && n == L * k + t.indices[w]
      invariant n0 <= n <= limit && NoPrimeIn(n0, n)
      decreases limit - n
    {
      CandidateCoprime(t, k, w);
      var prime := TrialDivide(t, n, size);
      if prime {
        return Found(n);
      }
      NextCandidate(t, k, w, limit);
      w := w + 1;
      if w == 48 {
        k := k + 1;
        w := 0;
      }
      NoWrap(size, L * k + t.indices[w]);
      n := size.Wrap(L * k + t.indices[w]);
    }
  }

  lemma SmallAnswer(t: Tables, n: nat, i: nat)
    requires t.Good() && n <= 211 && i < 48
    requires forall j | 0 <= j < i :: t.smallPrimes[j] < n
    requires n <= t.smallPrimes[i]
    ensures if n == 0 then t.smallPrimes[i] == 0 else LeastPrimeFrom(n, t.smallPrimes[i])
    ensures t.smallPrimes[i] <= 211
  {
    if n > 0 {
      NoPrimeBetweenNeighbours(t, i - 1);
      assert t.smallPrimes[i] in t.smallPrimes;
    }
  }

  /** The first candidate skips no prime and stays within a prime limit. */
  lemma FirstCandidate(t: Tables, n: nat, k: nat, w: nat, limit: nat)
    requires t.Good() && n > 211 && k == n / L && w <= 48
    requires forall i | 0 <= i < w :: t.indices[i] < n - k * L
    requires forall i | w <= i < 48 :: n - k * L <= t.indices[i]
    requires n <= limit && IsPrime(limit)
    ensures w < 48 && n <= L * k + t.indices[w] <= limit
    ensures NoPrimeIn(n, L * k + t.indices[w])
  {
    assert w != 48 by { assert n - k * L <= 209 == t.indices[47]; }
    CandidateCoprime(t, k, w);
    forall m | n <= m < L * k + t.indices[w]
      ensures !Coprime210(m) && !IsPrime(m)
    {
      var r := m - L * k;
      assert r !in t.indices;
      CoprimePeriodic(k, r);
      NotCoprimeNotPrime(m);
    }
    PrimeIsCandidate(limit);
  }

  /** Moving on from a composite candidate skips no prime and does not pass a larger prime. */
  lemma NextCandidate(t: Tables, k: nat, w: nat, limit: nat)
    requires t.Good() && w < 48
    requires var n := L * k + t.indices[w]; 7 < n <= limit && IsPrime(limit) && !IsPrime(n)
    ensures var n := L * k + t.indices[w];
            var n' := if w + 1 == 48 then L * (k + 1) + t.indices[0] else L * k + t.indices[w + 1];
            n < n' <= limit && forall m | n <= m < n' :: !IsPrime(m)
  {
    var n := L * k + t.indices[w];
    PrimeIsCandidate(limit);
    forall m | n < m < n + t.steps[w]
      ensures !Coprime210(m) && !IsPrime(m)
    {
      NothingBetween(t, k, w, m);
      NotCoprimeNotPrime(m);
    }
  }
}
