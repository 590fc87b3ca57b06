/** Divisibility, primality, powers and multiplicative order: the arithmetic behind the prime
    search of libc++'s hash.cpp and behind the two limits of its overflow check. */
module NumberTheory {

  ghost predicate Divides(d: nat, n: nat) {
    d > 0 && n % d == 0
  }

  ghost predicate IsPrime(n: nat) {
    n >= 2 && forall d | 2 <= d < n :: !Divides(d, n)
  }

  /** No prime lies in the half-open range [lo, hi). */
  ghost predicate NoPrimeIn(lo: nat, hi: nat) {
    forall p | lo <= p < hi :: !IsPrime(p)
  }

  /** p is the smallest prime that is at least n. */
  ghost predicate LeastPrimeFrom(n: nat, p: nat) {
    n <= p && IsPrime(p) && NoPrimeIn(n, p)
  }

  /** No number from 2 up to (not including) bound divides n. */
  ghost predicate NoDivisorBelow(n: nat, bound: nat) {
    forall d | 2 <= d < bound :: !Divides(d, n)
  }

  // ----- division and divisibility

  lemma MulMonotone(a: int, b: int, c: int)
    requires a <= b && c >= 0
    ensures a * c <= b * c && c * a <= c * b
  {
  }

  lemma DivModUnique(n: int, d: int, q: int, r: int)
    requires d > 0 && n == d * q + r && 0 <= r < d
    ensures n / d == q && n % d == r
  {
    var k := q - n / d;
    assert d * k == n % d - r by {
      assert n == d * (n / d) + n % d;
      assert d * k == d * q - d * (n / d);
    }
    assert k >= 1 ==> d * k >= d by { if k >= 1 { MulMonotone(1, k, d); } }
    assert k <= -1 ==> d * k <= -d by { if k <= -1 { MulMonotone(k, -1, d); } }
  }

  lemma DividesProduct(d: nat, k: nat)
    requires d > 0
    ensures Divides(d, d * k) && Divides(d, k * d)
  {
    DivModUnique(d * k, d, k, 0);
  }

  lemma Quotient(d: nat, n: nat) returns (k: nat)
    requires Divides(d, n)
    ensures n == d * k && k == n / d
    ensures n > 0 ==> k > 0 && k <= n && d <= n
  {
    k := n / d;
    assert n == d * k;
    MulMonotone(1, d, k);
    if n > 0 {
      assert k != 0 by { assert d * 0 == 0; }
      MulMonotone(1, k, d);
    }
  }

  lemma DividesTrans(a: nat, b: nat, c: nat)
    requires Divides(a, b) && Divides(b, c)
    ensures Divides(a, c)
  {
    var j := Quotient(a, b);
    var k := Quotient(b, c);
    assert c == a * (j * k) by { assert c == (a * j) * k; }
    DividesProduct(a, j * k);
  }

  // ----- trial division

  /** Stopping rule of trial division: nothing below i divides n and n < i * i. */
  lemma PrimeBySquareBound(n: nat, i: nat)
    requires n >= 2 && NoDivisorBelow(n, i) && n < i * i
    ensures IsPrime(n)
  {
    forall d | 2 <= d < n
      ensures !Divides(d, n)
    {
      if Divides(d, n) {
        var k := Quotient(d, n);
        assert k != 1;
        DividesProduct(k, d);
        assert Divides(k, n);
        assert d >= i && k >= i;
        MulMonotone(i, d, k);
        MulMonotone(i, k, i);
        assert false;
      }
    }
  }

  /** A number whose proper divisors d >= 2 all miss n cannot divide n itself unless it is prime. */
  lemma CompositeDividesLater(n: nat, d: nat)
    requires d >= 2 && !IsPrime(d) && NoDivisorBelow(n, d)
    ensures !Divides(d, n)
  {
    var a :| 2 <= a < d && Divides(a, d);
    if Divides(d, n) {
      DividesTrans(a, d, n);
      assert false;
    }
  }

  // ----- powers modulo m

  function Pow(b: nat, e: nat): nat {
    if e == 0 then 1 else b * Pow(b, e - 1)
  }

  lemma MulAssociates(x: nat, y: nat, z: nat)
    ensures x * (y * z) == (x * y) * z
  {
  }

  lemma {:induction false} PowAdd(b: nat, x: nat, y: nat)
    ensures Pow(b, x + y) == Pow(b, x) * Pow(b, y)
  {
    if x > 0 {
      PowAdd(b, x - 1, y);
      MulAssociates(b, Pow(b, x - 1), Pow(b, y));
    }
  }

  lemma {:induction false} PowMul(b: nat, x: nat, y: nat)
    ensures Pow(Pow(b, x), y) == Pow(b, x * y)
  {
    if y == 0 {
      assert x * y == 0;
    } else {
      PowMul(b, x, y - 1);
      assert x * y == x + x * (y - 1);
      PowAdd(b, x, x * (y - 1));
    }
  }

  lemma ModMul(a: nat, b: nat, m: nat)
    requires m > 0
    ensures (a * b) % m == ((a % m) * (b % m)) % m
  {
    var qa, ra, qb, rb := a / m, a % m, b / m, b % m;
    var q, r := (ra * rb) / m, (ra * rb) % m;
    assert a * b == m * (qa * b + ra * qb + q) + r by {
      assert a == m * qa + ra && b == m * qb + rb;
      assert a * b == m * (qa * b) + ra * b by { assert (m * qa + ra) * b == m * qa * b + ra * b; }
      assert ra * b == m * (ra * qb) + ra * rb by { assert ra * (m * qb + rb) == ra * (m * qb) + ra * rb; }
      assert ra * rb == m * q + r;
    }
    DivModUnique(a * b, m, qa * b + ra * qb + q, r);
  }

  /** A congruence modulo n holds modulo every divisor p of n. */
  lemma ModOfDivisor(x: nat, n: nat, p: nat)
    requires n > 0 && Divides(p, n)
    ensures (x % n) % p == x % p
  {
    var k := Quotient(p, n);
    var r := x % n;
    assert x == p * (k * (x / n) + r / p) + r % p by {
      assert x == n * (x / n) + r;
      assert n * (x / n) == p * (k * (x / n)) by { assert (p * k) * (x / n) == p * (k * (x / n)); }
      assert r == p * (r / p) + r % p;
    }
    DivModUnique(x, p, k * (x / n) + r / p, r % p);
  }

  lemma ModTwice(x: nat, m: nat)
    requires m > 0
    ensures (x % m) % m == x % m
  {
    DivModUnique(x % m, m, 0, x % m);
  }

  // ----- multiplicative order

  ghost predicate One(b: nat, e: nat, p: nat) {
    p >= 2 && Pow(b, e) % p == 1
  }

  /** e is the exact order of b modulo p. */
  ghost predicate ExactOrder(b: nat, e: nat, p: nat) {
    e > 0 && One(b, e, p) && forall f | 0 < f < e :: !One(b, f, p)
  }

  lemma OneSum(b: nat, x: nat, y: nat, p: nat)
    requires One(b, x, p)
    ensures One(b, x + y, p) <==> One(b, y, p)
  {
    PowAdd(b, x, y);
    ModMul(Pow(b, x), Pow(b, y), p);
    ModTwice(Pow(b, y), p);
  }

  lemma {:induction false} OneMultiple(b: nat, x: nat, k: nat, p: nat)
    requires One(b, x, p)
    ensures One(b, x * k, p)
  {
    if k == 0 {
      assert x * k == 0;
    } else {
      OneMultiple(b, x, k - 1, p);
      assert x * k == x + x * (k - 1);
      OneSum(b, x, x * (k - 1), p);
    }
  }

  lemma OneMod(b: nat, x: nat, y: nat, p: nat)
    requires y > 0 && One(b, x, p) && One(b, y, p)
    ensures One(b, x % y, p)
  {
    OneMultiple(b, y, x / y, p);
    assert x == y * (x / y) + x % y;
    OneSum(b, y * (x / y), x % y, p);
  }

  /** The exact order divides every exponent that gives one. */
  lemma OrderDivides(b: nat, e: nat, x: nat, p: nat)
    requires ExactOrder(b, e, p) && One(b, x, p)
    ensures Divides(e, x)
  {
    OneMod(b, x, e, p);
  }

  /** An element other than one whose q-th power is one has order q, for q prime. */
  lemma PrimeOrder(b: nat, q: nat, p: nat)
    requires IsPrime(q) && One(b, q, p) && !One(b, 1, p)
    ensures ExactOrder(b, q, p)
  {
    forall f | 0 < f < q
      ensures !One(b, f, p)
    {
      if One(b, f, p) {
        Descend(b, q, f, p);
        assert false;
      }
    }
  }

  /** Euclid's descent: an exponent f below the prime q leads down to exponent one. */
  lemma {:induction false} Descend(b: nat, q: nat, f: nat, p: nat)
    requires IsPrime(q) && 0 < f < q && One(b, q, p) && One(b, f, p)
    ensures One(b, 1, p)
    decreases f
  {
    if f > 1 {
      OneMod(b, q, f, p);
      assert !Divides(f, q);
      Descend(b, q, q % f, p);
    }
  }

  /** Orders of the two coprime parts combine; u and v are Bezout coefficients. */
  lemma ComposeOrder(b: nat, e: nat, f: nat, u: int, v: int, p: nat)
    requires e > 0 && f > 0 && u * e + v * f == 1
    requires ExactOrder(Pow(b, f), e, p) && ExactOrder(Pow(b, e), f, p)
    ensures ExactOrder(b, e * f, p)
  {
    PowMul(b, f, e);
    assert f * e == e * f;
    assert One(b, e * f, p);
    assert e * f > 0;
    forall x | 0 < x < e * f
      ensures !One(b, x, p)
    {
      if One(b, x, p) {
        OnePower(b, f, x, p);
        OnePower(b, e, x, p);
        OrderDivides(Pow(b, f), e, x, p);
        OrderDivides(Pow(b, e), f, x, p);
        CoprimeProductBound(e, f, u, v, x);
        assert false;
      }
    }
  }

  lemma OnePower(b: nat, k: nat, x: nat, p: nat)
    requires One(b, x, p)
    ensures One(Pow(b, k), x, p)
  {
    OneMultiple(b, x, k, p);
    PowMul(b, k, x);
    assert x * k == k * x;
  }

  lemma CoprimeProductBound(e: nat, f: nat, u: int, v: int, x: nat)
    requires e > 0 && f > 0 && u * e + v * f == 1
    requires x > 0 && Divides(e, x) && Divides(f, x)
    ensures x >= e * f
  {
    var t := Quotient(e, x);
    var s := Quotient(f, x);
    var w := u * s + v * t;
    assert x == e * f * w by {
      assert x == (u * e + v * f) * x;
      assert u * e * x == e * f * (u * s) by { assert u * e * (f * s) == e * f * (u * s); }
      assert v * f * x == e * f * (v * t) by { assert v * f * (e * t) == e * f * (v * t); }
      assert e * f * (u * s) + e * f * (v * t) == e * f * w;
    }
    assert e * f > 0;
    assert w > 0 by { if w <= 0 { MulMonotone(w, 0, e * f); } }
    MulMonotone(1, w, e * f);
  }

  /** An element of order e modulo p has e distinct powers, all below p. */
  lemma OrderBound(b: nat, e: nat, p: nat)
    requires ExactOrder(b, e, p)
    ensures e <= p
  {
    var powers := seq(e, i requires 0 <= i < e => Pow(b, i) % p);
    forall i, j | 0 <= i < j < e
      ensures powers[i] != powers[j]
    {
      if powers[i] == powers[j] {
        SamePower(b, e - i, i, j - i, p);
        assert false;
      }
    }
    Pigeonhole(powers, p);
  }

  lemma ModMulCong(c: nat, x: nat, y: nat, m: nat)
    requires m > 0 && x % m == y % m
    ensures (c * x) % m == (c * y) % m
  {
    ModMul(c, x, m);
    ModMul(c, y, m);
  }

  lemma SamePower(b: nat, k: nat, i: nat, d: nat, p: nat)
    requires One(b, k + i, p) && Pow(b, i) % p == Pow(b, i + d) % p
    ensures One(b, d, p)
  {
    var e := k + i;
    assert Pow(b, e) == Pow(b, k) * Pow(b, i) by { PowAdd(b, k, i); }
    assert Pow(b, e + d) == Pow(b, k) * Pow(b, i + d) by { PowAdd(b, k, i + d); assert k + (i + d) == e + d; }
    assert One(b, e + d, p) by {
      ScaledOne(Pow(b, k), Pow(b, i), Pow(b, i + d), Pow(b, e), Pow(b, e + d), p);
    }
    OneSum(b, e, d, p);
  }

  lemma ScaledOne(c: nat, x: nat, y: nat, z: nat, w: nat, p: nat)
    requires p >= 2 && z == c * x && w == c * y && x % p == y % p && z % p == 1
    ensures w % p == 1
  {
    ModMulCong(c, x, y, p);
  }

  lemma {:induction false} Pigeonhole(s: seq<nat>, bound: nat)
    requires forall i | 0 <= i < |s| :: s[i] < bound
    requires forall i, j | 0 <= i < j < |s| :: s[i] != s[j]
    ensures |s| <= bound
  {
    var image := set i | 0 <= i < |s| :: s[i];
    ImageSize(s);
    SubsetSize(image, Below(bound));
  }

  ghost function Below(n: nat): (r: set<nat>)
    ensures |r| == n && forall x: nat :: x in r <==> x < n
  {
    if n == 0 then {} else Below(n - 1) + {n - 1}
  }

  lemma {:induction false} ImageSize(s: seq<nat>)
    requires forall i, j | 0 <= i < j < |s| :: s[i] != s[j]
    ensures |set i | 0 <= i < |s| :: s[i]| == |s|
  {
    if s != [] {
      var t := s[..|s| - 1];
      ImageSize(t);
      var image := set i | 0 <= i < |t| :: t[i];
      assert (set i | 0 <= i < |s| :: s[i]) == image + {s[|s| - 1]};
      assert s[|s| - 1] !in image;
    }
  }

  lemma {:induction false} SubsetSize<T>(a: set<T>, b: set<T>)
    requires a <= b
    ensures |a| <= |b|
  {
    if a != {} {
      var x :| x in a;
      SubsetSize(a - {x}, b - {x});
    }
  }

  // ----- primality certificates

  /** P is closed under the two moves of square-and-multiply exponentiation of b modulo m. */
  ghost predicate Closed(P: (nat, nat) -> bool, b: nat, m: nat) {
    m > b && P(1, b) && forall e: nat, h: nat | P(e, h) :: P(2 * e, (h * h) % m) && P(2 * e + 1, (h * h * b) % m)
  }

  /** Square-and-multiply reaches exponent e with residue h. Stated through closed predicates so
      that concrete certificates are checked step by step, without unfolding Pow. */
  ghost predicate PowersTo(b: nat, e: nat, m: nat, h: nat) {
    forall P: (nat, nat) -> bool | Closed(P, b, m) :: P(e, h)
  }

  lemma PowFirst(b: nat, m: nat)
    ensures PowersTo(b, 1, m, b)
  {
  }

  lemma PowDouble(b: nat, e: nat, m: nat, h: nat, r: nat)
    requires m > 0 && PowersTo(b, e, m, h) && r == (h * h) % m
    ensures PowersTo(b, 2 * e, m, r)
  {
  }

  lemma PowDoubleAdd(b: nat, e: nat, m: nat, h: nat, r: nat)
    requires m > 0 && PowersTo(b, e, m, h) && r == (h * h * b) % m
    ensures PowersTo(b, 2 * e + 1, m, r)
  {
  }

  lemma PowersToIsPow(b: nat, e: nat, m: nat, h: nat)
    requires m > b && PowersTo(b, e, m, h)
    ensures Pow(b, e) % m == h
  {
    var P := (e: nat, h: nat) => Pow(b, e) % m == h;
    assert P(1, b) by {
      assert Pow(b, 1) == b * Pow(b, 0) == b;
      DivModUnique(b, m, 0, b);
    }
    forall x: nat, r: nat | P(x, r)
      ensures P(2 * x, (r * r) % m) && P(2 * x + 1, (r * r * b) % m)
    {
      SquareAndMultiply(b, x, m, r);
    }
    assert Closed(P, b, m);
    assert P(e, h);
  }

  lemma SquareAndMultiply(b: nat, x: nat, m: nat, r: nat)
    requires m > 0 && Pow(b, x) % m == r
    ensures Pow(b, 2 * x) % m == (r * r) % m && Pow(b, 2 * x + 1) % m == (r * r * b) % m
  {
    var p := Pow(b, x);
    PowAdd(b, x, x);
    ModMul(p, p, m);
    assert Pow(b, 2 * x + 1) == b * (p * p);
    ModTwice(r * r, m);
    ModMulCong(b, p * p, r * r, m);
    assert b * (r * r) == r * r * b;
  }

  /** x inverts b^e - 1 modulo n, so b^e is not one modulo any divisor of n above one. */
  ghost predicate Inverts(b: nat, e: nat, n: nat, h: nat, x: nat) {
    n > b && n >= 2 && PowersTo(b, e, n, h) && ((h + n - 1) * x) % n == 1
  }

  lemma NeverOne(b: nat, e: nat, n: nat, h: nat, x: nat, p: nat)
    requires Inverts(b, e, n, h, x) && p >= 2 && Divides(p, n)
    ensures !One(b, e, p)
  {
    PowersToIsPow(b, e, n, h);
    ModOfDivisor(Pow(b, e), n, p);
    if One(b, e, p) {
      ProductNotOne(h, n, x, p);
      assert false;
    }
  }

  lemma ProductNotOne(r: nat, n: nat, x: nat, p: nat)
    requires n >= 2 && p >= 2 && Divides(p, n) && r % p == 1
    ensures ((r + n - 1) * x) % n != 1
  {
    var k := Quotient(p, n);
    var s := r / p;
    var y := (r + n - 1) * x;
    assert y == p * ((s + k) * x) by {
      assert r + n - 1 == p * (s + k) by { assert r == p * s + 1; }
    }
    DivModUnique(y, p, (s + k) * x, 0);
    ModOfDivisor(y, n, p);
    DivModUnique(1, p, 0, 1);
  }

  lemma OneModDivisor(b: nat, e: nat, n: nat, p: nat)
    requires n > b && PowersTo(b, e, n, 1) && p >= 2 && Divides(p, n)
    ensures One(b, e, p)
  {
    PowersToIsPow(b, e, n, 1);
    ModOfDivisor(Pow(b, e), n, p);
    DivModUnique(1, p, 0, 1);
  }

  /** Pocklington's criterion: a common large order modulo every divisor leaves no small divisor. */
  lemma PrimeByOrder(n: nat, b: nat, e: nat)
    requires n >= 2 && e > 0 && n < e * e
    requires forall p | p >= 2 && Divides(p, n) :: ExactOrder(b, e, p)
    ensures IsPrime(n)
  {
    forall d | 2 <= d < e
      ensures !Divides(d, n)
    {
      if Divides(d, n) {
        OrderBound(b, e, d);
        assert false;
      }
    }
    PrimeBySquareBound(n, e);
  }

  /** Certificate with one prime q above the square root of n. */
  lemma PrimeByOnePrime(n: nat, b: nat, q: nat, x: nat)
    requires n > b && IsPrime(q) && n < q * q
    requires PowersTo(b, q, n, 1) && Inverts(b, 1, n, b, x)
    ensures IsPrime(n)
  {
    forall p | p >= 2 && Divides(p, n)
      ensures ExactOrder(b, q, p)
    {
      OneModDivisor(b, q, n, p);
      NeverOne(b, 1, n, b, x, p);
      PrimeOrder(b, q, p);
    }
    PrimeByOrder(n, b, q);
  }

  /** Modulo a divisor p of n, the power b^k has exact order q when b^(k*q) is one and b^k is not. */
  lemma PowerOrder(n: nat, b: nat, k: nat, q: nat, h: nat, x: nat, p: nat)
    requires IsPrime(q) && One(b, k * q, p) && Inverts(b, k, n, h, x)
    requires p >= 2 && Divides(p, n)
    ensures ExactOrder(Pow(b, k), q, p)
  {
    NeverOne(b, k, n, h, x, p);
    PowMul(b, k, q);
    assert Pow(Pow(b, k), 1) == Pow(b, k);
    PrimeOrder(Pow(b, k), q, p);
  }
}
