/** Sums over the threads of a protocol, for any number of them. */
module Threads {

  function Sum<T>(ts: seq<T>, f: T -> nat): nat {
    if ts == [] then 0 else f(ts[0]) + Sum(ts[1..], f)
  }

  lemma {:induction false} SumUpdate<T>(ts: seq<T>, f: T -> nat, t: nat, x: T)
    requires t < |ts|
    ensures Sum(ts[t := x], f) + f(ts[t]) == Sum(ts, f) + f(x)
  {
    if t == 0 {
      assert ts[t := x][1..] == ts[1..];
    } else {
      SumUpdate(ts[1..], f, t - 1, x);
      assert ts[t := x][1..] == ts[1..][t - 1 := x];
    }
  }

  lemma {:induction false} SumAt<T>(ts: seq<T>, f: T -> nat, t: nat)
    requires t < |ts|
    ensures f(ts[t]) <= Sum(ts, f)
  {
    if t > 0 {
      SumAt(ts[1..], f, t - 1);
    }
  }

  lemma {:induction false} SumTwo<T>(ts: seq<T>, f: T -> nat, t: nat, u: nat)
    requires t < u < |ts|
    ensures f(ts[t]) + f(ts[u]) <= Sum(ts, f)
  {
    if t == 0 {
      SumAt(ts[1..], f, u - 1);
    } else {
      SumTwo(ts[1..], f, t - 1, u - 1);
    }
  }

  /** If two threads have a share each, the sum is at least two. */
  lemma AtMostOne<T>(ts: seq<T>, f: T -> nat, t: nat, u: nat)
    requires t < |ts| && u < |ts| && t != u && Sum(ts, f) <= 1 && f(ts[t]) > 0
    ensures f(ts[u]) == 0
  {
    if t < u {
      SumTwo(ts, f, t, u);
    } else {
      SumTwo(ts, f, u, t);
    }
  }

  lemma {:induction false} NoShares<T>(ts: seq<T>, f: T -> nat)
    requires forall i | 0 <= i < |ts| :: f(ts[i]) == 0
    ensures Sum(ts, f) == 0
  {
    if ts != [] {
      NoShares(ts[1..], f);
    }
  }

  lemma {:induction false} SomeShare<T>(ts: seq<T>, f: T -> nat) returns (u: nat)
    requires Sum(ts, f) > 0
    ensures u < |ts| && f(ts[u]) > 0
  {
    if f(ts[0]) > 0 {
      u := 0;
    } else {
      u := SomeShare(ts[1..], f);
      u := u + 1;
    }
  }
}
