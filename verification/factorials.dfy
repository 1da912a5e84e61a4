/** Factorials, binomial coefficients and the factorial table the counter reads. */
module Factorials {

  /** n!, the reference definition. */
  function Fact(n: nat): (r: nat)
    ensures r >= 1
  {
    if n == 0 then 1 else n * Fact(n - 1)
  }

  lemma FactSucc(t: nat)
    ensures Fact(t + 1) == (t + 1) * Fact(t)
  {
  }

  /** Binomial coefficient by Pascal's rule: the number of k-element subsets of n positions. */
  function Binom(n: nat, k: nat): nat
  {
    if k == 0 then 1
    else if n == 0 then 0
    else Binom(n - 1, k - 1) + Binom(n - 1, k)
  }

  /** There is no way to choose more positions than there are. */
  lemma {:induction false} BinomAbove(n: nat, k: nat)
    requires n < k
    ensures Binom(n, k) == 0
  {
    if n > 0 {
      BinomAbove(n - 1, k - 1);
      BinomAbove(n - 1, k);
    }
  }

  /** There are n ways to choose one of n positions. */
  lemma {:induction false} BinomOne(n: nat)
    ensures Binom(n, 1) == n
  {
    if n > 0 {
      BinomOne(n - 1);
    }
  }

  /** C(n, k) * k! * (n - k)! == n!, so n! / (k! * (n - k)!) is an exact division. */
  lemma {:induction false} BinomFactorials(n: nat, k: nat)
    requires k <= n
    ensures Binom(n, k) * Fact(k) * Fact(n - k) == Fact(n)
  {
    if k == 0 {
    } else if k == n {
      BinomAbove(n - 1, n);
      BinomFactorials(n - 1, n - 1);
      assert Binom(n, n) == 1;
    } else {
      BinomFactorials(n - 1, k - 1);
      BinomFactorials(n - 1, k);
      PascalStep(Binom(n - 1, k - 1), Binom(n - 1, k), Fact(k - 1), Fact(n - 1 - k), k, n - k, Fact(n - 1));
    }
  }

  /** The algebra of one Pascal step: with x = (k-1)!, y = (n-1-k)! and f = (n-1)!,
      (b1 + b2) * k! * (n-k)! == n * f. */
  lemma PascalStep(b1: int, b2: int, x: int, y: int, k: int, m: int, f: int)
    requires b1 * x * (m * y) == f
    requires b2 * (k * x) * y == f
    ensures (b1 + b2) * (k * x) * (m * y) == (k + m) * f
  {
    RegroupLeft(b1, x, m, y);
    RegroupRight(b2, k, x, y);
    RegroupSum(b1, b2, k, x, m, y);
    MulDistrib(k, m, f);
  }

  lemma RegroupLeft(b1: int, x: int, m: int, y: int)
    ensures b1 * x * (m * y) == m * (b1 * (x * y))
  {
  }

  lemma RegroupRight(b2: int, k: int, x: int, y: int)
    ensures b2 * (k * x) * y == k * (b2 * (x * y))
  {
  }

  lemma RegroupSum(b1: int, b2: int, k: int, x: int, m: int, y: int)
    ensures (b1 + b2) * (k * x) * (m * y) == k * (m * (b1 * (x * y))) + m * (k * (b2 * (x * y)))
  {
    var u := x * y;
    assert (b1 + b2) * (k * x) * (m * y) == (b1 + b2) * u * (k * m);
    MulDistrib(b1 * u, b2 * u, k * m);
  }

  lemma MulDistrib(a: int, b: int, c: int)
    ensures (a + b) * c == a * c + b * c
  {
  }

  /** fact covers 0..n and holds the factorials. */
  ghost predicate IsFactTable(fact: seq<nat>, n: nat)
  {
    n < |fact| && forall i :: 0 <= i <= n ==> fact[i] == Fact(i)
  }

  /** Builds the table fact[0..n] by fact[0] = 1 and fact[i] = i * fact[i - 1]. */
  method MakeFact(n: nat) returns (fact: seq<nat>)
    ensures |fact| == n + 1
    ensures fact[0] == 1
    ensures forall i :: 1 <= i <= n ==> fact[i] == i * fact[i - 1]
    ensures forall i :: 0 <= i <= n ==> fact[i] == Fact(i)
  {
    var table := new nat[n + 1];
    table[0] := 1;
    for i := 1 to n + 1
      invariant forall j :: 0 <= j < i ==> table[j] == Fact(j)
    {
      table[i] := i * table[i - 1];
    }
    fact := table[..];
  }
}
