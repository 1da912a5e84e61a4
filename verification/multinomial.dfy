/** The multinomial coefficient countperms computes for a prefix: the number of ways to place
    the prefix's values among n positions. Every function here looks at the first `end` values of
    q (that is, at q[..end]) so that the loop in countperms can be described one value at a time. */
module Multinomial {
  import opened Factorials

  /** The length of the run of equal values that ends at position end - 1 of q. */
  function RunLength(q: seq<int>, end: nat): (t: nat)
    requires 0 < end <= |q|
    ensures 1 <= t <= end
    ensures forall i :: end - t <= i < end ==> q[i] == q[end - 1]
    ensures t < end ==> q[end - t - 1] != q[end - 1]
  {
    if end == 1 || q[end - 2] != q[end - 1] then 1
    else 1 + RunLength(q, end - 1)
  }

  /** The product of the factorials of the lengths of the maximal runs of equal values in q[..end]. */
  function RunFactorials(q: seq<int>, end: nat): (r: nat)
    requires end <= |q|
    ensures r >= 1
  {
    if end == 0 then 1
    else
      var t := RunLength(q, end);
      RunFactorials(q, end - t) * Fact(t)
  }

  /** The number of ways to place the values of q[..end] among n positions: the t positions of
      the last run's value are chosen among the n - (end - t) positions the earlier runs leave free. */
  function Placements(n: nat, q: seq<int>, end: nat): nat
    requires end <= |q| && end <= n
  {
    if end == 0 then 1
    else
      var t := RunLength(q, end);
      Placements(n, q, end - t) * Binom(n - (end - t), t)
  }

  /** A value equal to its predecessor lengthens the run by one and multiplies the product by the
      run's new length: countperms' `count += 1; denom *= count`. */
  lemma RunFactorialsExtendRun(q: seq<int>, end: nat)
    requires 0 < end < |q| && q[end] == q[end - 1]
    ensures RunLength(q, end + 1) == RunLength(q, end) + 1
    ensures RunFactorials(q, end + 1) == RunFactorials(q, end) * (RunLength(q, end) + 1)
  {
    var t := RunLength(q, end);
    var r0, f := RunFactorials(q, end - t), Fact(t);
    assert RunFactorials(q, end + 1) == r0 * Fact(t + 1);
    FactSucc(t);
    MulRegroup(r0, f, t + 1, RunFactorials(q, end + 1), RunFactorials(q, end));
  }

  lemma MulRegroup(r0: int, f: int, s: int, a: int, b: int)
    requires a == r0 * (s * f) && b == r0 * f
    ensures a == b * s
  {
  }

  /** A value different from its predecessor (or the first value) starts a run of length 1 and
      leaves the product unchanged: countperms' `count = 1`. */
  lemma RunFactorialsNewRun(q: seq<int>, end: nat)
    requires end < |q| && (end == 0 || q[end] != q[end - 1])
    ensures RunLength(q, end + 1) == 1
    ensures RunFactorials(q, end + 1) == RunFactorials(q, end)
  {
    assert RunFactorials(q, end + 1) == RunFactorials(q, end) * Fact(1);
  }

  /** Algebra for one step of PlacementsIdentity. */
  lemma PlacementsStep(p: int, b: int, rf: int, ft: int, rest: int, free: int, total: int)
    requires p * (rf * free) == total
    requires b * ft * rest == free
    ensures (p * b) * ((rf * ft) * rest) == total
  {
    calc {
      (p * b) * ((rf * ft) * rest);
      p * (rf * (b * ft * rest));
      p * (rf * free);
    }
  }

  /** Placements(n, q, end) * (product of run-length factorials) * (n - end)! == n!: the division
      countperms performs is exact and yields the number of placements. */
  lemma {:induction false} PlacementsIdentity(n: nat, q: seq<int>, end: nat)
    requires end <= |q| && end <= n
    ensures Placements(n, q, end) * (RunFactorials(q, end) * Fact(n - end)) == Fact(n)
  {
    if end != 0 {
      var t := RunLength(q, end);
      var earlier := end - t;
      var p, b, rf, ft := Placements(n, q, earlier), Binom(n - earlier, t), RunFactorials(q, earlier), Fact(t);
      assert Placements(n, q, end) == p * b;
      assert RunFactorials(q, end) == rf * ft;
      assert p * (rf * Fact(n - earlier)) == Fact(n) by {
        PlacementsIdentity(n, q, earlier);
      }
      assert b * ft * Fact(n - end) == Fact(n - earlier) by {
        BinomFactorials(n - earlier, t);
      }
      PlacementsStep(p, b, rf, ft, Fact(n - end), Fact(n - earlier), Fact(n));
    }
  }

  /** In a non-decreasing sequence the run ending at end - 1 holds every occurrence of its value
      in q[..end], so the runs are the distinct values and RunFactorials is the product of the
      factorials of their multiplicities. */
  lemma RunIsMultiplicity(q: seq<int>, end: nat)
    requires 0 < end <= |q|
    requires forall i, j :: 0 <= i < j < |q| ==> q[i] <= q[j]
    ensures RunLength(q, end) == multiset(q[..end])[q[end - 1]]
  {
    assert q[end - 1] !in q[..end - RunLength(q, end)];
    TailCount(q, end);
  }

  /** When the value at end - 1 does not occur before its run, the run is all of its copies. */
  lemma TailCount(q: seq<int>, end: nat)
    requires 0 < end <= |q|
    requires q[end - 1] !in q[..end - RunLength(q, end)]
    ensures RunLength(q, end) == multiset(q[..end])[q[end - 1]]
  {
    var t, v := RunLength(q, end), q[end - 1];
    var earlier, run := q[..end - t], q[end - t..end];
    assert q[..end] == earlier + run;
    assert multiset(q[..end]) == multiset(earlier) + multiset(run);
    ConstantCount(run, v);
  }

  /** A sequence made of copies of v holds v exactly |s| times. */
  lemma {:induction false} ConstantCount(s: seq<int>, v: int)
    requires forall i :: 0 <= i < |s| ==> s[i] == v
    ensures multiset(s)[v] == |s|
  {
    if s != [] {
      assert s == s[..|s| - 1] + [v];
      ConstantCount(s[..|s| - 1], v);
    }
  }

  /** q with every copy of v removed. */
  function Without(q: seq<int>, v: int): (r: seq<int>)
    ensures |r| <= |q|
    ensures v in q ==> |r| < |q|
  {
    if q == [] then []
    else
      assert q == q[..|q| - 1] + [q[|q| - 1]];
      Without(q[..|q| - 1], v) + (if q[|q| - 1] == v then [] else [q[|q| - 1]])
  }

  /** The product, over the distinct values of q, of the factorial of the value's multiplicity. */
  function MultiplicityFactorials(q: seq<int>): nat
    decreases |q|
  {
    if q == [] then 1
    else
      var v := q[|q| - 1];
      Fact(multiset(q)[v]) * MultiplicityFactorials(Without(q, v))
  }

  /** Removing a value that does not occur changes nothing. */
  lemma {:induction false} WithoutAbsent(q: seq<int>, v: int)
    requires v !in q
    ensures Without(q, v) == q
  {
    if q != [] {
      assert q == q[..|q| - 1] + [q[|q| - 1]];
      WithoutAbsent(q[..|q| - 1], v);
    }
  }

  /** When the copies of v are exactly the positions from e on, removing them leaves q[..e]. */
  lemma {:induction false} WithoutTail(q: seq<int>, v: int, e: nat)
    requires e <= |q| && v !in q[..e]
    requires forall i :: e <= i < |q| ==> q[i] == v
    ensures Without(q, v) == q[..e]
    decreases |q|
  {
    if |q| == e {
      assert q[..e] == q;
      WithoutAbsent(q, v);
    } else {
      var q' := q[..|q| - 1];
      assert q'[..e] == q[..e];
      WithoutTail(q', v, e);
    }
  }

  /** RunLength and RunFactorials read only the first end values. */
  lemma {:induction false} RunLengthPrefix(q: seq<int>, r: seq<int>, end: nat)
    requires 0 < end <= |q| && end <= |r| && q[..end] == r[..end]
    ensures RunLength(q, end) == RunLength(r, end)
  {
    assert q[end - 1] == q[..end][end - 1] == r[end - 1];
    if end > 1 {
      assert q[end - 2] == q[..end][end - 2] == r[end - 2];
      assert q[..end - 1] == q[..end][..end - 1];
      assert r[..end - 1] == r[..end][..end - 1];
      RunLengthPrefix(q, r, end - 1);
    }
  }

  lemma {:induction false} RunFactorialsPrefix(q: seq<int>, r: seq<int>, end: nat)
    requires end <= |q| && end <= |r| && q[..end] == r[..end]
    ensures RunFactorials(q, end) == RunFactorials(r, end)
  {
    if end > 0 {
      RunLengthPrefix(q, r, end);
      var e := end - RunLength(q, end);
      assert q[..e] == q[..end][..e];
      assert r[..e] == r[..end][..e];
      RunFactorialsPrefix(q, r, e);
    }
  }

  /** For a non-decreasing prefix, the product of run-length factorials that countperms' loop
      computes is the product of the factorials of the multiplicities of its distinct values. */
  lemma {:induction false} RunFactorialsAreMultiplicities(q: seq<int>)
    requires forall i, j :: 0 <= i < j < |q| ==> q[i] <= q[j]
    ensures RunFactorials(q, |q|) == MultiplicityFactorials(q)
    decreases |q|
  {
    if q != [] {
      var t, v := RunLength(q, |q|), q[|q| - 1];
      var e := |q| - t;
      var p := q[..e];
      assert multiset(q)[v] == t by {
        RunIsMultiplicity(q, |q|);
        assert q[..|q|] == q;
      }
      assert Without(q, v) == p by {
        assert v !in p;
        WithoutTail(q, v, e);
      }
      assert RunFactorials(q, e) == MultiplicityFactorials(p) by {
        assert p[..e] == q[..e];
        RunFactorialsPrefix(q, p, e);
        assert forall i, j :: 0 <= i < j < |p| ==> p[i] <= p[j];
        RunFactorialsAreMultiplicities(p);
      }
      assert RunFactorials(q, |q|) == RunFactorials(q, e) * Fact(t);
      assert MultiplicityFactorials(q) == Fact(t) * MultiplicityFactorials(p);
    }
  }

  /** For a non-decreasing prefix of length len <= n, the coefficient countperms computes is the
      multinomial coefficient n! / ((n - len)! * product of (multiplicity)!). */
  lemma PlacementsAreMultinomial(n: nat, q: seq<int>)
    requires |q| <= n
    requires forall i, j :: 0 <= i < j < |q| ==> q[i] <= q[j]
    ensures Placements(n, q, |q|) * (MultiplicityFactorials(q) * Fact(n - |q|)) == Fact(n)
  {
    PlacementsIdentity(n, q, |q|);
    RunFactorialsAreMultiplicities(q);
  }
}
