/** The prefix search (extendprefix): every admissible non-decreasing prefix of small values. */
module Enumerator {
  import opened SubsequenceSums

  /** One report of the search: a prefix and the set of its subsequence sums below n. */
  datatype Prefix = Prefix(values: seq<int>, sums: set<int>)

  /** v is prior followed by at least one more value, the added values are non-decreasing and lie
      in [minimum, n / 2], and v is no longer than n. */
  ghost predicate Extends(v: seq<int>, prior: seq<int>, minimum: int, n: nat)
  {
    |prior| < |v| <= n && v[..|prior|] == prior
    && (forall i :: |prior| <= i < |v| ==> minimum <= v[i] <= n / 2)
    && (forall i, j :: |prior| <= i < j < |v| ==> v[i] <= v[j])
  }

  /** The sum set after appending k: the old sums, each old sum below n - k plus k, and k. */
  function AddValue(sums: set<int>, n: int, k: int): set<int>
  {
    sums + (set x | x in sums && x < n - k :: x + k) + {k}
  }

  /** The extensions of prior reported by the search, in the order they are reported: for each
      k from minimum to n / 2 such that n - k is not a known sum, prior + [k] with its sums, then
      (if still shorter than n) its own extensions from k on. The recursion on minimum is the
      loop over k. */
  function ExtendPrefix(n: nat, prior: seq<int>, minimum: int, sums: set<int>): (found: seq<Prefix>)
    requires |prior| < n
    ensures forall f :: f in found ==> Extends(f.values, prior, minimum, n)
    decreases n - |prior|, n / 2 + 1 - minimum
  {
    if minimum > n / 2 then []
    else
      var k := minimum;
      var rest := ExtendPrefix(n, prior, k + 1, sums);
      if n - k in sums then rest
      else
        var newprefix := prior + [k];
        var newsums := AddValue(sums, n, k);
        var deeper := if |newprefix| < n then ExtendPrefix(n, newprefix, k, newsums) else [];
        ExtendsOfChild(deeper, prior, k, n);
        [Prefix(newprefix, newsums)] + deeper + rest
  }

  /** An extension of prior + [k] from k on is an extension of prior from k on. */
  lemma ExtendsOfChild(deeper: seq<Prefix>, prior: seq<int>, k: int, n: nat)
    requires k <= n / 2
    requires forall f :: f in deeper ==> Extends(f.values, prior + [k], k, n)
    ensures forall f :: f in deeper ==> Extends(f.values, prior, k, n)
  {
    forall f | f in deeper ensures Extends(f.values, prior, k, n) {
      var v := f.values;
      assert v[..|prior| + 1] == prior + [k];
      assert v[..|prior|] == (v[..|prior| + 1])[..|prior|];
      assert v[|prior|] == (v[..|prior| + 1])[|prior|] == k;
    }
  }

  /** The search's sum-set update keeps the sum set equal to the sums below n of the prefix. */
  lemma AddValueSums(prior: seq<int>, n: int, k: int)
    requires 1 <= k < n
    ensures AddValue(SumsBelow(prior, n), n, k) == SumsBelow(prior + [k], n)
  {
    var sums := SumsBelow(prior, n);
    forall t ensures t in AddValue(sums, n, k) <==> t in SumsBelow(prior + [k], n) {
      SubSumsAppend(prior, k, t);
      if t - k in sums && t - k < n - k {
        assert t == (t - k) + k;
      }
    }
  }

  /** Appending k gives a sum of n exactly when n - k was a sum below n (or k == n). */
  lemma AppendReachesN(prior: seq<int>, n: int, k: int)
    requires 1 <= k
    requires n !in SubSums(prior)
    ensures n in SubSums(prior + [k]) <==> k == n || n - k in SumsBelow(prior, n)
  {
    SubSumsAppend(prior, k, n);
  }

  /** Given the documented precondition, every reported prefix has no subsequence summing to n
      and is reported with exactly its subsequence sums below n. */
  lemma {:induction false} ExtendPrefixSound(n: nat, prior: seq<int>, minimum: int, sums: set<int>)
    requires |prior| < n && 1 <= minimum
    requires sums == SumsBelow(prior, n) && n !in SubSums(prior)
    ensures forall f :: f in ExtendPrefix(n, prior, minimum, sums) ==>
              f.sums == SumsBelow(f.values, n) && n !in SubSums(f.values)
    decreases n - |prior|, n / 2 + 1 - minimum
  {
    if minimum <= n / 2 {
      var k := minimum;
      ExtendPrefixSound(n, prior, k + 1, sums);
      if n - k !in sums {
        var newprefix := prior + [k];
        var newsums := AddValue(sums, n, k);
        AddValueSums(prior, n, k);
        AppendReachesN(prior, n, k);
        if |newprefix| < n {
          ExtendPrefixSound(n, newprefix, k, newsums);
        }
      }
    }
  }

  /** Given the documented precondition, every admissible extension of prior is reported. */
  lemma {:induction false} ExtendPrefixComplete(n: nat, prior: seq<int>, minimum: int, sums: set<int>, v: seq<int>)
    requires |prior| < n && 1 <= minimum
    requires sums == SumsBelow(prior, n)
    requires Extends(v, prior, minimum, n) && n !in SubSums(v)
    ensures exists f :: f in ExtendPrefix(n, prior, minimum, sums) && f.values == v
    decreases n - |prior|, n / 2 + 1 - minimum
  {
    var k := v[|prior|];
    var found := ExtendPrefix(n, prior, minimum, sums);
    if k > minimum {
      ExtendPrefixComplete(n, prior, minimum + 1, sums, v);
      var rest := ExtendPrefix(n, prior, minimum + 1, sums);
      var f :| f in rest && f.values == v;
      assert f in found;
    } else {
      var newprefix := prior + [k];
      assert v[..|prior| + 1] == newprefix;
      if n - k in sums {
        SubSumsAppend(prior, k, n);
        assert v == newprefix + v[|prior| + 1..];
        SubSumsGrow(newprefix, v[|prior| + 1..]);
        assert false;
      }
      var newsums := AddValue(sums, n, k);
      if v == newprefix {
        assert found[0].values == v;
      } else {
        AddValueSums(prior, n, k);
        assert Extends(v, newprefix, k, n);
        ExtendPrefixComplete(n, newprefix, k, newsums, v);
        var deeper := ExtendPrefix(n, newprefix, k, newsums);
        var f :| f in deeper && f.values == v;
        assert f in found;
      }
    }
  }

  /** a comes before b in lexicographic order: a is a proper prefix of b, or a is smaller at the
      first position where they differ. */
  ghost predicate LexLess(a: seq<int>, b: seq<int>)
  {
    (|a| < |b| && a == b[..|a|])
    || exists i :: 0 <= i < |a| && i < |b| && a[..i] == b[..i] && a[i] < b[i]
  }

  /** The reported prefixes are in strictly increasing lexicographic order. */
  ghost predicate Increasing(found: seq<Prefix>)
  {
    forall i, j :: 0 <= i < j < |found| ==> LexLess(found[i].values, found[j].values)
  }

  lemma IncreasingConcat(a: seq<Prefix>, b: seq<Prefix>)
    requires Increasing(a) && Increasing(b)
    requires forall x, y :: x in a && y in b ==> LexLess(x.values, y.values)
    ensures Increasing(a + b)
  {
    forall i, j | 0 <= i < j < |a + b| ensures LexLess((a + b)[i].values, (a + b)[j].values) {
      if j < |a| {
      } else if i >= |a| {
        assert (a + b)[i] == b[i - |a|] && (a + b)[j] == b[j - |a|];
      } else {
        assert (a + b)[i] in a && (a + b)[j] in b;
      }
    }
  }

  /** A prefix comes before each of its proper extensions. */
  lemma HeadFirst(head: Prefix, deeper: seq<Prefix>, k: int, n: nat)
    requires forall f :: f in deeper ==> Extends(f.values, head.values, k, n)
    ensures forall x, y :: x in [head] && y in deeper ==> LexLess(x.values, y.values)
  {
  }

  /** The extensions of prior + [k] come before the extensions of prior from k + 1 on. */
  lemma SmallerValueFirst(left: seq<Prefix>, rest: seq<Prefix>, prior: seq<int>, k: int, n: nat)
    requires forall f :: f in left ==> Extends(f.values, prior, k, n) && f.values[|prior|] == k
    requires forall f :: f in rest ==> Extends(f.values, prior, k + 1, n)
    ensures forall x, y :: x in left && y in rest ==> LexLess(x.values, y.values)
  {
    forall x, y | x in left && y in rest ensures LexLess(x.values, y.values) {
      var i := |prior|;
      assert x.values[..i] == y.values[..i];
      assert x.values[i] < y.values[i];
    }
  }

  /** Every report under prior + [k] extends prior from k on and has k at position |prior|. */
  lemma SubtreeShape(head: Prefix, deeper: seq<Prefix>, prior: seq<int>, k: int, n: nat)
    requires k <= n / 2 && |prior| < n
    requires head.values == prior + [k]
    requires forall f :: f in deeper ==> Extends(f.values, prior + [k], k, n)
    ensures forall f :: f in [head] + deeper ==> Extends(f.values, prior, k, n) && f.values[|prior|] == k
  {
    ExtendsOfChild(deeper, prior, k, n);
    forall f | f in [head] + deeper ensures Extends(f.values, prior, k, n) && f.values[|prior|] == k {
      if f in deeper {
        assert f.values[..|prior| + 1] == prior + [k];
        assert f.values[|prior|] == (f.values[..|prior| + 1])[|prior|];
      } else {
        assert f == head;
        assert f.values[..|prior|] == prior;
      }
    }
  }

  /** Strict lexicographic order never relates a sequence to itself. */
  lemma LexLessIrreflexive(a: seq<int>)
    ensures !LexLess(a, a)
  {
  }

  /** Reports come in pre-order with k increasing: a prefix before its extensions, and the
      extensions of prior + [k] before those of prior + [k'] for k < k'. */
  lemma {:induction false} ExtendPrefixOrdered(n: nat, prior: seq<int>, minimum: int, sums: set<int>)
    requires |prior| < n
    ensures Increasing(ExtendPrefix(n, prior, minimum, sums))
    decreases n - |prior|, n / 2 + 1 - minimum
  {
    if minimum <= n / 2 {
      var k := minimum;
      var rest := ExtendPrefix(n, prior, k + 1, sums);
      ExtendPrefixOrdered(n, prior, k + 1, sums);
      if n - k !in sums {
        var newprefix := prior + [k];
        var newsums := AddValue(sums, n, k);
        var deeper := if |newprefix| < n then ExtendPrefix(n, newprefix, k, newsums) else [];
        if |newprefix| < n {
          ExtendPrefixOrdered(n, newprefix, k, newsums);
        }
        var head := Prefix(newprefix, newsums);
        HeadFirst(head, deeper, k, n);
        IncreasingConcat([head], deeper);
        SubtreeShape(head, deeper, prior, k, n);
        SmallerValueFirst([head] + deeper, rest, prior, k, n);
        IncreasingConcat([head] + deeper, rest);
      }
    }
  }

  /** Each prefix is reported at most once. */
  lemma ReportedOnce(n: nat, prior: seq<int>, minimum: int, sums: set<int>, i: nat, j: nat)
    requires |prior| < n
    requires i < j < |ExtendPrefix(n, prior, minimum, sums)|
    ensures ExtendPrefix(n, prior, minimum, sums)[i].values != ExtendPrefix(n, prior, minimum, sums)[j].values
  {
    ExtendPrefixOrdered(n, prior, minimum, sums);
    LexLessIrreflexive(ExtendPrefix(n, prior, minimum, sums)[i].values);
  }

  /** A candidate prefix: 1 to n values in [1, n / 2], in non-decreasing order. */
  predicate SmallSorted(v: seq<int>, n: nat)
  {
    1 <= |v| <= n
    && (forall i :: 0 <= i < |v| ==> 1 <= v[i] <= n / 2)
    && (forall i, j :: 0 <= i < j < |v| ==> v[i] <= v[j])
  }

  /** Started from the empty prefix (as countsequences does), every report is a candidate prefix
      with no subsequence summing to n, reported with exactly its subsequence sums below n. */
  lemma SearchFromEmptySound(n: nat, f: Prefix)
    requires 1 <= n
    requires f in ExtendPrefix(n, [], 1, {})
    ensures SmallSorted(f.values, n)
    ensures !HasSubsequenceSum(f.values, n)
    ensures forall t :: t in f.sums <==> 1 <= t < n && HasSubsequenceSum(f.values, t)
  {
    assert SumsBelow([], n) == {};
    ExtendPrefixSound(n, [], 1, {});
    assert Extends(f.values, [], 1, n);
    SubSumsExact(f.values, n);
    assert Positive(f.values);
    SubSumsBounds(f.values);
    forall t ensures t in f.sums <==> 1 <= t < n && HasSubsequenceSum(f.values, t) {
      SubSumsExact(f.values, t);
    }
  }

  /** Started from the empty prefix, every candidate prefix with no subsequence summing to n is
      reported. */
  lemma SearchFromEmptyComplete(n: nat, v: seq<int>)
    requires 1 <= n
    requires SmallSorted(v, n) && !HasSubsequenceSum(v, n)
    ensures exists f :: f in ExtendPrefix(n, [], 1, {}) && f.values == v
  {
    assert SumsBelow([], n) == {};
    SubSumsExact(v, n);
    assert v[..0] == [];
    assert Extends(v, [], 1, n);
    ExtendPrefixComplete(n, [], 1, {}, v);
  }
}
