/** Why the count is right: a non-decreasing qualifying sequence is a reported prefix of small
    values followed by large values n / 2 < m < n whose complement n - m is not a prefix sum. */
module Decomposition {
  import opened SubsequenceSums
  import opened Enumerator
  import opened Counter

  /** Appending large values u to p avoids the sum n exactly when p does and each appended value
      is allowed by p's sums below n: two large values already exceed n together, so a
      subsequence summing to n uses at most one of them. */
  lemma {:induction false} SuffixDecomposition(n: nat, p: seq<int>, u: seq<int>)
    requires 1 <= n && Positive(p + u)
    requires forall i :: 0 <= i < |u| ==> n / 2 < u[i] <= n
    ensures n !in SubSums(p + u) <==>
      n !in SubSums(p) && forall i :: 0 <= i < |u| ==> u[i] in AllowedSuffixValues(n, SumsBelow(p, n))
  {
    if u == [] {
      assert p + u == p;
    } else {
      var u', x := u[..|u| - 1], u[|u| - 1];
      assert p + u == (p + u') + [x];
      assert Positive(p + u') by {
        forall i | 0 <= i < |p + u'| ensures 1 <= (p + u')[i] {
          assert (p + u')[i] == (p + u)[i];
        }
      }
      SuffixDecomposition(n, p, u');
      SubSumsAppend(p + u', x, n);
      assert n - x in SubSums(p + u') <==> n - x in SumsBelow(p, n) by {
        if n - x in SubSums(p + u') {
          SubSumsBelowSuffix(p, u', n - x);
        }
        SubSumsGrow(p, u');
      }
      assert forall i :: 0 <= i < |u| ==> u[i] == if i < |u'| then u'[i] else x;
    }
  }

  /** The sum set of a reported candidate is its sums below n, and n is not among its sums. */
  lemma CandidateSound(n: nat, c: Prefix)
    requires 1 <= n && c in Candidates(n)
    ensures c.sums == SumsBelow(c.values, n) && n !in SubSums(c.values)
  {
    assert SumsBelow([], n) == {};
    if c != Prefix([], {}) {
      ExtendPrefixSound(n, [], 1, {});
    }
  }

  /** Every candidate prefix with no subsequence summing to n is among the candidates. */
  lemma CandidateComplete(n: nat, p: seq<int>)
    requires 1 <= n && |p| <= n
    requires forall i :: 0 <= i < |p| ==> 1 <= p[i] <= n / 2
    requires forall i, j :: 0 <= i < j < |p| ==> p[i] <= p[j]
    requires n !in SubSums(p)
    ensures exists c :: c in Candidates(n) && c.values == p
  {
    if p == [] {
      assert Candidates(n)[0].values == p;
    } else {
      SubSumsExact(p, n);
      SearchFromEmptyComplete(n, p);
    }
  }

  /** The decomposition for a sequence given as its small part p and its large part u. */
  lemma PartsDecompose(n: nat, p: seq<int>, u: seq<int>)
    requires 1 <= n && |p| <= n && Positive(p + u)
    requires forall i :: 0 <= i < |p| ==> p[i] <= n / 2
    requires forall i, j :: 0 <= i < j < |p| ==> p[i] <= p[j]
    requires forall i :: 0 <= i < |u| ==> n / 2 < u[i] <= n
    ensures n !in SubSums(p + u) <==>
      exists c :: c in Candidates(n) && c.values == p &&
        forall i :: 0 <= i < |u| ==> u[i] in AllowedSuffixValues(n, c.sums)
  {
    SuffixDecomposition(n, p, u);
    if n !in SubSums(p + u) {
      assert forall i :: 0 <= i < |p| ==> p[i] == (p + u)[i];
      CandidateComplete(n, p);
      var c :| c in Candidates(n) && c.values == p;
      CandidateSound(n, c);
    }
    if c :| c in Candidates(n) && c.values == p && forall i :: 0 <= i < |u| ==> u[i] in AllowedSuffixValues(n, c.sums) {
      CandidateSound(n, c);
    }
  }

  /** The two parts of a sequence split at j meet the conditions of PartsDecompose. */
  lemma SplitParts(n: nat, s: seq<int>, j: nat)
    requires 1 <= n && |s| == n && j <= n
    requires forall i :: 0 <= i < n ==> 1 <= s[i] <= n
    requires forall i, i' :: 0 <= i < i' < n ==> s[i] <= s[i']
    requires forall i :: 0 <= i < j ==> s[i] <= n / 2
    requires forall i :: j <= i < n ==> n / 2 < s[i]
    ensures s == s[..j] + s[j..] && Positive(s[..j] + s[j..])
    ensures forall i :: 0 <= i < |s[..j]| ==> s[..j][i] <= n / 2
    ensures forall i, i' :: 0 <= i < i' < |s[..j]| ==> s[..j][i] <= s[..j][i']
    ensures forall i :: 0 <= i < |s[j..]| ==> n / 2 < s[j..][i] <= n
  {
    assert s == s[..j] + s[j..];
  }

  /** "Every large value is allowed" read on the part s[j..] or on s itself. */
  lemma SuffixAllowed(s: seq<int>, j: nat, allowed: set<int>)
    requires j <= |s|
    ensures (forall i :: 0 <= i < |s[j..]| ==> s[j..][i] in allowed) <==>
            (forall i :: j <= i < |s| ==> s[i] in allowed)
  {
    if forall i :: 0 <= i < |s[j..]| ==> s[j..][i] in allowed {
      forall i | j <= i < |s| ensures s[i] in allowed {
        assert s[i] == s[j..][i - j];
      }
    }
  }

  /** A non-decreasing sequence of n values in [1, n], split at j into values <= n / 2 and values
      > n / 2, has no subsequence summing to n exactly when its small part is a counted prefix and
      every large value is one of the values countperms counts for that prefix. */
  lemma SortedFormDecomposes(n: nat, s: seq<int>, j: nat)
    requires 1 <= n && |s| == n && j <= n
    requires forall i :: 0 <= i < n ==> 1 <= s[i] <= n
    requires forall i, i' :: 0 <= i < i' < n ==> s[i] <= s[i']
    requires forall i :: 0 <= i < j ==> s[i] <= n / 2
    requires forall i :: j <= i < n ==> n / 2 < s[i]
    ensures !HasSubsequenceSum(s, n) <==>
      exists c :: c in Candidates(n) && c.values == s[..j] &&
        forall i :: j <= i < n ==> s[i] in AllowedSuffixValues(n, c.sums)
  {
    var p, u := s[..j], s[j..];
    SplitParts(n, s, j);
    SubSumsExact(s, n);
    PartsDecompose(n, p, u);
    if n !in SubSums(s) {
      var c :| c in Candidates(n) && c.values == p &&
        forall i :: 0 <= i < |u| ==> u[i] in AllowedSuffixValues(n, c.sums);
      SuffixAllowed(s, j, AllowedSuffixValues(n, c.sums));
    }
    if c :| c in Candidates(n) && c.values == p && forall i :: j <= i < n ==> s[i] in AllowedSuffixValues(n, c.sums) {
      SuffixAllowed(s, j, AllowedSuffixValues(n, c.sums));
    }
  }

  /** A sequence qualifies exactly when its non-decreasing rearrangement does, so the counted
      decomposition of the sorted form decides it. */
  lemma QualifiesIffSortedFormDecomposes(n: nat, s: seq<int>, sorted: seq<int>, j: nat)
    requires multiset(s) == multiset(sorted)
    requires 1 <= n && |sorted| == n && j <= n
    requires forall i :: 0 <= i < n ==> 1 <= sorted[i] <= n
    requires forall i, i' :: 0 <= i < i' < n ==> sorted[i] <= sorted[i']
    requires forall i :: 0 <= i < j ==> sorted[i] <= n / 2
    requires forall i :: j <= i < n ==> n / 2 < sorted[i]
    ensures !HasSubsequenceSum(s, n) <==>
      exists c :: c in Candidates(n) && c.values == sorted[..j] &&
        forall i :: j <= i < n ==> sorted[i] in AllowedSuffixValues(n, c.sums)
  {
    PermutationKeepsSums(s, sorted, n);
    SortedFormDecomposes(n, sorted, j);
  }
}
