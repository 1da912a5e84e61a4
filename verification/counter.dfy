/** The counting half of the program: countperms (the number of sequences that sort to a given
    prefix followed by allowed large values) and countsequences (the sum over all prefixes). */
module Counter {
  import opened Factorials
  import opened SubsequenceSums
  import opened Enumerator
  import opened Multinomial

  /** The number of k in [lo, hi) that are not in sums. */
  function CountAbsent(sums: set<int>, lo: int, hi: int): (c: nat)
    ensures c <= (if lo <= hi then hi - lo else 0)
    ensures c == 0 <==> forall k :: lo <= k < hi ==> k in sums
    decreases hi - lo
  {
    if hi <= lo then 0
    else CountAbsent(sums, lo, hi - 1) + (if hi - 1 in sums then 0 else 1)
  }

  /** The number of small values 1 <= k < (n + 1) / 2 that are not sums of the prefix: each one
      names the large value n - k a suffix may use. */
  function Possible(n: nat, sums: set<int>): nat
  {
    CountAbsent(sums, 1, (n + 1) / 2)
  }

  /** The values k in [lo, hi) that are not in sums. */
  function AbsentBetween(sums: set<int>, lo: int, hi: int): set<int>
  {
    set k | lo <= k < hi && k !in sums
  }

  /** The large values a non-decreasing qualifying sequence may end with after a prefix whose
      sums below n are `sums`: n / 2 < m < n with n - m not a sum of the prefix. */
  function AllowedSuffixValues(n: nat, sums: set<int>): set<int>
  {
    set m | n / 2 < m < n && ComplementFree(n, sums, m)
  }

  /** n - m is not a sum of the prefix, so m can be added without making n a sum. */
  predicate ComplementFree(n: int, sums: set<int>, m: int)
  {
    n - m !in sums
  }

  /** The mirror image of AbsentBetween under k |-> n - k. */
  function MirrorBetween(n: int, sums: set<int>, lo: int, hi: int): set<int>
  {
    set m | n - hi < m <= n - lo && ComplementFree(n, sums, m)
  }

  /** CountAbsent counts the set it describes. */
  lemma {:induction false} CountAbsentIsCardinality(sums: set<int>, lo: int, hi: int)
    ensures CountAbsent(sums, lo, hi) == |AbsentBetween(sums, lo, hi)|
    decreases hi - lo
  {
    if hi <= lo {
      assert AbsentBetween(sums, lo, hi) == {};
    } else {
      CountAbsentIsCardinality(sums, lo, hi - 1);
      if hi - 1 in sums {
        assert AbsentBetween(sums, lo, hi) == AbsentBetween(sums, lo, hi - 1);
      } else {
        assert AbsentBetween(sums, lo, hi) == AbsentBetween(sums, lo, hi - 1) + {hi - 1};
      }
    }
  }

  /** CountAbsent equally counts the mirrored values n - k. */
  lemma {:induction false} CountAbsentMirror(n: int, sums: set<int>, lo: int, hi: int)
    ensures CountAbsent(sums, lo, hi) == |MirrorBetween(n, sums, lo, hi)|
    decreases hi - lo
  {
    if hi <= lo {
      assert MirrorBetween(n, sums, lo, hi) == {};
    } else {
      CountAbsentMirror(n, sums, lo, hi - 1);
      var m := n - (hi - 1);
      if hi - 1 in sums {
        assert MirrorBetween(n, sums, lo, hi) == MirrorBetween(n, sums, lo, hi - 1);
      } else {
        assert MirrorBetween(n, sums, lo, hi) == MirrorBetween(n, sums, lo, hi - 1) + {m};
      }
    }
  }

  /** What the code counts (small k not in sums) is the number of large values the suffix may use,
      as countperms' documentation describes it. */
  lemma PossibleCountsSuffixValues(n: nat, sums: set<int>)
    ensures Possible(n, sums) == |AbsentBetween(sums, 1, (n + 1) / 2)|
    ensures Possible(n, sums) == |AllowedSuffixValues(n, sums)|
  {
    CountAbsentIsCardinality(sums, 1, (n + 1) / 2);
    CountAbsentMirror(n, sums, 1, (n + 1) / 2);
    assert MirrorBetween(n, sums, 1, (n + 1) / 2) == AllowedSuffixValues(n, sums);
  }

  /** b to the power e. */
  function Power(b: nat, e: nat): nat
  {
    if e == 0 then 1 else b * Power(b, e - 1)
  }

  /** The number of sequences counted for a prefix: the ways to place the prefix's values among the
      n positions, times a free choice of an allowed large value for each remaining position. */
  function PrefixCount(n: nat, prefix: seq<int>, sums: set<int>): nat
    requires |prefix| <= n
  {
    Placements(n, prefix, |prefix|) * Power(Possible(n, sums), n - |prefix|)
  }

  /** Exact division. */
  lemma DivExact(a: nat, b: nat, c: nat)
    requires 0 < b && a * b == c
    ensures c / b == a
  {
    var q := c / b;
    assert b * q <= c < b * q + b;
    if q < a {
      MulMonotone(b, q + 1, a);
    } else if q > a {
      MulMonotone(b, a + 1, q);
    }
  }

  lemma MulMonotone(b: nat, x: int, y: int)
    requires x <= y
    ensures b * x <= b * y
  {
    assert b * y - b * x == b * (y - x);
  }

  /** The generator sum in countperms: the number of k in [1, (n + 1) / 2) not in sums. */
  method CountPossible(n: nat, sums: set<int>) returns (possible: nat)
    ensures possible == Possible(n, sums)
  {
    possible := 0;
    var k := 1;
    while k < (n + 1) / 2
      invariant 1 <= k
      invariant k <= (n + 1) / 2 || k == 1
      invariant possible == CountAbsent(sums, 1, k)
    {
      if k !in sums {
        possible := possible + 1;
      }
      k := k + 1;
    }
  }

  /** The loop over the prefix in countperms: denom is multiplied by the position of each value
      within its run of equal values (prior starts at 0, below every value). */
  method RunDenominator(prefix: seq<int>) returns (denom: nat)
    requires Positive(prefix)
    ensures denom == RunFactorials(prefix, |prefix|)
  {
    denom := 1;
    var prior := 0;
    var count: nat := 1;
    for i := 0 to |prefix|
      invariant denom == RunFactorials(prefix, i)
      invariant i == 0 ==> prior == 0
      invariant 0 < i ==> prior == prefix[i - 1] && count == RunLength(prefix, i)
    {
      var k := prefix[i];
      if k == prior {
        RunFactorialsExtendRun(prefix, i);
        count := count + 1;
        denom := denom * count;
      } else {
        RunFactorialsNewRun(prefix, i);
        count := 1;
        prior := k;
      }
    }
  }

  /** countperms: possible is computed first and the count is 0 at once when it is 0 and the prefix
      is shorter than n (for a prefix of length n, possible is 1); then
      fact[n] / (denom * fact[n - len]) * possible ^ (n - len). */
  method CountPerms(n: nat, prefix: seq<int>, sums: set<int>, fact: seq<nat>) returns (perms: nat)
    requires IsFactTable(fact, n)
    requires |prefix| <= n && Positive(prefix)
    ensures perms == PrefixCount(n, prefix, sums)
    ensures |prefix| < n && Possible(n, sums) == 0 ==> perms == 0
    ensures |prefix| == n ==> perms == Placements(n, prefix, n)
  {
    var len := |prefix|;
    var possible: nat := 1;
    if len < n {
      possible := CountPossible(n, sums);
      if possible == 0 {
        return 0;
      }
    }
    var denom := RunDenominator(prefix);
    PlacementsIdentity(n, prefix, len);
    DivExact(Placements(n, prefix, len), denom * fact[n - len], fact[n]);
    var coeff := fact[n] / (denom * fact[n - len]);
    perms := coeff * Power(possible, n - len);
  }

  /** The empty prefix followed by every prefix the search reports, in the order counted. */
  function Candidates(n: nat): (cs: seq<Prefix>)
    requires 1 <= n
    ensures forall c :: c in cs ==> |c.values| <= n && Positive(c.values)
  {
    var found := ExtendPrefix(n, [], 1, {});
    assert forall c :: c in found ==> Extends(c.values, [], 1, n);
    [Prefix([], {})] + found
  }

  /** The sum of PrefixCount over a list of prefixes. */
  function SumCounts(n: nat, cs: seq<Prefix>): nat
    requires forall c :: c in cs ==> |c.values| <= n
  {
    if cs == [] then 0
    else
      var last := cs[|cs| - 1];
      SumCounts(n, cs[..|cs| - 1]) + PrefixCount(n, last.values, last.sums)
  }

  /** The value countsequences returns. */
  function SequenceCount(n: nat): nat
  {
    if n == 0 then 0 else SumCounts(n, Candidates(n))
  }

  /** countsequences: 0 for n == 0; otherwise builds the factorial table, counts the empty prefix
      and then adds countperms of every prefix the search reports. */
  method CountSequences(n: nat) returns (total: nat)
    ensures total == SequenceCount(n)
  {
    if n == 0 {
      return 0;
    }
    var fact := MakeFact(n);
    var cs := Candidates(n);
    total := CountPerms(n, [], {}, fact);
    assert cs[..1] == [Prefix([], {})];
    assert total == SumCounts(n, cs[..1]);
    for i := 1 to |cs|
      invariant total == SumCounts(n, cs[..i])
    {
      var perms := CountPerms(n, cs[i].values, cs[i].sums, fact);
      assert cs[..i + 1][..i] == cs[..i];
      total := total + perms;
    }
    assert cs[..|cs|] == cs;
  }

  /** With a single possible large value the count is the number of placements of the prefix. */
  lemma SingleChoice(n: nat, prefix: seq<int>, sums: set<int>)
    requires |prefix| <= n && Possible(n, sums) == 1
    ensures PrefixCount(n, prefix, sums) == Placements(n, prefix, |prefix|)
  {
    PowerOne(n - |prefix|);
  }

  lemma {:induction false} PowerOne(e: nat)
    ensures Power(1, e) == 1
  {
    if e > 0 {
      PowerOne(e - 1);
    }
  }

  /** A prefix shorter than n with no possible large value is counted 0 (the short circuit). */
  lemma BlockedPrefix(n: nat, prefix: seq<int>, sums: set<int>)
    requires |prefix| < n && Possible(n, sums) == 0
    ensures PrefixCount(n, prefix, sums) == 0
  {
  }

  /** The documented values for n = 0, 1, 2: no sequence qualifies. */
  lemma CountsUpToTwo()
    ensures SequenceCount(0) == 0 && SequenceCount(1) == 0 && SequenceCount(2) == 0
  {
    assert ExtendPrefix(1, [], 1, {}) == [];
    assert Candidates(1) == [Prefix([], {})];
    BlockedPrefix(1, [], {});
    assert ExtendPrefix(2, [1], 1, {1}) == [];
    assert [] + [1] == [1];
    assert AddValue({}, 2, 1) == {1};
    assert ExtendPrefix(2, [], 2, {}) == [];
    assert ExtendPrefix(2, [], 1, {}) == [Prefix([1], {1})];
    var cs := Candidates(2);
    assert cs == [Prefix([], {}), Prefix([1], {1})];
    BlockedPrefix(2, [], {});
    BlockedPrefix(2, [1], {1});
    assert cs[..1] == [Prefix([], {})];
  }

  /** The sum over a list of prefixes, one step from the end. */
  lemma SumCountsSnoc(n: nat, cs: seq<Prefix>, c: Prefix)
    requires forall d :: d in cs + [c] ==> |d.values| <= n
    ensures SumCounts(n, cs + [c]) == SumCounts(n, cs) + PrefixCount(n, c.values, c.sums)
  {
    assert (cs + [c])[..|cs|] == cs;
  }

  /** The search for n = 3 reports 1 and 1, 1. */
  lemma CandidatesForThree()
    ensures Candidates(3) == [Prefix([], {}), Prefix([1], {1}), Prefix([1, 1], {1, 2})]
  {
    assert Candidates(3) == [Prefix([], {})] + ExtendPrefix(3, [], 1, {});
    assert [] + [1] == [1];
    assert [1] + [1] == [1, 1];
    assert AddValue({}, 3, 1) == {1};
    assert AddValue({1}, 3, 1) == {1, 2};
    assert ExtendPrefix(3, [1, 1], 1, {1, 2}) == [];
    assert ExtendPrefix(3, [1], 2, {1}) == [];
    assert ExtendPrefix(3, [1], 1, {1}) == [Prefix([1, 1], {1, 2})];
    assert ExtendPrefix(3, [], 2, {}) == [];
  }

  /** For n = 3 only the empty prefix contributes. */
  lemma SumForThree()
    ensures SumCounts(3, [Prefix([], {}), Prefix([1], {1}), Prefix([1, 1], {1, 2})]) == PrefixCount(3, [], {})
  {
    var e, a, b := Prefix([], {}), Prefix([1], {1}), Prefix([1, 1], {1, 2});
    assert [e, a, b] == [e, a] + [b];
    assert [e, a] == [e] + [a];
    assert [e] == [] + [e];
    SumCountsSnoc(3, [e, a], b);
    SumCountsSnoc(3, [e], a);
    SumCountsSnoc(3, [], e);
    BlockedPrefix(3, [1], {1});
    BlockedPrefix(3, [1, 1], {1, 2});
  }

  /** The documented value for n = 3: only 2, 2, 2 qualifies. */
  lemma CountForThree()
    ensures SequenceCount(3) == 1
  {
    CandidatesForThree();
    SumForThree();
    assert Possible(3, {}) == 1;
    SingleChoice(3, [], {});
  }

  /** The search for n = 4 below the prefix 1, 1. */
  lemma SearchFourAfterOneOne()
    ensures ExtendPrefix(4, [1, 1], 1, {1, 2}) == [Prefix([1, 1, 1], {1, 2, 3})]
  {
    assert [1, 1] + [1] == [1, 1, 1];
    assert AddValue({1, 2}, 4, 1) == {1, 2, 3};
    assert ExtendPrefix(4, [1, 1, 1], 2, {1, 2, 3}) == [];
    assert ExtendPrefix(4, [1, 1, 1], 1, {1, 2, 3}) == [];
    assert ExtendPrefix(4, [1, 1], 2, {1, 2}) == [];
  }

  /** The search for n = 4 below the prefix 1, from the value 2 on. */
  lemma SearchFourAfterOneFromTwo()
    ensures ExtendPrefix(4, [1], 2, {1}) == [Prefix([1, 2], {1, 2, 3})]
  {
    assert [1] + [2] == [1, 2];
    assert AddValue({1}, 4, 2) == {1, 2, 3};
    assert ExtendPrefix(4, [1, 2], 2, {1, 2, 3}) == [];
    assert ExtendPrefix(4, [1], 3, {1}) == [];
  }

  /** The search for n = 4 below the prefix 1. */
  lemma SearchFourAfterOne()
    ensures ExtendPrefix(4, [1], 1, {1}) ==
      [Prefix([1, 1], {1, 2}), Prefix([1, 1, 1], {1, 2, 3}), Prefix([1, 2], {1, 2, 3})]
  {
    assert [1] + [1] == [1, 1];
    assert AddValue({1}, 4, 1) == {1, 2};
    SearchFourAfterOneOne();
    SearchFourAfterOneFromTwo();
  }

  /** The search for n = 4 from the value 2 on. */
  lemma SearchFourFromTwo()
    ensures ExtendPrefix(4, [], 2, {}) == [Prefix([2], {2})]
  {
    assert [] + [2] == [2];
    assert AddValue({}, 4, 2) == {2};
    assert ExtendPrefix(4, [2], 3, {2}) == [];
    assert ExtendPrefix(4, [2], 2, {2}) == [];
    assert ExtendPrefix(4, [], 3, {}) == [];
  }

  lemma ConcatSix(c0: Prefix, c1: Prefix, c2: Prefix, c3: Prefix, c4: Prefix, c5: Prefix)
    ensures [c0] + ([c1] + [c2, c3, c4] + [c5]) == [c0, c1, c2, c3, c4, c5]
  {
  }

  /** The search for n = 4 reports 1; 1, 1; 1, 1, 1; 1, 2 and 2. */
  lemma CandidatesForFour()
    ensures Candidates(4) == [Prefix([], {}), Prefix([1], {1}), Prefix([1, 1], {1, 2}),
      Prefix([1, 1, 1], {1, 2, 3}), Prefix([1, 2], {1, 2, 3}), Prefix([2], {2})]
  {
    var top := ExtendPrefix(4, [], 1, {});
    assert Candidates(4) == [Prefix([], {})] + top;
    assert top == [Prefix([1], {1})] + ExtendPrefix(4, [1], 1, {1}) + ExtendPrefix(4, [], 2, {}) by {
      assert [] + [1] == [1];
      assert AddValue({}, 4, 1) == {1};
    }
    var c0, c1, c2 := Prefix([], {}), Prefix([1], {1}), Prefix([1, 1], {1, 2});
    var c3, c4, c5 := Prefix([1, 1, 1], {1, 2, 3}), Prefix([1, 2], {1, 2, 3}), Prefix([2], {2});
    assert top == [c1] + [c2, c3, c4] + [c5] by {
      SearchFourAfterOne();
      SearchFourFromTwo();
    }
    ConcatSix(c0, c1, c2, c3, c4, c5);
  }

  /** For n = 4 only the empty prefix and the prefix 2 contribute. */
  lemma SumForFour()
    ensures SumCounts(4, [Prefix([], {}), Prefix([1], {1}), Prefix([1, 1], {1, 2}),
      Prefix([1, 1, 1], {1, 2, 3}), Prefix([1, 2], {1, 2, 3}), Prefix([2], {2})])
      == PrefixCount(4, [], {}) + PrefixCount(4, [2], {2})
  {
    var c0, c1, c2 := Prefix([], {}), Prefix([1], {1}), Prefix([1, 1], {1, 2});
    var c3, c4, c5 := Prefix([1, 1, 1], {1, 2, 3}), Prefix([1, 2], {1, 2, 3}), Prefix([2], {2});
    assert [c0, c1, c2, c3, c4, c5] == [c0, c1, c2, c3, c4] + [c5];
    assert [c0, c1, c2, c3, c4] == [c0, c1, c2, c3] + [c4];
    SumCountsSnoc(4, [c0, c1, c2, c3, c4], c5);
    SumCountsSnoc(4, [c0, c1, c2, c3], c4);
    SumForFourHead();
    BlockedPrefix(4, [1, 2], {1, 2, 3});
  }

  /** The first four candidates for n = 4: only the empty prefix contributes. */
  lemma SumForFourHead()
    ensures SumCounts(4, [Prefix([], {}), Prefix([1], {1}), Prefix([1, 1], {1, 2}),
      Prefix([1, 1, 1], {1, 2, 3})]) == PrefixCount(4, [], {})
  {
    var c0, c1, c2 := Prefix([], {}), Prefix([1], {1}), Prefix([1, 1], {1, 2});
    var c3 := Prefix([1, 1, 1], {1, 2, 3});
    assert [c0, c1, c2, c3] == [c0, c1, c2] + [c3];
    assert [c0, c1, c2] == [c0, c1] + [c2];
    assert [c0, c1] == [c0] + [c1];
    assert [c0] == [] + [c0];
    SumCountsSnoc(4, [c0, c1, c2], c3);
    SumCountsSnoc(4, [c0, c1], c2);
    SumCountsSnoc(4, [c0], c1);
    SumCountsSnoc(4, [], c0);
    BlockedPrefix(4, [1], {1});
    BlockedPrefix(4, [1, 1], {1, 2});
    BlockedPrefix(4, [1, 1, 1], {1, 2, 3});
  }

  /** The prefix 2 of n = 4: four positions for the 2, and 3 in the others. */
  lemma PrefixTwoOfFour()
    ensures PrefixCount(4, [2], {2}) == 4
  {
    assert Placements(4, [2], 1) == 4 by {
      assert RunLength([2], 1) == 1;
      BinomOne(4);
    }
    assert Possible(4, {2}) == 1;
    SingleChoice(4, [2], {2});
  }

  /** The documented value for n = 4: 3, 3, 3, 3 and the four arrangements of 2, 3, 3, 3. */
  lemma CountForFour()
    ensures SequenceCount(4) == 5
  {
    CountForFourSplits();
    EmptyPrefixOfFour();
    PrefixTwoOfFour();
  }

  lemma CountForFourSplits()
    ensures SequenceCount(4) == PrefixCount(4, [], {}) + PrefixCount(4, [2], {2})
  {
    CandidatesForFour();
    SumForFour();
  }

  /** The empty prefix of n = 4: 3, 3, 3, 3. */
  lemma EmptyPrefixOfFour()
    ensures PrefixCount(4, [], {}) == 1
  {
    assert Possible(4, {}) == 1;
    SingleChoice(4, [], {});
  }
}
