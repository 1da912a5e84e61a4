/** Sums of subsequences: the property the counted sequences must avoid. */
module SubsequenceSums {

  /** The sum of the elements of s. */
  function Total(s: seq<int>): int
  {
    if s == [] then 0 else Total(s[..|s| - 1]) + s[|s| - 1]
  }

  /** The subsequence s[j1], s[j2], ... (j1 < j2 < ...) of the positions j with mask[j] set. */
  function Pick(s: seq<int>, mask: seq<bool>): (t: seq<int>)
    requires |mask| == |s|
    ensures |t| <= |s|
  {
    if s == [] then []
    else Pick(s[..|s| - 1], mask[..|mask| - 1]) + (if mask[|mask| - 1] then [s[|s| - 1]] else [])
  }

  /** Some indices 1 <= j1 < ... < jt <= |s|, t >= 1, have s[j1] + ... + s[jt] == target. */
  ghost predicate HasSubsequenceSum(s: seq<int>, target: int)
  {
    exists mask: seq<bool> :: |mask| == |s| && Pick(s, mask) != [] && Total(Pick(s, mask)) == target
  }

  /** All values in s are positive. */
  predicate Positive(s: seq<int>)
  {
    forall i :: 0 <= i < |s| ==> 1 <= s[i]
  }

  /** The set of sums of non-empty subsequences of s, built one appended element at a time. */
  function SubSums(s: seq<int>): set<int>
  {
    if s == [] then {}
    else
      var sums, x := SubSums(s[..|s| - 1]), s[|s| - 1];
      sums + (set y | y in sums :: y + x) + {x}
  }

  /** The subsequence sums of s that are smaller than n: the set the search keeps per prefix. */
  function SumsBelow(s: seq<int>, n: int): set<int>
  {
    set t | t in SubSums(s) && t < n
  }

  /** Appending x adds exactly the sums that use x: x alone, or an old sum plus x. */
  lemma SubSumsAppend(p: seq<int>, x: int, t: int)
    ensures t in SubSums(p + [x]) <==> t in SubSums(p) || t - x in SubSums(p) || t == x
  {
    assert (p + [x])[..|p|] == p;
    if t - x in SubSums(p) {
      assert t == (t - x) + x;
    }
  }

  /** Extending a sequence keeps every sum it had. */
  lemma {:induction false} SubSumsGrow(a: seq<int>, b: seq<int>)
    ensures SubSums(a) <= SubSums(a + b)
  {
    if b != [] {
      var b' := b[..|b| - 1];
      assert a + b == (a + b') + [b[|b| - 1]];
      SubSumsGrow(a, b');
      forall t | t in SubSums(a) ensures t in SubSums(a + b) {
        SubSumsAppend(a + b', b[|b| - 1], t);
      }
    } else {
      assert a + b == a;
    }
  }

  /** Sums of positive values are at least 1 and at most the sum of all values. */
  lemma {:induction false} SubSumsBounds(s: seq<int>)
    requires Positive(s)
    ensures forall t :: t in SubSums(s) ==> 1 <= t <= Total(s)
  {
    if s != [] {
      var p, x := s[..|s| - 1], s[|s| - 1];
      assert s == p + [x];
      SubSumsBounds(p);
      forall t | t in SubSums(s) ensures 1 <= t <= Total(s) {
        SubSumsAppend(p, x, t);
      }
    }
  }

  /** A sum smaller than every element of u cannot use any element of u. */
  lemma {:induction false} SubSumsBelowSuffix(p: seq<int>, u: seq<int>, t: int)
    requires Positive(p + u)
    requires forall i :: 0 <= i < |u| ==> t < u[i]
    requires t in SubSums(p + u)
    ensures t in SubSums(p)
  {
    if u != [] {
      var u', x := u[..|u| - 1], u[|u| - 1];
      assert p + u == (p + u') + [x];
      assert Positive(p + u') by {
        forall i | 0 <= i < |p + u'| ensures 1 <= (p + u')[i] {
          assert (p + u')[i] == (p + u)[i];
        }
      }
      SubSumsAppend(p + u', x, t);
      if t - x in SubSums(p + u') {
        SubSumsBounds(p + u');
        assert false;
      }
      SubSumsBelowSuffix(p, u', t);
    } else {
      assert p + u == p;
    }
  }

  /** No subsequence of the empty sequence, or of a mask with no bit set, is non-empty. */
  lemma {:induction false} PickNone(s: seq<int>, mask: seq<bool>)
    requires |mask| == |s|
    requires forall j :: 0 <= j < |mask| ==> !mask[j]
    ensures Pick(s, mask) == []
  {
    if s != [] {
      PickNone(s[..|s| - 1], mask[..|mask| - 1]);
    }
  }

  /** Picking from p + [x] with mask m + [b] picks from p, then x when b is set. */
  lemma PickAppend(p: seq<int>, m: seq<bool>, x: int, b: bool)
    requires |m| == |p|
    ensures Pick(p + [x], m + [b]) == Pick(p, m) + (if b then [x] else [])
  {
    assert (p + [x])[..|p|] == p;
    assert (m + [b])[..|m|] == m;
  }

  lemma TotalAppend(q: seq<int>, x: int)
    ensures Total(q + [x]) == Total(q) + x
  {
    assert (q + [x])[..|q|] == q;
  }

  /** A mask picking a non-empty subsequence with sum t witnesses t. */
  lemma Witness(s: seq<int>, mask: seq<bool>, t: int)
    requires |mask| == |s| && Pick(s, mask) != [] && Total(Pick(s, mask)) == t
    ensures HasSubsequenceSum(s, t)
  {
  }

  /** A subsequence sum of p, extended or not by x, is one of p + [x]. */
  lemma ExtendWitness(p: seq<int>, x: int, t: int, b: bool)
    requires HasSubsequenceSum(p, t)
    ensures HasSubsequenceSum(p + [x], if b then t + x else t)
  {
    var m :| |m| == |p| && Pick(p, m) != [] && Total(Pick(p, m)) == t;
    PickAppend(p, m, x, b);
    TotalAppend(Pick(p, m), x);
    assert Pick(p, m) + [] == Pick(p, m);
    Witness(p + [x], m + [b], if b then t + x else t);
  }

  /** Every member of the recursive set is the sum of some non-empty subsequence. */
  lemma {:induction false} SubSumsSound(s: seq<int>, t: int)
    requires t in SubSums(s)
    ensures HasSubsequenceSum(s, t)
  {
    var p, x := s[..|s| - 1], s[|s| - 1];
    assert s == p + [x];
    SubSumsAppend(p, x, t);
    if t in SubSums(p) {
      SubSumsSound(p, t);
      ExtendWitness(p, x, t, false);
    } else if t - x in SubSums(p) {
      SubSumsSound(p, t - x);
      ExtendWitness(p, x, t - x, true);
    } else {
      var m := seq(|p|, j => false);
      PickNone(p, m);
      PickAppend(p, m, x, true);
      TotalAppend([], x);
      Witness(s, m + [true], t);
    }
  }

  /** The sum of every non-empty subsequence is in the recursive set. */
  lemma {:induction false} SubSumsComplete(s: seq<int>, t: int)
    requires HasSubsequenceSum(s, t)
    ensures t in SubSums(s)
  {
    var mask :| |mask| == |s| && Pick(s, mask) != [] && Total(Pick(s, mask)) == t;
    if s == [] {
      assert false;
    } else {
      var p, x := s[..|s| - 1], s[|s| - 1];
      assert s == p + [x];
      var m := mask[..|p|];
      assert mask == m + [mask[|p|]];
      var q := Pick(p, m);
      SubSumsAppend(p, x, t);
      PickAppend(p, m, x, mask[|p|]);
      if mask[|p|] {
        TotalAppend(q, x);
        if q == [] {
          TotalAppend([], x);
        } else {
          SubSumsComplete(p, t - x);
        }
      } else {
        assert Pick(s, mask) == q;
        SubSumsComplete(p, t);
      }
    }
  }

  /** The recursive set holds exactly the sums of non-empty subsequences. */
  lemma SubSumsExact(s: seq<int>, t: int)
    ensures t in SubSums(s) <==> HasSubsequenceSum(s, t)
  {
    if t in SubSums(s) {
      SubSumsSound(s, t);
    }
    if HasSubsequenceSum(s, t) {
      SubSumsComplete(s, t);
    }
  }

  /** Appending the same value to sequences with the same sum set gives the same sum set. */
  lemma AppendSameSums(p: seq<int>, q: seq<int>, y: int)
    requires SubSums(p) == SubSums(q)
    ensures SubSums(p + [y]) == SubSums(q + [y])
  {
    assert (p + [y])[..|p|] == p;
    assert (q + [y])[..|q|] == q;
  }

  /** Appending x then y gives the same sum set as appending y then x. */
  lemma AppendCommutes(base: seq<int>, x: int, y: int)
    ensures SubSums(base + [x] + [y]) == SubSums(base + [y] + [x])
  {
    forall t ensures t in SubSums(base + [x] + [y]) <==> t in SubSums(base + [y] + [x]) {
      SubSumsAppend(base + [x], y, t);
      SubSumsAppend(base, x, t);
      SubSumsAppend(base, x, t - y);
      SubSumsAppend(base + [y], x, t);
      SubSumsAppend(base, y, t);
      SubSumsAppend(base, y, t - x);
      assert t - y - x == t - x - y;
    }
  }

  /** Moving x from the middle of a sequence to its end does not change the sum set. */
  lemma {:induction false} SubSumsMoveToEnd(a: seq<int>, x: int, b: seq<int>)
    ensures SubSums(a + [x] + b) == SubSums(a + b + [x])
  {
    if b == [] {
      assert a + [x] + b == a + b + [x];
    } else {
      var b', y := b[..|b| - 1], b[|b| - 1];
      assert a + [x] + b == (a + [x] + b') + [y];
      assert a + b + [x] == (a + b') + [y] + [x];
      SubSumsMoveToEnd(a, x, b');
      AppendSameSums(a + [x] + b', a + b' + [x], y);
      AppendCommutes(a + b', x, y);
    }
  }

  /** The sum set depends only on the multiset of values: rearranging a sequence keeps it. */
  lemma {:induction false} SubSumsPermutation(s: seq<int>, t: seq<int>)
    requires multiset(s) == multiset(t)
    ensures SubSums(s) == SubSums(t)
    decreases |s|
  {
    if s == [] {
      assert |t| == |multiset(t)| == 0;
    } else {
      var s', x := s[..|s| - 1], s[|s| - 1];
      assert s == s' + [x];
      assert x in multiset(t);
      var i :| 0 <= i < |t| && t[i] == x;
      var t' := t[..i] + t[i + 1..];
      assert t == t[..i] + [x] + t[i + 1..];
      assert multiset(s) == multiset(s') + multiset{x};
      assert multiset(t) == multiset(t[..i]) + multiset{x} + multiset(t[i + 1..]);
      assert multiset(t') == multiset(t[..i]) + multiset(t[i + 1..]);
      assert multiset(s') == multiset(s) - multiset{x};
      assert multiset(t') == multiset(t) - multiset{x};
      SubSumsPermutation(s', t');
      SubSumsMoveToEnd(t[..i], x, t[i + 1..]);
      forall v ensures v in SubSums(s' + [x]) <==> v in SubSums(t' + [x]) {
        SubSumsAppend(s', x, v);
        SubSumsAppend(t', x, v);
      }
    }
  }

  /** Any rearrangement of a sequence has the same subsequence sums: a rearrangement of a
      qualifying sequence qualifies. */
  lemma PermutationKeepsSums(s: seq<int>, t: seq<int>, target: int)
    requires multiset(s) == multiset(t)
    ensures HasSubsequenceSum(s, target) <==> HasSubsequenceSum(t, target)
  {
    SubSumsPermutation(s, t);
    SubSumsExact(s, target);
    SubSumsExact(t, target);
  }
}
