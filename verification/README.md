# A336433: counting sequences with no subsequence summing to n

`A336433/sequence.py` computes OEIS A336433: the number of sequences k1, …, kn of integers in
1 .. n in which no choice of indices j1 < … < js gives k(j1) + … + k(js) == n. Every sequence
is counted through its non-decreasing rearrangement. That rearrangement splits into two parts:

- a prefix of small values (at most n / 2) with no subsequence summing to n;
- a suffix of large values m (n / 2 < m < n) with n − m not a sum of the prefix.

`extendprefix` enumerates the prefixes by depth-first search. `countperms` counts the sequences
whose sorted form has a given prefix: a multinomial coefficient for placing the prefix's values
among the n positions, times `possible ^ (n − len)` for the free choice of a large value in every
other position. `countsequences` adds these counts over the empty prefix and every reported prefix.

The Dafny model, file by file:

- `factorials.dfy` (module `Factorials`): `Fact` and `Binom`. `MakeFact` is `makefact`, a loop
  filling an array.
- `subsums.dfy` (module `SubsequenceSums`): the property being counted. `HasSubsequenceSum` is
  defined by index masks, as the docstring states it. `SubSums` is the recursive sum set. The two
  are proved equal, and the sum set is proved invariant under rearrangement.
- `enumerator.dfy` (module `Enumerator`): `extendprefix` as the function `ExtendPrefix`. It returns
  the `(prefix, sums)` pairs in the order the callback would receive them. The loop over k becomes
  recursion on `minimum`.
- `multinomial.dfy` (module `Multinomial`): the coefficient. `RunLength` and `RunFactorials` follow
  countperms' `count`/`denom` loop. `Placements` is an independent definition built from binomial
  coefficients. `MultiplicityFactorials` is the product of (multiplicity)! over distinct values.
- `counter.dfy` (module `Counter`): `CountPerms` and `CountSequences` as methods, with the loops of
  the source. They are specified by the functions `PrefixCount` and `SequenceCount`.
- `decomposition.dfy` (module `Decomposition`): why the count is right. A sequence qualifies
  exactly when its sorted form is a reported prefix followed by allowed large values.

Integers are unbounded in both Python and Dafny. Every operand of `//` in the source is
non-negative, so Python's `//` is Dafny's `/`.

## Model

| member | source | states |
|---|---|---|
| Factorials.MakeFact | A336433/sequence.py:66-73 | the table has length n + 1, fact[0] = 1, fact[i] = i * fact[i - 1], hence fact[i] = i! |
| Factorials.BinomFactorials | A336433/sequence.py:148 | C(n, k) * k! * (n - k)! = n!, so dividing n! by k! (n - k)! is exact |
| SubsequenceSums.SubSumsExact | A336433/sequence.py:5-7 | the recursive sum set holds exactly the sums of non-empty index-ordered subsequences |
| SubsequenceSums.SubSumsBounds | A336433/sequence.py:87 | sums of positive values lie between 1 and the total |
| SubsequenceSums.SubSumsPermutation | A336433/sequence.py:11 | sequences with the same multiset of values have the same sum set |
| SubsequenceSums.PermutationKeepsSums | A336433/sequence.py:11 | a rearrangement of a sequence has a subsequence summing to t iff the sequence has |
| Enumerator.ExtendPrefix | A336433/sequence.py:110-119 | each report extends prior by non-decreasing values in [minimum, n / 2] and has length at most n |
| Enumerator.AddValueSums | A336433/sequence.py:114-116 | the updated set is exactly the sums below n of prior + [k] when sums is those of prior |
| Enumerator.AppendReachesN | A336433/sequence.py:111-113 | appending k makes n a sum iff k = n or n - k is a sum below n of prior |
| Enumerator.ExtendPrefixSound | A336433/sequence.py:87-99 | given the sums invariant, every report carries its own sums below n and has no subsequence summing to n |
| Enumerator.ExtendPrefixComplete | A336433/sequence.py:92-99 | every admissible non-decreasing extension with no subsequence summing to n is reported |
| Enumerator.ExtendPrefixOrdered | A336433/sequence.py:110-119 | reports come in strictly increasing lexicographic order: increasing k, each prefix before its extensions |
| Enumerator.ReportedOnce | A336433/sequence.py:110-119 | no prefix is reported twice |
| Enumerator.SearchFromEmptySound | A336433/sequence.py:175 | from ([], 1, {}) every report is a sorted prefix over [1, n / 2] with no sum n, and its set is its sums in [1, n) |
| Enumerator.SearchFromEmptyComplete | A336433/sequence.py:21-23 | from ([], 1, {}) every sorted prefix over [1, n / 2] of length at most n with no sum n is reported |
| Multinomial.RunLength | A336433/sequence.py:140-147 | the run ending at a position has equal values and is maximal |
| Multinomial.RunFactorialsExtendRun | A336433/sequence.py:142-144 | a repeated value lengthens the run by one and multiplies denom by the new length |
| Multinomial.RunFactorialsNewRun | A336433/sequence.py:145-147 | a new value starts a run of length 1 and leaves denom unchanged |
| Multinomial.PlacementsIdentity | A336433/sequence.py:148 | placements * (denom * (n - len)!) = n!, so the division is exact and yields the placements |
| Multinomial.RunIsMultiplicity | A336433/sequence.py:137-147 | in a non-decreasing prefix a run holds every copy of its value |
| Multinomial.RunFactorialsAreMultiplicities | A336433/sequence.py:137-147 | for a non-decreasing prefix denom is the product of (multiplicity)! over distinct values |
| Multinomial.PlacementsAreMultinomial | A336433/sequence.py:29-31 | the coefficient is n! / ((n - len)! * product of (multiplicity)!) |
| Counter.CountAbsent | A336433/sequence.py:131 | the count is at most the range's width and is 0 iff every value of the range is a sum |
| Counter.CountAbsentIsCardinality | A336433/sequence.py:131 | the count is the size of the set of non-sums in the range |
| Counter.PossibleCountsSuffixValues | A336433/sequence.py:124-131 | possible (small k not in sums) equals the number of large m, n / 2 < m < n, with n - m not in sums |
| Counter.CountPossible | A336433/sequence.py:131 | the generator count equals Possible |
| Counter.RunDenominator | A336433/sequence.py:137-147 | the loop leaves denom equal to the product of run-length factorials |
| Counter.CountPerms | A336433/sequence.py:121-150 | the result is placements * possible ^ (n - len), 0 on the short circuit, the placements alone for a full prefix |
| Counter.BlockedPrefix | A336433/sequence.py:130-133 | the short circuit returns what the formula gives |
| Counter.CountSequences | A336433/sequence.py:152-177 | 0 for n = 0, otherwise the sum of PrefixCount over the empty prefix and the reports in order |
| Counter.CountsUpToTwo | A336433/sequence.py:40-42 | the counts for n = 0, 1, 2 are 0 |
| Counter.CountForThree | A336433/sequence.py:43 | the count for n = 3 is 1 |
| Counter.CountForFour | A336433/sequence.py:44 | the count for n = 4 is 5 |
| Decomposition.SuffixDecomposition | A336433/sequence.py:13-19 | appending large values avoids sum n iff the prefix does and each value m < n has n - m not a prefix sum |
| Decomposition.CandidateSound | A336433/sequence.py:87 | each counted candidate's set is its sums below n, and n is not a sum |
| Decomposition.CandidateComplete | A336433/sequence.py:21-23 | every sorted small prefix without sum n is a counted candidate |
| Decomposition.SortedFormDecomposes | A336433/sequence.py:16-27 | a sorted sequence qualifies iff its small part is a candidate and every large value is one countperms counts |
| Decomposition.QualifiesIffSortedFormDecomposes | A336433/sequence.py:11-19 | any sequence qualifies iff its sorted rearrangement decomposes that way |

## Left out

- CountSequences: its contract ties the result to the sum of PrefixCount over the prefixes. It does
  not equate it with the size of the set of qualifying sequences, which the docstring promises at
  A336433/sequence.py:1-7. The parts are proved separately:
  - the decomposition of every qualifying sequence (`QualifiesIffSortedFormDecomposes`);
  - that each prefix is reported once (`ReportedOnce`);
  - the multinomial coefficient (`PlacementsAreMultinomial`);
  - the count of allowed large values (`PossibleCountsSuffixValues`).

  The combinatorial step is not modelled: that a multiset with given multiplicities has
  multinomial-many arrangements, and that the free positions give `possible ^ (n − len)`
  sequences.
- CountForFour: the documented values are checked only for n ≤ 4. From n = 5 (68 sequences)
  evaluating the search and its sum sets symbolically is beyond the verifier's budget.
- The `found` callback becomes a returned list in report order. `handleprefix`'s `nonlocal total`
  update becomes a loop over that list in `CountSequences`. Call-by-callback interleaving has no
  observable effect here.
- The module-global `fact` and its lazy rebuild (A336433/sequence.py:64, 163-164) are left out.
  The table is an explicit argument that must hold 0! .. n!. `CountSequences` builds it with
  `MakeFact(n)`, and a larger table that was already built satisfies the same requirement.
- `CountPerms` requires every prefix value to be at least 1, as extendprefix's documentation
  promises. The loop starts from `prior = 0`, which must differ from the first value.
- The `__main__` command-line block (argument parsing, range check, printing) is I/O and is not
  modelled.
- `SlicedRuler/ruler.py` is not part of this model. It is Monte-Carlo sampling over floating-point
  lengths.
- extendprefix's comment (A336433/sequence.py:101-102) speaks of the range 1 .. (n+1)//2
  inclusive. The code counts k in [1, (n+1)//2) with k not in sums (A336433/sequence.py:131), and
  some descriptions phrase that test as n − k not in sums. The model follows the code.
  `PossibleCountsSuffixValues` proves that it counts exactly the large values m with n − m not in
  sums.
