/**
  The list builders of one round: negated items, "bad descriptor" terms,
  the budgeted merge of the two, and the matching positive list. The random
  choices a round makes are parameters: one modifier index per item for
  `random.choice`, and the draws of `random.shuffle`.
 */
module Generators {
  import opened Strings

  datatype Option<T> = None | Some(value: T)

  /** The separator the lists are joined with. */
  const Separator: string := ", "

  /** The character budget of the bad version. */
  const LengthLimit: int := 1000

  // ---------------------------------------------------------------------
  // Negated list
  // ---------------------------------------------------------------------

  const NegativeModifiers: seq<string> := ["not", "no", "un-"]

  /** An index into NegativeModifiers: what one `random.choice` returned. */
  type ModifierChoice = m: nat | m < 3

  /** `f"{modifier} {item}"`: the modifier, one space, then the item. */
  function NegatedTerm(m: ModifierChoice, item: string): (r: string)
    ensures |r| == |NegativeModifiers[m]| + 1 + |item|
    ensures r[..|NegativeModifiers[m]|] == NegativeModifiers[m] && r[|NegativeModifiers[m]|] == ' '
    ensures r[|NegativeModifiers[m]| + 1..] == item
  {
    NegativeModifiers[m] + " " + item
  }

  /** Reads the modifier and the item back out of a negated term. */
  function SplitNegatedTerm(t: string): Option<(ModifierChoice, string)> {
    if |t| >= 4 && t[..4] == "not " then Some((0, t[4..]))
    else if |t| >= 3 && t[..3] == "no " then Some((1, t[3..]))
    else if |t| >= 4 && t[..4] == "un- " then Some((2, t[4..]))
    else None
  }

  /** A negated term determines its modifier and its item. */
  lemma SplitNegatedTermInverse(m: ModifierChoice, item: string)
    ensures SplitNegatedTerm(NegatedTerm(m, item)) == Some((m, item))
  {
    var t := NegatedTerm(m, item);
    if m == 0 {
      assert t[..4] == "not ";
      assert t[4..] == item;
    } else if m == 1 {
      assert t[..3] == "no ";
      assert t[3..] == item;
      assert t[2] != "not "[2];
    } else {
      assert t[..4] == "un- ";
      assert t[4..] == item;
      assert t[0] != "not "[0] && t[0] != "no "[0];
    }
  }

  /** Whatever SplitNegatedTerm accepts is a negated term. */
  lemma SplitNegatedTermSound(t: string, m: ModifierChoice, item: string)
    requires SplitNegatedTerm(t) == Some((m, item))
    ensures NegatedTerm(m, item) == t
  {
    if m == 0 {
      assert t == t[..4] + t[4..];
    } else if m == 1 {
      assert t == t[..3] + t[3..];
    } else {
      assert t == t[..4] + t[4..];
    }
  }

  /** Different choices or different items give different negated terms. */
  lemma NegatedTermInjective(m: ModifierChoice, x: string, n: ModifierChoice, y: string)
    requires NegatedTerm(m, x) == NegatedTerm(n, y)
    ensures m == n && x == y
  {
    SplitNegatedTermInverse(m, x);
    SplitNegatedTermInverse(n, y);
  }

  /** `generate_negated_list(items)`, with `choices[i]` the modifier picked for
      `items[i]`. */
  method GenerateNegatedList(items: seq<string>, choices: seq<ModifierChoice>)
    returns (negated: seq<string>)
    requires |choices| == |items|
    ensures |negated| == |items|
    ensures forall i :: 0 <= i < |items| ==> negated[i] == NegatedTerm(choices[i], items[i])
  {
    negated := [];
    for i := 0 to |items|
      invariant |negated| == i
      invariant forall k :: 0 <= k < i ==> negated[k] == NegatedTerm(choices[k], items[k])
    {
      negated := negated + [NegatedTerm(choices[i], items[i])];
    }
  }

  /** Every term of a negated list decodes to its modifier and its item. */
  lemma NegatedListDecodes(items: seq<string>, choices: seq<ModifierChoice>, negated: seq<string>)
    requires |choices| == |items| == |negated|
    requires forall i :: 0 <= i < |items| ==> negated[i] == NegatedTerm(choices[i], items[i])
    ensures forall i :: 0 <= i < |negated| ==> SplitNegatedTerm(negated[i]) == Some((choices[i], items[i]))
  {
    forall i | 0 <= i < |negated|
      ensures SplitNegatedTerm(negated[i]) == Some((choices[i], items[i]))
    {
      SplitNegatedTermInverse(choices[i], items[i]);
    }
  }

  // ---------------------------------------------------------------------
  // Shuffle
  // ---------------------------------------------------------------------

  /** `draws[i]` is what `random.shuffle` draws for position `i`: a position
      at or below `i`. Position 0 draws nothing; its entry is never read. */
  predicate ValidDraws(n: nat, draws: seq<nat>) {
    |draws| == n && forall i :: 0 <= i < n ==> draws[i] <= i
  }

  function Swap<T>(s: seq<T>, i: nat, j: nat): (r: seq<T>)
    requires i < |s| && j < |s|
    ensures |r| == |s| && multiset(r) == multiset(s)
  {
    s[i := s[j]][j := s[i]]
  }

  /** The steps of `random.shuffle` for positions `n - 1` down to 1: swap the
      element at each position with the one at the position drawn for it. */
  function ShuffleSteps<T>(s: seq<T>, draws: seq<nat>, n: nat): (r: seq<T>)
    requires n <= |s| && n <= |draws|
    requires forall i :: 0 <= i < n ==> draws[i] <= i
    ensures |r| == |s|
    ensures forall i :: n <= i < |s| ==> r[i] == s[i]
    decreases n
  {
    if n <= 1 then s else ShuffleSteps(Swap(s, n - 1, draws[n - 1]), draws, n - 1)
  }

  /** `random.shuffle` applied to a copy of `s`: a permutation of `s`. */
  function Shuffled<T>(s: seq<T>, draws: seq<nat>): (r: seq<T>)
    requires ValidDraws(|s|, draws)
    ensures |r| == |s| && multiset(r) == multiset(s)
  {
    ShuffleStepsPermutes(s, draws, |s|);
    ShuffleSteps(s, draws, |s|)
  }

  lemma {:induction false} ShuffleStepsPermutes<T>(s: seq<T>, draws: seq<nat>, n: nat)
    requires n <= |s| && n <= |draws|
    requires forall i :: 0 <= i < n ==> draws[i] <= i
    ensures multiset(ShuffleSteps(s, draws, n)) == multiset(s)
    decreases n
  {
    if n > 1 {
      ShuffleStepsPermutes(Swap(s, n - 1, draws[n - 1]), draws, n - 1);
    }
  }

  /** Only the draws for positions below `n` are read. */
  lemma {:induction false} ShuffleStepsReadsPrefix<T>(s: seq<T>, d1: seq<nat>, d2: seq<nat>, n: nat)
    requires n <= |s| && n <= |d1| && n <= |d2|
    requires forall i :: 0 <= i < n ==> d1[i] <= i && d2[i] == d1[i]
    ensures ShuffleSteps(s, d1, n) == ShuffleSteps(s, d2, n)
    decreases n
  {
    if n > 1 {
      ShuffleStepsReadsPrefix(Swap(s, n - 1, d1[n - 1]), d1, d2, n - 1);
    }
  }

  /** The first `n` elements of `s` and `t` are the same multiset and the
      rest already agree. */
  ghost predicate Arrangeable<T>(s: seq<T>, t: seq<T>, n: nat) {
    |s| == |t| && n <= |s| && s[n..] == t[n..] && multiset(s[..n]) == multiset(t[..n])
  }

  /** Draws that turn `s` into `t`. */
  lemma {:induction false} DrawsFor<T>(s: seq<T>, t: seq<T>, n: nat) returns (draws: seq<nat>)
    requires Arrangeable(s, t, n)
    ensures ValidDraws(n, draws) && ShuffleSteps(s, draws, n) == t
    decreases n
  {
    if n <= 1 {
      draws := ShortPrefixAgrees(s, t, n);
    } else {
      var j := SwapIntoPlace(s, t, n);
      var d' := DrawsFor(Swap(s, n - 1, j), t, n - 1);
      draws := DrawsStep(s, t, d', j, n);
    }
  }

  /** Drawing `j` for position `n - 1` and then `d'` for the positions below
      it is one swap followed by the shuffle steps of `d'`. */
  lemma DrawsStep<T>(s: seq<T>, t: seq<T>, d': seq<nat>, j: nat, n: nat) returns (draws: seq<nat>)
    requires 1 < n <= |s| && j < n && ValidDraws(n - 1, d')
    requires ShuffleSteps(Swap(s, n - 1, j), d', n - 1) == t
    ensures ValidDraws(n, draws) && ShuffleSteps(s, draws, n) == t
  {
    draws := d' + [j];
    assert draws[n - 1] == j;
    ShuffleStepsReadsPrefix(Swap(s, n - 1, j), d', draws, n - 1);
  }

  /** With at most one element to arrange, there is nothing to arrange. */
  lemma ShortPrefixAgrees<T>(s: seq<T>, t: seq<T>, n: nat) returns (draws: seq<nat>)
    requires Arrangeable(s, t, n) && n <= 1
    ensures ValidDraws(n, draws) && ShuffleSteps(s, draws, n) == t
  {
    draws := if n == 0 then [] else [0];
    if n == 1 {
      assert s[..1] == [s[0]] && t[..1] == [t[0]];
      assert s[0] in multiset(t[..1]);
    }
    assert s == s[..n] + s[n..] && t == t[..n] + t[n..];
  }

  /** One step of DrawsFor: a draw for position `n - 1` that puts `t[n - 1]`
      there. */
  lemma SwapIntoPlace<T>(s: seq<T>, t: seq<T>, n: nat) returns (j: nat)
    requires Arrangeable(s, t, n) && 1 < n
    ensures j < n && Arrangeable(Swap(s, n - 1, j), t, n - 1)
  {
    assert t[n - 1] in multiset(s[..n]) by {
      assert t[..n] == t[..n - 1] + [t[n - 1]];
    }
    j :| 0 <= j < n && s[..n][j] == t[n - 1];
    assert s[j] == t[n - 1];
    SwapKeepsSuffix(s, t, n, j);
    SwapPrefixMultiset(s, n, j);
    MultisetDropLast(Swap(s, n - 1, j), t, n);
  }

  /** Swapping `t[n - 1]` into position `n - 1` extends the agreeing suffix. */
  lemma SwapKeepsSuffix<T>(s: seq<T>, t: seq<T>, n: nat, j: nat)
    requires |s| == |t| && 0 < n <= |s| && j < n
    requires s[n..] == t[n..] && s[j] == t[n - 1]
    ensures Swap(s, n - 1, j)[n - 1..] == t[n - 1..]
  {
    var s' := Swap(s, n - 1, j);
    forall i | n <= i < |s| ensures s'[i] == t[i] {
      assert s[n..][i - n] == t[n..][i - n];
    }
  }

  /** Equal multisets of prefixes stay equal without a common last element. */
  lemma MultisetDropLast<T>(a: seq<T>, b: seq<T>, n: nat)
    requires 0 < n <= |a| && n <= |b| && a[n - 1] == b[n - 1]
    requires multiset(a[..n]) == multiset(b[..n])
    ensures multiset(a[..n - 1]) == multiset(b[..n - 1])
  {
    var x := a[n - 1];
    assert a[..n] == a[..n - 1] + [x];
    assert b[..n] == b[..n - 1] + [x];
    assert multiset(a[..n - 1]) + multiset{x} == multiset(b[..n - 1]) + multiset{x};
    assert multiset(a[..n - 1]) == multiset(a[..n - 1]) + multiset{x} - multiset{x};
  }

  lemma SwapPrefixMultiset<T>(s: seq<T>, n: nat, j: nat)
    requires 0 < n <= |s| && j < n
    ensures multiset(Swap(s, n - 1, j)[..n]) == multiset(s[..n])
  {
    assert Swap(s, n - 1, j)[..n] == Swap(s[..n], n - 1, j);
  }

  /** Every permutation of `s` is some outcome of the shuffle: together with
      Shuffled, the outcomes are exactly the permutations. */
  lemma ShuffledReachesEveryPermutation<T>(s: seq<T>, t: seq<T>)
    requires multiset(s) == multiset(t)
    ensures exists draws :: ValidDraws(|s|, draws) && Shuffled(s, draws) == t
  {
    assert |s| == |multiset(s)| == |t|;
    assert s[..|s|] == s && t[..|t|] == t;
    assert Arrangeable(s, t, |s|);
    var draws := DrawsFor(s, t, |s|);
    assert ValidDraws(|s|, draws) && Shuffled(s, draws) == t;
  }

  // ---------------------------------------------------------------------
  // Bad descriptor list
  // ---------------------------------------------------------------------

  /** `f"{desc} {item}"`: the descriptor, one space, then the item. */
  function DescriptorTerm(desc: string, item: string): (r: string)
    ensures |r| == |desc| + 1 + |item|
    ensures r[..|desc|] == desc && r[|desc|] == ' ' && r[|desc| + 1..] == item
  {
    desc + " " + item
  }

  /** The terms pairing `shuffled[i]` with item `i` of the items repeated
      cyclically. */
  function PairWithItems(shuffled: seq<string>, items: seq<string>): (r: seq<string>)
    requires |items| > 0
    ensures |r| == |shuffled|
    ensures forall i :: 0 <= i < |r| ==> r[i] == DescriptorTerm(shuffled[i], items[i % |items|])
  {
    if shuffled == [] then []
    else
      var rest := PairWithItems(shuffled[..|shuffled| - 1], items);
      rest + [DescriptorTerm(shuffled[|shuffled| - 1], items[(|shuffled| - 1) % |items|])]
  }

  /** `generate_bad_descriptor_list(items, descriptors)`, with `draws` the
      draws of the shuffle at negatives_generator.py:70. With no descriptors nothing is
      generated; otherwise the items must be non-empty, since the modulo at
      negatives_generator.py:79 divides by their count. */
  method GenerateBadDescriptorList(items: seq<string>, descriptors: seq<string>, draws: seq<nat>)
    returns (bad: seq<string>)
    requires ValidDraws(|descriptors|, draws)
    requires |descriptors| > 0 ==> |items| > 0
    ensures |bad| == |descriptors|
    ensures |items| > 0 ==> bad == PairWithItems(Shuffled(descriptors, draws), items)
  {
    var shuffled := Shuffled(descriptors, draws);
    bad := [];
    var descIndex, itemIndex := 0, 0;
    for i := 0 to |shuffled|
      invariant |bad| == i && descIndex == i && itemIndex == i
      invariant |items| > 0 ==> bad == PairWithItems(shuffled[..i], items)
    {
      DivModUnique(descIndex, |shuffled|, 0, descIndex);
      var desc := shuffled[descIndex % |shuffled|];
      var item := items[itemIndex % |items|];
      bad := bad + [DescriptorTerm(desc, item)];
      descIndex := descIndex + 1;
      itemIndex := itemIndex + 1;
      assert shuffled[..i + 1][..i] == shuffled[..i];
    }
    assert shuffled[..|shuffled|] == shuffled;
  }

  /** Every descriptor of the catalogue is paired with an item: the one at
      the position the shuffle moved it to. */
  lemma BadListUsesEveryDescriptor(items: seq<string>, descriptors: seq<string>, draws: seq<nat>, d: string)
    requires ValidDraws(|descriptors|, draws) && |items| > 0
    requires d in descriptors
    ensures exists i :: 0 <= i < |descriptors|
              && PairWithItems(Shuffled(descriptors, draws), items)[i] == DescriptorTerm(d, items[i % |items|])
  {
    var shuffled := Shuffled(descriptors, draws);
    assert d in multiset(shuffled);
    var i :| 0 <= i < |shuffled| && shuffled[i] == d;
    assert PairWithItems(shuffled, items)[i] == DescriptorTerm(d, items[i % |items|]);
  }

  /** No element occurs twice. */
  ghost predicate Distinct<T>(s: seq<T>) {
    forall i, j :: 0 <= i < j < |s| ==> s[i] != s[j]
  }

  lemma {:induction false} DistinctCountsOnce<T>(s: seq<T>, x: T)
    requires Distinct(s)
    ensures multiset(s)[x] <= 1
  {
    if s != [] {
      var u := s[..|s| - 1];
      assert s == u + [s[|s| - 1]];
      DistinctCountsOnce(u, x);
      if x == s[|s| - 1] {
        assert x !in u by {
          forall i | 0 <= i < |u| ensures u[i] != x {
            assert s[i] != s[|s| - 1];
          }
        }
      }
    }
  }

  lemma RepeatCountsTwice<T>(t: seq<T>, i: nat, j: nat)
    requires i < j < |t| && t[i] == t[j]
    ensures multiset(t)[t[i]] >= 2
  {
    assert t == t[..j] + [t[j]] + t[j + 1..];
    assert t[..j][i] == t[i];
  }

  /** A permutation of a list without repeats has no repeats. */
  lemma PermutationKeepsDistinct<T>(s: seq<T>, t: seq<T>)
    requires multiset(s) == multiset(t) && Distinct(s)
    ensures Distinct(t)
  {
    forall i, j | 0 <= i < j < |t| ensures t[i] != t[j] {
      if t[i] == t[j] {
        RepeatCountsTwice(t, i, j);
        DistinctCountsOnce(s, t[i]);
      }
    }
  }

  /** Terms for the same item differ when their descriptors differ. */
  lemma DescriptorTermCancel(a: string, b: string, item: string)
    requires DescriptorTerm(a, item) == DescriptorTerm(b, item)
    ensures a == b
  {
    assert a == DescriptorTerm(a, item)[..|a|];
    assert b == DescriptorTerm(b, item)[..|b|];
  }

  /** With a single item, every term pairs that item with a different
      descriptor: no term repeats when the catalogue has no repeats. */
  lemma SingleItemTermsDistinct(items: seq<string>, descriptors: seq<string>, draws: seq<nat>)
    requires ValidDraws(|descriptors|, draws) && |items| == 1
    requires Distinct(descriptors)
    ensures Distinct(PairWithItems(Shuffled(descriptors, draws), items))
  {
    var shuffled := Shuffled(descriptors, draws);
    var r := PairWithItems(shuffled, items);
    PermutationKeepsDistinct(descriptors, shuffled);
    forall i, j | 0 <= i < j < |r| ensures r[i] != r[j] {
      assert i % 1 == 0 && j % 1 == 0;
      if r[i] == r[j] {
        DescriptorTermCancel(shuffled[i], shuffled[j], items[0]);
      }
    }
  }

  // ---------------------------------------------------------------------
  // Budgeted merge
  // ---------------------------------------------------------------------

  /** What `combine_lists` in "negated_first" mode promises: the result is the
      negated list followed by the first `k` bad terms; if any bad term was
      taken, the joined result fits the limit; and if a bad term was left
      out, taking it as well would not have fit. */
  predicate IsBudgetedMerge(negated: seq<string>, bad: seq<string>, limit: int, r: seq<string>) {
    |negated| <= |r| <= |negated| + |bad|
    && r == negated + bad[..|r| - |negated|]
    && (|r| > |negated| ==> |Join(r, Separator)| <= limit)
    && (|r| < |negated| + |bad| ==> |Join(r + [bad[|r| - |negated|]], Separator)| > limit)
  }

  /** `combine_lists(negated, bad, limit, "negated_first")`. */
  method CombineLists(negated: seq<string>, bad: seq<string>, limit: int)
    returns (combined: seq<string>)
    ensures IsBudgetedMerge(negated, bad, limit, combined)
  {
    combined := negated;
    var k := 0;
    while k < |bad|
      invariant 0 <= k <= |bad|
      invariant combined == negated + bad[..k]
      invariant k > 0 ==> |Join(combined, Separator)| <= limit
    {
      var test := combined + [bad[k]];
      if |Join(test, Separator)| > limit {
        break;
      }
      combined := test;
      assert bad[..k + 1] == bad[..k] + [bad[k]];
      k := k + 1;
    }
  }

  /** Taking more bad terms never makes the joined list shorter. */
  lemma {:induction false} JoinPrefixMonotone(negated: seq<string>, bad: seq<string>, j: nat, k: nat)
    requires j <= k <= |bad|
    ensures |Join(negated + bad[..j], Separator)| <= |Join(negated + bad[..k], Separator)|
    decreases k - j
  {
    if j < k {
      JoinPrefixMonotone(negated, bad, j, k - 1);
      assert negated + bad[..k] == (negated + bad[..k - 1]) + [bad[k - 1]];
      JoinAppend(negated + bad[..k - 1], bad[k - 1], Separator);
    }
  }

  /** The greedy stop takes the longest run of bad terms that fits: no longer
      run fits the limit. */
  lemma BudgetedMergeIsLongest(negated: seq<string>, bad: seq<string>, limit: int, r: seq<string>, j: nat)
    requires IsBudgetedMerge(negated, bad, limit, r)
    requires |r| - |negated| < j <= |bad|
    ensures |Join(negated + bad[..j], Separator)| > limit
  {
    var k := |r| - |negated|;
    assert r + [bad[k]] == negated + bad[..k + 1];
    JoinPrefixMonotone(negated, bad, k + 1, j);
  }

  /** The promise determines the result: there is exactly one merge. */
  lemma BudgetedMergeUnique(negated: seq<string>, bad: seq<string>, limit: int, r1: seq<string>, r2: seq<string>)
    requires IsBudgetedMerge(negated, bad, limit, r1)
    requires IsBudgetedMerge(negated, bad, limit, r2)
    ensures r1 == r2
  {
    var k1, k2 := |r1| - |negated|, |r2| - |negated|;
    if k1 < k2 {
      BudgetedMergeIsLongest(negated, bad, limit, r1, k2);
    } else if k2 < k1 {
      BudgetedMergeIsLongest(negated, bad, limit, r2, k1);
    }
  }

  /** The negated list is never cut: when not even the first bad term fits,
      the result is exactly the negated list. */
  lemma BudgetedMergeKeepsNegated(negated: seq<string>, bad: seq<string>, limit: int, r: seq<string>)
    requires IsBudgetedMerge(negated, bad, limit, r)
    requires bad == [] || |Join(negated + [bad[0]], Separator)| > limit
    ensures r == negated
  {
    if |r| > |negated| {
      assert negated + bad[..1] == negated + [bad[0]];
      JoinPrefixMonotone(negated, bad, 1, |r| - |negated|);
    }
    assert bad[..0] == [];
  }

  // ---------------------------------------------------------------------
  // Positive list
  // ---------------------------------------------------------------------

  /** `items` written out `n` times. */
  function Repeat(items: seq<string>, n: nat): (r: seq<string>)
    ensures |r| == n * |items|
  {
    if n == 0 then [] else Repeat(items, n - 1) + items
  }

  /** The first `count` elements of `items` repeated without end. */
  function Cycle(items: seq<string>, count: nat): seq<string>
    requires |items| > 0
  {
    Repeat(items, count / |items|) + items[..count % |items|]
  }

  lemma {:induction false} RepeatIndex(items: seq<string>, n: nat, i: nat)
    requires |items| > 0 && i < n * |items|
    ensures Repeat(items, n)[i] == items[i % |items|]
  {
    if i < (n - 1) * |items| {
      RepeatIndex(items, n - 1, i);
    } else {
      var j := i - (n - 1) * |items|;
      assert i == (n - 1) * |items| + j && j < |items|;
      DivModUnique(i, |items|, n - 1, j);
    }
  }

  lemma {:induction false} MulAtLeast(d: nat, k: nat)
    requires k >= 1
    ensures d * k >= d
  {
    if k > 1 {
      MulAtLeast(d, k - 1);
      assert d * k == d * (k - 1) + d;
    }
  }

  /** Quotient and remainder are the only pair with `a == d * q + r` and
      `0 <= r < d`. */
  lemma DivModUnique(a: int, d: int, q: int, r: int)
    requires d > 0 && 0 <= r < d && a == d * q + r
    ensures a / d == q && a % d == r
  {
    var q0, r0 := a / d, a % d;
    assert d * (q - q0) == r0 - r;
    if q > q0 {
      MulAtLeast(d, q - q0);
    } else if q < q0 {
      MulAtLeast(d, q0 - q);
    }
  }

  lemma CycleLength(items: seq<string>, count: nat)
    requires |items| > 0
    ensures |Cycle(items, count)| == count
  {
    assert count == |items| * (count / |items|) + count % |items|;
  }

  /** Element `i` of the cycle is item `i mod |items|`. */
  lemma CycleIndex(items: seq<string>, count: nat, i: nat)
    requires |items| > 0 && i < count
    ensures |Cycle(items, count)| == count
    ensures Cycle(items, count)[i] == items[i % |items|]
  {
    CycleLength(items, count);
    var q := count / |items|;
    if i < q * |items| {
      RepeatIndex(items, q, i);
    } else {
      var j := i - q * |items|;
      assert j < count % |items|;
      DivModUnique(i, |items|, q, j);
    }
  }

  /** `generate_positive_list(items, combined)`. With an empty target list
      nothing is generated; otherwise the items must be non-empty, since the
      modulo at negatives_generator.py:138 divides by their count. */
  method GeneratePositiveList(items: seq<string>, combined: seq<string>)
    returns (positive: seq<string>)
    requires |combined| > 0 ==> |items| > 0
    ensures |positive| == |combined|
    ensures forall i :: 0 <= i < |positive| ==> positive[i] == items[i % |items|]
    ensures |items| > 0 ==> positive == Cycle(items, |combined|)
  {
    var targetCount := |combined|;
    positive := [];
    for i := 0 to targetCount
      invariant |positive| == i
      invariant forall k :: 0 <= k < i ==> positive[k] == items[k % |items|]
    {
      positive := positive + [items[i % |items|]];
    }
    if |items| > 0 {
      CycleLength(items, targetCount);
      forall i | 0 <= i < targetCount ensures positive[i] == Cycle(items, targetCount)[i] {
        CycleIndex(items, targetCount, i);
      }
    }
  }

  /** `generate_positive_list(["a", "b"], ...)` with five target terms gives
      `["a", "b", "a", "b", "a"]`. */
  lemma PositiveListExample()
    ensures Cycle(["a", "b"], 5) == ["a", "b", "a", "b", "a"]
  {
    var ab := ["a", "b"];
    assert Repeat(ab, 2) == ab + ab by {
      assert Repeat(ab, 1) == [] + ab;
    }
    assert ab[..1] == ["a"];
  }

  // ---------------------------------------------------------------------
  // One round
  // ---------------------------------------------------------------------

  /** `build_versions(items, descriptors)` up to its printing: the positive
      list, the combined negative list, and the two joined strings it prints.
      The caller has already rejected an empty item list. */
  method BuildVersions(items: seq<string>, descriptors: seq<string>,
                       choices: seq<ModifierChoice>, draws: seq<nat>)
    returns (positive: seq<string>, combined: seq<string>, goodVersion: string, badVersion: string)
    requires |items| > 0
    requires |choices| == |items|
    requires ValidDraws(|descriptors|, draws)
    ensures |positive| == |combined|
    ensures |items| <= |combined| <= |items| + |descriptors|
    ensures |combined| > |items| ==> |badVersion| <= LengthLimit
    ensures IsBudgetedMerge(seq(|items|, i requires 0 <= i < |items| => NegatedTerm(choices[i], items[i])),
                            PairWithItems(Shuffled(descriptors, draws), items), LengthLimit, combined)
    ensures positive == Cycle(items, |combined|)
    ensures goodVersion == Join(positive, Separator) && badVersion == Join(combined, Separator)
  {
    var negated := GenerateNegatedList(items, choices);
    var bad := GenerateBadDescriptorList(items, descriptors, draws);
    assert negated == seq(|items|, i requires 0 <= i < |items| => NegatedTerm(choices[i], items[i]));
    combined := CombineLists(negated, bad, LengthLimit);
    positive := GeneratePositiveList(items, combined);
    goodVersion := Join(positive, Separator);
    badVersion := Join(combined, Separator);
  }
}
