/**
 The two functions of Python's `random` module that the deck code calls,
 with the generator's output turned into parameters.  `random.shuffle` is
 CPython's in-place swap loop, driven by the results of `randbelow`;
 `random.choices` picks with replacement, driven by the chosen positions.
 */
module PyRandom {
  import opened PyList

  /** The results `randbelow(i + 1)` can give to `random.shuffle` on a list
      of length `n`: one per step, for `i = n - 1` down to `1`, each at most `i`. */
  predicate ValidPicks(n: nat, picks: seq<nat>)
  {
    && |picks| == (if n == 0 then 0 else n - 1)
    && forall k :: 0 <= k < |picks| ==> picks[k] < n - k
  }

  /** `x[i], x[j] = x[j], x[i]`. */
  function Swap<T>(s: seq<T>, i: nat, j: nat): (r: seq<T>)
    requires i < |s| && j < |s|
    ensures |r| == |s|
  {
    s[i := s[j]][j := s[i]]
  }

  /** The list that `random.shuffle` ends with when it reaches step `k`
      holding `s`: steps `k`, `k + 1`, ... each swap position `n - 1 - k`
      with position `picks[k]`. */
  function ShuffleFrom<T>(s: seq<T>, picks: seq<nat>, k: nat): (r: seq<T>)
    requires ValidPicks(|s|, picks) && k <= |picks|
    ensures |r| == |s|
    decreases |picks| - k
  {
    if k == |picks| then s
    else ShuffleFrom(Swap(s, |s| - 1 - k, picks[k]), picks, k + 1)
  }

  /** The list after `random.shuffle` has run to completion. */
  function Shuffled<T>(s: seq<T>, picks: seq<nat>): (r: seq<T>)
    requires ValidPicks(|s|, picks)
    ensures |r| == |s|
  {
    ShuffleFrom(s, picks, 0)
  }

  lemma SwapPermutes<T>(s: seq<T>, i: nat, j: nat)
    requires i < |s| && j < |s|
    ensures multiset(Swap(s, i, j)) == multiset(s)
  {
  }

  lemma SwapKeepsDistinct<T>(s: seq<T>, i: nat, j: nat)
    requires i < |s| && j < |s| && Distinct(s)
    ensures Distinct(Swap(s, i, j))
  {
  }

  /** Whatever the generator returns, shuffling only rearranges the list. */
  lemma {:induction false} ShuffleFromPermutes<T>(s: seq<T>, picks: seq<nat>, k: nat)
    requires ValidPicks(|s|, picks) && k <= |picks|
    ensures multiset(ShuffleFrom(s, picks, k)) == multiset(s)
    decreases |picks| - k
  {
    if k < |picks| {
      var t := Swap(s, |s| - 1 - k, picks[k]);
      SwapPermutes(s, |s| - 1 - k, picks[k]);
      ShuffleFromPermutes(t, picks, k + 1);
      assert ShuffleFrom(s, picks, k) == ShuffleFrom(t, picks, k + 1);
    }
  }

  lemma ShuffledPermutes<T>(s: seq<T>, picks: seq<nat>)
    requires ValidPicks(|s|, picks)
    ensures multiset(Shuffled(s, picks)) == multiset(s)
  {
    ShuffleFromPermutes(s, picks, 0);
  }

  /** A deck without duplicates stays without duplicates. */
  lemma {:induction false} ShuffleFromKeepsDistinct<T>(s: seq<T>, picks: seq<nat>, k: nat)
    requires ValidPicks(|s|, picks) && k <= |picks| && Distinct(s)
    ensures Distinct(ShuffleFrom(s, picks, k))
    decreases |picks| - k
  {
    if k < |picks| {
      SwapKeepsDistinct(s, |s| - 1 - k, picks[k]);
      ShuffleFromKeepsDistinct(Swap(s, |s| - 1 - k, picks[k]), picks, k + 1);
    }
  }

  lemma ShuffledKeepsDistinct<T>(s: seq<T>, picks: seq<nat>)
    requires ValidPicks(|s|, picks) && Distinct(s)
    ensures Distinct(Shuffled(s, picks))
  {
    ShuffleFromKeepsDistinct(s, picks, 0);
  }

  /** A deck of strings is still a deck of strings after shuffling. */
  lemma ShuffledKeepsStrings(s: seq<Value>, picks: seq<nat>)
    requires ValidPicks(|s|, picks) && AllStrings(s)
    ensures AllStrings(Shuffled(s, picks))
  {
    var r := Shuffled(s, picks);
    ShuffledPermutes(s, picks);
    forall v | v in r ensures v.Str? {
      assert v in multiset(r);
    }
  }

  /** `random.shuffle(x)`: rearranges the list object in place. */
  method Shuffle(x: List, picks: seq<nat>)
    requires ValidPicks(|x.items|, picks)
    modifies x
    ensures x.items == Shuffled(old(x.items), picks)
    ensures multiset(x.items) == multiset(old(x.items))
  {
    ghost var s := x.items;
    var n := |x.items|;
    var i := n - 1;
    while i >= 1
      invariant 0 <= n - 1 - i <= |picks|
      invariant |x.items| == n
      invariant ShuffleFrom(x.items, picks, n - 1 - i) == Shuffled(s, picks)
    {
      var j := picks[n - 1 - i];
      x.items := x.items[i := x.items[j]][j := x.items[i]];
      i := i - 1;
    }
    assert n - 1 - i == |picks|;
    ShuffledPermutes(s, picks);
  }

  /** Positions `random.random()` can select from a population of size `n`. */
  predicate ValidChoices(n: nat, picks: seq<nat>)
  {
    n == 0 || forall k :: 0 <= k < |picks| ==> picks[k] < n
  }

  /** `random.choices(population, k = |picks|)`: picks with replacement,
      raising `IndexError` when a non-empty draw is asked of an empty population. */
  function Choices<T>(population: seq<T>, picks: seq<nat>): (r: Result<seq<T>>)
    requires ValidChoices(|population|, picks)
    ensures r.Err? <==> |population| == 0 && |picks| > 0
    ensures r.Err? ==> r.error == IndexError
    ensures r.Ok? ==> |r.value| == |picks|
    ensures r.Ok? ==> forall k :: 0 <= k < |picks| ==> r.value[k] in population
    ensures r.Ok? ==> forall k :: 0 <= k < |picks| ==> r.value[k] == population[picks[k]]
  {
    if |population| == 0 && |picks| > 0 then Err(IndexError)
    else Ok(seq(|picks|, k requires 0 <= k < |picks| => population[picks[k]]))
  }

  /** Choice is with replacement: the same element can be drawn twice. */
  lemma ChoicesMayRepeat<T>(population: seq<T>, p: nat)
    requires p < |population|
    ensures Choices(population, [p, p]) == Ok([population[p], population[p]])
  {
    var r := Choices(population, [p, p]);
    assert r.value == [population[p], population[p]];
  }
}
