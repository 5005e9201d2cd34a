/**
 * The `shuffleArray` helper of the quiz screen: an in-place Fisher–Yates
 * shuffle of a copy of its argument. The call `Math.random()` is replaced
 * by a caller-supplied sequence of draws, one per loop iteration.
 */
module FisherYates {
  import opened Types

  /** How many draws the loop `for (i = n - 1; i > 0; i--)` makes on n items. */
  function DrawCount(n: nat): nat
  {
    if n == 0 then 0 else n - 1
  }

  /**
   * `draws[k]` is the value of `Math.floor(Math.random() * (i + 1))` in the
   * k-th iteration, where `i == n - 1 - k`; since `Math.random()` lies in
   * [0, 1), each draw lies in [0, i]. Stated one iteration at a time: the
   * first draw is at most n - 1 and the rest are valid draws for n - 1 items.
   */
  predicate ValidDraws(draws: seq<nat>, n: nat)
  {
    if n <= 1 then draws == []
    else |draws| > 0 && draws[0] <= n - 1 && ValidDraws(draws[1..], n - 1)
  }

  /** The draws are exactly one per iteration, each within its bound. */
  lemma {:induction false} ValidDrawsBounds(draws: seq<nat>, n: nat)
    requires ValidDraws(draws, n)
    ensures |draws| == DrawCount(n)
    ensures forall k :: 0 <= k < |draws| ==> draws[k] <= n - 1 - k
  {
    if n > 1 {
      ValidDrawsBounds(draws[1..], n - 1);
      assert forall k :: 0 < k < |draws| ==> draws[k] == draws[1..][k - 1];
    }
  }

  /** The destructuring swap `[array[i], array[j]] = [array[j], array[i]]`. */
  function Swap<T>(a: seq<T>, i: nat, j: nat): (b: seq<T>)
    requires i < |a| && j < |a|
    ensures |b| == |a|
  {
    a[i := a[j]][j := a[i]]
  }

  /**
   * Reference definition of the shuffle, one iteration per call: the first
   * draw picks the item that ends up last, and the remaining draws shuffle
   * the prefix in front of it.
   */
  function Shuffle<T>(a: seq<T>, draws: seq<nat>): (r: seq<T>)
    requires ValidDraws(draws, |a|)
    ensures |r| == |a|
    decreases |a|
  {
    if |a| <= 1 then a
    else
      var i := |a| - 1;
      var b := Swap(a, i, draws[0]);
      Shuffle(b[..i], draws[1..]) + [b[i]]
  }

  /** Swapping two positions keeps the same items. */
  lemma SwapPermutes<T>(a: seq<T>, i: nat, j: nat)
    requires i < |a| && j < |a|
    ensures multiset(Swap(a, i, j)) == multiset(a)
  {
  }

  /** The shuffle only reorders: same length, same multiset of items. */
  lemma {:induction false} ShuffleIsPermutation<T>(a: seq<T>, draws: seq<nat>)
    requires ValidDraws(draws, |a|)
    ensures |Shuffle(a, draws)| == |a|
    ensures multiset(Shuffle(a, draws)) == multiset(a)
    decreases |a|
  {
    if |a| > 1 {
      var i := |a| - 1;
      var b := Swap(a, i, draws[0]);
      ShuffleUnfold(a, draws);
      ShuffleIsPermutation(b[..i], draws[1..]);
      ExtendPermutation(Shuffle(b[..i], draws[1..]), b);
      SwapPermutes(a, i, draws[0]);
    }
  }

  /** A permutation of all but the last item, followed by that item, is a permutation of the whole. */
  lemma ExtendPermutation<T>(x: seq<T>, b: seq<T>)
    requires |b| > 0 && multiset(x) == multiset(b[..|b| - 1])
    ensures multiset(x + [b[|b| - 1]]) == multiset(b)
  {
    assert b == b[..|b| - 1] + [b[|b| - 1]];
  }

  /**
   * `shuffleArray`: copies the input, then for i from n - 1 down to 1 swaps
   * position i with the drawn position j in [0, i]. The result is the
   * reference shuffle, hence a permutation of the input. The input itself
   * is a value and cannot be changed by the loop.
   */
  method ShuffleArray<T>(arr: seq<T>, draws: seq<nat>) returns (r: seq<T>)
    requires ValidDraws(draws, |arr|)
    ensures r == Shuffle(arr, draws)
    ensures |r| == |arr| && multiset(r) == multiset(arr)
  {
    r := arr;
    if |arr| > 1 {
      var i := |arr| - 1;
      ValidDrawsBounds(draws, |arr|);
      assert r[..i + 1] == arr && r[i + 1..] == [];
      while i > 0
        invariant 0 <= i < |arr| == |r| && |draws| == |arr| - 1
        invariant ValidDraws(draws[|arr| - 1 - i..], i + 1)
        invariant Shuffle(arr, draws) == Shuffle(r[..i + 1], draws[|arr| - 1 - i..]) + r[i + 1..]
      {
        var j := draws[|arr| - 1 - i];
        LoopStep(arr, draws, r, i);
        r := Swap(r, i, j);
        i := i - 1;
      }
      LoopExit(arr, draws, r);
    }
    ShuffleIsPermutation(arr, draws);
  }

  /** When the loop stops at i == 0, the one item left in front is already in place. */
  lemma LoopExit<T>(arr: seq<T>, draws: seq<nat>, r: seq<T>)
    requires |arr| == |r| > 1 && |draws| == |arr| - 1
    requires ValidDraws(draws, |arr|) && ValidDraws(draws[|arr| - 1..], 1)
    requires Shuffle(arr, draws) == Shuffle(r[..1], draws[|arr| - 1..]) + r[1..]
    ensures r == Shuffle(arr, draws)
  {
    assert r == r[..1] + r[1..];
  }

  /**
   * One iteration of `ShuffleArray` keeps its loop invariant: the result
   * of the whole shuffle is the shuffle of the still unvisited prefix
   * under the remaining draws, followed by the suffix already fixed.
   */
  lemma LoopStep<T>(arr: seq<T>, draws: seq<nat>, a: seq<T>, i: nat)
    requires ValidDraws(draws, |arr|)
    requires |a| == |arr| && 0 < i < |arr| && |draws| == |arr| - 1
    requires ValidDraws(draws[|arr| - 1 - i..], i + 1)
    requires Shuffle(arr, draws) == Shuffle(a[..i + 1], draws[|arr| - 1 - i..]) + a[i + 1..]
    ensures ValidDraws(draws[|arr| - i..], i)
    ensures Shuffle(arr, draws)
         == Shuffle(Swap(a, i, draws[|arr| - 1 - i])[..i], draws[|arr| - i..])
            + Swap(a, i, draws[|arr| - 1 - i])[i..]
  {
    var rest := draws[|arr| - 1 - i..];
    assert rest[1..] == draws[|arr| - i..];
    ShuffleStep(a, i, rest);
  }

  /** The reference shuffle taken apart at its first draw. */
  lemma ShuffleUnfold<T>(p: seq<T>, d: seq<nat>)
    requires |p| >= 2
    requires ValidDraws(d, |p|)
    ensures Shuffle(p, d)
         == Shuffle(Swap(p, |p| - 1, d[0])[..|p| - 1], d[1..]) + [Swap(p, |p| - 1, d[0])[|p| - 1]]
  {
  }

  /** One loop iteration of `ShuffleArray`, seen through the reference definition. */
  lemma ShuffleStep<T>(a: seq<T>, i: nat, d: seq<nat>)
    requires 0 < i < |a|
    requires ValidDraws(d, i + 1)
    ensures ValidDraws(d[1..], i)
    ensures Shuffle(a[..i + 1], d) + a[i + 1..]
         == Shuffle(Swap(a, i, d[0])[..i], d[1..]) + Swap(a, i, d[0])[i..]
  {
    var p := a[..i + 1];
    ShuffleUnfold(p, d);
    var b := Swap(a, i, d[0]);
    var c := Swap(p, i, d[0]);
    assert c == b[..i + 1];
    assert c[..i] == b[..i];
    var x := Shuffle(b[..i], d[1..]);
    assert Shuffle(p, d) == x + [c[i]];
    assert b[i..] == [c[i]] + a[i + 1..];
    assert (x + [c[i]]) + a[i + 1..] == x + ([c[i]] + a[i + 1..]);
  }

  /** Two sequences ending in the same item are permutations of each other exactly when their prefixes are. */
  lemma PrefixPermutation<T>(c: seq<T>, b: seq<T>)
    requires |c| > 0 && |b| > 0 && c[|c| - 1] == b[|b| - 1]
    requires multiset(c) == multiset(b)
    ensures multiset(c[..|c| - 1]) == multiset(b[..|b| - 1])
  {
    var x := c[|c| - 1];
    assert c == c[..|c| - 1] + [x];
    assert b == b[..|b| - 1] + [x];
    assert multiset(c) == multiset(c[..|c| - 1]) + multiset{x};
    assert multiset(b) == multiset(b[..|b| - 1]) + multiset{x};
    assert multiset(c[..|c| - 1]) == multiset(c) - multiset{x};
    assert multiset(b[..|b| - 1]) == multiset(b) - multiset{x};
  }

  /**
   * Every ordering of the input is produced by some sequence of valid
   * draws: no permutation is out of reach of the shuffle.
   */
  lemma {:induction false} EveryPermutationReachable<T>(a: seq<T>, b: seq<T>) returns (draws: seq<nat>)
    requires multiset(a) == multiset(b)
    ensures ValidDraws(draws, |a|)
    ensures Shuffle(a, draws) == b
    decreases |a|
  {
    PermutationLength(a, b);
    if |a| <= 1 {
      draws := [];
      assert Shuffle(a, draws) == a;
      SingletonPermutation(a, b);
    } else {
      var n := |a|;
      var j := DrawForLast(a, b);
      var c := Swap(a, n - 1, j);
      var rest := EveryPermutationReachable(c[..n - 1], b[..n - 1]);
      draws := [j] + rest;
      ReachableStep(a, j, rest, b);
    }
  }

  /** Putting the draw for the last item in front of the draws for the prefix. */
  lemma ReachableStep<T>(a: seq<T>, j: nat, rest: seq<nat>, b: seq<T>)
    requires |a| == |b| > 1 && j < |a|
    requires Swap(a, |a| - 1, j)[|a| - 1] == b[|b| - 1]
    requires ValidDraws(rest, |a| - 1)
    requires Shuffle(Swap(a, |a| - 1, j)[..|a| - 1], rest) == b[..|b| - 1]
    ensures ValidDraws([j] + rest, |a|)
    ensures Shuffle(a, [j] + rest) == b
  {
    var n := |a|;
    var d := [j] + rest;
    assert d[0] == j && d[1..] == rest;
    assert ValidDraws(d, n);
    var c := Swap(a, n - 1, j);
    ShuffleUnfold(a, d);
    assert Shuffle(a, d) == Shuffle(c[..n - 1], rest) + [c[n - 1]];
    SplitLast(b);
  }

  /** A non-empty sequence is its prefix followed by its last item. */
  lemma SplitLast<T>(b: seq<T>)
    requires |b| > 0
    ensures b == b[..|b| - 1] + [b[|b| - 1]]
  {
  }

  /** Permutations have the same length. */
  lemma PermutationLength<T>(a: seq<T>, b: seq<T>)
    requires multiset(a) == multiset(b)
    ensures |a| == |b|
  {
    assert |multiset(a)| == |multiset(b)|;
  }

  /** Sequences of at most one item are their own only permutation. */
  lemma SingletonPermutation<T>(a: seq<T>, b: seq<T>)
    requires |a| <= 1 && |a| == |b|
    requires multiset(a) == multiset(b)
    ensures a == b
  {
    if |a| == 1 {
      assert b[0] in multiset(a);
    }
  }

  /** The draw that brings the last item of `b` to the end of `a`. */
  lemma DrawForLast<T>(a: seq<T>, b: seq<T>) returns (j: nat)
    requires |a| == |b| > 1
    requires multiset(a) == multiset(b)
    ensures j < |a|
    ensures Swap(a, |a| - 1, j)[|a| - 1] == b[|b| - 1]
    ensures multiset(Swap(a, |a| - 1, j)[..|a| - 1]) == multiset(b[..|b| - 1])
  {
    var x := b[|b| - 1];
    assert x in multiset(a);
    j :| 0 <= j < |a| && a[j] == x;
    SwapPermutes(a, |a| - 1, j);
    PrefixPermutation(Swap(a, |a| - 1, j), b);
  }

  /**
   * On distinct items, different draw sequences give different orderings.
   * With `EveryPermutationReachable` this makes the draws a bijection onto
   * the orderings, so uniform draws give a uniform shuffle.
   */
  lemma {:induction false} ShuffleInjective<T>(a: seq<T>, d1: seq<nat>, d2: seq<nat>)
    requires Distinct(a)
    requires ValidDraws(d1, |a|) && ValidDraws(d2, |a|)
    requires Shuffle(a, d1) == Shuffle(a, d2)
    ensures d1 == d2
    decreases |a|
  {
    if |a| > 1 {
      var n := |a|;
      var s1 := Shuffle(a, d1);
      assert s1[n - 1] == a[d1[0]] && s1[n - 1] == a[d2[0]];
      assert d1[0] == d2[0];
      var c := Swap(a, n - 1, d1[0]);
      var p := c[..n - 1];
      assert Shuffle(p, d1[1..]) == s1[..n - 1] == Shuffle(p, d2[1..]);
      forall i, j | 0 <= i < j < |p|
        ensures p[i] != p[j]
      {
        var ii := if i == d1[0] then n - 1 else i;
        var jj := if j == d1[0] then n - 1 else j;
        assert p[i] == a[ii] && p[j] == a[jj] && ii != jj;
      }
      ShuffleInjective(p, d1[1..], d2[1..]);
      assert d1 == [d1[0]] + d1[1..];
      assert d2 == [d2[0]] + d2[1..];
    }
  }
}
