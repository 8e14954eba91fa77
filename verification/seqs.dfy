/** Sequence helpers shared by the puzzle engines: duplicate-freedom, occurrence
    counting, the range 1..n, and the position swap that both the sorting puzzle and
    the injected shuffles are built from. */
module Seqs {

  /** No value occurs twice in `xs`. */
  predicate Distinct<T(==)>(xs: seq<T>) {
    forall i, j :: 0 <= i < j < |xs| ==> xs[i] != xs[j]
  }

  /** Number of positions of `xs` holding `v`. */
  function Count<T(==)>(xs: seq<T>, v: T): (n: nat)
    ensures n <= |xs|
    ensures n == 0 <==> v !in xs
  {
    if |xs| == 0 then 0 else (if xs[0] == v then 1 else 0) + Count(xs[1..], v)
  }

  lemma {:induction false} CountAppend<T>(xs: seq<T>, ys: seq<T>, v: T)
    ensures Count(xs + ys, v) == Count(xs, v) + Count(ys, v)
  {
    if |xs| == 0 {
      assert xs + ys == ys;
    } else {
      assert (xs + ys)[1..] == xs[1..] + ys;
      CountAppend(xs[1..], ys, v);
    }
  }

  /** Replacing one `v` by something else removes exactly one occurrence of `v`. */
  lemma {:induction false} CountUpdate<T>(xs: seq<T>, k: nat, w: T, v: T)
    requires k < |xs|
    ensures Count(xs[k := w], v) ==
      Count(xs, v) - (if xs[k] == v then 1 else 0) + (if w == v then 1 else 0)
  {
    if k == 0 {
      assert xs[k := w][1..] == xs[1..];
    } else {
      assert xs[k := w][1..] == xs[1..][k - 1 := w];
      CountUpdate(xs[1..], k - 1, w, v);
    }
  }

  lemma CancelPrefix<T>(p: seq<T>, x: seq<T>, y: seq<T>)
    requires p + x == p + y
    ensures x == y
  {
    assert x == (p + x)[|p|..];
    assert y == (p + y)[|p|..];
  }

  /** The sequence [lo, lo+1, ..., hi-1]. */
  function Range(lo: int, hi: int): (r: seq<int>)
    requires lo <= hi
    ensures |r| == hi - lo
    ensures forall i :: 0 <= i < |r| ==> r[i] == lo + i
  {
    seq(hi - lo, i => lo + i)
  }

  /** Exchanges the entries at `i` and `j`; with `i == j` nothing changes. */
  function Swap<T>(xs: seq<T>, i: nat, j: nat): (r: seq<T>)
    requires i < |xs| && j < |xs|
    ensures |r| == |xs|
    ensures r[i] == xs[j] && r[j] == xs[i]
    ensures forall k :: 0 <= k < |xs| && k != i && k != j ==> r[k] == xs[k]
    ensures multiset(r) == multiset(xs)
  {
    xs[i := xs[j]][j := xs[i]]
  }

  lemma SwapTwiceRestores<T>(xs: seq<T>, i: nat, j: nat)
    requires i < |xs| && j < |xs|
    ensures Swap(Swap(xs, i, j), i, j) == xs
  {
    var once := Swap(xs, i, j);
    var twice := Swap(once, i, j);
    assert forall k :: 0 <= k < |xs| ==> twice[k] == xs[k];
  }

  lemma SwapKeepsDistinct<T>(xs: seq<T>, i: nat, j: nat)
    requires i < |xs| && j < |xs|
    requires Distinct(xs)
    ensures Distinct(Swap(xs, i, j))
  {
    var r := Swap(xs, i, j);
    // every entry of r comes from a distinct position of xs
    var src := (k: int) => if k == i then j else if k == j then i else k;
    forall a, b | 0 <= a < b < |r|
      ensures r[a] != r[b]
    {
      assert r[a] == xs[src(a)] && r[b] == xs[src(b)];
    }
  }

  /** A pair of positions the injected shuffle exchanges. */
  datatype Transposition = Transposition(i: nat, j: nat)

  predicate FitsIn(swaps: seq<Transposition>, n: nat) {
    forall k :: 0 <= k < |swaps| ==> swaps[k].i < n && swaps[k].j < n
  }

  /** The outcome of shuffling `xs` by the given transpositions, applied first to last.
      The source shuffles with a randomised comparator; every permutation it can yield
      is the outcome of some list of transpositions, which stands for that choice. */
  function ApplySwaps<T>(xs: seq<T>, swaps: seq<Transposition>): (r: seq<T>)
    requires FitsIn(swaps, |xs|)
    ensures |r| == |xs|
    ensures multiset(r) == multiset(xs)
    decreases |swaps|
  {
    if |swaps| == 0 then xs
    else ApplySwaps(Swap(xs, swaps[0].i, swaps[0].j), swaps[1..])
  }

  /** Shuffling by one transposition and then the rest. */
  lemma ApplySwapsFirst<T>(xs: seq<T>, first: Transposition, rest: seq<Transposition>)
    requires first.i < |xs| && first.j < |xs| && FitsIn(rest, |xs|)
    ensures FitsIn([first] + rest, |xs|)
    ensures ApplySwaps(xs, [first] + rest) == ApplySwaps(Swap(xs, first.i, first.j), rest)
  {
    var swaps := [first] + rest;
    assert swaps[0] == first && swaps[1..] == rest;
  }

  lemma {:induction false} ApplySwapsKeepsDistinct<T>(xs: seq<T>, swaps: seq<Transposition>)
    requires FitsIn(swaps, |xs|)
    requires Distinct(xs)
    ensures Distinct(ApplySwaps(xs, swaps))
    decreases |swaps|
  {
    if |swaps| > 0 {
      SwapKeepsDistinct(xs, swaps[0].i, swaps[0].j);
      ApplySwapsKeepsDistinct(Swap(xs, swaps[0].i, swaps[0].j), swaps[1..]);
    }
  }

  /** The first position holding `v`. */
  function Position<T(==)>(xs: seq<T>, v: T): (k: nat)
    requires v in xs
    ensures k < |xs| && xs[k] == v
    ensures forall p :: 0 <= p < k ==> xs[p] != v
  {
    if xs[0] == v then 0 else 1 + Position(xs[1..], v)
  }

  /** Transpositions that bring the values of `code` to the front of `xs`, in order,
      given that the first k already are: the witness that a shuffle can produce any
      arrangement of the values it starts from. */
  function Arrange<T(==)>(xs: seq<T>, code: seq<T>, k: nat): (swaps: seq<Transposition>)
    requires k <= |code| <= |xs|
    requires Distinct(xs) && Distinct(code)
    requires forall p :: 0 <= p < |code| ==> code[p] in xs
    requires xs[..k] == code[..k]
    ensures FitsIn(swaps, |xs|)
    ensures ApplySwaps(xs, swaps)[..|code|] == code
    decreases |code| - k
  {
    if k == |code| then
      assert xs[..k] == code;
      []
    else
      var at := Position(xs, code[k]);
      ArrangeStep(xs, code, k, at);
      var rest := Arrange(Swap(xs, k, at), code, k + 1);
      ApplySwapsFirst(xs, Transposition(k, at), rest);
      [Transposition(k, at)] + rest
  }

  /** Moving the next value of `code` into place keeps the precondition of `Arrange`
      one position further. */
  lemma ArrangeStep<T>(xs: seq<T>, code: seq<T>, k: nat, at: nat)
    requires k < |code| <= |xs|
    requires Distinct(xs) && Distinct(code)
    requires forall p :: 0 <= p < |code| ==> code[p] in xs
    requires xs[..k] == code[..k]
    requires at < |xs| && xs[at] == code[k]
    ensures k <= at
    ensures var ys := Swap(xs, k, at);
            && Distinct(ys) && (forall p :: 0 <= p < |code| ==> code[p] in ys)
            && ys[..k + 1] == code[..k + 1]
  {
    forall p | 0 <= p < k ensures xs[p] != code[k] {
      assert xs[..k][p] == code[..k][p];
    }
    var ys := Swap(xs, k, at);
    SwapKeepsDistinct(xs, k, at);
    forall p | 0 <= p < |code| ensures code[p] in ys {
      assert code[p] in multiset(xs);
      assert code[p] in multiset(ys);
    }
    forall p | 0 <= p < k + 1 ensures ys[p] == code[p] {
      if p < k { assert xs[..k][p] == code[..k][p]; }
    }
  }

  /** A duplicate-free sequence has exactly as many distinct values as entries. */
  lemma {:induction false} DistinctCardinality<T>(xs: seq<T>)
    requires Distinct(xs)
    ensures |set i | 0 <= i < |xs| :: xs[i]| == |xs|
  {
    if |xs| > 0 {
      var init := xs[..|xs| - 1];
      assert Distinct(init);
      DistinctCardinality(init);
      var s := set i | 0 <= i < |init| :: init[i];
      var t := set i | 0 <= i < |xs| :: xs[i];
      assert t == s + {xs[|xs| - 1]};
      assert xs[|xs| - 1] !in s;
    }
  }

  /** The values of a sequence, as a set. */
  function Elements<T>(xs: seq<T>): set<T> {
    set i | 0 <= i < |xs| :: xs[i]
  }

  /** Two duplicate-free sequences of equal length, one's values inside the other's,
      hold the same values. */
  lemma SameLengthSubsetIsEqual<T>(xs: seq<T>, ys: seq<T>)
    requires Distinct(xs) && Distinct(ys)
    requires |xs| == |ys|
    requires forall k :: 0 <= k < |xs| ==> xs[k] in ys
    ensures Elements(xs) == Elements(ys)
  {
    DistinctCardinality(xs);
    DistinctCardinality(ys);
    assert Elements(xs) <= Elements(ys);
    assert |Elements(xs)| == |Elements(ys)|;
    SubsetOfEqualSizeIsEqual(Elements(xs), Elements(ys));
  }

  lemma SubsetOfEqualSizeIsEqual<T>(a: set<T>, b: set<T>)
    requires a <= b && |a| == |b|
    ensures a == b
  {
    if a != b {
      var x :| x in b && x !in a;
      SubsetCardinality(a, b - {x});
    }
  }

  lemma {:induction false} SubsetCardinality<T>(a: set<T>, b: set<T>)
    requires a <= b
    ensures |a| <= |b|
    decreases a
  {
    if a != {} {
      var x :| x in a;
      SubsetCardinality(a - {x}, b - {x});
    }
  }

  /** `xs` holds each of 1..n exactly once. */
  predicate IsPermutation(xs: seq<int>, n: nat) {
    |xs| == n && Distinct(xs) && forall k :: 0 <= k < |xs| ==> 1 <= xs[k] <= n
  }

  /** The numbers 1..n shuffled by the injected transpositions. */
  function Shuffled(n: nat, swaps: seq<Transposition>): (r: seq<int>)
    requires FitsIn(swaps, n)
    ensures IsPermutation(r, n)
    ensures multiset(r) == multiset(Range(1, n + 1))
  {
    var start := Range(1, n + 1);
    ApplySwapsKeepsDistinct(start, swaps);
    var r := ApplySwaps(start, swaps);
    forall k | 0 <= k < |r| ensures 1 <= r[k] <= n {
      assert r[k] in multiset(start);
    }
    r
  }

  /** Every arrangement of 1..n is the outcome of some shuffle. */
  lemma EveryPermutationIsShuffled(xs: seq<int>, n: nat)
    requires IsPermutation(xs, n)
    ensures exists swaps :: FitsIn(swaps, n) && Shuffled(n, swaps) == xs
  {
    var start := Range(1, n + 1);
    forall p | 0 <= p < |xs| ensures xs[p] in start {
      assert start[xs[p] - 1] == xs[p];
    }
    var swaps := Arrange(start, xs, 0);
    var r := ApplySwaps(start, swaps);
    assert r[..n] == xs;
    assert r == xs;
    assert Shuffled(n, swaps) == r;
  }
}
