/** Fisher–Yates shuffle (`app.shuffle`). `Math.random` is replaced by an oracle: the model
    holds for every answer the oracle can give, so every property below is about every
    possible shuffle. */
module Shuffling {

  /** A source of random choices: asked at step `n`, it answers some natural number, which the
      caller reduces modulo the size of the range it draws from. Every sequence of choices the
      program could make is produced by some oracle. */
  type Draws = nat -> nat

  /** `Math.floor(Math.random() * n)` at step `step`: some index below `n`. */
  function Pick(rand: Draws, step: nat, n: nat): (k: nat)
    requires n > 0
    ensures k < n
  {
    rand(step) % n
  }

  /** `[a[i], a[j]] = [a[j], a[i]]`. What the swap does is stated by `SwapPermutes`. */
  function Swap<T>(a: seq<T>, i: nat, j: nat): (r: seq<T>)
    requires i < |a| && j < |a|
    ensures |r| == |a|
  {
    a[i := a[j]][j := a[i]]
  }

  /** A swap exchanges the two positions and leaves every other one alone, so it
      rearranges the array without adding or losing an element. */
  lemma SwapPermutes<T>(a: seq<T>, i: nat, j: nat)
    requires i < |a| && j < |a|
    ensures Swap(a, i, j)[i] == a[j] && Swap(a, i, j)[j] == a[i]
    ensures forall k :: 0 <= k < |a| && k != i && k != j ==> Swap(a, i, j)[k] == a[k]
    ensures multiset(Swap(a, i, j)) == multiset(a)
  {
  }

  /** The array when the loop of `shuffle`, which runs `i = n - 1, n - 2, ..., 1` and swaps
      `a[i]` with a position drawn from `0..i`, reaches loop index `i`: every step above `i`
      has been taken. */
  function Down<T>(a: seq<T>, i: nat, rand: Draws): (r: seq<T>)
    requires i < |a|
    ensures |r| == |a|
    decreases |a| - i
  {
    if i == |a| - 1 then a
    else Swap(Down(a, i + 1, rand), i + 1, Pick(rand, i + 1, i + 2))
  }

  /** Every stage of the loop is a rearrangement of the input. */
  lemma {:induction false} DownPermutes<T>(a: seq<T>, i: nat, rand: Draws)
    requires i < |a|
    ensures multiset(Down(a, i, rand)) == multiset(a)
    decreases |a| - i
  {
    if i < |a| - 1 {
      DownPermutes(a, i + 1, rand);
      SwapPermutes(Down(a, i + 1, rand), i + 1, Pick(rand, i + 1, i + 2));
    }
  }

  /** Once the loop has passed position `k`, that position is never touched again: from then
      on it holds the element the step at `k` drew from positions `0..k`. */
  lemma {:induction false} DownSettles<T>(a: seq<T>, i: nat, k: nat, rand: Draws)
    requires i < k < |a|
    ensures Down(a, i, rand)[k] == Down(a, k, rand)[Pick(rand, k, k + 1)]
    decreases k - i
  {
    if i < k - 1 {
      DownSettles(a, i + 1, k, rand);
      SwapPermutes(Down(a, i + 1, rand), i + 1, Pick(rand, i + 1, i + 2));
    } else {
      SwapPermutes(Down(a, k, rand), k, Pick(rand, k, k + 1));
    }
  }

  /** `shuffle(array)`: the array once the loop has run down to index 0. */
  function Shuffle<T>(a: seq<T>, rand: Draws): (r: seq<T>)
    ensures |r| == |a|
  {
    if |a| == 0 then a else Down(a, 0, rand)
  }

  /** `shuffle` rearranges its input: every element keeps its number of occurrences. */
  lemma ShufflePermutes<T>(a: seq<T>, rand: Draws)
    ensures multiset(Shuffle(a, rand)) == multiset(a)
  {
    if |a| > 0 {
      DownPermutes(a, 0, rand);
    }
  }

  /** Shuffling keeps membership: exactly the same values occur before and after. */
  lemma ShuffleKeepsMembers<T>(a: seq<T>, rand: Draws)
    ensures forall x :: x in Shuffle(a, rand) <==> x in a
  {
    var r := Shuffle(a, rand);
    ShufflePermutes(a, rand);
    forall x ensures x in r <==> x in a {
      assert x in r <==> x in multiset(r);
      assert x in a <==> x in multiset(a);
    }
  }

  /** The loop of the program as written, `for (i = n - 1; i > 0; i--)` with one swap per
      step, on a value instead of an array: it performs exactly the swaps of `Shuffle`. */
  method ShuffleLoop<T>(a: seq<T>, rand: Draws) returns (r: seq<T>)
    ensures r == Shuffle(a, rand)
  {
    r := a;
    if |a| == 0 {
      return;
    }
    var i := |a| - 1;
    while i > 0
      invariant 0 <= i < |a|
      invariant r == Down(a, i, rand)
    {
      var j := Pick(rand, i, i + 1);
      r := Swap(r, i, j);
      i := i - 1;
    }
  }
}
