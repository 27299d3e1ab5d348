/** `generateQuizOptions`: the four answer choices of an English-to-Japanese question. */
module QuizOptions {
  import opened Seqs
  import opened Shuffling

  /** The choices shown, and the position of the correct one (`{ opts, ans }`). */
  datatype Choices = Choices(opts: seq<string>, ans: int)

  /** The distinct wrong answers available: every source text other than the correct one. */
  function Distractors(correct: string, source: seq<string>): set<string> {
    set x | x in source && x != correct
  }

  /** A list of options in the shape the loop builds: the correct text first, then
      distinct texts taken from the distractors. */
  predicate Drawn(options: seq<string>, correct: string, source: seq<string>) {
    && |options| >= 1
    && options[0] == correct
    && Distinct(options)
    && (forall i :: 1 <= i < |options| ==> options[i] in Distractors(correct, source))
  }

  /** Drawn options number one more than the distinct distractors among them. */
  lemma DrawnCount(options: seq<string>, correct: string, source: seq<string>)
    requires Drawn(options, correct, source)
    ensures Elems(options[1..]) <= Distractors(correct, source)
    ensures |options| == 1 + |Elems(options[1..])|
  {
    var t := options[1..];
    forall i, j | 0 <= i < j < |t| ensures t[i] != t[j] {
      assert t[i] == options[i + 1] && t[j] == options[j + 1];
    }
    DistinctCard(t);
  }

  /** With fewer than three distinct distractors the loop guard `options.length < 4` can never
      become false: whatever is drawn, the loop, with its refill of `tempPool` whenever it runs
      empty, goes on forever. */
  lemma TooFewDistractorsNeverFill(options: seq<string>, correct: string, source: seq<string>)
    requires |Distractors(correct, source)| < 3
    requires Drawn(options, correct, source)
    ensures |options| < 4
  {
    DrawnCount(options, correct, source);
    assert |Elems(options[1..])| <= |Distractors(correct, source)| by {
      SubsetCard(Elems(options[1..]), Distractors(correct, source));
    }
  }

  /** Once every distractor has been drawn, the options hold all of them. */
  lemma AllDrawnFillsOptions(options: seq<string>, correct: string, source: seq<string>)
    requires Drawn(options, correct, source)
    requires forall x :: x in Distractors(correct, source) ==> x in options
    ensures |options| >= 1 + |Distractors(correct, source)|
  {
    DrawnCount(options, correct, source);
    forall x | x in Distractors(correct, source) ensures x in Elems(options[1..]) {
      var k :| 0 <= k < |options| && options[k] == x;
      assert k != 0;
      assert options[1..][k - 1] == x;
    }
    SubsetCard(Distractors(correct, source), Elems(options[1..]));
  }

  lemma SubsetCard(a: set<string>, b: set<string>)
    requires a <= b
    ensures |a| <= |b|
  {
    assert b == a + (b - a);
  }

  /** The `while (options.length < 4)` loop of `generateQuizOptions`. Given at least three
      distinct texts other than the correct one, it ends, because the pool shrinks on every
      step and is never refilled, with the correct text followed by three distinct
      distractors. `pick` answers its draws. */
  method DrawOptions(correct: string, source: seq<string>, pick: Draws)
    returns (options: seq<string>)
    requires |Distractors(correct, source)| >= 3
    ensures |options| == 4 && Drawn(options, correct, source)
  {
    options := [correct];
    var keep := (item: string) => item != correct;
    var pool := Filter(source, keep);
    FilterMembers(source, keep);
    var tempPool := pool;
    var step := 0;
    while |options| < 4
      invariant 1 <= |options| <= 4
      invariant Drawn(options, correct, source)
      invariant forall x :: x in tempPool ==> x in pool
      invariant forall x :: x in pool ==> x in options || x in tempPool
      decreases |tempPool|
    {
      if |tempPool| == 0 {
        // The refill of the pool: every distractor is already among the options, so there
        // are at least four of them and the loop would have stopped.
        AllDrawnFillsOptions(options, correct, source);
        assert false;
      }
      var k := Pick(pick, step, |tempPool|);
      step := step + 1;
      var candidate := tempPool[k];
      if candidate !in options {
        options := options + [candidate];
      }
      RemoveKeepsCover(pool, tempPool, k, options);
      tempPool := tempPool[..k] + tempPool[k + 1..];
    }
  }

  /** Removing the drawn candidate from the pool loses nothing once the candidate is among
      the options. */
  lemma RemoveKeepsCover(pool: seq<string>, tempPool: seq<string>, k: nat, options: seq<string>)
    requires k < |tempPool| && tempPool[k] in options
    requires forall x :: x in tempPool ==> x in pool
    requires forall x :: x in pool ==> x in options || x in tempPool
    ensures forall x :: x in tempPool[..k] + tempPool[k + 1..] ==> x in pool
    ensures forall x :: x in pool ==> x in options || x in tempPool[..k] + tempPool[k + 1..]
  {
    var rest := tempPool[..k] + tempPool[k + 1..];
    assert tempPool == tempPool[..k] + [tempPool[k]] + tempPool[k + 1..];
    forall x | x in tempPool ensures x == tempPool[k] || x in rest {
    }
  }

  /** `generateQuizOptions(correctText, allSourceArray)`: four distinct options, the correct
      text at `ans`, texts from the source at the other three positions. `pick` answers the
      draws of the loop, `order` those of the final shuffle. */
  method GenerateQuizOptions(correct: string, source: seq<string>, pick: Draws, order: Draws)
    returns (r: Choices)
    requires |Distractors(correct, source)| >= 3
    ensures |r.opts| == 4 && Distinct(r.opts)
    ensures 0 <= r.ans < 4 && r.opts[r.ans] == correct
    ensures forall i :: 0 <= i < 4 && i != r.ans ==> r.opts[i] in source && r.opts[i] != correct
  {
    var options := DrawOptions(correct, source, pick);
    var opts := Shuffle(options, order);
    ShufflePermutes(options, order);
    ShuffledOptions(options, opts, correct, source);
    var ans := IndexOf(opts, correct);
    r := Choices(opts, ans);
  }

  /** A rearrangement of drawn options is still four distinct options holding the correct
      text, with distractors everywhere else. */
  lemma ShuffledOptions(options: seq<string>, opts: seq<string>, correct: string, source: seq<string>)
    requires |options| == 4 && Drawn(options, correct, source)
    requires multiset(opts) == multiset(options)
    ensures |opts| == 4 && Distinct(opts) && correct in opts
    ensures forall i :: 0 <= i < 4 && opts[i] != correct ==> opts[i] in source
  {
    assert |opts| == |multiset(opts)|;
    PermutationKeepsDistinct(options, opts);
    assert correct in multiset(opts);
    forall i | 0 <= i < 4 && opts[i] != correct ensures opts[i] in source {
      assert opts[i] in multiset(options);
      var k :| 0 <= k < |options| && options[k] == opts[i];
    }
  }

  /** Checking the chosen index against `ans` is the same as checking the chosen text
      against the correct text. */
  lemma ChoiceByIndexIsChoiceByText(r: Choices, correct: string, selected: int)
    requires Distinct(r.opts) && 0 <= r.ans < |r.opts| && r.opts[r.ans] == correct
    requires 0 <= selected < |r.opts|
    ensures selected == r.ans <==> r.opts[selected] == correct
  {
    if selected < r.ans {
      assert r.opts[selected] != r.opts[r.ans];
    } else if r.ans < selected {
      assert r.opts[r.ans] != r.opts[selected];
    }
  }
}
