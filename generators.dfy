/** The two ways of building test strings from the word set: `random` and `permutate`.
    The random number generator is injected: `choose_multiple` as a list of distinct
    positions, `shuffle` as a permutation of the positions. */
module Generators {
  import opened Text

  /** No position occurs twice. */
  predicate Distinct(idx: seq<nat>)
  {
    forall a, b :: 0 <= a < b < |idx| ==> idx[a] != idx[b]
  }

  /** Every position is a position of a sequence of length `n`. */
  predicate InRange(idx: seq<nat>, n: nat)
  {
    forall k :: 0 <= k < |idx| ==> idx[k] < n
  }

  /** What `choose_multiple(rng, n)` may return for `len` items: `min(n, len)`
      distinct positions, in the order the sampler picked them. */
  predicate Sample(idx: seq<nat>, n: nat, len: nat)
    ensures Sample(idx, n, len) ==> |idx| <= n && |idx| <= len && (|idx| < n ==> |idx| == len)
  {
    |idx| == (if n <= len then n else len) && Distinct(idx) && InRange(idx, len)
  }

  /** What `shuffle` may do to `len` items: put them in the order of a permutation of their positions. */
  predicate Permutation(idx: seq<nat>, len: nat)
    ensures Permutation(idx, len) ==> Sample(idx, len, len)
  {
    |idx| == len && Distinct(idx) && InRange(idx, len)
  }

  /** The items at the given positions, in the order of the positions. */
  function Pick<T>(xs: seq<T>, idx: seq<nat>): (picked: seq<T>)
    requires InRange(idx, |xs|)
    ensures |picked| == |idx|
    ensures forall x :: x in picked ==> x in xs
  {
    seq(|idx|, k requires 0 <= k < |idx| => xs[idx[k]])
  }

  /** Taking the item at position `p` of `idx` out of a pick. */
  lemma PickAround<T>(xs: seq<T>, idx: seq<nat>, p: nat)
    requires InRange(idx, |xs|) && p < |idx|
    ensures InRange(idx[..p] + idx[p + 1..], |xs|)
    ensures Pick(xs, idx) == Pick(xs, idx[..p]) + [xs[idx[p]]] + Pick(xs, idx[p + 1..])
    ensures Pick(xs, idx[..p] + idx[p + 1..]) == Pick(xs, idx[..p]) + Pick(xs, idx[p + 1..])
  {
  }

  /** Positions below `|xs| - 1` pick the same items from `xs` and from `xs` without its last item. */
  lemma PickInit<T>(xs: seq<T>, idx: seq<nat>)
    requires |xs| >= 1 && InRange(idx, |xs| - 1)
    ensures Pick(xs, idx) == Pick(xs[..|xs| - 1], idx)
  {
  }

  /** Removing one position from distinct positions leaves distinct positions, and none of
      them is the removed one. */
  lemma RemoveAt(idx: seq<nat>, p: nat, n: nat)
    requires Distinct(idx) && InRange(idx, n + 1) && p < |idx| && idx[p] == n
    ensures Distinct(idx[..p] + idx[p + 1..])
    ensures InRange(idx[..p] + idx[p + 1..], n)
  {
    var rest := idx[..p] + idx[p + 1..];
    forall k | 0 <= k < |rest| ensures rest[k] < n {
      if k < p { assert rest[k] == idx[k]; } else { assert rest[k] == idx[k + 1]; }
    }
    forall a, b | 0 <= a < b < |rest| ensures rest[a] != rest[b] {
      var a', b' := if a < p then a else a + 1, if b < p then b else b + 1;
      assert rest[a] == idx[a'] && rest[b] == idx[b'];
    }
  }

  /** Items taken at distinct positions are taken without replacement. */
  lemma {:induction false} PickWithoutReplacement<T>(xs: seq<T>, idx: seq<nat>)
    requires Distinct(idx) && InRange(idx, |xs|)
    ensures multiset(Pick(xs, idx)) <= multiset(xs)
    decreases |xs|
  {
    if idx != [] {
      assert idx[0] < |xs|;
      var n := |xs| - 1;
      var init := xs[..n];
      assert xs == init + [xs[n]];
      if p :| 0 <= p < |idx| && idx[p] == n {
        var rest := idx[..p] + idx[p + 1..];
        RemoveAt(idx, p, n);
        PickAround(xs, idx, p);
        PickInit(xs, rest);
        PickWithoutReplacement(init, rest);
        assert multiset(Pick(xs, idx)) == multiset(Pick(init, rest)) + multiset{xs[n]};
      } else {
        assert InRange(idx, n);
        PickInit(xs, idx);
        PickWithoutReplacement(init, idx);
      }
    }
  }

  /** Items taken in the order of a permutation are the same items, rearranged. */
  lemma PermutationKeepsItems<T>(xs: seq<T>, idx: seq<nat>)
    requires Permutation(idx, |xs|)
    ensures multiset(Pick(xs, idx)) == multiset(xs)
  {
    var taken := multiset(Pick(xs, idx));
    PickWithoutReplacement(xs, idx);
    var left := multiset(xs) - taken;
    assert multiset(xs) == taken + left;
    assert |left| == 0;
  }

  /** `random`: the sampled words joined by single spaces. Splitting the test on spaces gives
      back the sampled words in the sampler's order: `min(n, |words|)` of them, drawn without
      replacement (when no word holds a space and at least one is drawn). */
  function Random(words: seq<string>, n: nat, picks: seq<nat>): (test: string)
    requires Sample(picks, n, |words|)
    ensures n >= 1 && |words| >= 1 && (forall w :: w in words ==> ' ' !in w) ==>
              var chosen := Split(test, ' ');
              && chosen == Pick(words, picks)
              && |chosen| == (if n <= |words| then n else |words|)
              && multiset(chosen) <= multiset(words)
  {
    var chosen := Pick(words, picks);
    if n >= 1 && |words| >= 1 && (forall w :: w in words ==> ' ' !in w) then
      assert forall k :: 0 <= k < |chosen| ==> chosen[k] in words;
      SplitJoin(chosen, ' ');
      PickWithoutReplacement(words, picks);
      Join(chosen, ' ')
    else
      Join(chosen, ' ')
  }

  /** Consecutive chunks of `size` items; the last may be shorter (`Itertools::chunks`). */
  function Chunks<T>(xs: seq<T>, size: nat): (cs: seq<seq<T>>)
    requires size >= 1
    ensures |cs| == 0 <==> |xs| == 0
    ensures |xs| > 0 ==> cs[0] == xs[..if |xs| <= size then |xs| else size]
    decreases |xs|
  {
    if |xs| == 0 then []
    else if |xs| <= size then [xs]
    else [xs[..size]] + Chunks(xs[size..], size)
  }

  /** The concatenation of a sequence of sequences. */
  function Flatten<T>(xss: seq<seq<T>>): seq<T>
  {
    if xss == [] then [] else xss[0] + Flatten(xss[1..])
  }

  /** Every item of every inner sequence is in the concatenation. */
  lemma {:induction false} FlattenHas<T>(xss: seq<seq<T>>, k: nat, j: nat)
    requires k < |xss| && j < |xss[k]|
    ensures xss[k][j] in Flatten(xss)
  {
    if k > 0 {
      FlattenHas(xss[1..], k - 1, j);
    }
  }

  /** `ceil(n / size)` grows by one for every further `size` items. */
  lemma CeilStep(n: nat, size: nat)
    requires size >= 1
    ensures n == 0 ==> (n + size - 1) / size == 0
    ensures 1 <= n <= size ==> (n + size - 1) / size == 1
    ensures n > size ==> (n + size - 1) / size == 1 + (n - size + size - 1) / size
  {
    if n == 0 {
      DivOf(size - 1, size, 0, size - 1);
    } else if n <= size {
      DivOf(n - 1 + size, size, 1, n - 1);
    } else {
      var q, r := (n - 1) / size, (n - 1) % size;
      MulSplit(q + 1, q, size);
      DivOf(n - 1 + size, size, q + 1, r);
    }
  }

  /** Division by `d` recovers the quotient of any decomposition `q * d + r` with `0 <= r < d`. */
  lemma DivOf(a: int, d: int, q: int, r: int)
    requires d >= 1 && a == q * d + r && 0 <= r < d
    ensures a / d == q
  {
    UniqueDivision(a, d, a / d, a % d, q, r);
  }

  /** Quotient and remainder are unique. */
  lemma UniqueDivision(a: int, d: int, q: int, r: int, q': int, r': int)
    requires d >= 1 && a == q * d + r == q' * d + r'
    requires 0 <= r < d && 0 <= r' < d
    ensures q == q'
  {
    if q < q' {
      MulAtLeast(q' - q, d);
      MulSplit(q', q, d);
    } else if q > q' {
      MulAtLeast(q - q', d);
      MulSplit(q, q', d);
    }
  }

  lemma MulSplit(a: int, b: int, d: int)
    ensures a * d == b * d + (a - b) * d
  {
  }

  lemma MulAtLeast(e: int, d: int)
    requires e >= 1 && d >= 1
    ensures e * d >= d
  {
    assert e * d == d + (e - 1) * d;
  }

  /** There are `ceil(|xs| / size)` chunks. */
  lemma {:induction false} ChunksCount<T>(xs: seq<T>, size: nat)
    requires size >= 1
    ensures |Chunks(xs, size)| == (|xs| + size - 1) / size
    decreases |xs|
  {
    CeilStep(|xs|, size);
    if |xs| > size {
      ChunksCount(xs[size..], size);
    }
  }

  /** Put back together, the chunks are `xs`, in order. */
  lemma {:induction false} ChunksFlatten<T>(xs: seq<T>, size: nat)
    requires size >= 1
    ensures Flatten(Chunks(xs, size)) == xs
    decreases |xs|
  {
    if |xs| > size {
      ChunksFlatten(xs[size..], size);
      assert Chunks(xs, size)[1..] == Chunks(xs[size..], size);
      assert xs == xs[..size] + xs[size..];
    } else if |xs| > 0 {
      assert Flatten(Chunks(xs, size)) == xs + Flatten([]);
    }
  }

  /** Every chunk holds between 1 and `size` items, and every chunk but the last exactly `size`. */
  lemma {:induction false} ChunksSizes<T>(xs: seq<T>, size: nat)
    requires size >= 1
    ensures var cs := Chunks(xs, size);
      && (forall k :: 0 <= k < |cs| - 1 ==> |cs[k]| == size)
      && (forall k :: 0 <= k < |cs| ==> 1 <= |cs[k]| <= size)
    decreases |xs|
  {
    if |xs| > size {
      ChunksSizes(xs[size..], size);
      var cs := Chunks(xs, size);
      assert cs[1..] == Chunks(xs[size..], size);
      forall k | 1 <= k < |cs| ensures cs[k] == Chunks(xs[size..], size)[k - 1] { }
    }
  }

  /** There are `ceil(|xs| / size)` chunks, all of `size` items but the last, which has
      between 1 and `size`; put back together they are `xs`, in order. */
  lemma ChunksPartition<T>(xs: seq<T>, size: nat)
    requires size >= 1
    ensures var cs := Chunks(xs, size);
      && |cs| == (|xs| + size - 1) / size
      && Flatten(cs) == xs
      && (forall k :: 0 <= k < |cs| - 1 ==> |cs[k]| == size)
      && (forall k :: 0 <= k < |cs| ==> 1 <= |cs[k]| <= size)
  {
    ChunksCount(xs, size);
    ChunksFlatten(xs, size);
    ChunksSizes(xs, size);
  }

  /** `s` repeated `n` times (`str::repeat`). */
  function Repeat(s: string, n: nat): (r: string)
    ensures |r| == n * |s|
  {
    if n == 0 then "" else s + Repeat(s, n - 1)
  }

  /** One permutation test: `phrase` followed by a space, repeated, with the last
      character popped (nothing to pop when `repetition` is 0). */
  function Drill(phrase: string, repetition: nat): (drill: string)
    ensures |drill| == if repetition == 0 then 0 else repetition * (|phrase| + 1) - 1
  {
    var r := Repeat(phrase + " ", repetition);
    if |r| == 0 then r else r[..|r| - 1]
  }

  lemma {:induction false} RepeatRotate(phrase: string, n: nat)
    requires n >= 1
    ensures Repeat(phrase + " ", n) == phrase + Repeat(" " + phrase, n - 1) + " "
  {
    if n > 1 {
      RepeatRotate(phrase, n - 1);
      calc {
        Repeat(phrase + " ", n);
        (phrase + " ") + Repeat(phrase + " ", n - 1);
        (phrase + " ") + (phrase + Repeat(" " + phrase, n - 2) + " ");
        phrase + ((" " + phrase) + Repeat(" " + phrase, n - 2)) + " ";
        phrase + Repeat(" " + phrase, n - 1) + " ";
      }
    }
  }

  /** A drill of `repetition >= 1` is the phrase and then `repetition - 1` times a space and
      the phrase: no trailing space; a drill of no repetitions is empty. */
  lemma DrillShape(phrase: string, repetition: nat)
    ensures repetition == 0 ==> Drill(phrase, repetition) == ""
    ensures repetition >= 1 ==> Drill(phrase, repetition) == phrase + Repeat(" " + phrase, repetition - 1)
  {
    if repetition >= 1 {
      RepeatRotate(phrase, repetition);
      var r := Repeat(phrase + " ", repetition);
      assert r[..|r| - 1] == phrase + Repeat(" " + phrase, repetition - 1);
    }
  }

  /** `permutate`: shuffle the words, cut them into chunks of `combination` words, and turn
      every chunk, joined by single spaces, into a drill of `repetition` copies. */
  function Permutate(words: seq<string>, order: seq<nat>, combination: nat, repetition: nat): (tests: seq<string>)
    requires combination >= 1
    requires Permutation(order, |words|)
    ensures |tests| == (|words| + combination - 1) / combination
    ensures repetition >= 1 && (forall w :: w in words ==> w != "") ==>
              forall k :: 0 <= k < |tests| ==> |tests[k]| > 0
  {
    var chunks := PermutationChunks(words, order, combination);
    ChunksCount(Pick(words, order), combination);
    DrillsNonEmpty(words, order, combination, repetition);
    seq(|chunks|, k requires 0 <= k < |chunks| => Drill(Join(chunks[k], ' '), repetition))
  }

  /** With non-empty words and at least one repetition, no drill is empty. */
  lemma DrillsNonEmpty(words: seq<string>, order: seq<nat>, combination: nat, repetition: nat)
    requires combination >= 1
    requires Permutation(order, |words|)
    ensures var chunks := PermutationChunks(words, order, combination);
      repetition >= 1 && (forall w :: w in words ==> w != "") ==>
        forall k :: 0 <= k < |chunks| ==> |Drill(Join(chunks[k], ' '), repetition)| > 0
  {
    var shuffled := Pick(words, order);
    var chunks := PermutationChunks(words, order, combination);
    if repetition >= 1 && (forall w :: w in words ==> w != "") {
      ChunksPartition(shuffled, combination);
      forall k | 0 <= k < |chunks| ensures |Drill(Join(chunks[k], ' '), repetition)| > 0 {
        assert chunks == Chunks(shuffled, combination);
        assert |chunks[k]| >= 1;
        var w := chunks[k][0];
        FlattenHas(chunks, k, 0);
        assert w in shuffled;
        var j :| 0 <= j < |shuffled| && shuffled[j] == w;
        assert w == words[order[j]];
        assert w in words;
        assert |w| > 0;
        assert |Join(chunks[k], ' ')| > 0;
        DrillShape(Join(chunks[k], ' '), repetition);
      }
    }
  }

  /** The chunks `permutate` cuts the shuffled words into. */
  function PermutationChunks(words: seq<string>, order: seq<nat>, combination: nat): seq<seq<string>>
    requires combination >= 1
    requires Permutation(order, |words|)
  {
    Chunks(Pick(words, order), combination)
  }

  /** Each word of the set is in exactly one chunk, once: the chunks together hold the words
      with their multiplicities; every chunk but the last holds `combination` words; and each
      test is its chunk's phrase followed by `repetition - 1` copies of a space and the phrase. */
  lemma PermutateChunks(words: seq<string>, order: seq<nat>, combination: nat, repetition: nat)
    requires combination >= 1
    requires Permutation(order, |words|)
    ensures var chunks := PermutationChunks(words, order, combination);
      var tests := Permutate(words, order, combination, repetition);
      && |chunks| == |tests|
      && multiset(Flatten(chunks)) == multiset(words)
      && (forall k :: 0 <= k < |chunks| - 1 ==> |chunks[k]| == combination)
      && (forall k :: 0 <= k < |chunks| ==> 1 <= |chunks[k]| <= combination)
      && (repetition >= 1 ==> forall k :: 0 <= k < |tests| ==>
            tests[k] == Join(chunks[k], ' ') + Repeat(" " + Join(chunks[k], ' '), repetition - 1))
  {
    var chunks := PermutationChunks(words, order, combination);
    ChunksPartition(Pick(words, order), combination);
    PermutationKeepsItems(words, order);
    forall k | 0 <= k < |chunks| {
      DrillShape(Join(chunks[k], ' '), repetition);
    }
  }
}
