/**
  The calls Deep/CSL.py makes on Python's `random` module, driven by an explicit
  stream of draws instead of the process-wide generator: `random.choice` and
  `random.randrange` reduce one draw below a bound, and `random.shuffle` is the
  Fisher-Yates loop of CPython 2.7, one draw per position from the end down to 1.
 */
module PyRandom {

  /** A seeded generator: the k-th draw it hands out is `rng(k)`. */
  type Draws = nat -> nat

  /** One draw reduced below `n`, as `randrange(n)` and `choice` on `n` items use it. */
  function RandBelow(rng: Draws, k: nat, n: nat): (r: nat)
    requires n > 0
    ensures r < n
  {
    rng(k) % n
  }

  /** The exchange `x[i], x[j] = x[j], x[i]`. */
  function Swap<T>(s: seq<T>, i: nat, j: nat): (r: seq<T>)
    requires i < |s| && j < |s|
    ensures |r| == |s|
  {
    seq(|s|, p requires 0 <= p < |s| => if p == i then s[j] else if p == j then s[i] else s[p])
  }

  lemma SwapPermutes<T>(s: seq<T>, i: nat, j: nat)
    requires i < |s| && j < |s|
    ensures multiset(Swap(s, i, j)) == multiset(s)
  {
    assert Swap(s, i, j) == s[i := s[j]][j := s[i]];
  }

  /** The list `random.shuffle` has built after its first `m` swaps: the swap number
      `m` exchanges position `|s| - m` with a drawn position at or below it. */
  function ShuffleSteps<T>(s: seq<T>, m: nat, rng: Draws, k: nat): (r: seq<T>)
    requires m < |s|
    ensures |r| == |s|
  {
    if m == 0 then s
    else Swap(ShuffleSteps(s, m - 1, rng, k), |s| - m, RandBelow(rng, k + m - 1, |s| - m + 1))
  }

  /** What `random.shuffle(x)` leaves in `x` when its draws start at `k`. */
  function Shuffled<T>(s: seq<T>, rng: Draws, k: nat): seq<T>
  {
    if |s| <= 1 then s else ShuffleSteps(s, |s| - 1, rng, k)
  }

  /** How many draws `random.shuffle` consumes on a list of length `n`. */
  function ShuffleDraws(n: nat): nat
  {
    if n <= 1 then 0 else n - 1
  }

  /** Each swap keeps the multiset, so every stage is a permutation of the input. */
  lemma {:induction false} ShuffleStepsPermutes<T>(s: seq<T>, m: nat, rng: Draws, k: nat)
    requires m < |s|
    ensures multiset(ShuffleSteps(s, m, rng, k)) == multiset(s)
  {
    if m > 0 {
      var t := ShuffleSteps(s, m - 1, rng, k);
      var j := RandBelow(rng, k + m - 1, |s| - m + 1);
      ShuffleStepsPermutes(s, m - 1, rng, k);
      SwapPermutes(t, |s| - m, j);
    }
  }

  /** Shuffling only reorders: the result is a permutation of the input. */
  lemma ShuffledPermutes<T>(s: seq<T>, rng: Draws, k: nat)
    ensures |Shuffled(s, rng, k)| == |s|
    ensures multiset(Shuffled(s, rng, k)) == multiset(s)
  {
    if |s| > 1 {
      ShuffleStepsPermutes(s, |s| - 1, rng, k);
    }
  }

  /** `random.shuffle(x)`: the Fisher-Yates loop, from the last position down to 1. */
  method Shuffle<T>(s: seq<T>, rng: Draws, k0: nat) returns (r: seq<T>, k: nat)
    ensures r == Shuffled(s, rng, k0)
    ensures multiset(r) == multiset(s)
    ensures k == k0 + ShuffleDraws(|s|)
  {
    r, k := s, k0;
    if |s| > 1 {
      var i := |s| - 1;
      while i > 0
        invariant 0 <= i < |s|
        invariant k == k0 + (|s| - 1 - i)
        invariant r == ShuffleSteps(s, |s| - 1 - i, rng, k0)
      {
        var j := RandBelow(rng, k, i + 1);
        k := k + 1;
        r := Swap(r, i, j);
        i := i - 1;
      }
    }
    ShuffledPermutes(s, rng, k0);
  }
}
