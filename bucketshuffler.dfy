/**
  Lines 45-46 of Deep/CSL.py: `random.shuffle` applied in place to every bucket
  of `exptItems`, key by key, all drawing on the one generator.
 */
module BucketShuffler {
  import opened PyBuiltins
  import opened PyRandom
  import opened Catalogs

  /** The draw at which the shuffle of key number `i` starts, when the first starts at `k0`:
      each shuffle before it consumes its own draws. */
  function Start(keys: seq<string>, buckets: map<string, seq<Record>>, k0: nat, i: nat): nat
    requires i <= |keys| && forall l :: l in keys ==> l in buckets
  {
    if i == 0 then k0 else Start(keys, buckets, k0, i - 1) + ShuffleDraws(|buckets[keys[i - 1]]|)
  }

  /** The next shuffle starts where this one's draws end. */
  lemma StartNext(keys: seq<string>, buckets: map<string, seq<Record>>, k0: nat, i: nat)
    requires i < |keys| && forall l :: l in keys ==> l in buckets
    ensures Start(keys, buckets, k0, i + 1) == Start(keys, buckets, k0, i) + ShuffleDraws(|buckets[keys[i]]|)
  {
  }

  /** The bucket of key number `i` as its shuffle leaves it. */
  function ShuffledBucket(c: Catalog, rng: Draws, k0: nat, i: nat): seq<Record>
    requires WellFormed(c) && i < |c.keys|
  {
    Shuffled(c.buckets[c.keys[i]], rng, Start(c.keys, c.buckets, k0, i))
  }

  /** Lines 45-46: every bucket ends up as `random.shuffle` leaves it when its draws come
      after those of the keys before it; the keys and, as a multiset, each bucket and the
      labelled records are unchanged. */
  method ShuffleBuckets(exptItems: Catalog, rng: Draws, k0: nat) returns (r: Catalog, k: nat)
    requires WellFormed(exptItems)
    ensures WellFormed(r) && r.keys == exptItems.keys && r.buckets.Keys == exptItems.buckets.Keys
    ensures forall i :: 0 <= i < |r.keys| ==> r.buckets[r.keys[i]] == ShuffledBucket(exptItems, rng, k0, i)
    ensures forall l :: l in r.buckets ==> multiset(r.buckets[l]) == multiset(exptItems.buckets[l])
    ensures PoolOf(r) == PoolOf(exptItems)
    ensures k == Start(exptItems.keys, exptItems.buckets, k0, |exptItems.keys|)
  {
    var keys, b := exptItems.keys, exptItems.buckets;
    r, k := exptItems, k0;
    for i := 0 to |keys|
      invariant ShuffledUpTo(exptItems, r, rng, k0, i) && k == Start(keys, b, k0, i)
    {
      var expt := keys[i];
      var bucket := r.buckets[expt];
      StartNext(keys, b, k0, i);
      var shuffled, next := Shuffle(bucket, rng, k);
      ShuffleStep(exptItems, r, rng, k0, i, shuffled);
      r := Catalog(r.keys, r.buckets[expt := shuffled]);
      k := next;
    }
    ShuffledBucketsPermute(exptItems, r, rng, k0);
  }

  /** The buckets of the first `i` keys are shuffled, the others untouched. */
  predicate ShuffledUpTo(c: Catalog, r: Catalog, rng: Draws, k0: nat, i: nat)
    requires WellFormed(c)
  {
    && i <= |c.keys| && r.keys == c.keys && r.buckets.Keys == c.buckets.Keys
    && (forall j :: 0 <= j < i ==> r.buckets[c.keys[j]] == ShuffledBucket(c, rng, k0, j))
    && (forall j :: i <= j < |c.keys| ==> r.buckets[c.keys[j]] == c.buckets[c.keys[j]])
  }

  lemma ShuffleStep(c: Catalog, r: Catalog, rng: Draws, k0: nat, i: nat, shuffled: seq<Record>)
    requires WellFormed(c) && ShuffledUpTo(c, r, rng, k0, i) && i < |c.keys|
    requires shuffled == Shuffled(r.buckets[c.keys[i]], rng, Start(c.keys, c.buckets, k0, i))
    ensures ShuffledUpTo(c, Catalog(r.keys, r.buckets[c.keys[i] := shuffled]), rng, k0, i + 1)
  {
    assert forall j :: 0 <= j < |c.keys| && j != i ==> c.keys[j] != c.keys[i];
  }

  /** Shuffling every bucket keeps each bucket's records and so the labelled pool. */
  lemma ShuffledBucketsPermute(c: Catalog, r: Catalog, rng: Draws, k0: nat)
    requires WellFormed(c) && r.keys == c.keys && r.buckets.Keys == c.buckets.Keys
    requires forall i :: 0 <= i < |r.keys| ==> r.buckets[r.keys[i]] == ShuffledBucket(c, rng, k0, i)
    ensures WellFormed(r)
    ensures forall l :: l in r.buckets ==> multiset(r.buckets[l]) == multiset(c.buckets[l])
    ensures PoolOf(r) == PoolOf(c)
  {
    forall l | l in r.buckets
      ensures multiset(r.buckets[l]) == multiset(c.buckets[l])
    {
      var j :| 0 <= j < |c.keys| && c.keys[j] == l;
      assert r.buckets[l] == ShuffledBucket(c, rng, k0, j);
      ShuffledPermutes(c.buckets[l], rng, Start(c.keys, c.buckets, k0, j));
    }
    PoolPermuted(c.keys, r.buckets, c.buckets);
  }
}
