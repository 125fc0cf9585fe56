/**
  The data latinSquare (Deep/CSL.py) works on: the rows of the items file, the
  dictionaries of buckets keyed by sub-experiment label, the error it can raise,
  and the multiset of labelled records a dictionary holds.
 */
module Catalogs {
  import opened PyBuiltins

  /** One row of the items file as the csv reader yields it:
      label, item id, condition, payload... */
  type Row = seq<string>

  /** A row without its label (`item[1:]`): item id, condition, payload... */
  type Record = seq<string>

  /** The exceptions latinSquare can raise on its input, each at the place it is raised. */
  datatype Error =
    | EmptyRow(row: nat)                             // `item[0]` of an empty row (line 23)
    | MissingFiller                                  // `experiments.remove('Filler')` (line 28)
    | MissingCondition(expt: string)                 // `item[1]` of a record without a condition (line 33)
    | BadConditionCount(expt: string, text: string) // `int(...)` of the largest condition (line 33)
    | ConditionOutOfRange(expt: string)              // `condSequence[...]` out of range (line 36)

  datatype Result<T> = Ok(value: T) | Err(error: Error)

  /** A dictionary from label to bucket, with its keys in the order they were added. */
  datatype Catalog = Catalog(keys: seq<string>, buckets: map<string, seq<Record>>)

  predicate WellFormed(c: Catalog)
  {
    && Distinct(c.keys)
    && (forall l :: l in c.keys ==> l in c.buckets)
    && (forall l :: l in c.buckets ==> l in c.keys)
  }

  /** `dict.setdefault(l, []).append(x)`. */
  function SetDefaultAppend(c: Catalog, l: string, x: Record): (r: Catalog)
    ensures WellFormed(c) ==> WellFormed(r)
    ensures r.buckets.Keys == c.buckets.Keys + {l}
  {
    if l in c.buckets then
      Catalog(c.keys, c.buckets[l := c.buckets[l] + [x]])
    else
      var r := Catalog(c.keys + [l], c.buckets[l := [x]]);
      assert WellFormed(c) ==> forall i :: 0 <= i < |c.keys| ==> c.keys[i] != l;
      r
  }

  /** `x` goes at the end of bucket `l`, a new label goes at the end of the keys, and
      every other bucket is left as it was. */
  lemma SetDefaultAppendPlaces(c: Catalog, l: string, x: Record)
    ensures var r := SetDefaultAppend(c, l, x);
      && r.buckets[l] == (if l in c.buckets then c.buckets[l] else []) + [x]
      && (forall m :: m in c.buckets && m != l ==> r.buckets[m] == c.buckets[m])
      && r.keys == if l in c.buckets then c.keys else c.keys + [l]
  {
  }

  /** The records of one bucket with their label put back in front (`[tryExpt] + item`). */
  function Tag(l: string, rs: seq<Record>): (r: seq<Row>)
    ensures |r| == |rs|
  {
    seq(|rs|, i requires 0 <= i < |rs| => [l] + rs[i])
  }

  /** All records of the catalog, each with its label in front, as a multiset. */
  function Pool(keys: seq<string>, buckets: map<string, seq<Record>>): multiset<Row>
    requires forall l :: l in keys ==> l in buckets
  {
    if keys == [] then multiset{}
    else Pool(keys[..|keys| - 1], buckets) + multiset(Tag(keys[|keys| - 1], buckets[keys[|keys| - 1]]))
  }

  function PoolOf(c: Catalog): multiset<Row>
    requires WellFormed(c)
  {
    Pool(c.keys, c.buckets)
  }

  lemma TagSnoc(l: string, rs: seq<Record>)
    requires |rs| > 0
    ensures Tag(l, rs) == Tag(l, rs[..|rs| - 1]) + [[l] + rs[|rs| - 1]]
  {
  }

  lemma TagCons(l: string, rs: seq<Record>)
    requires |rs| > 0
    ensures Tag(l, rs) == [[l] + rs[0]] + Tag(l, rs[1..])
  {
  }

  lemma ConsSplit(y: Row)
    requires |y| > 0
    ensures y == [y[0]] + y[1..]
  {
  }

  /** A labelled row occurs in a tagged bucket as often as its tail occurs in the bucket. */
  lemma {:induction false} TagCount(l: string, rs: seq<Record>, y: Row)
    ensures multiset(Tag(l, rs))[y] == if |y| > 0 && y[0] == l then multiset(rs)[y[1..]] else 0
  {
    if |rs| > 0 {
      var init, x := rs[..|rs| - 1], rs[|rs| - 1];
      TagSnoc(l, rs);
      TagCount(l, init, y);
      assert rs == init + [x];
      if |y| > 0 {
        ConsSplit(y);
      }
    }
  }

  /** How often a labelled row occurs in the pool: as often as its tail occurs in the
      bucket of its label, when that label is a key. */
  lemma {:induction false} PoolCount(keys: seq<string>, buckets: map<string, seq<Record>>, y: Row)
    requires forall l :: l in keys ==> l in buckets
    requires Distinct(keys)
    ensures Pool(keys, buckets)[y] ==
            if |y| > 0 && y[0] in keys then multiset(buckets[y[0]])[y[1..]] else 0
  {
    if keys != [] {
      var init, l := keys[..|keys| - 1], keys[|keys| - 1];
      assert Distinct(init);
      assert l !in init;
      assert forall x :: x in keys <==> x in init || x == l;
      PoolCount(init, buckets, y);
      TagCount(l, buckets[l], y);
    }
  }

  /** Pools agree when every key's bucket holds the same records, in whatever order. */
  lemma PoolPermuted(keys: seq<string>, a: map<string, seq<Record>>, b: map<string, seq<Record>>)
    requires Distinct(keys)
    requires forall l :: l in keys ==> l in a && l in b && multiset(a[l]) == multiset(b[l])
    ensures Pool(keys, a) == Pool(keys, b)
  {
    forall y: Row
      ensures Pool(keys, a)[y] == Pool(keys, b)[y]
    {
      PoolCount(keys, a, y);
      PoolCount(keys, b, y);
    }
  }

  /** Popping the last record of one bucket takes exactly that labelled record out of the pool. */
  lemma PoolPop(keys: seq<string>, buckets: map<string, seq<Record>>, l: string)
    requires forall x :: x in keys ==> x in buckets
    requires Distinct(keys) && l in keys && |buckets[l]| > 0
    ensures var b := buckets[l];
      Pool(keys, buckets[l := b[..|b| - 1]]) + multiset{[l] + b[|b| - 1]} == Pool(keys, buckets)
  {
    var b := buckets[l];
    var popped := buckets[l := b[..|b| - 1]];
    var x := [l] + b[|b| - 1];
    assert b == b[..|b| - 1] + [b[|b| - 1]];
    forall y: Row
      ensures (Pool(keys, popped) + multiset{x})[y] == Pool(keys, buckets)[y]
    {
      PoolCount(keys, popped, y);
      PoolCount(keys, buckets, y);
      if |y| > 0 {
        ConsSplit(y);
      }
    }
  }

  /** When every other bucket is empty, the pool is the one remaining bucket, labelled. */
  lemma PoolOnly(keys: seq<string>, buckets: map<string, seq<Record>>, l: string)
    requires forall x :: x in keys ==> x in buckets
    requires Distinct(keys) && l in keys
    requires forall x :: x in keys && x != l ==> buckets[x] == []
    ensures Pool(keys, buckets) == multiset(Tag(l, buckets[l]))
  {
    forall y: Row
      ensures Pool(keys, buckets)[y] == multiset(Tag(l, buckets[l]))[y]
    {
      PoolCount(keys, buckets, y);
      TagCount(l, buckets[l], y);
    }
  }
}
