/**
  `latinSquare(curList, itemFile)` of Deep/CSL.py (lines 15-74) on the rows the csv
  reader yields. The returned list is a permutation of exactly the input rows the
  Latin square keeps for list `curList` (every Filler row, and of each sub-experiment
  the rows that name an item `i` with the condition owed to it), and only rows of the
  last surviving sub-experiment can be neighbours.
 */
module CSL {
  import opened PyBuiltins
  import opened PyRandom
  import opened Catalogs
  import opened ItemStore
  import opened ConditionAssigner
  import opened BucketShuffler
  import opened Interleaver

  /** The returned list, whether the insufficient-filler warning was printed, and the
      sub-experiment that survived the merge (`remainingExpts[0]`). */
  datatype Experiment = Experiment(list: seq<Row>, warning: bool, survivor: string)

  /** The sub-experiments that are Latin-squared: every label but Filler, in key order
      (`experiments.remove('Filler')`, line 28). */
  function Experiments(g: Catalog): (es: seq<string>)
    requires WellFormed(g) && "Filler" in g.buckets
    ensures Distinct(es)
    ensures forall l :: l in es <==> l in g.buckets && l != "Filler"
  {
    RemoveDistinct(g.keys, "Filler");
    Remove(g.keys, "Filler")
  }

  /** The exception latinSquare raises on these rows, if any: an empty row, then a
      missing Filler label, then the first sub-experiment whose selection fails. */
  function InputError(curList: int, rows: seq<Row>): Option<Error>
  {
    if HasEmptyRow(rows) then Some(EmptyRow(FirstEmptyRow(rows)))
    else
      var g := Grouped(rows);
      GroupedBucketsNonEmpty(rows);
      if "Filler" !in g.buckets then Some(MissingFiller)
      else FirstFailure(curList, g, Experiments(g))
  }

  /** Whether latinSquare keeps a row of the input `rows`: a Filler row always; a row of
      another sub-experiment when it names an item `i` in `1..N` (`N` the number of rows
      of that sub-experiment) and carries the condition the Latin square owes item `i`
      on list `curList`, `C` being the sub-experiment's largest condition read as a string. */
  predicate Kept(curList: int, rows: seq<Row>, y: Row)
  {
    && |y| > 0
    && (y[0] == "Filler" ||
        var records := Bucket(rows, y[0]);
        && |records| > 0
        && ConditionCount(y[0], records).Ok?
        && ConditionCount(y[0], records).value >= 1
        && Owes(y[1..], curList, ConditionCount(y[0], records).value, |records|))
  }

  /** The rows of `part` that latinSquare keeps from the input `rows`, in order. */
  function KeptFrom(curList: int, part: seq<Row>, rows: seq<Row>): seq<Row>
  {
    if part == [] then []
    else
      var init, y := part[..|part| - 1], part[|part| - 1];
      if Kept(curList, rows, y) then KeptFrom(curList, init, rows) + [y] else KeptFrom(curList, init, rows)
  }

  /** The input rows latinSquare keeps, in input order. */
  function KeptRows(curList: int, rows: seq<Row>): seq<Row>
  {
    KeptFrom(curList, rows, rows)
  }

  lemma {:induction false} KeptFromCount(curList: int, part: seq<Row>, rows: seq<Row>, y: Row)
    ensures multiset(KeptFrom(curList, part, rows))[y] == if Kept(curList, rows, y) then multiset(part)[y] else 0
  {
    if part != [] {
      var init, x := part[..|part| - 1], part[|part| - 1];
      assert part == init + [x];
      KeptFromCount(curList, init, rows, y);
    }
  }

  /** A row is kept as often as it occurs when it is kept at all. */
  lemma KeptCount(curList: int, rows: seq<Row>, y: Row)
    ensures multiset(KeptRows(curList, rows))[y] == if Kept(curList, rows, y) then multiset(rows)[y] else 0
  {
    KeptFromCount(curList, rows, rows, y);
  }

  lemma {:induction false} KeptFromInOrder(curList: int, part: seq<Row>, rows: seq<Row>)
    ensures IsSubseq(KeptFrom(curList, part, rows), part)
  {
    if part == [] {
      IsSubseqRefl(part);
    } else {
      var init, x := part[..|part| - 1], part[|part| - 1];
      assert part == init + [x];
      KeptFromInOrder(curList, init, rows);
      if Kept(curList, rows, x) {
        IsSubseqSnocBoth(KeptFrom(curList, init, rows), init, x);
      } else {
        IsSubseqSnocRight(KeptFrom(curList, init, rows), init, x);
      }
    }
  }

  /** Every Filler row of the input is kept. */
  lemma FillerKept(curList: int, rows: seq<Row>)
    ensures forall y :: y in rows && |y| > 0 && y[0] == "Filler" ==> y in KeptRows(curList, rows)
  {
    forall y | y in rows && |y| > 0 && y[0] == "Filler"
      ensures y in KeptRows(curList, rows)
    {
      KeptCount(curList, rows, y);
    }
  }

  /** What the selection of lines 25-43 leaves, labelled again, is exactly the kept rows. */
  lemma AssignedPool(curList: int, rows: seq<Row>, a: Catalog)
    requires !HasEmptyRow(rows) && "Filler" in Grouped(rows).buckets
    requires GroupedSetup(rows)
    requires Assigned(curList, Grouped(rows), Experiments(Grouped(rows)), a)
    ensures PoolOf(a) == multiset(KeptRows(curList, rows))
  {
    forall y: Row
      ensures PoolOf(a)[y] == multiset(KeptRows(curList, rows))[y]
    {
      AssignedCount(curList, rows, a, y);
    }
  }

  /** The facts about grouping that the selection needs. */
  predicate GroupedSetup(rows: seq<Row>)
  {
    WellFormed(Grouped(rows)) && NonEmptyBuckets(Grouped(rows))
  }

  lemma AssignedCount(curList: int, rows: seq<Row>, a: Catalog, y: Row)
    requires !HasEmptyRow(rows) && "Filler" in Grouped(rows).buckets
    requires GroupedSetup(rows)
    requires Assigned(curList, Grouped(rows), Experiments(Grouped(rows)), a)
    ensures PoolOf(a)[y] == multiset(KeptRows(curList, rows))[y]
  {
    KeptCount(curList, rows, y);
    PoolCount(a.keys, a.buckets, y);
    if |y| > 0 {
      ConsSplit(y);
      BucketCount(rows, y[0], y[1..]);
      AssignedLabelCount(curList, rows, a, y);
    }
  }

  /** Within the bucket of its own label, a row survives the selection exactly when it is kept. */
  lemma AssignedLabelCount(curList: int, rows: seq<Row>, a: Catalog, y: Row)
    requires !HasEmptyRow(rows) && "Filler" in Grouped(rows).buckets
    requires GroupedSetup(rows)
    requires Assigned(curList, Grouped(rows), Experiments(Grouped(rows)), a)
    requires |y| > 0
    ensures (if y[0] in a.keys then multiset(a.buckets[y[0]])[y[1..]] else 0) ==
            (if Kept(curList, rows, y) then multiset(Bucket(rows, y[0]))[y[1..]] else 0)
  {
    var g := Grouped(rows);
    var l := y[0];
    if l == "Filler" {
      assert a.buckets[l] == Bucket(rows, l);
    } else if l in g.buckets {
      assert l in Experiments(g);
      SelectionMeaning(curList, l, Bucket(rows, l));
    } else {
      assert l !in a.buckets;
      BucketOfUnseen(rows, l);
    }
  }

  /** Every bucket left after the selection is non-empty, and shuffling keeps that, so the
      survivor's rows are in the list. */
  lemma SurvivorHasRow(a: Catalog, shuffled: Catalog, survivor: string, list: seq<Row>)
    requires WellFormed(a) && WellFormed(shuffled) && shuffled.keys == a.keys
    requires forall l :: l in shuffled.buckets ==> multiset(shuffled.buckets[l]) == multiset(a.buckets[l])
    requires NonEmptyBuckets(a)
    requires survivor in shuffled.keys && multiset(list) == PoolOf(shuffled)
    ensures exists y :: y in list && |y| > 0 && y[0] == survivor
  {
    var b := shuffled.buckets[survivor];
    assert b[0] in multiset(a.buckets[survivor]);
    var y := [survivor] + b[0];
    PoolCount(shuffled.keys, shuffled.buckets, y);
    ConsSplit(y);
    assert y[1..] == b[0];
    assert y in multiset(list);
  }

  /** `latinSquare(curList, itemFile)` on the rows of the items file. It raises exactly the
      error the input calls for; otherwise it returns a permutation of the kept rows, in
      which only rows of one sub-experiment, the one that survived the merge, can be
      neighbours, and it warns exactly when that survivor is not Filler. */
  method LatinSquare(curList: int, stimList: seq<Row>, rng: Draws) returns (r: Result<Experiment>)
    ensures r.Err? <==> InputError(curList, stimList).Some?
    ensures r.Err? ==> r.error == InputError(curList, stimList).value
    ensures r.Ok? ==> multiset(r.value.list) == multiset(KeptRows(curList, stimList))
    ensures r.Ok? ==> |r.value.list| == |KeptRows(curList, stimList)|
    ensures r.Ok? ==> Labelled(r.value.list)
    ensures r.Ok? ==> r.value.survivor in Labels(stimList) && AdjacentOnly(r.value.list, r.value.survivor)
    ensures r.Ok? ==> (r.value.warning <==> r.value.survivor != "Filler")
    ensures r.Ok? && !r.value.warning ==> AdjacentOnly(r.value.list, "Filler")
    ensures r.Ok? ==> exists y :: y in r.value.list && |y| > 0 && y[0] == r.value.survivor
    ensures r.Ok? ==> exists looped :: SurvivorInserted(r.value.list, looped, r.value.survivor)
  {
    var grouped := GroupRows(stimList);
    if grouped.Err? {
      return Err(grouped.error);
    }
    var stimDictionary := grouped.value;
    GroupedBucketsNonEmpty(stimList);
    assert GroupedSetup(stimList);
    var chosen := AssignConditions(curList, stimDictionary);
    if chosen.Err? {
      return Err(chosen.error);
    }
    var exptItems, k := ShuffleBuckets(chosen.value, rng, 0);
    var experimentalList, warning, survivor, merged, _ := Interleave(exptItems, rng, k);
    AssignedPool(curList, stimList, chosen.value);
    assert |multiset(experimentalList)| == |experimentalList|;
    assert |multiset(KeptRows(curList, stimList))| == |KeptRows(curList, stimList)|;
    assert survivor in Labels(stimList);
    AssignedNonEmpty(curList, stimDictionary, Remove(stimDictionary.keys, "Filler"), chosen.value);
    SurvivorHasRow(chosen.value, exptItems, survivor, experimentalList);
    r := Ok(Experiment(experimentalList, warning, survivor));
  }
}
