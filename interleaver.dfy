/**
  Lines 48-72 of Deep/CSL.py: the shuffled buckets merged into one list. The loop
  draws a sub-experiment other than the last one appended, pops the tail of its
  bucket and appends it with its label in front, or drops the sub-experiment once
  its bucket is empty, until a single sub-experiment remains; a warning is raised
  when that survivor is not Filler, and whatever is left of its bucket is
  inserted at drawn positions.
 */
module Interleaver {
  import opened PyBuiltins
  import opened PyRandom
  import opened Catalogs

  /** Every row of the list has a label in front. */
  predicate Labelled(s: seq<Row>)
  {
    forall i :: 0 <= i < |s| ==> |s[i]| > 0
  }

  /** No two neighbouring rows have the same label. */
  predicate NoAdjacentLabels(s: seq<Row>)
    requires Labelled(s)
  {
    forall i :: 0 <= i < |s| - 1 ==> s[i][0] != s[i + 1][0]
  }

  /** Neighbouring rows share a label only when that label is `l`. */
  predicate AdjacentOnly(s: seq<Row>, l: string)
    requires Labelled(s)
  {
    forall i :: 0 <= i < |s| - 1 && s[i][0] == s[i + 1][0] ==> s[i][0] == l
  }

  /** `list` is the merged list `looped` with rows of `survivor` inserted: `looped` keeps its
      order inside `list`, has no two neighbours from one sub-experiment and, unless it is
      empty, ends with a row of `survivor`, and every row `list` has beyond `looped` is a
      row of `survivor`. */
  predicate SurvivorInserted(list: seq<Row>, looped: seq<Row>, survivor: string)
  {
    && Labelled(looped) && NoAdjacentLabels(looped) && IsSubseq(looped, list)
    && (looped != [] ==> looped[|looped| - 1][0] == survivor)
    && forall y :: y in multiset(list) - multiset(looped) ==> |y| > 0 && y[0] == survivor
  }

  lemma NoAdjacentIsAdjacentOnly(s: seq<Row>, l: string)
    requires Labelled(s) && NoAdjacentLabels(s)
    ensures AdjacentOnly(s, l)
  {
  }

  // ---------------------------------------------------------------- the main loop (lines 50-65)

  /** What the loop of lines 56-65 keeps true of `experimentalList` (`looped`),
      `lastExpt`, `remainingExpts` and the buckets it pops from. */
  predicate Merging(c: Catalog, looped: seq<Row>, lastExpt: string, remaining: seq<string>,
                    buckets: map<string, seq<Record>>)
    requires WellFormed(c)
  {
    && Distinct(remaining) && |remaining| >= 1
    && (forall l :: l in remaining ==> l in c.buckets)
    && buckets.Keys == c.buckets.Keys
    // a sub-experiment is dropped only once its bucket is empty
    && (forall l :: l in c.buckets && l !in remaining ==> buckets[l] == [])
    // buckets are only popped from the tail
    && (forall l :: l in c.buckets ==> |buckets[l]| <= |c.buckets[l]| && buckets[l] == c.buckets[l][..|buckets[l]|])
    // nothing is lost or duplicated
    && multiset(looped) + Pool(c.keys, buckets) == PoolOf(c)
    && Labelled(looped) && NoAdjacentLabels(looped)
    && (looped != [] ==> looped[|looped| - 1][0] == lastExpt)
    // the last sub-experiment appended is never drawn again, so it is never dropped
    && (looped != [] ==> lastExpt in remaining)
  }

  lemma MergingStart(c: Catalog)
    requires WellFormed(c) && |c.keys| > 0
    ensures Merging(c, [], "NA", c.keys, c.buckets)
  {
    assert c.keys[0] in c.keys;
  }

  lemma MergingBound(c: Catalog, looped: seq<Row>, lastExpt: string, remaining: seq<string>,
                     buckets: map<string, seq<Record>>)
    requires WellFormed(c) && Merging(c, looped, lastExpt, remaining, buckets)
    ensures |looped| <= |PoolOf(c)|
  {
    assert |multiset(looped) + Pool(c.keys, buckets)| == |looped| + |Pool(c.keys, buckets)|;
  }

  /** `experimentalList.append([tryExpt] + exptItems[tryExpt].pop())` keeps the loop's invariant. */
  lemma PopStep(c: Catalog, looped: seq<Row>, lastExpt: string, remaining: seq<string>,
                buckets: map<string, seq<Record>>, tryExpt: string)
    requires WellFormed(c) && Merging(c, looped, lastExpt, remaining, buckets)
    requires tryExpt in remaining && tryExpt != lastExpt && |buckets[tryExpt]| > 0
    ensures var b := buckets[tryExpt];
      Merging(c, looped + [[tryExpt] + b[|b| - 1]], tryExpt, remaining, buckets[tryExpt := b[..|b| - 1]])
  {
    var b := buckets[tryExpt];
    var row := [tryExpt] + b[|b| - 1];
    var popped := buckets[tryExpt := b[..|b| - 1]];
    PopCount(c, looped, buckets, tryExpt);
    PopPrefix(c, buckets, tryExpt);
    PopOrder(looped, lastExpt, row);
  }

  lemma PopCount(c: Catalog, looped: seq<Row>, buckets: map<string, seq<Record>>, tryExpt: string)
    requires WellFormed(c) && buckets.Keys == c.buckets.Keys && tryExpt in c.buckets && |buckets[tryExpt]| > 0
    requires multiset(looped) + Pool(c.keys, buckets) == PoolOf(c)
    ensures var b := buckets[tryExpt];
      multiset(looped + [[tryExpt] + b[|b| - 1]]) + Pool(c.keys, buckets[tryExpt := b[..|b| - 1]]) == PoolOf(c)
  {
    var b := buckets[tryExpt];
    var row := [tryExpt] + b[|b| - 1];
    PoolPop(c.keys, buckets, tryExpt);
    assert multiset(looped + [row]) == multiset(looped) + multiset{row};
  }

  lemma PopPrefix(c: Catalog, buckets: map<string, seq<Record>>, tryExpt: string)
    requires buckets.Keys == c.buckets.Keys && tryExpt in c.buckets && |buckets[tryExpt]| > 0
    requires forall l :: l in c.buckets ==> |buckets[l]| <= |c.buckets[l]| && buckets[l] == c.buckets[l][..|buckets[l]|]
    ensures var popped := buckets[tryExpt := buckets[tryExpt][..|buckets[tryExpt]| - 1]];
      forall l :: l in c.buckets ==> |popped[l]| <= |c.buckets[l]| && popped[l] == c.buckets[l][..|popped[l]|]
  {
    var b := buckets[tryExpt];
    assert b[..|b| - 1] == c.buckets[tryExpt][..|b| - 1];
  }

  lemma PopOrder(looped: seq<Row>, lastExpt: string, row: Row)
    requires Labelled(looped) && NoAdjacentLabels(looped)
    requires looped != [] ==> looped[|looped| - 1][0] == lastExpt
    requires |row| > 0 && row[0] != lastExpt
    ensures Labelled(looped + [row]) && NoAdjacentLabels(looped + [row])
  {
    var next := looped + [row];
    assert forall i :: 0 <= i < |looped| ==> next[i] == looped[i];
  }

  /** `remainingExpts.remove(tryExpt)` of an emptied bucket keeps the loop's invariant. */
  lemma DropStep(c: Catalog, looped: seq<Row>, lastExpt: string, remaining: seq<string>,
                 buckets: map<string, seq<Record>>, tryExpt: string)
    requires WellFormed(c) && Merging(c, looped, lastExpt, remaining, buckets)
    requires tryExpt in remaining && tryExpt != lastExpt && buckets[tryExpt] == [] && |remaining| > 1
    ensures Merging(c, looped, lastExpt, Remove(remaining, tryExpt), buckets)
  {
    RemoveDistinct(remaining, tryExpt);
  }

  /** `random.choice(remainingExpts)` redrawn until it differs from `lastExpt`: a draw
      among the remaining sub-experiments other than the last one appended. */
  method ChooseExpt(remaining: seq<string>, lastExpt: string, rng: Draws, k: nat) returns (tryExpt: string)
    requires Distinct(remaining) && |remaining| > 1
    ensures tryExpt in remaining && tryExpt != lastExpt
  {
    var eligible := remaining;
    if lastExpt in remaining {
      RemoveDistinct(remaining, lastExpt);
      eligible := Remove(remaining, lastExpt);
    }
    tryExpt := eligible[RandBelow(rng, k, |eligible|)];
  }

  /** Lines 50-65. When the loop stops one sub-experiment survives; the list it built
      has no two neighbouring rows from the same sub-experiment and, unless it is empty,
      ends with a row of the survivor; every other bucket is empty, and what is left of
      the survivor's bucket is the front of that bucket. */
  method Merge(c: Catalog, rng: Draws, k0: nat)
      returns (looped: seq<Row>, remaining: seq<string>, buckets: map<string, seq<Record>>, k: nat)
    requires WellFormed(c) && |c.keys| > 0
    ensures |remaining| == 1 && remaining[0] in c.buckets && buckets.Keys == c.buckets.Keys
    ensures forall l :: l in c.buckets && l != remaining[0] ==> buckets[l] == []
    ensures var left := buckets[remaining[0]];
      |left| <= |c.buckets[remaining[0]]| && left == c.buckets[remaining[0]][..|left|]
    ensures multiset(looped) + Pool(c.keys, buckets) == PoolOf(c)
    ensures Labelled(looped) && NoAdjacentLabels(looped)
    ensures looped != [] ==> looped[|looped| - 1][0] == remaining[0]
  {
    looped := [];
    var lastExpt := "NA";
    remaining := c.keys;
    buckets := c.buckets;
    k := k0;
    MergingStart(c);
    while |remaining| > 1
      invariant Merging(c, looped, lastExpt, remaining, buckets)
      decreases |PoolOf(c)| - |looped|, |remaining|
    {
      MergingBound(c, looped, lastExpt, remaining, buckets);
      var tryExpt := ChooseExpt(remaining, lastExpt, rng, k);
      k := k + 1;
      if |buckets[tryExpt]| > 0 {
        var b := buckets[tryExpt];
        PopStep(c, looped, lastExpt, remaining, buckets, tryExpt);
        looped := looped + [[tryExpt] + b[|b| - 1]];
        buckets := buckets[tryExpt := b[..|b| - 1]];
        lastExpt := tryExpt;
        MergingBound(c, looped, lastExpt, remaining, buckets);
      } else {
        DropStep(c, looped, lastExpt, remaining, buckets, tryExpt);
        remaining := Remove(remaining, tryExpt);
      }
    }
    MergedEnd(c, looped, lastExpt, remaining, buckets);
  }

  lemma MergedEnd(c: Catalog, looped: seq<Row>, lastExpt: string, remaining: seq<string>,
                  buckets: map<string, seq<Record>>)
    requires WellFormed(c) && Merging(c, looped, lastExpt, remaining, buckets) && |remaining| <= 1
    ensures |remaining| == 1 && remaining[0] in c.buckets
    ensures forall l :: l in c.buckets && l != remaining[0] ==> buckets[l] == []
    ensures looped != [] ==> lastExpt == remaining[0]
  {
    assert remaining[0] in remaining;
    forall l | l in c.buckets && l != remaining[0]
      ensures buckets[l] == []
    {
      assert l !in remaining;
    }
  }

  // ---------------------------------------------------------------- the leftovers (lines 70-72)

  /** `experimentalList.insert(random.randrange(len(experimentalList) + 1), [l] + item)` for
      every record left in the survivor's bucket, front to back, from draw `k` on. */
  function InsertAll(out: seq<Row>, l: string, items: seq<Record>, rng: Draws, k: nat): seq<Row>
    decreases |items|
  {
    if items == [] then out
    else
      var p := RandBelow(rng, k, |out| + 1);
      InsertAll(Insert(out, p, [l] + items[0]), l, items[1..], rng, k + 1)
  }

  /** The leftovers, labelled, are added and nothing else changes in the multiset. */
  lemma {:induction false} InsertAllCount(out: seq<Row>, l: string, items: seq<Record>, rng: Draws, k: nat)
    ensures multiset(InsertAll(out, l, items, rng, k)) == multiset(out) + multiset(Tag(l, items))
    ensures |InsertAll(out, l, items, rng, k)| == |out| + |items|
    decreases |items|
  {
    if items != [] {
      var p := RandBelow(rng, k, |out| + 1);
      var next := Insert(out, p, [l] + items[0]);
      InsertAllCount(next, l, items[1..], rng, k + 1);
      assert InsertAll(out, l, items, rng, k) == InsertAll(next, l, items[1..], rng, k + 1);
      TagCons(l, items);
    } else {
      assert Tag(l, items) == [];
    }
  }

  /** Insertions keep every subsequence of the list, the loop's own order among them. */
  lemma {:induction false} InsertAllKeepsOrder(a: seq<Row>, out: seq<Row>, l: string, items: seq<Record>,
                                                rng: Draws, k: nat)
    requires IsSubseq(a, out)
    ensures IsSubseq(a, InsertAll(out, l, items, rng, k))
    decreases |items|
  {
    if items != [] {
      var p := RandBelow(rng, k, |out| + 1);
      var next := Insert(out, p, [l] + items[0]);
      IsSubseqInsert(a, out, p, [l] + items[0]);
      InsertAllKeepsOrder(a, next, l, items[1..], rng, k + 1);
      assert InsertAll(out, l, items, rng, k) == InsertAll(next, l, items[1..], rng, k + 1);
    }
  }

  /** Inserting a row labelled `l` can make only rows labelled `l` neighbours. */
  lemma InsertAdjacent(s: seq<Row>, l: string, p: int, x: Row)
    requires Labelled(s) && AdjacentOnly(s, l) && 0 <= p <= |s| && |x| > 0 && x[0] == l
    ensures Labelled(Insert(s, p, x)) && AdjacentOnly(Insert(s, p, x), l)
  {
    var t := Insert(s, p, x);
    assert forall i :: 0 <= i < p ==> t[i] == s[i];
    assert forall i :: p < i < |t| ==> t[i] == s[i - 1];
    forall i | 0 <= i < |t| - 1 && t[i][0] == t[i + 1][0]
      ensures t[i][0] == l
    {
      if i + 1 < p {
        assert t[i] == s[i] && t[i + 1] == s[i + 1];
      } else if p < i {
        assert t[i] == s[i - 1] && t[i + 1] == s[i];
      }
    }
  }

  lemma {:induction false} InsertAllAdjacent(out: seq<Row>, l: string, items: seq<Record>, rng: Draws, k: nat)
    requires Labelled(out) && AdjacentOnly(out, l)
    ensures Labelled(InsertAll(out, l, items, rng, k)) && AdjacentOnly(InsertAll(out, l, items, rng, k), l)
    decreases |items|
  {
    if items != [] {
      var p := RandBelow(rng, k, |out| + 1);
      var x := [l] + items[0];
      var next := Insert(out, p, x);
      InsertAdjacent(out, l, p, x);
      InsertAllAdjacent(next, l, items[1..], rng, k + 1);
      assert InsertAll(out, l, items, rng, k) == InsertAll(next, l, items[1..], rng, k + 1);
    }
  }

  /** Lines 71-72. */
  method InsertLeftovers(experimentalList: seq<Row>, survivor: string, items: seq<Record>, rng: Draws, k0: nat)
      returns (out: seq<Row>, k: nat)
    ensures out == InsertAll(experimentalList, survivor, items, rng, k0)
    ensures k == k0 + |items|
  {
    out, k := experimentalList, k0;
    for i := 0 to |items|
      invariant k == k0 + i
      invariant InsertAll(out, survivor, items[i..], rng, k) == InsertAll(experimentalList, survivor, items, rng, k0)
    {
      var p := RandBelow(rng, k, |out| + 1);
      assert items[i..][1..] == items[i + 1..];
      out := Insert(out, p, [survivor] + items[i]);
      k := k + 1;
    }
    assert items[|items|..] == [];
  }

  // ---------------------------------------------------------------- lines 48-72

  /** Lines 48-72: the merged list has exactly the labelled records of the buckets; only the
      rows of the surviving sub-experiment `remainingExpts[0]` can be neighbours, and the
      warning is raised exactly when that survivor is not Filler. Without a warning, no two
      rows of the same experimental sub-experiment are neighbours. */
  method Interleave(exptItems: Catalog, rng: Draws, k0: nat)
      returns (experimentalList: seq<Row>, warning: bool, survivor: string, ghost merged: seq<Row>, k: nat)
    requires WellFormed(exptItems) && |exptItems.keys| > 0
    ensures multiset(experimentalList) == PoolOf(exptItems)
    ensures |experimentalList| == |PoolOf(exptItems)|
    ensures Labelled(experimentalList)
    ensures survivor in exptItems.keys && AdjacentOnly(experimentalList, survivor)
    ensures warning <==> survivor != "Filler"
    ensures !warning ==> AdjacentOnly(experimentalList, "Filler")
    ensures SurvivorInserted(experimentalList, merged, survivor)
  {
    var looped, remainingExpts, buckets, k1 := Merge(exptItems, rng, k0);
    warning := "Filler" !in remainingExpts && |remainingExpts| > 0;
    survivor := remainingExpts[0];
    assert "Filler" in remainingExpts <==> survivor == "Filler";
    merged := looped;
    experimentalList, k := InsertLeftovers(looped, survivor, buckets[survivor], rng, k1);
    LeftoversPlaced(exptItems, looped, buckets, survivor, rng, k1);
  }

  lemma LeftoversPlaced(c: Catalog, looped: seq<Row>, buckets: map<string, seq<Record>>, survivor: string,
                        rng: Draws, k: nat)
    requires WellFormed(c) && survivor in c.buckets && buckets.Keys == c.buckets.Keys
    requires forall l :: l in c.buckets && l != survivor ==> buckets[l] == []
    requires multiset(looped) + Pool(c.keys, buckets) == PoolOf(c)
    requires Labelled(looped) && NoAdjacentLabels(looped)
    ensures var out := InsertAll(looped, survivor, buckets[survivor], rng, k);
      && multiset(out) == PoolOf(c) && |out| == |PoolOf(c)|
      && Labelled(out) && AdjacentOnly(out, survivor)
      && IsSubseq(looped, out)
      && forall y :: y in multiset(out) - multiset(looped) ==> |y| > 0 && y[0] == survivor
  {
    var out := InsertAll(looped, survivor, buckets[survivor], rng, k);
    PoolOnly(c.keys, buckets, survivor);
    InsertAllCount(looped, survivor, buckets[survivor], rng, k);
    NoAdjacentIsAdjacentOnly(looped, survivor);
    InsertAllAdjacent(looped, survivor, buckets[survivor], rng, k);
    IsSubseqRefl(looped);
    InsertAllKeepsOrder(looped, looped, survivor, buckets[survivor], rng, k);
    assert |multiset(out)| == |out|;
    forall y | y in multiset(out) - multiset(looped)
      ensures |y| > 0 && y[0] == survivor
    {
      TagCount(survivor, buckets[survivor], y);
    }
  }
}
