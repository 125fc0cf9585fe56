/**
  Lines 20-23 of Deep/CSL.py: the rows of the items file grouped into
  `stimDictionary`, one bucket per label, each bucket holding the rows' tails
  `item[1:]` in input order.
 */
module ItemStore {
  import opened PyBuiltins
  import opened Catalogs

  /** The labels of the rows in the order they first appear. */
  function Labels(rows: seq<Row>): (ls: seq<string>)
    ensures Distinct(ls)
    ensures forall i :: 0 <= i < |rows| && |rows[i]| > 0 ==> rows[i][0] in ls
    ensures forall l :: l in ls ==> exists i :: 0 <= i < |rows| && |rows[i]| > 0 && rows[i][0] == l
  {
    if rows == [] then []
    else
      var init := rows[..|rows| - 1];
      var ls := Labels(init);
      var r := rows[|rows| - 1];
      assert forall i :: 0 <= i < |init| ==> init[i] == rows[i];
      if |r| > 0 && r[0] !in ls then ls + [r[0]] else ls
  }

  /** `stimDictionary[l]`: the tails of the rows labelled `l`, in input order. */
  function Bucket(rows: seq<Row>, l: string): seq<Record>
  {
    if rows == [] then []
    else
      var b := Bucket(rows[..|rows| - 1], l);
      var r := rows[|rows| - 1];
      if |r| > 0 && r[0] == l then b + [r[1..]] else b
  }

  /** The dictionary that lines 20-23 build from rows that all have a label. */
  function Grouped(rows: seq<Row>): Catalog
  {
    var ls := Labels(rows);
    Catalog(ls, map l | l in ls :: Bucket(rows, l))
  }

  predicate HasEmptyRow(rows: seq<Row>)
  {
    exists i :: 0 <= i < |rows| && rows[i] == []
  }

  /** The first row that has no field, where `item[0]` raises IndexError. */
  function FirstEmptyRow(rows: seq<Row>): (i: nat)
    requires HasEmptyRow(rows)
    ensures i < |rows| && rows[i] == []
    ensures forall j :: 0 <= j < i ==> rows[j] != []
  {
    if rows[0] == [] then 0
    else
      assert HasEmptyRow(rows[1..]) by {
        var i :| 0 <= i < |rows| && rows[i] == [];
        assert rows[1..][i - 1] == [];
      }
      FirstEmptyRow(rows[1..]) + 1
  }

  /** The outcome of lines 20-23. */
  function Grouping(rows: seq<Row>): Result<Catalog>
  {
    if HasEmptyRow(rows) then Err(EmptyRow(FirstEmptyRow(rows))) else Ok(Grouped(rows))
  }

  lemma {:induction false} BucketOfUnseen(rows: seq<Row>, l: string)
    requires l !in Labels(rows)
    ensures Bucket(rows, l) == []
  {
    if rows != [] {
      var init := rows[..|rows| - 1];
      assert forall x :: x in Labels(init) ==> x in Labels(rows);
      BucketOfUnseen(init, l);
    }
  }

  /** One more row extends the dictionary exactly as `setdefault(item[0], []).append(item[1:])`. */
  lemma GroupedSnoc(rows: seq<Row>, row: Row)
    requires |row| > 0
    ensures Grouped(rows + [row]) == SetDefaultAppend(Grouped(rows), row[0], row[1..])
  {
    var all := rows + [row];
    assert all[..|all| - 1] == rows;
    var g := Grouped(rows);
    var l := row[0];
    if l !in Labels(rows) {
      BucketOfUnseen(rows, l);
    }
    var lhs := Grouped(all);
    var rhs := SetDefaultAppend(g, l, row[1..]);
    assert lhs.keys == rhs.keys;
    assert forall x :: x in lhs.buckets ==> x in rhs.buckets && lhs.buckets[x] == rhs.buckets[x];
    assert forall x :: x in rhs.buckets ==> x in lhs.buckets;
  }

  lemma FirstEmptyRowAt(rows: seq<Row>, i: nat)
    requires i < |rows| && rows[i] == []
    requires forall j :: 0 <= j < i ==> rows[j] != []
    ensures Grouping(rows) == Err(EmptyRow(i))
  {
    assert HasEmptyRow(rows);
  }

  lemma GroupedStep(rows: seq<Row>, i: nat)
    requires i < |rows| && |rows[i]| > 0
    ensures Grouped(rows[..i + 1]) == SetDefaultAppend(Grouped(rows[..i]), rows[i][0], rows[i][1..])
  {
    assert rows[..i + 1] == rows[..i] + [rows[i]];
    GroupedSnoc(rows[..i], rows[i]);
  }

  /** Lines 20-23: `stimDictionary.setdefault(item[0], []).append(item[1:])` for every row. */
  method GroupRows(stimList: seq<Row>) returns (r: Result<Catalog>)
    ensures r == Grouping(stimList)
  {
    var stimDictionary := Catalog([], map[]);
    var i := 0;
    while i < |stimList|
      invariant 0 <= i <= |stimList|
      invariant forall j :: 0 <= j < i ==> stimList[j] != []
      invariant stimDictionary == Grouped(stimList[..i])
    {
      var item := stimList[i];
      if |item| == 0 {
        FirstEmptyRowAt(stimList, i);
        return Err(EmptyRow(i));
      }
      GroupedStep(stimList, i);
      stimDictionary := SetDefaultAppend(stimDictionary, item[0], item[1..]);
      i := i + 1;
    }
    assert stimList[..i] == stimList;
    r := Ok(stimDictionary);
  }

  /** A tail occurs in the bucket of `l` exactly as often as the row `[l] + tail` occurs in the input. */
  lemma {:induction false} BucketCount(rows: seq<Row>, l: string, t: Record)
    ensures multiset(Bucket(rows, l))[t] == multiset(rows)[[l] + t]
  {
    if rows != [] {
      var init, r := rows[..|rows| - 1], rows[|rows| - 1];
      assert rows == init + [r];
      BucketCount(init, l, t);
      if |r| > 0 {
        ConsSplit(r);
      }
    }
  }

  /** Every bucket of the dictionary is non-empty. */
  lemma GroupedBucketsNonEmpty(rows: seq<Row>)
    ensures WellFormed(Grouped(rows))
    ensures forall l :: l in Grouped(rows).buckets ==> |Grouped(rows).buckets[l]| > 0
  {
    forall l | l in Labels(rows)
      ensures |Bucket(rows, l)| > 0
    {
      var i :| 0 <= i < |rows| && |rows[i]| > 0 && rows[i][0] == l;
      ConsSplit(rows[i]);
      BucketCount(rows, l, rows[i][1..]);
      assert rows[i] in multiset(rows);
    }
  }

  /** Grouping loses and duplicates nothing: putting each bucket's label back in front of
      its records gives back the input rows, as a multiset; so the bucket sizes add up
      to the number of rows. */
  lemma GroupedPool(rows: seq<Row>)
    requires !HasEmptyRow(rows)
    ensures WellFormed(Grouped(rows))
    ensures PoolOf(Grouped(rows)) == multiset(rows)
    ensures |PoolOf(Grouped(rows))| == |rows|
  {
    var g := Grouped(rows);
    GroupedBucketsNonEmpty(rows);
    forall y: Row
      ensures PoolOf(g)[y] == multiset(rows)[y]
    {
      PoolCount(g.keys, g.buckets, y);
      if |y| > 0 {
        ConsSplit(y);
        BucketCount(rows, y[0], y[1..]);
      }
      if y in rows {
        var i :| 0 <= i < |rows| && rows[i] == y;
        assert rows[i] != [];
      }
    }
    assert PoolOf(g) == multiset(rows);
  }

  /** Within a label the input order is kept: the bucket, labelled again, is a
      subsequence of the input rows. */
  lemma {:induction false} BucketInOrder(rows: seq<Row>, l: string)
    ensures IsSubseq(Tag(l, Bucket(rows, l)), rows)
  {
    if rows == [] {
      assert Tag(l, []) == [];
    } else {
      var init, r := rows[..|rows| - 1], rows[|rows| - 1];
      assert rows == init + [r];
      BucketInOrder(init, l);
      var b := Bucket(init, l);
      if |r| > 0 && r[0] == l {
        ConsSplit(r);
        TagSnoc(l, b + [r[1..]]);
        assert (b + [r[1..]])[..|b|] == b;
        IsSubseqSnocBoth(Tag(l, b), init, r);
      } else {
        IsSubseqSnocRight(Tag(l, b), init, r);
      }
    }
  }
}
