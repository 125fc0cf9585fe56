/**
  Lines 25-43 of Deep/CSL.py: the Filler bucket is copied unchanged into
  `exptItems`, and for every other sub-experiment one condition per item is
  chosen by the Latin square, looking the item's number up in the condition
  sequence `[1..C]` repeated `N` times, offset by the list number.
 */
module ConditionAssigner {
  import opened PyBuiltins
  import opened Catalogs

  // ---------------------------------------------------------------- the condition sequence

  /** `range(1, numConditions + 1) * numItems` (line 35). */
  function CondSequence(c: int, n: int): seq<int>
  {
    Repeat(Range(1, c + 1), n)
  }

  /** The condition sequence is `[1..C]` repeated `N` times: length `C*N` and
      `C`-periodic, counting from 1. */
  lemma CondSequenceShape(c: int, n: nat)
    ensures |CondSequence(c, n)| == if c >= 1 then c * n else 0
    ensures c >= 1 ==> forall k :: 0 <= k < c * n ==> CondSequence(c, n)[k] == k % c + 1
  {
    var one := Range(1, c + 1);
    RepeatLength(one, n);
    if c >= 1 {
      forall k | 0 <= k < c * n
        ensures CondSequence(c, n)[k] == k % c + 1
      {
        RepeatAt(one, n, k);
      }
    }
  }

  /** Looking the sequence up with Python's indexing, negative positions included:
      every position it accepts gives `k mod C + 1`, `mod` taken as Python does. */
  lemma CondSequenceIndex(c: int, n: nat, k: int)
    requires c >= 1 && -(c * n) <= k < c * n
    ensures Index(CondSequence(c, n), k) == Some(k % c + 1)
  {
    CondSequenceShape(c, n);
    if k < 0 {
      var q, r := k / c, k % c;
      assert k == q * c + r;
      assert c * n + k == (q + n) * c + r;
      ModUnique(c * n + k, c, q + n, r);
    }
  }

  // ---------------------------------------------------------------- the Latin square

  /** The condition the Latin square gives item `i` on list `curList`. */
  function Owed(i: int, curList: int, c: int): (cond: int)
    requires c >= 1
    ensures 1 <= cond <= c
  {
    ((i - 1) + (curList - 1)) % c + 1
  }

  /** The next list gives every item the next condition, cyclically. */
  lemma OwedNextList(i: int, curList: int, c: int)
    requires c >= 1
    ensures Owed(i, curList + 1, c) == Owed(i, curList, c) % c + 1
  {
    var x := (i - 1) + (curList - 1);
    var q, r := x / c, x % c;
    assert x == q * c + r;
    if r + 1 < c {
      ModUnique(x + 1, c, q, r + 1);
      ModUnique(r + 1, c, 0, r + 1);
    } else {
      assert x + 1 == (q + 1) * c;
      ModUnique(x + 1, c, q + 1, 0);
      ModUnique(r + 1, c, 1, 0);
    }
  }

  /** On one list, consecutive items get consecutive conditions, cyclically. */
  lemma OwedNextItem(i: int, curList: int, c: int)
    requires c >= 1
    ensures Owed(i + 1, curList, c) == Owed(i, curList, c) % c + 1
  {
    OwedNextList(i, curList, c);
  }

  /** Across the lists `1..C`, an item is never seen twice in the same condition. */
  lemma OwedLatin(i: int, c: int)
    requires c >= 1
    ensures forall a, b :: 1 <= a <= c && 1 <= b <= c && Owed(i, a, c) == Owed(i, b, c) ==> a == b
  {
    forall a, b | 1 <= a <= c && 1 <= b <= c && Owed(i, a, c) == Owed(i, b, c)
      ensures a == b
    {
      var x, y := (i - 1) + (a - 1), (i - 1) + (b - 1);
      var p, r := y / c, y % c;
      assert y == p * c + r;
      var d := x - y;
      if d != 0 {
        if 0 <= r + d < c {
          ModUnique(x, c, p, r + d);
        } else if r + d >= c {
          ModUnique(x, c, p + 1, r + d - c);
        } else {
          ModUnique(x, c, p - 1, r + d + c);
        }
      }
    }
  }

  /** The list, among `1..C`, on which item `i` is seen in condition `cond`: with
      `OwedLatin`, every item meets every condition on exactly one list. */
  function ListFor(i: int, cond: int, c: int): (l: int)
    requires c >= 1 && 1 <= cond <= c
    ensures 1 <= l <= c && Owed(i, l, c) == cond
  {
    var l := (cond - i) % c + 1;
    var q, r := (cond - i) / c, (cond - i) % c;
    assert (i - 1) + (l - 1) == (cond - 1) + q * c * -1 + 0 by {
      assert cond - i == q * c + r;
    }
    assert (i - 1) + (l - 1) == (-q) * c + (cond - 1);
    ModUnique((i - 1) + (l - 1), c, -q, cond - 1);
    l
  }

  /** `condSequence[(item-1)+(curList-1)]` for the item numbered `k + 1`. */
  function CondAt(cs: seq<int>, curList: int, k: int): Option<int>
  {
    Index(cs, k + (curList - 1))
  }

  /** `currentItems` (line 36): the pairs `(str(i), str(condSequence[(i-1)+(curList-1)]))`
      for `i` in `1..n`, or None when one of the lookups raises IndexError. */
  function CurrentItems(cs: seq<int>, curList: int, n: int): Option<seq<(string, string)>>
    decreases n
  {
    if n <= 0 then Some([])
    else
      match (CurrentItems(cs, curList, n - 1), CondAt(cs, curList, n - 1))
      case (Some(prev), Some(v)) => Some(prev + [(Str(n), Str(v))])
      case _ => None
  }

  /** The lookups fail exactly when the last one runs off the end or the first one
      runs off the front: the sequence has no wraparound. */
  lemma {:induction false} CurrentItemsDefined(cs: seq<int>, curList: int, n: int)
    requires n >= 1
    ensures CurrentItems(cs, curList, n).Some? <==> -|cs| <= curList - 1 && n + curList - 2 < |cs|
  {
    if n > 1 {
      CurrentItemsDefined(cs, curList, n - 1);
    }
  }

  /** Entry `k` pairs the id `k + 1` with the condition found at offset `k + curList - 1`. */
  lemma {:induction false} CurrentItemsEntries(cs: seq<int>, curList: int, n: nat)
    requires CurrentItems(cs, curList, n).Some?
    ensures |CurrentItems(cs, curList, n).value| == n
    ensures forall k :: 0 <= k < n ==>
      CondAt(cs, curList, k).Some? &&
      CurrentItems(cs, curList, n).value[k] == (Str(k + 1), Str(CondAt(cs, curList, k).value))
  {
    if n > 0 {
      CurrentItemsLast(cs, curList, n);
      CurrentItemsEntries(cs, curList, n - 1);
      var items := CurrentItems(cs, curList, n).value;
      var prev := CurrentItems(cs, curList, n - 1).value;
      forall k | 0 <= k < n
        ensures CondAt(cs, curList, k).Some? && items[k] == (Str(k + 1), Str(CondAt(cs, curList, k).value))
      {
        if k < n - 1 {
          assert items[k] == prev[k];
        }
      }
    }
  }

  /** The last lookup of a defined `currentItems` adds its last pair. */
  lemma CurrentItemsLast(cs: seq<int>, curList: int, n: nat)
    requires n > 0 && CurrentItems(cs, curList, n).Some?
    ensures CurrentItems(cs, curList, n - 1).Some? && CondAt(cs, curList, n - 1).Some?
    ensures CurrentItems(cs, curList, n).value ==
      CurrentItems(cs, curList, n - 1).value + [(Str(n), Str(CondAt(cs, curList, n - 1).value))]
  {
  }

  /** With the condition sequence of line 35, `currentItems` is defined exactly when
      `curList - 1` and `N + curList - 2` both index it, and then lists item `i`
      with the condition the Latin square owes it. */
  lemma LatinSquareItems(c: int, n: nat, curList: int)
    requires n >= 1
    ensures CurrentItems(CondSequence(c, n), curList, n).Some? <==>
      c >= 1 && -(c * n) <= curList - 1 && n + curList - 2 < c * n
    ensures CurrentItems(CondSequence(c, n), curList, n).Some? ==>
      var items := CurrentItems(CondSequence(c, n), curList, n).value;
      |items| == n && forall k :: 0 <= k < n ==> items[k] == (Str(k + 1), Str(Owed(k + 1, curList, c)))
  {
    var cs := CondSequence(c, n);
    CondSequenceShape(c, n);
    CurrentItemsDefined(cs, curList, n);
    if CurrentItems(cs, curList, n).Some? {
      CurrentItemsEntries(cs, curList, n);
      forall k | 0 <= k < n
        ensures CurrentItems(cs, curList, n).value[k] == (Str(k + 1), Str(Owed(k + 1, curList, c)))
      {
        CondAtOwed(c, n, curList, k);
      }
    }
  }

  /** A lookup of line 36 that succeeds finds the condition owed to the item. */
  lemma CondAtOwed(c: int, n: nat, curList: int, k: int)
    requires CondAt(CondSequence(c, n), curList, k).Some?
    ensures c >= 1 && CondAt(CondSequence(c, n), curList, k) == Some(Owed(k + 1, curList, c))
  {
    CondSequenceShape(c, n);
    CondSequenceIndex(c, n, k + (curList - 1));
  }

  lemma {:induction false} MulGrow(c: int, n: int)
    requires c >= 1 && n >= 1
    ensures c * n >= c + n - 1
  {
    if n > 1 {
      MulGrow(c, n - 1);
      assert c * n == c * (n - 1) + c;
    }
  }

  /** On a list numbered `1..C` the lookup never runs off the sequence. */
  lemma ListInRange(c: int, n: nat, curList: int)
    requires n >= 1 && 1 <= curList <= c
    ensures CurrentItems(CondSequence(c, n), curList, n).Some?
  {
    LatinSquareItems(c, n, curList);
    MulGrow(c, n);
  }

  /** A pair is current exactly when it names an item `i` in `1..n` and the condition owed to it. */
  lemma CurrentItemsMembers(c: int, n: nat, curList: int, a: string, b: string)
    requires n >= 1 && CurrentItems(CondSequence(c, n), curList, n).Some?
    ensures c >= 1
    ensures (a, b) in CurrentItems(CondSequence(c, n), curList, n).value <==>
      exists i :: 1 <= i <= n && a == Str(i) && b == Str(Owed(i, curList, c))
  {
    LatinSquareItems(c, n, curList);
    var items := CurrentItems(CondSequence(c, n), curList, n).value;
    if (a, b) in items {
      var k :| 0 <= k < |items| && items[k] == (a, b);
      assert 1 <= k + 1 <= n && a == Str(k + 1) && b == Str(Owed(k + 1, curList, c));
    }
    if exists i :: 1 <= i <= n && a == Str(i) && b == Str(Owed(i, curList, c)) {
      var i :| 1 <= i <= n && a == Str(i) && b == Str(Owed(i, curList, c));
      assert items[i - 1] == (a, b);
    }
  }

  /** `currentItems` names one condition per item id. */
  lemma CurrentItemsOneCondition(c: int, n: nat, curList: int, a: string, b1: string, b2: string)
    requires n >= 1 && CurrentItems(CondSequence(c, n), curList, n).Some?
    requires (a, b1) in CurrentItems(CondSequence(c, n), curList, n).value
    requires (a, b2) in CurrentItems(CondSequence(c, n), curList, n).value
    ensures b1 == b2
  {
    CurrentItemsMembers(c, n, curList, a, b1);
    CurrentItemsMembers(c, n, curList, a, b2);
    var i1 :| 1 <= i1 <= n && a == Str(i1) && b1 == Str(Owed(i1, curList, c));
    var i2 :| 1 <= i2 <= n && a == Str(i2) && b2 == Str(Owed(i2, curList, c));
    StrInjective(i1, i2);
  }

  lemma CurrentItemsExample()
    ensures CurrentItems(CondSequence(2, 4), 2, 4) ==
      Some([("1", "2"), ("2", "1"), ("3", "2"), ("4", "1")])
  {
    LatinSquareItems(2, 4, 2);
    var items := CurrentItems(CondSequence(2, 4), 2, 4).value;
    assert Str(1) == "1" && Str(2) == "2" && Str(3) == "3" && Str(4) == "4";
    assert items == [("1", "2"), ("2", "1"), ("3", "2"), ("4", "1")];
  }

  // ---------------------------------------------------------------- one sub-experiment

  /** Every record has the condition field `item[1]` that line 33 reads. */
  predicate AllHaveCondition(records: seq<Record>)
  {
    forall i :: 0 <= i < |records| ==> |records[i]| >= 2
  }

  /** `[item[1] for item in stimDictionary[expt]]` (line 33). */
  function Conditions(records: seq<Record>): seq<string>
    requires AllHaveCondition(records)
  {
    seq(|records|, i requires 0 <= i < |records| => records[i][1])
  }

  /** `int(max(...))` of line 33: the number of conditions, read off the condition that
      is largest AS A STRING. */
  function ConditionCount(expt: string, records: seq<Record>): (r: Result<int>)
    requires |records| > 0
    ensures r == Err(MissingCondition(expt)) <==> !AllHaveCondition(records)
    ensures r.Ok? ==> AllHaveCondition(records) && exists i :: (0 <= i < |records| && Int(records[i][1]) == Some(r.value) &&
        forall j :: 0 <= j < |records| ==> !LexLess(records[i][1], records[j][1]))
    ensures r.Err? && AllHaveCondition(records) ==>
      r.error.BadConditionCount? && r.error.expt == expt && Int(r.error.text) == None &&
      r.error.text in Conditions(records) &&
      forall j :: 0 <= j < |records| ==> !LexLess(r.error.text, records[j][1])
  {
    if !AllHaveCondition(records) then Err(MissingCondition(expt))
    else
      var conds := Conditions(records);
      var top := Max(conds);
      MaxWitness(records, top);
      match Int(top)
      case None => Err(BadConditionCount(expt, top))
      case Some(c) => Ok(c)
  }

  lemma MaxWitness(records: seq<Record>, top: string)
    requires |records| > 0 && AllHaveCondition(records) && top == Max(Conditions(records))
    ensures exists i :: (0 <= i < |records| && records[i][1] == top &&
      forall j :: 0 <= j < |records| ==> !LexLess(records[i][1], records[j][1]))
  {
    var conds := Conditions(records);
    var i :| 0 <= i < |conds| && conds[i] == top;
    assert forall j :: 0 <= j < |records| ==> records[j][1] == conds[j] && conds[j] in conds;
  }

  /** The count is `int()` of whichever condition is largest as a string: it is Ok exactly
      when that condition parses, and otherwise names it. */
  lemma ConditionCountOfMaximum(expt: string, records: seq<Record>, i: nat)
    requires AllHaveCondition(records) && i < |records|
    requires forall j :: 0 <= j < |records| ==> !LexLess(records[i][1], records[j][1])
    ensures ConditionCount(expt, records) ==
      match Int(records[i][1])
      case None => Err(BadConditionCount(expt, records[i][1]))
      case Some(c) => Ok(c)
  {
    var conds := Conditions(records);
    var top := Max(conds);
    assert records[i][1] == conds[i];
    var k :| 0 <= k < |conds| && conds[k] == top;
    LexLessTotal(top, records[i][1]);
  }

  /** The maximum is a string maximum: a condition "9" outranks a condition "10". */
  lemma ConditionCountExample()
    ensures ConditionCount("E", [["1", "9"], ["2", "10"]]) == Ok(9)
  {
    var records := [["1", "9"], ["2", "10"]];
    assert Conditions(records) == ["9", "10"];
    MaxIsNotNumeric();
    IntOfDigits(9);
    assert Digits(9) == "9";
  }

  /** The records whose `tuple(item[0:2])` is one of the current pairs (lines 41-42). */
  function Selected(records: seq<Record>, items: seq<(string, string)>): seq<Record>
    requires AllHaveCondition(records)
  {
    if records == [] then []
    else
      var init, x := records[..|records| - 1], records[|records| - 1];
      var s := Selected(init, items);
      if (x[0], x[1]) in items then s + [x] else s
  }

  /** A record is selected as often as it occurs in the input when its pair is current, else never. */
  lemma {:induction false} SelectedCount(records: seq<Record>, items: seq<(string, string)>, x: Record)
    requires AllHaveCondition(records)
    ensures multiset(Selected(records, items))[x] ==
      if |x| >= 2 && (x[0], x[1]) in items then multiset(records)[x] else 0
  {
    if records != [] {
      var init, y := records[..|records| - 1], records[|records| - 1];
      assert records == init + [y];
      SelectedCount(init, items, x);
    }
  }

  /** Selection keeps the input order. */
  lemma {:induction false} SelectedInOrder(records: seq<Record>, items: seq<(string, string)>)
    requires AllHaveCondition(records)
    ensures IsSubseq(Selected(records, items), records)
  {
    if records == [] {
      IsSubseqRefl(records);
    } else {
      var init, x := records[..|records| - 1], records[|records| - 1];
      assert records == init + [x];
      SelectedInOrder(init, items);
      if (x[0], x[1]) in items {
        IsSubseqSnocBoth(Selected(init, items), init, x);
      } else {
        IsSubseqSnocRight(Selected(init, items), init, x);
      }
    }
  }

  /** What lines 33-43 produce for one sub-experiment, or the error they raise. */
  function Selection(curList: int, expt: string, records: seq<Record>): Result<seq<Record>>
    requires |records| > 0
  {
    match ConditionCount(expt, records)
    case Err(e) => Err(e)
    case Ok(c) =>
      match CurrentItems(CondSequence(c, |records|), curList, |records|)
      case None => Err(ConditionOutOfRange(expt))
      case Some(items) => Ok(Selected(records, items))
  }

  /** The condition the Latin square on list `curList` owes the item a record names,
      given `C` conditions: the record names an item `1..n` by its exact decimal
      numeral and carries the owed condition's numeral. */
  predicate Owes(x: Record, curList: int, c: int, n: int)
    requires c >= 1
  {
    |x| >= 2 && exists i :: 1 <= i <= n && x[0] == Str(i) && x[1] == Str(Owed(i, curList, c))
  }

  /** The selection succeeds exactly when the records all have a condition, the largest
      condition parses as an integer `C`, and the lookups stay inside the sequence; it then
      keeps, with their multiplicity, exactly the records the Latin square owes. */
  lemma SelectionMeaning(curList: int, expt: string, records: seq<Record>)
    requires |records| > 0
    ensures Selection(curList, expt, records).Ok? <==>
      ConditionCount(expt, records).Ok? &&
      var c, n := ConditionCount(expt, records).value, |records|;
      c >= 1 && -(c * n) <= curList - 1 && n + curList - 2 < c * n
    ensures ConditionCount(expt, records).Err? ==>
      Selection(curList, expt, records) == Err(ConditionCount(expt, records).error)
    ensures ConditionCount(expt, records).Ok? && Selection(curList, expt, records).Err? ==>
      Selection(curList, expt, records) == Err(ConditionOutOfRange(expt))
    ensures Selection(curList, expt, records).Ok? ==>
      var c := ConditionCount(expt, records).value;
      c >= 1 &&
      forall x :: multiset(Selection(curList, expt, records).value)[x] ==
        if Owes(x, curList, c, |records|) then multiset(records)[x] else 0
  {
    if ConditionCount(expt, records).Ok? {
      var c, n := ConditionCount(expt, records).value, |records|;
      LatinSquareItems(c, n, curList);
      if Selection(curList, expt, records).Ok? {
        var items := CurrentItems(CondSequence(c, n), curList, n).value;
        forall x
          ensures multiset(Selected(records, items))[x] ==
            if Owes(x, curList, c, n) then multiset(records)[x] else 0
        {
          SelectedCount(records, items, x);
          if |x| >= 2 {
            CurrentItemsMembers(c, n, curList, x[0], x[1]);
          }
        }
      }
    }
  }

  /** Within a selection every item id carries a single condition. */
  lemma SelectionOneCondition(curList: int, expt: string, records: seq<Record>, x: Record, y: Record)
    requires |records| > 0 && Selection(curList, expt, records).Ok?
    requires x in Selection(curList, expt, records).value && y in Selection(curList, expt, records).value
    ensures |x| >= 2 && |y| >= 2
    ensures x[0] == y[0] ==> x[1] == y[1]
  {
    var c, n := ConditionCount(expt, records).value, |records|;
    var items := CurrentItems(CondSequence(c, n), curList, n).value;
    SelectedCount(records, items, x);
    SelectedCount(records, items, y);
    if x[0] == y[0] {
      CurrentItemsOneCondition(c, n, curList, x[0], x[1], y[1]);
    }
  }

  /** The selection is a subsequence of the sub-experiment's records. */
  lemma SelectionInOrder(curList: int, expt: string, records: seq<Record>)
    requires |records| > 0 && Selection(curList, expt, records).Ok?
    ensures IsSubseq(Selection(curList, expt, records).value, records)
  {
    var c, n := ConditionCount(expt, records).value, |records|;
    SelectedInOrder(records, CurrentItems(CondSequence(c, n), curList, n).value);
  }

  // ---------------------------------------------------------------- all sub-experiments

  /** Every bucket is non-empty, as grouping leaves them. */
  predicate NonEmptyBuckets(c: Catalog)
  {
    forall l :: l in c.buckets ==> |c.buckets[l]| > 0
  }

  /** The outcome of lines 33-43 for each sub-experiment of `es`, in order. */
  function Outcomes(curList: int, g: Catalog, es: seq<string>): seq<Result<seq<Record>>>
    requires NonEmptyBuckets(g) && forall l :: l in es ==> l in g.buckets
  {
    seq(|es|, i requires 0 <= i < |es| => Selection(curList, es[i], g.buckets[es[i]]))
  }

  /** The error of the first failing outcome, as a loop that stops at the first exception meets it. */
  function FirstError<T>(rs: seq<Result<T>>): Option<Error>
  {
    if rs == [] then None
    else
      var prev := FirstError(rs[..|rs| - 1]);
      if prev.Some? then prev
      else
        match rs[|rs| - 1]
        case Err(e) => Some(e)
        case Ok(_) => None
  }

  /** No error means every outcome is a success. */
  lemma {:induction false} FirstErrorNone<T>(rs: seq<Result<T>>)
    ensures FirstError(rs).None? <==> forall i :: 0 <= i < |rs| ==> rs[i].Ok?
  {
    if rs != [] {
      var init := rs[..|rs| - 1];
      FirstErrorNone(init);
      assert forall j :: 0 <= j < |init| ==> init[j] == rs[j];
    }
  }

  /** The error reported is that of the first failing outcome. */
  lemma {:induction false} FirstErrorAt<T>(rs: seq<Result<T>>, e: nat)
    requires e < |rs| && rs[e].Err?
    requires forall j :: 0 <= j < e ==> rs[j].Ok?
    ensures FirstError(rs) == Some(rs[e].error)
  {
    var init := rs[..|rs| - 1];
    assert forall j :: 0 <= j < |init| ==> init[j] == rs[j];
    if e < |rs| - 1 {
      FirstErrorAt(init, e);
    } else {
      FirstErrorNone(init);
    }
  }

  /** An error reported is the error of some outcome all of whose predecessors succeed. */
  lemma FirstErrorSome<T>(rs: seq<Result<T>>)
    requires FirstError(rs).Some?
    ensures exists e :: (0 <= e < |rs| && rs[e] == Err(FirstError(rs).value) &&
      forall j :: 0 <= j < e ==> rs[j].Ok?)
  {
    FirstErrorNone(rs);
    var e := FirstErr(rs, 0);
    FirstErrorAt(rs, e);
  }

  /** The position of the first failing outcome at or after `from`, when every earlier one succeeds. */
  function FirstErr<T>(rs: seq<Result<T>>, from: nat): (e: nat)
    requires from <= |rs| && exists i :: from <= i < |rs| && rs[i].Err?
    requires forall j :: 0 <= j < from ==> rs[j].Ok?
    ensures from <= e < |rs| && rs[e].Err? && forall j :: 0 <= j < e ==> rs[j].Ok?
    decreases |rs| - from
  {
    if rs[from].Err? then from else FirstErr(rs, from + 1)
  }

  /** The error of the first sub-experiment, in the order `es`, whose selection fails. */
  function FirstFailure(curList: int, g: Catalog, es: seq<string>): Option<Error>
    requires NonEmptyBuckets(g) && forall l :: l in es ==> l in g.buckets
  {
    FirstError(Outcomes(curList, g, es))
  }

  /** The loop of line 32 reports the error of a sub-experiment whose selection fails
      while every sub-experiment before it in `es` succeeds; and such a failure is always
      the one reported. */
  lemma FirstFailureNames(curList: int, g: Catalog, es: seq<string>)
    requires NonEmptyBuckets(g) && forall l :: l in es ==> l in g.buckets
    ensures FirstFailure(curList, g, es).Some? <==>
      exists e :: 0 <= e < |es| && Selection(curList, es[e], g.buckets[es[e]]).Err?
    ensures FirstFailure(curList, g, es).Some? ==>
      exists e :: 0 <= e < |es| && Selection(curList, es[e], g.buckets[es[e]]) == Err(FirstFailure(curList, g, es).value) &&
        forall j :: 0 <= j < e ==> Selection(curList, es[j], g.buckets[es[j]]).Ok?
  {
    var rs := Outcomes(curList, g, es);
    FirstErrorNone(rs);
    assert forall i :: 0 <= i < |es| ==> rs[i] == Selection(curList, es[i], g.buckets[es[i]]);
    if FirstFailure(curList, g, es).Some? {
      FirstErrorSome(rs);
    }
  }

  /** The part of one sub-experiment in `exptItems` once its records have been scanned. */
  function WithSelection(c: Catalog, expt: string, sel: seq<Record>): Catalog
  {
    if sel == [] then c else Catalog(c.keys + [expt], c.buckets[expt := sel])
  }

  lemma WithSelectionSnoc(c: Catalog, expt: string, sel: seq<Record>, x: Record)
    requires expt !in c.buckets
    ensures SetDefaultAppend(WithSelection(c, expt, sel), expt, x) == WithSelection(c, expt, sel + [x])
  {
    if sel != [] {
      assert c.buckets[expt := sel][expt := sel + [x]] == c.buckets[expt := sel + [x]];
    } else {
      assert sel + [x] == [x];
    }
  }

  /** Lines 41-43: every record whose pair is current is appended to `exptItems[expt]`. */
  method AppendSelected(exptItems: Catalog, expt: string, records: seq<Record>, currentItems: seq<(string, string)>)
      returns (r: Catalog)
    requires AllHaveCondition(records) && expt !in exptItems.buckets
    ensures r == WithSelection(exptItems, expt, Selected(records, currentItems))
  {
    r := exptItems;
    var j := 0;
    while j < |records|
      invariant 0 <= j <= |records|
      invariant r == WithSelection(exptItems, expt, Selected(records[..j], currentItems))
    {
      var item := records[j];
      assert records[..j + 1][..j] == records[..j];
      if (item[0], item[1]) in currentItems {
        WithSelectionSnoc(exptItems, expt, Selected(records[..j], currentItems), item);
        r := SetDefaultAppend(r, expt, item);
      }
      j := j + 1;
    }
    assert records[..j] == records;
  }

  /** What `exptItems` holds once the sub-experiments `es` are done: the Filler bucket
      unchanged (the Filler rows are never Latin-squared) and, for every sub-experiment,
      exactly its selection when that is non-empty. */
  predicate Assigned(curList: int, g: Catalog, es: seq<string>, items: Catalog)
    requires NonEmptyBuckets(g) && "Filler" in g.buckets && forall l :: l in es ==> l in g.buckets
  {
    && WellFormed(items)
    && |items.keys| > 0 && items.keys[0] == "Filler"
    && "Filler" in items.buckets && items.buckets["Filler"] == g.buckets["Filler"]
    && (forall l :: l in items.buckets ==> l == "Filler" || l in es)
    && forall l :: l in es ==>
         && Selection(curList, l, g.buckets[l]).Ok?
         && var sel := Selection(curList, l, g.buckets[l]).value;
            (l in items.buckets <==> sel != []) && (l in items.buckets ==> items.buckets[l] == sel)
  }

  /** No bucket the selection keeps is empty. */
  lemma AssignedNonEmpty(curList: int, g: Catalog, es: seq<string>, items: Catalog)
    requires NonEmptyBuckets(g) && "Filler" in g.buckets && forall l :: l in es ==> l in g.buckets
    requires Assigned(curList, g, es, items)
    ensures NonEmptyBuckets(items)
  {
    forall l | l in items.buckets
      ensures |items.buckets[l]| > 0
    {
      if l != "Filler" {
        assert l in es;
      }
    }
  }

  /** Lines 29-30: every Filler row goes, in order, into `exptItems['Filler']`. */
  method CopyFiller(fillers: seq<Record>) returns (exptItems: Catalog)
    ensures exptItems == if fillers == [] then Catalog([], map[]) else Catalog(["Filler"], map["Filler" := fillers])
  {
    exptItems := Catalog([], map[]);
    for i := 0 to |fillers|
      invariant exptItems == WithSelection(Catalog([], map[]), "Filler", fillers[..i])
    {
      WithSelectionSnoc(Catalog([], map[]), "Filler", fillers[..i], fillers[i]);
      assert fillers[..i + 1] == fillers[..i] + [fillers[i]];
      exptItems := SetDefaultAppend(exptItems, "Filler", fillers[i]);
    }
    assert fillers[..|fillers|] == fillers;
  }

  /** Lines 33-43 for one sub-experiment: the number of conditions and items, the
      current pairs, and the records whose pair is current appended to `exptItems[expt]`. */
  method AssignExperiment(curList: int, expt: string, records: seq<Record>, exptItems: Catalog)
      returns (r: Result<Catalog>)
    requires |records| > 0 && expt !in exptItems.buckets
    ensures r.Err? <==> Selection(curList, expt, records).Err?
    ensures r.Err? ==> r.error == Selection(curList, expt, records).error
    ensures r.Ok? ==> r.value == WithSelection(exptItems, expt, Selection(curList, expt, records).value)
  {
    var numConditions := ConditionCount(expt, records);
    if numConditions.Err? {
      return Err(numConditions.error);
    }
    var numItems := |records|;
    var condSequence := CondSequence(numConditions.value, numItems);
    var currentItems := CurrentItems(condSequence, curList, numItems);
    if currentItems.None? {
      return Err(ConditionOutOfRange(expt));
    }
    var items := AppendSelected(exptItems, expt, records, currentItems.value);
    r := Ok(items);
  }

  /** Lines 25-43. A missing Filler label fails first; otherwise the error of the first
      failing sub-experiment is raised, or every sub-experiment is assigned. */
  method AssignConditions(curList: int, stimDictionary: Catalog) returns (r: Result<Catalog>)
    requires WellFormed(stimDictionary) && NonEmptyBuckets(stimDictionary)
    ensures "Filler" !in stimDictionary.buckets ==> r == Err(MissingFiller)
    ensures "Filler" in stimDictionary.buckets ==>
      var es := Remove(stimDictionary.keys, "Filler");
      && (forall l :: l in es ==> l in stimDictionary.buckets && l != "Filler")
      && (r.Err? <==> FirstFailure(curList, stimDictionary, es).Some?)
      && (r.Err? ==> r.error == FirstFailure(curList, stimDictionary, es).value)
      && (r.Ok? ==> Assigned(curList, stimDictionary, es, r.value))
  {
    if "Filler" !in stimDictionary.buckets {
      return Err(MissingFiller);
    }
    var experiments := Remove(stimDictionary.keys, "Filler");
    RemoveDistinct(stimDictionary.keys, "Filler");
    var exptItems := CopyFiller(stimDictionary.buckets["Filler"]);
    AssignedStart(curList, stimDictionary, experiments, exptItems);
    r := AssignAll(curList, stimDictionary, experiments, exptItems);
  }

  /** Lines 32-43: the sub-experiments in order, stopping at the first that fails. */
  method AssignAll(curList: int, g: Catalog, experiments: seq<string>, fillers: Catalog) returns (r: Result<Catalog>)
    requires NonEmptyBuckets(g) && "Filler" in g.buckets
    requires Distinct(experiments) && forall l :: l in experiments ==> l in g.buckets && l != "Filler"
    requires Assigned(curList, g, experiments[..0], fillers)
    ensures r.Err? <==> FirstFailure(curList, g, experiments).Some?
    ensures r.Err? ==> r.error == FirstFailure(curList, g, experiments).value
    ensures r.Ok? ==> Assigned(curList, g, experiments, r.value)
  {
    ghost var outcomes := Outcomes(curList, g, experiments);
    var exptItems := fillers;
    for e := 0 to |experiments|
      invariant forall j :: 0 <= j < e ==> outcomes[j].Ok?
      invariant Assigned(curList, g, experiments[..e], exptItems)
    {
      var expt := experiments[e];
      assert outcomes[e] == Selection(curList, expt, g.buckets[expt]);
      UnseenExperiment(curList, g, experiments, e, exptItems);
      var next := AssignExperiment(curList, expt, g.buckets[expt], exptItems);
      if next.Err? {
        FirstErrorAt(outcomes, e);
        return next;
      }
      AssignedStep(curList, g, experiments, e, exptItems, next.value);
      exptItems := next.value;
    }
    FirstErrorNone(outcomes);
    assert experiments[..|experiments|] == experiments;
    r := Ok(exptItems);
  }

  lemma AssignedStart(curList: int, g: Catalog, es: seq<string>, items: Catalog)
    requires NonEmptyBuckets(g) && "Filler" in g.buckets && forall l :: l in es ==> l in g.buckets
    requires items == Catalog(["Filler"], map["Filler" := g.buckets["Filler"]])
    ensures Assigned(curList, g, es[..0], items)
  {
    assert es[..0] == [];
  }

  /** The next sub-experiment has no bucket yet: the labels are distinct and differ from Filler. */
  lemma UnseenExperiment(curList: int, g: Catalog, es: seq<string>, e: nat, items: Catalog)
    requires NonEmptyBuckets(g) && "Filler" in g.buckets && forall l :: l in es ==> l in g.buckets && l != "Filler"
    requires Distinct(es) && e < |es|
    requires Assigned(curList, g, es[..e], items)
    ensures es[e] !in items.buckets
  {
    assert forall j :: 0 <= j < e ==> es[..e][j] != es[e];
  }

  lemma WithSelectionWellFormed(c: Catalog, expt: string, sel: seq<Record>)
    requires WellFormed(c) && expt !in c.buckets
    ensures WellFormed(WithSelection(c, expt, sel))
    ensures |c.keys| > 0 ==> WithSelection(c, expt, sel).keys[0] == c.keys[0]
    ensures forall l :: l in WithSelection(c, expt, sel).buckets <==> l in c.buckets || (l == expt && sel != [])
    ensures forall l :: l in c.buckets ==> WithSelection(c, expt, sel).buckets[l] == c.buckets[l]
    ensures sel != [] ==> WithSelection(c, expt, sel).buckets[expt] == sel
  {
    assert forall i :: 0 <= i < |c.keys| ==> c.keys[i] != expt;
  }

  lemma AssignedStep(curList: int, g: Catalog, es: seq<string>, e: nat, items: Catalog, next: Catalog)
    requires NonEmptyBuckets(g) && "Filler" in g.buckets && forall l :: l in es ==> l in g.buckets && l != "Filler"
    requires e < |es| && es[e] !in items.buckets
    requires Assigned(curList, g, es[..e], items)
    requires Selection(curList, es[e], g.buckets[es[e]]).Ok?
    requires next == WithSelection(items, es[e], Selection(curList, es[e], g.buckets[es[e]]).value)
    ensures Assigned(curList, g, es[..e + 1], next)
  {
    var pre, post, expt := es[..e], es[..e + 1], es[e];
    assert forall l :: l in post <==> l in pre || l == expt;
    var sel := Selection(curList, expt, g.buckets[expt]).value;
    WithSelectionWellFormed(items, expt, sel);
    forall l | l in post
      ensures Selection(curList, l, g.buckets[l]).Ok?
      ensures var s := Selection(curList, l, g.buckets[l]).value;
        (l in next.buckets <==> s != []) && (l in next.buckets ==> next.buckets[l] == s)
    {
      if l != expt {
        assert l in pre;
        KeptLabel(l, Selection(curList, l, g.buckets[l]).value, items, next);
      }
    }
  }

  lemma KeptLabel(l: string, sel: seq<Record>, items: Catalog, next: Catalog)
    requires (l in items.buckets <==> sel != []) && (l in items.buckets ==> items.buckets[l] == sel)
    requires (l in next.buckets <==> l in items.buckets) && (l in items.buckets ==> next.buckets[l] == items.buckets[l])
    ensures (l in next.buckets <==> sel != []) && (l in next.buckets ==> next.buckets[l] == sel)
  {
  }
}
