/**
  The two pure helpers of Surface/swetsSPR_surface.py: the list number a subject
  is run on (lines 80-81), which is passed to latinSquare, and `format` (lines
  37-41), which turns underscores of the items file into spaces.
 */
module SwetsSurface {
  import opened PyBuiltins
  import opened ConditionAssigner

  /** `number_lists` (line 32). */
  const NumberLists: int := 3

  /** `subject % n + ((not subject % n) * n)` (lines 80-81), `%` being Python's floor
      remainder (for a positive `n` the same as Dafny's) and `not` of an int a bool
      that counts as 0 or 1. The result lies in `1..n` for every subject number. */
  function CurrentList(subject: int, n: int): (l: int)
    requires n > 0
    ensures 1 <= l <= n
  {
    subject % n + (if subject % n == 0 then 1 else 0) * n
  }

  /** A multiple of `n` is run on list `n`. */
  lemma CurrentListMultiple(subject: int, n: int)
    requires n > 0 && subject % n == 0
    ensures CurrentList(subject, n) == n
  {
  }

  /** Any other subject is run on list `subject mod n`. */
  lemma CurrentListOther(subject: int, n: int)
    requires n > 0 && subject % n != 0
    ensures CurrentList(subject, n) == subject % n
  {
  }

  /** The expression is `(subject - 1) mod n + 1`. */
  lemma CurrentListShifted(subject: int, n: int)
    requires n > 0
    ensures CurrentList(subject, n) == (subject - 1) % n + 1
  {
    var q, r := subject / n, subject % n;
    assert subject == q * n + r;
    if r == 0 {
      ModUnique(subject - 1, n, q - 1, n - 1);
    } else {
      ModUnique(subject - 1, n, q, r - 1);
    }
  }

  /** Consecutive subjects cycle through the lists `1, 2, ..., n, 1, ...`. */
  lemma CurrentListNext(subject: int, n: int)
    requires n > 0
    ensures CurrentList(subject + 1, n) == CurrentList(subject, n) % n + 1
  {
    CurrentListShifted(subject, n);
    CurrentListShifted(subject + 1, n);
    var x := subject - 1;
    var q, r := x / n, x % n;
    assert x == q * n + r;
    if r + 1 < n {
      ModUnique(x + 1, n, q, r + 1);
      ModUnique(r + 1, n, 0, r + 1);
    } else {
      ModUnique(x + 1, n, q + 1, 0);
      ModUnique(r + 1, n, 1, 0);
    }
  }

  /** With the three lists of this experiment, every subject's list is a valid offset
      for a sub-experiment with at least three conditions: the condition lookup of
      latinSquare never runs off its sequence. */
  lemma SubjectListInRange(subject: int, c: int, n: int)
    requires n >= 1 && c >= NumberLists
    ensures CurrentItems(CondSequence(c, n), CurrentList(subject, NumberLists), n).Some?
  {
    ListInRange(c, n, CurrentList(subject, NumberLists));
  }

  /** `text.replace('_', ' ')` (line 41): every underscore becomes a space, every other
      character is kept in place. */
  function Format(text: string): (r: string)
    ensures |r| == |text|
    ensures forall i :: 0 <= i < |text| ==> r[i] == if text[i] == '_' then ' ' else text[i]
  {
    if text == [] then []
    else (if text[0] == '_' then " " else [text[0]]) + Format(text[1..])
  }

  /** The formatted text has no underscore left. */
  lemma FormatNoUnderscore(text: string)
    ensures '_' !in Format(text)
  {
    var r := Format(text);
    forall i | 0 <= i < |r|
      ensures r[i] != '_'
    {
    }
  }

  /** Text without underscores is left as it is. */
  lemma FormatClean(text: string)
    requires '_' !in text
    ensures Format(text) == text
  {
    var r := Format(text);
    assert forall i :: 0 <= i < |text| ==> text[i] != '_';
    assert |r| == |text|;
  }

  /** Formatting twice is formatting once. */
  lemma FormatIdempotent(text: string)
    ensures Format(Format(text)) == Format(text)
  {
    FormatNoUnderscore(text);
    FormatClean(Format(text));
  }

  lemma FormatExample()
    ensures Format("a_b") == "a b"
  {
    var r := Format("a_b");
    assert |r| == 3 && r[0] == 'a' && r[1] == ' ' && r[2] == 'b';
  }
}
