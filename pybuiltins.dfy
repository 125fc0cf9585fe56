/**
  The Python built-ins that Deep/CSL.py leans on, written out: `str` and `int` on
  decimal integers, `<` and `max` on strings, negative list indexing, `range`,
  list repetition `s * n`, `list.remove` and `list.insert`.
 */
module PyBuiltins {

  datatype Option<T> = None | Some(value: T)

  // ---------------------------------------------------------------- str(n)

  predicate IsDigit(c: char) { '0' <= c <= '9' }

  predicate AllDigits(s: string) { forall i :: 0 <= i < |s| ==> IsDigit(s[i]) }

  function DigitChar(d: nat): (c: char)
    requires d < 10
    ensures IsDigit(c)
  {
    ('0' as int + d) as char
  }

  function DigitValue(c: char): (d: nat)
    requires IsDigit(c)
    ensures d < 10
  {
    c as int - '0' as int
  }

  /** The decimal digits of `n`, without leading zeros. */
  function Digits(n: nat): (s: string)
    ensures |s| > 0 && AllDigits(s)
    ensures |s| > 1 ==> s[0] != '0'
  {
    if n < 10 then [DigitChar(n)] else Digits(n / 10) + [DigitChar(n % 10)]
  }

  /** Python's `str(n)` for an integer `n`. */
  function Str(n: int): (s: string)
    ensures |s| > 0 && (n >= 0 <==> AllDigits(s))
  {
    if n < 0 then
      var s := "-" + Digits(-n);
      assert !IsDigit(s[0]);
      s
    else Digits(n)
  }

  // ---------------------------------------------------------------- int(s)

  /** The whitespace that Python strips around the digits given to `int`. */
  predicate IsSpace(c: char)
  {
    c == ' ' || c == '\t' || c == '\n' || c == '\r' || c == '\U{0B}' || c == '\U{0C}'
  }

  function StripLeft(s: string): (r: string)
    ensures |r| <= |s|
  {
    if |s| > 0 && IsSpace(s[0]) then StripLeft(s[1..]) else s
  }

  function StripRight(s: string): (r: string)
    ensures |r| <= |s|
  {
    if |s| > 0 && IsSpace(s[|s| - 1]) then StripRight(s[..|s| - 1]) else s
  }

  /** The value of a string of decimal digits (leading zeros allowed). */
  function DigitsValue(s: string): nat
    requires AllDigits(s)
  {
    if |s| == 0 then 0 else DigitsValue(s[..|s| - 1]) * 10 + DigitValue(s[|s| - 1])
  }

  /** Python 2's `int(s)`: surrounding whitespace, an optional sign, whitespace again
      (`PyOS_strtoul` skips it after the sign), then at least one decimal digit;
      anything else raises ValueError, modelled as None. */
  function Int(s: string): Option<int>
  {
    var t := StripRight(StripLeft(s));
    if |t| > 0 && (t[0] == '-' || t[0] == '+') then
      var ds := StripLeft(t[1..]);
      if |ds| > 0 && AllDigits(ds) then
        var v: int := DigitsValue(ds);
        Some(if t[0] == '-' then -v else v)
      else None
    else if |t| > 0 && AllDigits(t) then Some(DigitsValue(t))
    else None
  }

  /** As in Python 2, blanks between the sign and the digits are accepted. */
  lemma IntSignBlank()
    ensures Int("- 5") == Some(-5) && Int(" + 2 ") == Some(2)
  {
    assert StripLeft("- 5") == "- 5";
    assert StripRight("- 5") == "- 5";
    assert "- 5"[1..] == " 5" && StripLeft(" 5") == "5";
    assert DigitsValue("5") == 5;
    assert StripLeft(" + 2 ") == "+ 2 ";
    assert StripRight("+ 2 ") == "+ 2";
    assert "+ 2"[1..] == " 2" && StripLeft(" 2") == "2";
    assert DigitsValue("2") == 2;
  }

  lemma {:induction false} DigitsValueOfDigits(n: nat)
    ensures DigitsValue(Digits(n)) == n
  {
    if n >= 10 {
      var s := Digits(n);
      assert s[..|s| - 1] == Digits(n / 10);
      DigitsValueOfDigits(n / 10);
    }
  }

  lemma StripNoSpaceEnds(s: string)
    requires |s| > 0 && !IsSpace(s[0]) && !IsSpace(s[|s| - 1])
    ensures StripRight(StripLeft(s)) == s
  {
  }

  lemma IntOfDigits(n: nat)
    ensures Int(Digits(n)) == Some(n)
  {
    var s := Digits(n);
    assert !IsSpace(s[0]) && !IsSpace(s[|s| - 1]);
    StripNoSpaceEnds(s);
    assert s[0] != '-' && s[0] != '+';
    DigitsValueOfDigits(n);
  }

  lemma StripLeftDigits(ds: string)
    requires |ds| > 0 && AllDigits(ds)
    ensures StripLeft(ds) == ds
  {
    assert IsDigit(ds[0]);
  }

  /** A minus sign followed by decimal digits reads as the negated value of the digits. */
  lemma IntOfSigned(ds: string)
    requires |ds| > 0 && AllDigits(ds)
    ensures Int("-" + ds) == Some(-(DigitsValue(ds) as int))
  {
    var t := "-" + ds;
    assert t[1..] == ds && t[|t| - 1] == ds[|ds| - 1];
    assert IsDigit(ds[|ds| - 1]);
    StripNoSpaceEnds(t);
    StripLeftDigits(ds);
    IntOfMinus(t, ds);
  }

  lemma IntOfMinus(t: string, ds: string)
    requires StripRight(StripLeft(t)) == t && |t| > 0 && t[0] == '-'
    requires StripLeft(t[1..]) == ds && |ds| > 0 && AllDigits(ds)
    ensures Int(t) == Some(-(DigitsValue(ds) as int))
  {
  }

  lemma IntOfNegative(n: int)
    requires n < 0
    ensures Int(Str(n)) == Some(n)
  {
    var d := Digits(-n);
    assert Str(n) == "-" + d;
    IntOfSigned(d);
    DigitsValueOfDigits(-n);
  }

  /** `int(str(n)) == n`: the two conversions are inverse. */
  lemma IntOfStr(n: int)
    ensures Int(Str(n)) == Some(n)
  {
    if n < 0 {
      IntOfNegative(n);
    } else {
      IntOfDigits(n);
    }
  }

  /** `str` is injective, which is what lets Deep/CSL.py compare item ids as strings. */
  lemma StrInjective(m: int, n: int)
    requires Str(m) == Str(n)
    ensures m == n
  {
    IntOfStr(m);
    IntOfStr(n);
  }

  // ---------------------------------------------------------------- string order and max

  /** Python's `a < b` on strings: lexicographic by character code, a proper prefix first. */
  predicate LexLess(a: string, b: string)
  {
    if |a| == 0 then |b| > 0
    else if |b| == 0 then false
    else if a[0] != b[0] then a[0] < b[0]
    else LexLess(a[1..], b[1..])
  }

  lemma {:induction false} LexLessIrreflexive(a: string)
    ensures !LexLess(a, a)
  {
    if |a| > 0 {
      LexLessIrreflexive(a[1..]);
    }
  }

  lemma {:induction false} LexLessTransitive(a: string, b: string, c: string)
    requires LexLess(a, b) && LexLess(b, c)
    ensures LexLess(a, c)
  {
    if |a| > 0 && a[0] == b[0] && b[0] == c[0] {
      LexLessTransitive(a[1..], b[1..], c[1..]);
    }
  }

  lemma {:induction false} LexLessTotal(a: string, b: string)
    ensures a == b || LexLess(a, b) || LexLess(b, a)
  {
    if |a| > 0 && |b| > 0 && a[0] == b[0] {
      LexLessTotal(a[1..], b[1..]);
      if a[1..] == b[1..] {
        assert a == [a[0]] + a[1..] && b == [b[0]] + b[1..];
      }
    }
  }

  /** Python's `max` over a non-empty list of strings: it keeps the running maximum
      and replaces it only by a strictly greater item. */
  function Max(xs: seq<string>): (m: string)
    requires |xs| > 0
    ensures m in xs
    ensures forall x :: x in xs ==> !LexLess(m, x)
  {
    if |xs| == 1 then
      LexLessIrreflexive(xs[0]);
      xs[0]
    else
      var m := Max(xs[..|xs| - 1]);
      var last := xs[|xs| - 1];
      assert forall x :: x in xs ==> x in xs[..|xs| - 1] || x == last;
      if LexLess(m, last) then
        LexLessIrreflexive(last);
        assert forall x :: x in xs[..|xs| - 1] && LexLess(last, x) ==> LexLess(m, x) by {
          forall x | x in xs[..|xs| - 1] && LexLess(last, x)
            ensures LexLess(m, x)
          {
            LexLessTransitive(m, last, x);
          }
        }
        last
      else
        m
  }

  /** The maximum is taken over strings, not numbers: "9" beats "10". */
  lemma MaxIsNotNumeric()
    ensures Max(["9", "10"]) == "9"
    ensures Max(["10", "2"]) == "2"
  {
    assert LexLess("10", "9");
    assert LexLess("10", "2");
  }

  // ---------------------------------------------------------------- lists

  predicate Distinct<T(==)>(s: seq<T>)
  {
    forall i, j :: 0 <= i < j < |s| ==> s[i] != s[j]
  }

  /** Python's `s[k]`: negative `k` counts from the end; outside `-|s| <= k < |s|`
      it raises IndexError, modelled as None. */
  function Index<T>(s: seq<T>, k: int): Option<T>
  {
    if 0 <= k < |s| then Some(s[k])
    else if -|s| <= k < 0 then Some(s[|s| + k])
    else None
  }

  /** Python's `range(lo, hi)`. */
  function Range(lo: int, hi: int): (r: seq<int>)
    ensures |r| == if lo < hi then hi - lo else 0
    ensures forall k :: 0 <= k < |r| ==> r[k] == lo + k
    decreases hi - lo
  {
    if lo < hi then [lo] + Range(lo + 1, hi) else []
  }

  /** Python's list repetition `s * n` (empty for `n <= 0`). */
  function Repeat<T>(s: seq<T>, n: int): seq<T>
    decreases n
  {
    if n <= 0 then [] else s + Repeat(s, n - 1)
  }

  lemma {:induction false} RepeatAt<T>(s: seq<T>, n: nat, k: int)
    requires 0 <= k < |s| * n
    ensures |Repeat(s, n)| == |s| * n
    ensures Repeat(s, n)[k] == s[k % |s|]
  {
    RepeatLength(s, n);
    if k >= |s| {
      assert |s| * n == |s| + |s| * (n - 1);
      RepeatAt(s, n - 1, k - |s|);
      ModShift(k - |s|, |s|);
    } else {
      assert k % |s| == k;
    }
  }

  lemma {:induction false} RepeatLength<T>(s: seq<T>, n: nat)
    ensures |Repeat(s, n)| == |s| * n
  {
    if n > 0 {
      RepeatLength(s, n - 1);
    }
  }

  lemma MulAtLeast(a: int, m: int)
    requires a >= 1 && m > 0
    ensures a * m >= m
  {
    assert a * m == (a - 1) * m + m;
  }

  /** Euclidean division leaves one remainder: the one in `0 .. m - 1`. */
  lemma ModUnique(x: int, m: int, q: int, r: int)
    requires m > 0 && 0 <= r < m && x == q * m + r
    ensures x % m == r
  {
    var q0, r0 := x / m, x % m;
    assert q0 * m + r0 == x;
    if q0 > q {
      assert (q0 - q) * m + r0 == r;
      MulAtLeast(q0 - q, m);
    } else if q0 < q {
      assert (q - q0) * m + r == r0;
      MulAtLeast(q - q0, m);
    }
  }

  lemma ModShift(x: int, m: int)
    requires m > 0
    ensures (x + m) % m == x % m
  {
    var q, r := x / m, x % m;
    assert x == q * m + r;
    assert x + m == (q + 1) * m + r;
    ModUnique(x + m, m, q + 1, r);
  }

  /** Python's `list.remove(x)`, which requires `x` to be present and drops its
      first occurrence. */
  function Remove<T(==)>(s: seq<T>, x: T): (r: seq<T>)
    requires x in s
    ensures |r| == |s| - 1
    ensures multiset(r) == multiset(s) - multiset{x}
  {
    assert s == [s[0]] + s[1..];
    if s[0] == x then s[1..] else [s[0]] + Remove(s[1..], x)
  }

  /** On a list without repetitions, `remove` deletes exactly that element. */
  lemma {:induction false} RemoveDistinct<T>(s: seq<T>, x: T)
    requires x in s && Distinct(s)
    ensures Distinct(Remove(s, x))
    ensures forall y :: y in Remove(s, x) <==> y in s && y != x
  {
    assert s == [s[0]] + s[1..];
    if s[0] != x {
      RemoveDistinct(s[1..], x);
      var t := Remove(s[1..], x);
      assert s[0] !in t;
      assert Remove(s, x) == [s[0]] + t;
      assert forall i :: 0 < i < |s| ==> s[i] != s[0];
    }
  }

  /** Python's `list.index(x)`: the position of the first occurrence of `x`. */
  function IndexOf<T(==)>(s: seq<T>, x: T): (i: nat)
    requires x in s
    ensures i < |s| && s[i] == x && x !in s[..i]
  {
    if s[0] == x then 0
    else
      assert x in s[1..] by {
        var k :| 0 <= k < |s| && s[k] == x;
        assert s[1..][k - 1] == x;
      }
      var j := IndexOf(s[1..], x);
      assert s[..j + 1] == [s[0]] + s[1..][..j];
      j + 1
  }

  /** Removing at the first occurrence `i` leaves the elements before and after it, in order. */
  lemma {:induction false} RemoveAt<T>(s: seq<T>, x: T, i: nat)
    requires i < |s| && s[i] == x && forall j :: 0 <= j < i ==> s[j] != x
    ensures Remove(s, x) == s[..i] + s[i + 1..]
  {
    if i > 0 {
      var t := s[1..];
      assert s == [s[0]] + t;
      RemoveAt(t, x, i - 1);
      assert s[..i] == [s[0]] + t[..i - 1];
      assert s[i + 1..] == t[i..];
    }
  }

  /** `remove` deletes the first occurrence of `x`, and the other elements keep their order. */
  lemma RemovePlaces<T>(s: seq<T>, x: T)
    requires x in s
    ensures exists i :: 0 <= i < |s| && s[i] == x && x !in s[..i] && Remove(s, x) == s[..i] + s[i + 1..]
  {
    var i := IndexOf(s, x);
    forall j | 0 <= j < i
      ensures s[j] != x
    {
      assert s[j] == s[..i][j];
    }
    RemoveAt(s, x, i);
    assert 0 <= i < |s| && s[i] == x && x !in s[..i] && Remove(s, x) == s[..i] + s[i + 1..];
  }

  /** Python's `list.insert(p, x)` for a position inside the list. */
  function Insert<T>(s: seq<T>, p: int, x: T): (r: seq<T>)
    requires 0 <= p <= |s|
    ensures |r| == |s| + 1 && r[p] == x
    ensures multiset(r) == multiset(s) + multiset{x}
  {
    assert s == s[..p] + s[p..];
    s[..p] + [x] + s[p..]
  }

  /** The elements before `p` keep their places and the others move up by one. */
  lemma InsertPlaces<T>(s: seq<T>, p: int, x: T)
    requires 0 <= p <= |s|
    ensures Insert(s, p, x)[..p] == s[..p] && Insert(s, p, x)[p + 1..] == s[p..]
  {
  }

  /** `a` can be obtained from `b` by deleting elements. */
  predicate IsSubseq<T(==)>(a: seq<T>, b: seq<T>)
    decreases |b|
  {
    |a| <= |b| && (a == [] || (a[0] == b[0] && IsSubseq(a[1..], b[1..])) || IsSubseq(a, b[1..]))
  }

  lemma {:induction false} IsSubseqRefl<T>(a: seq<T>)
    ensures IsSubseq(a, a)
  {
    if a != [] {
      IsSubseqRefl(a[1..]);
    }
  }

  /** Inserting an element keeps every subsequence a subsequence. */
  lemma {:induction false} IsSubseqInsert<T>(a: seq<T>, b: seq<T>, p: int, x: T)
    requires 0 <= p <= |b|
    requires IsSubseq(a, b)
    ensures IsSubseq(a, Insert(b, p, x))
  {
    var c := Insert(b, p, x);
    if p == 0 {
      assert c[1..] == b;
    } else if a != [] {
      assert c[0] == b[0];
      assert c[1..] == Insert(b[1..], p - 1, x);
      if a[0] == b[0] && IsSubseq(a[1..], b[1..]) {
        IsSubseqInsert(a[1..], b[1..], p - 1, x);
      } else {
        IsSubseqInsert(a, b[1..], p - 1, x);
      }
    }
  }

  lemma {:induction false} IsSubseqLast<T>(b: seq<T>, x: T)
    ensures IsSubseq([x], b + [x])
    decreases |b|
  {
    if b != [] {
      assert (b + [x])[1..] == b[1..] + [x];
      IsSubseqLast(b[1..], x);
    } else {
      assert [x][1..] == [];
    }
  }

  /** Appending to the longer list keeps a subsequence a subsequence. */
  lemma {:induction false} IsSubseqSnocRight<T>(a: seq<T>, b: seq<T>, x: T)
    requires IsSubseq(a, b)
    ensures IsSubseq(a, b + [x])
    decreases |b|
  {
    if a != [] {
      assert (b + [x])[1..] == b[1..] + [x];
      if a[0] == b[0] && IsSubseq(a[1..], b[1..]) {
        IsSubseqSnocRight(a[1..], b[1..], x);
      } else {
        IsSubseqSnocRight(a, b[1..], x);
      }
    }
  }

  /** Appending the same element to both lists keeps a subsequence a subsequence. */
  lemma {:induction false} IsSubseqSnocBoth<T>(a: seq<T>, b: seq<T>, x: T)
    requires IsSubseq(a, b)
    ensures IsSubseq(a + [x], b + [x])
    decreases |b|
  {
    if a == [] {
      IsSubseqLast(b, x);
      assert a + [x] == [x];
    } else {
      assert (b + [x])[1..] == b[1..] + [x];
      assert (a + [x])[1..] == a[1..] + [x];
      if a[0] == b[0] && IsSubseq(a[1..], b[1..]) {
        IsSubseqSnocBoth(a[1..], b[1..], x);
      } else {
        IsSubseqSnocBoth(a, b[1..], x);
      }
    }
  }
}
