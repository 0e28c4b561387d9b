/**
  Character classes and string operations that Python supplies to the
  renaming tool: `str.isspace`/`str.strip`, the decimal digits of `\d`,
  `int()` on a digit run, `str()` on a number, and the ordering `<` that
  `list.sort()` uses on strings.
*/
module Text {

  /** Python's `str.isspace()`: the code points `str.strip()` removes. */
  predicate IsSpace(c: char) {
    var n := c as int;
    (9 <= n <= 13) || (28 <= n <= 32) || n == 0x85 || n == 0xA0 || n == 0x1680
    || (0x2000 <= n <= 0x200A) || n == 0x2028 || n == 0x2029 || n == 0x202F
    || n == 0x205F || n == 0x3000
  }

  /** The digits accepted by `\d` and by `int()` (ASCII only in this model). */
  predicate IsDigit(c: char) {
    '0' <= c <= '9'
  }

  predicate AllDigits(s: string) {
    forall i :: 0 <= i < |s| ==> IsDigit(s[i])
  }

  predicate AllSpace(s: string) {
    forall i :: 0 <= i < |s| ==> IsSpace(s[i])
  }

  predicate NoDup<T(==)>(xs: seq<T>) {
    forall i, j :: 0 <= i < j < |xs| ==> xs[i] != xs[j]
  }

  // ---------------------------------------------------------------------
  // str.strip()
  // ---------------------------------------------------------------------

  /** Length of the run of whitespace that starts at index `i`. */
  function SpacesFrom(s: string, i: nat): (n: nat)
    requires i <= |s|
    ensures i + n <= |s| && forall k :: i <= k < i + n ==> IsSpace(s[k])
    ensures i + n < |s| ==> !IsSpace(s[i + n])
    decreases |s| - i
  {
    if i == |s| || !IsSpace(s[i]) then 0 else SpacesFrom(s, i + 1) + 1
  }

  /** Length of the run of whitespace that ends just before index `end`. */
  function SpacesBefore(s: string, end: nat): (n: nat)
    requires end <= |s|
    ensures n <= end && forall k :: end - n <= k < end ==> IsSpace(s[k])
    ensures n < end ==> !IsSpace(s[end - n - 1])
    decreases end
  {
    if end == 0 || !IsSpace(s[end - 1]) then 0 else SpacesBefore(s, end - 1) + 1
  }

  /** Number of whitespace characters at the start of `s`. */
  function LeadingSpaces(s: string): (n: nat)
    ensures n <= |s| && AllSpace(s[..n])
    ensures n < |s| ==> !IsSpace(s[n])
  {
    SpacesFrom(s, 0)
  }

  /** Number of whitespace characters at the end of `s`. */
  function TrailingSpaces(s: string): (n: nat)
    ensures n <= |s| && AllSpace(s[|s| - n..])
    ensures n < |s| ==> !IsSpace(s[|s| - n - 1])
  {
    SpacesBefore(s, |s|)
  }

  /**
    `str.strip()` with no argument: the longest infix of `s` that neither
    starts nor ends with whitespace, everything cut off being whitespace.
  */
  function Strip(s: string): (r: string)
    ensures r == [] <==> AllSpace(s)
    ensures r != [] ==> !IsSpace(r[0]) && !IsSpace(r[|r| - 1])
    ensures exists i :: 0 <= i && i + |r| <= |s| && r == s[i..i + |r|]
                        && AllSpace(s[..i]) && AllSpace(s[i + |r|..])
  {
    var a := LeadingSpaces(s);
    var b := TrailingSpaces(s[a..]);
    var r := s[a..][..|s| - a - b];
    assert r == s[a..a + |r|];
    assert s[a + |r|..] == s[a..][|s| - a - b..];
    assert AllSpace(s) ==> a == |s|;
    r
  }

  /** A string that neither starts nor ends with whitespace is its own strip. */
  lemma StripUnchanged(s: string)
    requires s == [] || (!IsSpace(s[0]) && !IsSpace(s[|s| - 1]))
    ensures Strip(s) == s
  {
    if s != [] {
      assert LeadingSpaces(s) == 0;
      assert TrailingSpaces(s) == 0;
    }
  }

  /** One leading whitespace character in front of a word is all `strip()` removes. */
  lemma StripOneLeadingSpace(s: string)
    requires |s| >= 2 && IsSpace(s[0]) && !IsSpace(s[1]) && !IsSpace(s[|s| - 1])
    ensures Strip(s) == s[1..]
  {
    assert LeadingSpaces(s) == 1;
    StripUnchanged(s[1..]);
  }

  lemma StripIdempotent(s: string)
    ensures Strip(Strip(s)) == Strip(s)
  {
    var r := Strip(s);
    if r != [] {
      assert LeadingSpaces(r) == 0;
      assert TrailingSpaces(r) == 0;
    }
  }

  // ---------------------------------------------------------------------
  // int() on a digit run and str() on a number
  // ---------------------------------------------------------------------

  function DigitValue(c: char): (d: nat)
    requires IsDigit(c)
    ensures d < 10
  {
    (c as int) - ('0' as int)
  }

  function DigitChar(d: nat): (c: char)
    requires d < 10
    ensures IsDigit(c) && DigitValue(c) == d
  {
    ('0' as int + d) as char
  }

  /** `int(ds)` for a non-empty run of decimal digits (leading zeros allowed). */
  function DecimalValue(ds: string): nat
    requires AllDigits(ds)
    decreases |ds|
  {
    if ds == [] then 0
    else 10 * DecimalValue(ds[..|ds| - 1]) + DigitValue(ds[|ds| - 1])
  }

  /** `str(n)` / `f"{n}"`: the canonical decimal spelling of `n`. */
  function Decimal(n: nat): (ds: string)
    ensures |ds| >= 1 && AllDigits(ds)
    ensures |ds| > 1 ==> ds[0] != '0'
    decreases n
  {
    if n < 10 then [DigitChar(n)]
    else
      var p := Decimal(n / 10);
      assert n / 10 >= 1;
      assert p[0] != '0' by {
        if |p| == 1 { assert DigitValue(p[0]) == n / 10; }
      }
      p + [DigitChar(n % 10)]
  }

  /** `int(str(n)) == n`. */
  lemma {:induction false} DecimalRoundTrip(n: nat)
    ensures DecimalValue(Decimal(n)) == n
    decreases n
  {
    if n >= 10 {
      DecimalRoundTrip(n / 10);
      var ds := Decimal(n);
      assert ds[..|ds| - 1] == Decimal(n / 10);
    }
  }

  /** A digit run that does not start with '0' has a value of at least 1, and of at least 10 when it is longer than one digit. */
  lemma {:induction false} DecimalValueLowerBound(ds: string)
    requires AllDigits(ds) && |ds| >= 1 && ds[0] != '0'
    ensures DecimalValue(ds) >= 1
    ensures |ds| > 1 ==> DecimalValue(ds) >= 10
    decreases |ds|
  {
    if |ds| > 1 {
      DecimalValueLowerBound(ds[..|ds| - 1]);
    } else {
      assert DigitValue(ds[0]) != 0;
    }
  }

  /** `str(int(ds)) == ds` for a canonical digit run (no leading zero). */
  lemma {:induction false} DecimalCanonical(ds: string)
    requires AllDigits(ds) && |ds| >= 1 && (|ds| > 1 ==> ds[0] != '0')
    ensures Decimal(DecimalValue(ds)) == ds
    decreases |ds|
  {
    if |ds| > 1 {
      var front := ds[..|ds| - 1];
      DecimalValueLowerBound(ds);
      DecimalValueLowerBound(front);
      DecimalCanonical(front);
      var n := DecimalValue(ds);
      assert n / 10 == DecimalValue(front);
      assert n % 10 == DigitValue(ds[|ds| - 1]);
      assert DigitChar(n % 10) == ds[|ds| - 1];
      assert ds == front + [ds[|ds| - 1]];
    } else {
      assert DigitChar(DigitValue(ds[0])) == ds[0];
    }
  }

  /** Leading zeros do not change `int()`: "007" and "7" denote the same number. */
  lemma {:induction false} LeadingZeroIgnored(ds: string)
    requires AllDigits(ds)
    ensures AllDigits("0" + ds) && DecimalValue("0" + ds) == DecimalValue(ds)
    decreases |ds|
  {
    if ds != [] {
      var front := ds[..|ds| - 1];
      LeadingZeroIgnored(front);
      assert ("0" + ds)[..|ds|] == "0" + front;
    }
  }

  // ---------------------------------------------------------------------
  // The string ordering of list.sort()
  // ---------------------------------------------------------------------

  /** Python's `a < b` on strings: lexicographic by code point, a proper prefix first. */
  predicate Less(a: string, b: string)
    decreases |a|
  {
    if a == [] then b != []
    else b != [] && (a[0] < b[0] || (a[0] == b[0] && Less(a[1..], b[1..])))
  }

  lemma {:induction false} LessIrreflexive(a: string)
    ensures !Less(a, a)
    decreases |a|
  {
    if a != [] {
      LessIrreflexive(a[1..]);
    }
  }

  lemma {:induction false} LessTransitive(a: string, b: string, c: string)
    requires Less(a, b) && Less(b, c)
    ensures Less(a, c)
    decreases |a|
  {
    if a != [] && a[0] == b[0] && b[0] == c[0] {
      LessTransitive(a[1..], b[1..], c[1..]);
    }
  }

  lemma {:induction false} LessTotal(a: string, b: string)
    ensures a == b || Less(a, b) || Less(b, a)
    decreases |a|
  {
    if a != [] && b != [] && a[0] == b[0] {
      LessTotal(a[1..], b[1..]);
      if a[1..] == b[1..] {
        assert a == [a[0]] + a[1..] && b == [b[0]] + b[1..];
      }
    }
  }

  lemma LessAsymmetric(a: string, b: string)
    requires Less(a, b)
    ensures !Less(b, a)
  {
    if Less(b, a) {
      LessTransitive(a, b, a);
      LessIrreflexive(a);
    }
  }

  /** What `list.sort()` leaves: no element is smaller than one before it. */
  predicate Sorted(xs: seq<string>) {
    forall i, j :: 0 <= i < j < |xs| ==> !Less(xs[j], xs[i])
  }

  /** Inserts `x` before the first element that is not smaller than it. */
  function Insert(x: string, xs: seq<string>): seq<string>
    decreases |xs|
  {
    if xs == [] then [x]
    else if !Less(xs[0], x) then [x] + xs
    else [xs[0]] + Insert(x, xs[1..])
  }

  /** Inserting into a sorted list keeps it sorted and adds exactly one occurrence of `x`. */
  lemma {:induction false} InsertSpec(x: string, xs: seq<string>)
    requires Sorted(xs)
    ensures Sorted(Insert(x, xs))
    ensures multiset(Insert(x, xs)) == multiset(xs) + multiset{x}
    decreases |xs|
  {
    if xs != [] {
      if !Less(xs[0], x) {
        InsertFirstSorted(x, xs);
      } else {
        InsertSpec(x, xs[1..]);
        InsertLaterSorted(x, xs, Insert(x, xs[1..]));
        assert xs == [xs[0]] + xs[1..];
      }
    }
  }

  lemma InsertFirstSorted(x: string, xs: seq<string>)
    requires Sorted(xs) && xs != [] && !Less(xs[0], x)
    ensures Sorted([x] + xs)
  {
    var r := [x] + xs;
    forall i, j | 0 <= i < j < |r| ensures !Less(r[j], r[i]) {
      if i == 0 && j > 1 && Less(r[j], x) {
        LessTotal(x, xs[0]);
        if x != xs[0] {
          LessTransitive(r[j], x, xs[0]);
        }
      }
    }
  }

  lemma InsertLaterSorted(x: string, xs: seq<string>, t: seq<string>)
    requires Sorted(xs) && xs != [] && Less(xs[0], x)
    requires Sorted(t) && multiset(t) == multiset(xs[1..]) + multiset{x}
    ensures Sorted([xs[0]] + t)
  {
    var r := [xs[0]] + t;
    forall i, j | 0 <= i < j < |r| ensures !Less(r[j], r[i]) {
      if i == 0 {
        var y := t[j - 1];
        assert y in multiset(t);
        if y == x {
          LessAsymmetric(xs[0], x);
        } else {
          assert y in multiset(xs[1..]);
          var k :| 0 <= k < |xs[1..]| && xs[1..][k] == y;
          assert xs[k + 1] == y;
        }
      }
    }
  }

  /** `sorted(xs)`: a sorted permutation of `xs`. */
  function SortStrings(xs: seq<string>): seq<string>
    decreases |xs|
  {
    if xs == [] then [] else Insert(xs[0], SortStrings(xs[1..]))
  }

  /** The sorted list is in order and a permutation of the input. */
  lemma {:induction false} SortStringsSpec(xs: seq<string>)
    ensures Sorted(SortStrings(xs))
    ensures multiset(SortStrings(xs)) == multiset(xs)
    decreases |xs|
  {
    if xs != [] {
      SortStringsSpec(xs[1..]);
      InsertSpec(xs[0], SortStrings(xs[1..]));
      assert xs == [xs[0]] + xs[1..];
    }
  }

  /** Two strings in order sort to themselves. */
  lemma SortPair(a: string, b: string)
    requires Less(a, b)
    ensures SortStrings([a, b]) == [a, b]
  {
    assert [a, b][1..] == [b];
    assert SortStrings([b]) == [b];
    LessAsymmetric(a, b);
  }

  /** Sorting neither adds nor drops an element, and keeps a list free of duplicates. */
  lemma SortStringsMembers(xs: seq<string>)
    ensures forall a :: a in SortStrings(xs) <==> a in xs
    ensures NoDup(xs) ==> NoDup(SortStrings(xs))
  {
    var ys := SortStrings(xs);
    SortStringsSpec(xs);
    forall a ensures a in ys <==> a in xs {
      assert a in ys <==> a in multiset(ys);
      assert a in xs <==> a in multiset(xs);
    }
    if NoDup(xs) {
      SortKeepsNoDup(xs, ys);
    }
  }

  /** Sorting keeps both the elements and their multiplicities. */
  lemma SortKeepsNoDup(xs: seq<string>, ys: seq<string>)
    requires NoDup(xs) && multiset(ys) == multiset(xs)
    ensures NoDup(ys)
  {
    forall i, j | 0 <= i < j < |ys| ensures ys[i] != ys[j] {
      if ys[i] == ys[j] {
        var y := ys[i];
        assert multiset(ys)[y] >= 2 by {
          assert ys == ys[..j] + [y] + ys[j + 1..];
          assert y in ys[..j];
        }
        MultiplicityAtMostOne(xs, y);
      }
    }
  }

  lemma {:induction false} MultiplicityAtMostOne(xs: seq<string>, y: string)
    requires NoDup(xs)
    ensures multiset(xs)[y] <= 1
    decreases |xs|
  {
    if xs != [] {
      var t := xs[1..];
      assert xs == [xs[0]] + t;
      assert NoDup(t);
      MultiplicityAtMostOne(t, y);
      if xs[0] == y {
        assert y !in t;
      }
    }
  }
}
