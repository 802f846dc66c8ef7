/**
  Object property keys as the year dropdown sees them. JavaScript stores the
  integer year under its decimal string, and `Object.keys(data).sort()` orders
  those strings by code unit, not by numeric value.
 */
module PropertyKeys {

  /** The decimal digit character for 0..9. */
  function Digit(d: int): char
    requires 0 <= d <= 9
  {
    (d + 48) as char
  }

  /** The decimal numeral of a natural number, without leading zeros. */
  function NaturalString(n: nat): (s: string)
    ensures 1 <= |s|
    ensures |s| == 1 <==> n < 10
    decreases n
  {
    if n < 10 then [Digit(n)] else NaturalString(n / 10) + [Digit(n % 10)]
  }

  /** A numeral starts with a digit, so no numeral is a word. */
  lemma {:induction false} NumeralStartsWithDigit(n: nat)
    ensures '0' <= NaturalString(n)[0] <= '9'
    decreases n
  {
    if n >= 10 {
      NumeralStartsWithDigit(n / 10);
    }
  }

  /** The property key an integer-valued number is stored under (`String(n)`). */
  function DecimalString(n: int): string
  {
    if n < 0 then "-" + NaturalString(-n) else NaturalString(n)
  }

  /** The default order of `Array.prototype.sort`: code-unit lexicographic order. */
  predicate StrLe(a: string, b: string)
    decreases |a|
  {
    a == [] || (b != [] && (a[0] < b[0] || (a[0] == b[0] && StrLe(a[1..], b[1..]))))
  }

  lemma {:induction false} StrLeTotal(a: string, b: string)
    ensures StrLe(a, b) || StrLe(b, a)
    decreases |a|
  {
    if a != [] && b != [] && a[0] == b[0] {
      StrLeTotal(a[1..], b[1..]);
    }
  }

  lemma {:induction false} StrLeReflexive(a: string)
    ensures StrLe(a, a)
    decreases |a|
  {
    if a != [] {
      StrLeReflexive(a[1..]);
    }
  }

  lemma {:induction false} StrLeAntisymmetric(a: string, b: string)
    requires StrLe(a, b) && StrLe(b, a)
    ensures a == b
    decreases |a|
  {
    if a != [] {
      StrLeAntisymmetric(a[1..], b[1..]);
      assert a == [a[0]] + a[1..];
      assert b == [b[0]] + b[1..];
    }
  }

  lemma {:induction false} StrLeTransitive(a: string, b: string, c: string)
    requires StrLe(a, b) && StrLe(b, c)
    ensures StrLe(a, c)
    decreases |a|
  {
    if a != [] && a[0] == b[0] && b[0] == c[0] {
      StrLeTransitive(a[1..], b[1..], c[1..]);
    }
  }

  predicate Sorted(s: seq<string>)
  {
    forall i, j :: 0 <= i < j < |s| ==> StrLe(s[i], s[j])
  }

  /** A sorted sequence stays sorted when an element no larger than all of it is put in front. */
  lemma PrependLeast(h: string, t: seq<string>)
    requires Sorted(t)
    requires forall e :: e in multiset(t) ==> StrLe(h, e)
    ensures Sorted([h] + t)
  {
    forall i, j | 0 <= i < j < |[h] + t|
      ensures StrLe(([h] + t)[i], ([h] + t)[j])
    {
      if i == 0 {
        assert t[j - 1] in multiset(t);
      }
    }
  }

  /** One insertion step of the sort. */
  function Insert(x: string, s: seq<string>): (r: seq<string>)
    requires Sorted(s)
    ensures Sorted(r)
    ensures multiset(r) == multiset(s) + multiset{x}
  {
    if s == [] || StrLe(x, s[0]) then
      assert forall e :: e in multiset(s) ==> StrLe(x, e) by {
        forall e | e in multiset(s) ensures StrLe(x, e) {
          var j :| 0 <= j < |s| && s[j] == e;
          if j > 0 { StrLeTransitive(x, s[0], e); }
        }
      }
      PrependLeast(x, s);
      [x] + s
    else
      var tail := Insert(x, s[1..]);
      assert s == [s[0]] + s[1..];
      assert forall e :: e in multiset(tail) ==> StrLe(s[0], e) by {
        forall e | e in multiset(tail) ensures StrLe(s[0], e) {
          if e == x {
            StrLeTotal(x, s[0]);
          } else {
            assert e in multiset(s[1..]);
            var j :| 0 <= j < |s[1..]| && s[1..][j] == e;
            assert s[j + 1] == e;
          }
        }
      }
      PrependLeast(s[0], tail);
      [s[0]] + tail
  }

  /** `keys.sort()` with the default comparator, as an insertion sort. */
  function SortKeys(keys: seq<string>): (r: seq<string>)
    ensures Sorted(r)
    ensures multiset(r) == multiset(keys)
  {
    if keys == [] then []
    else
      assert keys == [keys[0]] + keys[1..];
      Insert(keys[0], SortKeys(keys[1..]))
  }

  /**
    Any two sorted arrangements of the same keys are equal, so every correct
    sort algorithm, whatever order it is handed its input in, agrees with SortKeys.
   */
  lemma {:induction false} SortedPermutationsEqual(a: seq<string>, b: seq<string>)
    requires Sorted(a) && Sorted(b)
    requires multiset(a) == multiset(b)
    ensures a == b
    decreases |a|
  {
    assert |a| == |multiset(a)| == |multiset(b)| == |b|;
    if a != [] {
      SortedHeadsEqual(a, b);
      RemoveAt(a, 0);
      RemoveAt(b, 0);
      assert a[1..] == a[..0] + a[1..] && b[1..] == b[..0] + b[1..];
      SortedTail(a);
      SortedTail(b);
      SortedPermutationsEqual(a[1..], b[1..]);
      assert a == [a[0]] + a[1..] && b == [b[0]] + b[1..];
    }
  }

  lemma SortedTail(s: seq<string>)
    requires Sorted(s) && s != []
    ensures Sorted(s[1..])
  {
    forall i, j | 0 <= i < j < |s| - 1 ensures StrLe(s[1..][i], s[1..][j]) {
      assert s[1..][i] == s[i + 1] && s[1..][j] == s[j + 1];
    }
  }

  /** Sorted arrangements of the same keys start with the same key. */
  lemma SortedHeadsEqual(a: seq<string>, b: seq<string>)
    requires Sorted(a) && Sorted(b) && a != [] && b != []
    requires multiset(a) == multiset(b)
    ensures a[0] == b[0]
  {
    assert a[0] in multiset(b);
    var j :| 0 <= j < |b| && b[j] == a[0];
    assert b[0] in multiset(a);
    var i :| 0 <= i < |a| && a[i] == b[0];
    assert StrLe(b[0], a[0]) by {
      if j > 0 { assert StrLe(b[0], b[j]); } else { StrLeReflexive(a[0]); }
    }
    assert StrLe(a[0], b[0]) by {
      if i > 0 { assert StrLe(a[0], a[i]); } else { StrLeReflexive(a[0]); }
    }
    StrLeAntisymmetric(a[0], b[0]);
  }

  /** Taking out the element at `i` takes one copy of it out of the multiset. */
  lemma {:induction false} RemoveAt<T>(s: seq<T>, i: int)
    requires 0 <= i < |s|
    ensures s == s[..i] + [s[i]] + s[i + 1..]
    ensures multiset(s[..i] + s[i + 1..]) == multiset(s) - multiset{s[i]}
  {
    assert s == s[..i] + [s[i]] + s[i + 1..];
    assert multiset(s) == multiset(s[..i]) + multiset{s[i]} + multiset(s[i + 1..]);
  }

  /** `s.map(f)`. */
  function Map<A, B>(s: seq<A>, f: A -> B): (r: seq<B>)
    ensures |r| == |s|
    ensures forall i :: 0 <= i < |s| ==> r[i] == f(s[i])
  {
    if s == [] then [] else [f(s[0])] + Map(s[1..], f)
  }

  lemma {:induction false} MapAppend<A, B>(a: seq<A>, b: seq<A>, f: A -> B)
    ensures Map(a + b, f) == Map(a, f) + Map(b, f)
    decreases |a|
  {
    if a == [] {
      assert a + b == b;
    } else {
      assert (a + b)[1..] == a[1..] + b;
      MapAppend(a[1..], b, f);
    }
  }

  /** Taking an element out of the input takes its image out of the output. */
  lemma {:induction false} MapRemoveAt<A, B>(s: seq<A>, i: int, f: A -> B)
    requires 0 <= i < |s|
    ensures multiset(Map(s, f)) == multiset(Map(s[..i] + s[i + 1..], f)) + multiset{f(s[i])}
  {
    var front, x, back := s[..i], s[i], s[i + 1..];
    var mf, mb := Map(front, f), Map(back, f);
    assert Map(s, f) == mf + [f(x)] + mb by {
      assert s == (front + [x]) + back;
      MapAppend(front + [x], back, f);
      MapAppend(front, [x], f);
    }
    assert Map(front + back, f) == mf + mb by {
      MapAppend(front, back, f);
    }
    assert multiset(mf + [f(x)] + mb) == multiset(mf) + multiset{f(x)} + multiset(mb);
  }

  /** Rearranging the input rearranges the output the same way. */
  lemma {:induction false} MapPermutation<A, B>(a: seq<A>, b: seq<A>, f: A -> B)
    requires multiset(a) == multiset(b)
    ensures multiset(Map(a, f)) == multiset(Map(b, f))
    decreases |a|
  {
    assert |a| == |multiset(a)| == |multiset(b)| == |b|;
    if a != [] {
      assert a[0] in multiset(b);
      var i :| 0 <= i < |b| && b[i] == a[0];
      RemoveAt(a, 0);
      RemoveAt(b, i);
      assert a[1..] == a[..0] + a[1..];
      MapPermutation(a[1..], b[..i] + b[i + 1..], f);
      MapRemoveAt(a, 0, f);
      MapRemoveAt(b, i, f);
    }
  }

  /** The key strings of a listing of integer keys, in listing order. */
  function KeyStrings(keys: seq<int>): (r: seq<string>)
    ensures |r| == |keys|
    ensures forall i :: 0 <= i < |keys| ==> r[i] == DecimalString(keys[i])
  {
    Map(keys, DecimalString)
  }

  /** Rearranging the listing rearranges its key strings the same way. */
  lemma KeyStringsPermutation(a: seq<int>, b: seq<int>)
    requires multiset(a) == multiset(b)
    ensures multiset(KeyStrings(a)) == multiset(KeyStrings(b))
  {
    MapPermutation(a, b, DecimalString);
  }

  /**
    The options of the year dropdown: the key strings of the listing
    `Object.keys(data)` returns, sorted.
   */
  function YearOptions(years: seq<int>): (options: seq<string>)
    ensures Sorted(options)
    ensures multiset(options) == multiset(KeyStrings(years))
  {
    SortKeys(KeyStrings(years))
  }

  /** The order in which `Object.keys` lists the years does not change the dropdown. */
  lemma YearOptionsIgnoreListingOrder(a: seq<int>, b: seq<int>)
    requires multiset(a) == multiset(b)
    ensures YearOptions(a) == YearOptions(b)
  {
    KeyStringsPermutation(a, b);
    SortedPermutationsEqual(YearOptions(a), YearOptions(b));
  }

  /** The dropdown offers exactly the years of the listing, each as often as listed. */
  lemma YearOptionsOfferListedYears(years: seq<int>)
    ensures |YearOptions(years)| == |years|
    ensures forall s :: s in YearOptions(years) <==> exists i :: 0 <= i < |years| && DecimalString(years[i]) == s
  {
    var options := YearOptions(years);
    assert |options| == |multiset(options)| == |multiset(KeyStrings(years))| == |years|;
    forall s ensures s in options <==> exists i :: 0 <= i < |years| && DecimalString(years[i]) == s {
      assert s in options <==> s in multiset(KeyStrings(years));
      if s in KeyStrings(years) {
        var i :| 0 <= i < |years| && KeyStrings(years)[i] == s;
        assert DecimalString(years[i]) == s;
      }
    }
  }

  /** Comparing two equally long strings extended by one character each. */
  lemma {:induction false} StrLeSnoc(p: string, q: string, x: char, y: char)
    requires |p| == |q|
    ensures StrLe(p + [x], q + [y]) <==> (p != q && StrLe(p, q)) || (p == q && x <= y)
    decreases |p|
  {
    if p == [] {
      assert q == [];
      assert ([x] + [])[1..] == [];
    } else {
      assert (p + [x])[0] == p[0] && (p + [x])[1..] == p[1..] + [x];
      assert (q + [y])[0] == q[0] && (q + [y])[1..] == q[1..] + [y];
      assert p == [p[0]] + p[1..];
      assert q == [q[0]] + q[1..];
      StrLeSnoc(p[1..], q[1..], x, y);
    }
  }

  /**
    For numerals with the same number of digits the sort order is the numeric
    order: the dropdown lists four-digit years chronologically.
   */
  lemma {:induction false} SameDigitCountOrder(a: nat, b: nat)
    requires |NaturalString(a)| == |NaturalString(b)|
    ensures StrLe(NaturalString(a), NaturalString(b)) <==> a <= b
    decreases a + b
  {
    if a >= 10 {
      var p, q := NaturalString(a / 10), NaturalString(b / 10);
      SameDigitCountOrder(a / 10, b / 10);
      SameDigitCountOrder(b / 10, a / 10);
      assert p == q <==> a / 10 == b / 10 by {
        if p == q { assert StrLe(p, q) && StrLe(q, p); }
      }
      StrLeSnoc(p, q, Digit(a % 10), Digit(b % 10));
    }
  }

  lemma FourDigitNumeral(n: int)
    requires 1000 <= n <= 9999
    ensures |DecimalString(n)| == 4
  {
    var n1, n2, n3 := n / 10, n / 10 / 10, n / 10 / 10 / 10;
    assert 100 <= n1 <= 999 && 10 <= n2 <= 99 && 1 <= n3 <= 9;
    assert |NaturalString(n3)| == 1;
    assert |NaturalString(n2)| == 2;
    assert |NaturalString(n1)| == 3;
  }

  lemma FourDigitYearsSortChronologically(a: int, b: int)
    requires 1000 <= a <= 9999 && 1000 <= b <= 9999
    ensures StrLe(DecimalString(a), DecimalString(b)) <==> a <= b
  {
    FourDigitNumeral(a);
    FourDigitNumeral(b);
    SameDigitCountOrder(a, b);
  }

  lemma NumeralsOf999And1000()
    ensures DecimalString(999) == "999" && DecimalString(1000) == "1000"
  {
    assert NaturalString(9) == "9";
    assert NaturalString(99) == "99";
    assert NaturalString(10) == "10";
    assert NaturalString(100) == "100";
  }

  /** Across digit counts the order is not numeric: year 1000 is listed before year 999. */
  lemma YearOptionsNotChronologicalAcrossDigitCounts()
    ensures YearOptions([999, 1000]) == ["1000", "999"]
  {
    NumeralsOf999And1000();
    var listed := KeyStrings([999, 1000]);
    assert listed == ["999", "1000"];
    var sortedOptions := ["1000", "999"];
    assert StrLe("1000", "999");
    assert Sorted(sortedOptions);
    assert multiset(sortedOptions) == multiset(listed);
    SortedPermutationsEqual(YearOptions([999, 1000]), sortedOptions);
  }
}
