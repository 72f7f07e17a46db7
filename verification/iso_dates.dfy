/**
 The output side of the extractor: `strftime('%Y-%m-%d')` on a day, the
 order Python's `<` puts on strings, and `sorted(list(busy_dates))`.
 */
module IsoDates {
  import opened Calendar

  /** Python's `str < str`: code point by code point, a proper prefix first. */
  predicate StrLess(a: string, b: string)
    ensures StrLess(a, b) ==> a != b
    decreases |a|
  {
    if |a| == 0 then |b| > 0
    else |b| > 0 && (a[0] < b[0] || (a[0] == b[0] && StrLess(a[1..], b[1..])))
  }

  lemma {:induction false} StrLessIrreflexive(a: string)
    ensures !StrLess(a, a)
    decreases |a|
  {
    if |a| > 0 {
      StrLessIrreflexive(a[1..]);
    }
  }

  lemma {:induction false} StrLessTransitive(a: string, b: string, c: string)
    requires StrLess(a, b) && StrLess(b, c)
    ensures StrLess(a, c)
    decreases |a|
  {
    if |a| > 0 && a[0] == b[0] && b[0] == c[0] {
      StrLessTransitive(a[1..], b[1..], c[1..]);
    }
  }

  lemma {:induction false} StrLessTotal(a: string, b: string)
    requires a != b
    ensures StrLess(a, b) || StrLess(b, a)
    decreases |a|
  {
    if |a| > 0 && |b| > 0 && a[0] == b[0] {
      assert a == [a[0]] + a[1..] && b == [b[0]] + b[1..];
      StrLessTotal(a[1..], b[1..]);
    }
  }

  /** Strings of one width compare on their first part, then on the rest. */
  lemma {:induction false} StrLessConcat(a1: string, a2: string, b1: string, b2: string)
    requires |a1| == |b1|
    ensures StrLess(a1 + a2, b1 + b2) <==> StrLess(a1, b1) || (a1 == b1 && StrLess(a2, b2))
    decreases |a1|
  {
    if |a1| > 0 {
      assert (a1 + a2)[0] == a1[0] && (b1 + b2)[0] == b1[0];
      assert (a1 + a2)[1..] == a1[1..] + a2 && (b1 + b2)[1..] == b1[1..] + b2;
      StrLessConcat(a1[1..], a2, b1[1..], b2);
      if a1[0] == b1[0] {
        assert a1 == b1 <==> a1[1..] == b1[1..] by {
          assert a1 == [a1[0]] + a1[1..] && b1 == [b1[0]] + b1[1..];
        }
      }
    } else {
      assert a1 + a2 == a2 && b1 + b2 == b2;
    }
  }

  function Pow10(w: nat): nat {
    if w == 0 then 1 else 10 * Pow10(w - 1)
  }

  function DigitChar(k: int): char
    requires 0 <= k < 10
  {
    (48 + k) as char
  }

  /** `n` in decimal, zero-padded on the left to `w` characters (`%04d`, `%02d`). */
  function Digits(n: nat, w: nat): (s: string)
    ensures |s| == w
    ensures forall i :: 0 <= i < w ==> '0' <= s[i] <= '9'
  {
    if w == 0 then [] else Digits(n / 10, w - 1) + [DigitChar(n % 10)]
  }

  /** Zero-padded numbers of one width compare as strings the way they compare as numbers. */
  lemma {:induction false} DigitsOrder(x: nat, y: nat, w: nat)
    requires x < Pow10(w) && y < Pow10(w)
    ensures StrLess(Digits(x, w), Digits(y, w)) <==> x < y
    ensures Digits(x, w) == Digits(y, w) <==> x == y
  {
    if w == 0 {
      assert x == 0 && y == 0;
    } else {
      var hx, hy := Digits(x / 10, w - 1), Digits(y / 10, w - 1);
      DigitsOrder(x / 10, y / 10, w - 1);
      StrLessConcat(hx, [DigitChar(x % 10)], hy, [DigitChar(y % 10)]);
      assert StrLess([DigitChar(x % 10)], [DigitChar(y % 10)]) <==> x % 10 < y % 10 by {
        assert [DigitChar(x % 10)][1..] == [] && [DigitChar(y % 10)][1..] == [];
      }
      if Digits(x, w) == Digits(y, w) {
        assert hx == Digits(x, w)[..w - 1] && hy == Digits(y, w)[..w - 1];
        assert Digits(x, w)[w - 1] == DigitChar(x % 10) && Digits(y, w)[w - 1] == DigitChar(y % 10);
      }
    }
  }

  /** `day.strftime('%Y-%m-%d')` for a year of four digits. */
  function Format(d: Date): (s: string)
    requires Formattable(d)
    ensures |s| == 10 && s[4] == '-' && s[7] == '-'
  {
    Digits(d.year, 4) + "-" + Digits(d.month, 2) + "-" + Digits(d.day, 2)
  }

  predicate Formattable(d: Date) {
    1000 <= d.year <= 9999 && ValidDate(d)
  }

  /** The three fields and the two separators of a formatted day. */
  lemma FormatParts(d: Date)
    requires Formattable(d)
    ensures Format(d) == Digits(d.year, 4) + ("-" + (Digits(d.month, 2) + ("-" + Digits(d.day, 2))))
    ensures Format(d)[..4] == Digits(d.year, 4)
    ensures Format(d)[5..7] == Digits(d.month, 2)
    ensures Format(d)[8..] == Digits(d.day, 2)
  {
  }

  /** Distinct days format to distinct strings. */
  lemma FormatInjective(a: Date, b: Date)
    requires Formattable(a) && Formattable(b)
    ensures Format(a) == Format(b) <==> a == b
  {
    FormatParts(a);
    FormatParts(b);
    DigitsOrder(a.year, b.year, 4);
    DigitsOrder(a.month, b.month, 2);
    DigitsOrder(a.day, b.day, 2);
  }

  /**
   Because each field is zero-padded to a fixed width, string order on the
   formatted days is chronological order, and distinct days format distinctly.
   */
  lemma FormatOrder(a: Date, b: Date)
    requires Formattable(a) && Formattable(b)
    ensures StrLess(Format(a), Format(b)) <==> DateLess(a, b)
    ensures Format(a) == Format(b) <==> a == b
  {
    var ya, ma, da := Digits(a.year, 4), Digits(a.month, 2), Digits(a.day, 2);
    var yb, mb, db := Digits(b.year, 4), Digits(b.month, 2), Digits(b.day, 2);
    FormatParts(a);
    FormatParts(b);
    FormatInjective(a, b);
    DigitsOrder(a.year, b.year, 4);
    DigitsOrder(a.month, b.month, 2);
    DigitsOrder(a.day, b.day, 2);
    StrLessConcat(ya, "-" + (ma + ("-" + da)), yb, "-" + (mb + ("-" + db)));
    StrLessConcat("-", ma + ("-" + da), "-", mb + ("-" + db));
    StrLessConcat(ma, "-" + da, mb, "-" + db);
    StrLessConcat("-", da, "-", db);
    StrLessIrreflexive("-");
  }

  /** The formatted days of a set of days (those with four-digit years): the contents of `busy_dates`. */
  function FormatAll(days: set<Date>): set<string>
  {
    set d | d in days && Formattable(d) :: Format(d)
  }

  /** A day's string is among the formatted days exactly when the day is. */
  lemma FormatAllMember(days: set<Date>, d: Date)
    requires Formattable(d)
    ensures Format(d) in FormatAll(days) <==> d in days
  {
    if Format(d) in FormatAll(days) {
      var x :| x in days && Formattable(x) && Format(x) == Format(d);
      FormatOrder(x, d);
    }
  }

  /** A list holding exactly the formatted days holds a day's string exactly when it holds the day. */
  lemma ListedDays(r: seq<string>, days: set<Date>)
    requires Elements(r) == FormatAll(days)
    ensures forall d :: Formattable(d) ==> (Format(d) in r <==> d in days)
  {
    forall d | Formattable(d)
      ensures Format(d) in r <==> d in days
    {
      assert Format(d) in r <==> Format(d) in Elements(r);
      FormatAllMember(days, d);
    }
  }

  lemma FormatAllUnion(a: set<Date>, b: set<Date>)
    ensures FormatAll(a + b) == FormatAll(a) + FormatAll(b)
  {
  }

  function Elements(s: seq<string>): set<string> {
    set x | x in s
  }

  /** Ascending with no repeats, which is how `sorted` lays out the members of a set. */
  predicate StrictlyAscending(s: seq<string>) {
    forall i, j :: 0 <= i < j < |s| ==> StrLess(s[i], s[j])
  }

  /** The least member of a non-empty set of strings (what `sorted` emits first). */
  method Least(strs: set<string>) returns (m: string)
    requires strs != {}
    ensures m in strs
    ensures forall x :: x in strs && x != m ==> StrLess(m, x)
  {
    m :| m in strs;
    var unseen := strs - {m};
    while unseen != {}
      invariant m in strs && unseen <= strs
      invariant forall x :: x in strs && x !in unseen && x != m ==> StrLess(m, x)
      decreases unseen
    {
      var x :| x in unseen;
      if StrLess(x, m) {
        forall y | y in strs && y !in unseen && y != x
          ensures StrLess(x, y)
        {
          if y != m {
            StrLessTransitive(x, m, y);
          }
        }
        m := x;
      } else if x != m {
        StrLessTotal(x, m);
      }
      unseen := unseen - {x};
    }
  }

  /** `sorted(list(strs))`: every member once, in ascending string order. */
  method SortedList(strs: set<string>) returns (r: seq<string>)
    ensures StrictlyAscending(r)
    ensures Elements(r) == strs
    ensures |r| == |strs|
  {
    r := [];
    var rest := strs;
    while rest != {}
      invariant rest <= strs
      invariant forall x :: x in r <==> x in strs && x !in rest
      invariant |r| + |rest| == |strs|
      invariant StrictlyAscending(r)
      invariant forall i, x :: 0 <= i < |r| && x in rest ==> StrLess(r[i], x)
      decreases rest
    {
      var m := Least(rest);
      r := r + [m];
      rest := rest - {m};
    }
  }
}
