/**
 * The text side of the grid's cross-filter: `String.prototype.split` on one
 * separator character, the part of `parseFloat` that reads plain decimal
 * numbers, and `parseRange`, which turns a `"min-max"` label into two
 * numbers (table.component.ts, `parseRange`).
 */
module Labels {

  /** A JavaScript number as far as the grid's comparisons see it: a finite
      value or `NaN`, which every comparison rejects. */
  datatype Num = Finite(value: real) | NaN

  /** `x >= n` on JavaScript numbers. */
  predicate AtLeast(x: real, n: Num) { n.Finite? && x >= n.value }

  /** `x < n` on JavaScript numbers. */
  predicate Below(x: real, n: Num) { n.Finite? && x < n.value }

  /** `s.split(sep)`: the pieces of `s` between occurrences of `sep`. */
  function Split(s: string, sep: char): (parts: seq<string>)
    ensures |parts| >= 1
    ensures forall i :: 0 <= i < |parts| ==> sep !in parts[i]
    ensures sep in s <==> |parts| >= 2
  {
    if s == [] then [[]]
    else
      var rest := Split(s[1..], sep);
      assert sep in s <==> s[0] == sep || sep in s[1..] by {
        assert s == [s[0]] + s[1..];
      }
      if s[0] == sep then [[]] + rest
      else [[s[0]] + rest[0]] + rest[1..]
  }

  /** `parts.join(sep)`. */
  function Join(parts: seq<string>, sep: char): string
    requires |parts| >= 1
  {
    if |parts| == 1 then parts[0] else parts[0] + [sep] + Join(parts[1..], sep)
  }

  /** Splitting loses nothing: joining the pieces gives the label back. */
  lemma {:induction false} JoinSplit(s: string, sep: char)
    ensures Join(Split(s, sep), sep) == s
  {
    if s != [] {
      JoinSplit(s[1..], sep);
      var rest := Split(s[1..], sep);
      if s[0] == sep {
        assert Split(s, sep)[1..] == rest;
      } else {
        var parts := Split(s, sep);
        assert parts[0] == [s[0]] + rest[0];
        if |rest| > 1 {
          assert parts[1..] == rest[1..];
          assert Join(rest, sep) == rest[0] + [sep] + Join(rest[1..], sep);
        }
      }
    }
  }

  /** A piece free of `sep` followed by `sep` is split off as the first piece. */
  lemma {:induction false} SplitAfterPiece(a: string, t: string, sep: char)
    requires sep !in a
    ensures Split(a + [sep] + t, sep) == [a] + Split(t, sep)
  {
    if a == [] {
      assert a + [sep] + t == [sep] + t;
      assert ([sep] + t)[1..] == t;
    } else {
      assert (a + [sep] + t)[1..] == a[1..] + [sep] + t;
      SplitAfterPiece(a[1..], t, sep);
      assert a == [a[0]] + a[1..];
    }
  }

  /** A piece free of `sep` at the end, or before `sep`, is the first piece. */
  lemma {:induction false} SplitFirstPiece(b: string, t: string, sep: char)
    requires sep !in b
    requires t == [] || t[0] == sep
    ensures Split(b + t, sep)[0] == b
  {
    if b == [] {
      assert b + t == t;
    } else {
      assert (b + t)[1..] == b[1..] + t;
      SplitFirstPiece(b[1..], t, sep);
      assert b == [b[0]] + b[1..];
    }
  }

  predicate IsDigit(c: char) { '0' <= c <= '9' }

  /** The length of the run of decimal digits at the front of `s`. */
  function DigitRun(s: string): (n: nat)
    ensures n <= |s|
    ensures forall i :: 0 <= i < n ==> IsDigit(s[i])
    ensures n < |s| ==> !IsDigit(s[n])
  {
    if s == [] || !IsDigit(s[0]) then 0 else 1 + DigitRun(s[1..])
  }

  /** The value of a string of decimal digits. */
  function DigitsValue(s: string): nat
    requires forall i :: 0 <= i < |s| ==> IsDigit(s[i])
  {
    if s == [] then 0
    else DigitsValue(s[..|s| - 1]) * 10 + DigitValue(s[|s| - 1])
  }

  function DigitValue(c: char): nat
    requires IsDigit(c)
  {
    c as int - '0' as int
  }

  function Pow10(n: nat): (p: nat)
    ensures p >= 1
  {
    if n == 0 then 1 else 10 * Pow10(n - 1)
  }

  /** The value of the run of digits at the front of `s`. */
  function LeadingValue(s: string): nat {
    DigitsValue(s[..DigitRun(s)])
  }

  /** `parseFloat(s)` on the decimal forms `ddd`, `ddd.ddd`, `ddd.` and
      `.ddd`: it reads the longest such prefix and ignores the rest; with no
      digit at the front (before or just after a point) the result is NaN. */
  function ParseFloat(s: string): (r: Num)
    ensures r.NaN? <==> DigitRun(s) == 0 && !(|s| >= 2 && s[0] == '.' && IsDigit(s[1]))
    ensures r.Finite? ==> r.value >= 0.0
  {
    var i := DigitRun(s);
    var whole := LeadingValue(s) as real;
    if i < |s| && s[i] == '.' then
      var fraction := s[i + 1..];
      var j := DigitRun(fraction);
      if i + j == 0 then NaN
      else Finite(whole + LeadingValue(fraction) as real / Pow10(j) as real)
    else if i == 0 then NaN
    else Finite(whole)
  }

  /** `parseFloat` reads a single digit `d` as the number d. */
  lemma ParseFloatDigit(d: char)
    requires IsDigit(d)
    ensures ParseFloat([d]) == Finite(DigitValue(d) as real)
  {
    assert DigitRun([d]) == 1 by { assert [d][1..] == []; }
    assert [d][..1] == [d];
    assert DigitsValue([d]) == DigitValue(d) by { assert [d][..0] == []; }
  }

  /** `parseFloat` reads `d.e` as d + e/10. */
  lemma ParseFloatDigitPointDigit(d: char, e: char)
    requires IsDigit(d) && IsDigit(e)
    ensures ParseFloat([d, '.', e]) == Finite(DigitValue(d) as real + DigitValue(e) as real / 10.0)
  {
    var s := [d, '.', e];
    assert DigitRun(s) == 1 by { assert s[1..] == ['.', e]; }
    assert s[..1] == [d];
    assert DigitsValue([d]) == DigitValue(d) by { assert [d][..0] == []; }
    assert s[2..] == [e];
    assert DigitRun([e]) == 1 by { assert [e][1..] == []; }
    assert [e][..1] == [e];
    assert DigitsValue([e]) == DigitValue(e) by { assert [e][..0] == []; }
  }

  /** `parseRange`: split at `'-'`, parse the first two pieces. JavaScript
      destructuring reads a missing second piece as `undefined`, which
      `parseFloat` turns into NaN. */
  function ParseRange(text: string): (r: (Num, Num))
    ensures '-' !in text ==> r == (ParseFloat(text), NaN)
  {
    JoinSplit(text, '-');
    var parts := Split(text, '-');
    (ParseFloat(parts[0]), if |parts| >= 2 then ParseFloat(parts[1]) else NaN)
  }

  /** The bounds are read from the text before the first hyphen and the text
      between the first hyphen and the next one (or the end). */
  lemma ParseRangePieces(a: string, b: string, t: string)
    requires '-' !in a && '-' !in b
    requires t == [] || t[0] == '-'
    ensures ParseRange(a + "-" + b + t) == (ParseFloat(a), ParseFloat(b))
  {
    assert a + "-" + b + t == a + ['-'] + (b + t);
    SplitAfterPiece(a, b + t, '-');
    SplitFirstPiece(b, t, '-');
  }

  /** `parseRange` on `d.e-f.g` gives d + e/10 and f + g/10. */
  lemma ParseRangeOfPoints(s: string, d: char, e: char, f: char, g: char, lo: real, hi: real)
    requires IsDigit(d) && IsDigit(e) && IsDigit(f) && IsDigit(g)
    requires s == [d, '.', e, '-', f, '.', g]
    requires lo == DigitValue(d) as real + DigitValue(e) as real / 10.0
    requires hi == DigitValue(f) as real + DigitValue(g) as real / 10.0
    ensures ParseRange(s) == (Finite(lo), Finite(hi))
  {
    ParseFloatDigitPointDigit(d, e);
    ParseFloatDigitPointDigit(f, g);
    ParseRangePieces([d, '.', e], [f, '.', g], []);
    assert [d, '.', e] + "-" + [f, '.', g] + [] == s;
  }

  /** `parseRange` on `d-f.g` gives d and f + g/10. */
  lemma ParseRangeOfDigitAndPoint(s: string, d: char, f: char, g: char, lo: real, hi: real)
    requires IsDigit(d) && IsDigit(f) && IsDigit(g)
    requires s == [d, '-', f, '.', g]
    requires lo == DigitValue(d) as real
    requires hi == DigitValue(f) as real + DigitValue(g) as real / 10.0
    ensures ParseRange(s) == (Finite(lo), Finite(hi))
  {
    ParseFloatDigit(d);
    ParseFloatDigitPointDigit(f, g);
    ParseRangePieces([d], [f, '.', g], []);
    assert [d] + "-" + [f, '.', g] + [] == s;
  }
}
