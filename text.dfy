/**
 * Decimal renderings of natural numbers and the order in which Python and
 * SQLite (BINARY collation) compare strings.
 */
module Text {

  predicate IsDigit(c: char) {
    '0' <= c <= '9'
  }

  predicate AllDigits(s: string) {
    forall i :: 0 <= i < |s| ==> IsDigit(s[i])
  }

  function DigitValue(c: char): (n: nat)
    requires IsDigit(c)
    ensures n < 10
  {
    c as int - '0' as int
  }

  function DigitChar(n: nat): (c: char)
    requires n < 10
    ensures IsDigit(c) && DigitValue(c) == n
  {
    ('0' as int + n) as char
  }

  function Pow10(w: nat): (p: nat)
    ensures p >= 1
  {
    if w == 0 then 1 else 10 * Pow10(w - 1)
  }

  /** The number a string of decimal digits denotes, most significant digit first. */
  function ValueOf(s: string): (n: nat)
    requires AllDigits(s)
    ensures n < Pow10(|s|)
  {
    if s == [] then 0 else 10 * ValueOf(s[..|s| - 1]) + DigitValue(s[|s| - 1])
  }

  /** `n` written with exactly `w` digits, zero-padded on the left (`%0wd`). */
  function ZeroPadded(n: nat, w: nat): (s: string)
    requires n < Pow10(w)
    ensures |s| == w && AllDigits(s)
    ensures ValueOf(s) == n
  {
    if w == 0 then []
    else
      var s := ZeroPadded(n / 10, w - 1) + [DigitChar(n % 10)];
      assert s[..|s| - 1] == ZeroPadded(n / 10, w - 1);
      s
  }

  /** `n` written in decimal without padding (`str(n)`, `%d`). */
  function Decimal(n: nat): (s: string)
    ensures 1 <= |s| && AllDigits(s)
    ensures ValueOf(s) == n
    ensures n > 0 ==> s[0] != '0'
  {
    if n < 10 then [DigitChar(n)]
    else
      var s := Decimal(n / 10) + [DigitChar(n % 10)];
      assert s[..|s| - 1] == Decimal(n / 10);
      s
  }

  /** A number below 10^(w-1) needs fewer than `w` digits. */
  lemma {:induction false} DecimalShort(n: nat, w: nat)
    requires w >= 2 && n < Pow10(w - 1)
    ensures |Decimal(n)| < w
  {
    if n >= 10 {
      DecimalShort(n / 10, w - 1);
    }
  }

  /** A number with exactly `w` significant digits is written the same padded or not. */
  lemma {:induction false} DecimalIsPadded(n: nat, w: nat)
    requires w >= 1 && Pow10(w - 1) <= n < Pow10(w)
    ensures Decimal(n) == ZeroPadded(n, w)
  {
    if w > 1 {
      DecimalIsPadded(n / 10, w - 1);
    }
  }

  /**
   * String comparison as Python's `<=` on `str` and SQLite's BINARY collation
   * do it: character by character, a proper prefix coming first.
   */
  predicate LexLe(a: string, b: string)
    ensures |a| <= |b| && a == b[..|a|] ==> LexLe(a, b)
  {
    if a == [] then true
    else if b == [] then false
    else if a[0] != b[0] then a[0] < b[0]
    else LexLe(a[1..], b[1..])
  }

  lemma {:induction false} LexLeAntisymmetric(a: string, b: string)
    requires LexLe(a, b) && LexLe(b, a)
    ensures a == b
  {
    if a != [] && b != [] {
      LexLeAntisymmetric(a[1..], b[1..]);
      assert a == [a[0]] + a[1..] && b == [b[0]] + b[1..];
    }
  }

  lemma {:induction false} LexLeTransitive(a: string, b: string, c: string)
    requires LexLe(a, b) && LexLe(b, c)
    ensures LexLe(a, c)
  {
    if a != [] && b != [] && c != [] && a[0] == b[0] == c[0] {
      LexLeTransitive(a[1..], b[1..], c[1..]);
    }
  }

  lemma {:induction false} LexLeTotal(a: string, b: string)
    ensures LexLe(a, b) || LexLe(b, a)
  {
    if a != [] && b != [] && a[0] == b[0] {
      LexLeTotal(a[1..], b[1..]);
    }
  }

  /** Comparing two strings that share a prefix length: the prefixes decide unless they are equal. */
  lemma {:induction false} LexLeConcat(p: string, r: string, q: string, t: string)
    requires |p| == |q|
    ensures LexLe(p + r, q + t) <==> (p != q && LexLe(p, q)) || (p == q && LexLe(r, t))
  {
    if p != [] {
      assert (p + r)[0] == p[0] && (q + t)[0] == q[0];
      assert (p + r)[1..] == p[1..] + r && (q + t)[1..] == q[1..] + t;
      LexLeConcat(p[1..], r, q[1..], t);
      if p[0] == q[0] {
        assert p != q <==> p[1..] != q[1..] by {
          assert p == [p[0]] + p[1..] && q == [q[0]] + q[1..];
        }
      }
    } else {
      assert p + r == r && q + t == t;
    }
  }

  /** For strings of digits of one length, string order is numeric order. */
  lemma {:induction false} DigitsOrder(s: string, t: string)
    requires AllDigits(s) && AllDigits(t) && |s| == |t|
    ensures LexLe(s, t) <==> ValueOf(s) <= ValueOf(t)
    ensures s == t <==> ValueOf(s) == ValueOf(t)
  {
    if s != [] {
      var k := |s| - 1;
      var s', t' := s[..k], t[..k];
      DigitsOrder(s', t');
      assert s == s' + [s[k]] && t == t' + [t[k]];
      LexLeConcat(s', [s[k]], t', [t[k]]);
      var a, b := DigitValue(s[k]), DigitValue(t[k]);
      assert s[k] <= t[k] <==> a <= b;
      assert LexLe([s[k]], [t[k]]) <==> s[k] <= t[k];
      assert s[k] == t[k] <==> a == b;
      assert ValueOf(s) == 10 * ValueOf(s') + a;
      assert ValueOf(t) == 10 * ValueOf(t') + b;
    }
  }

  /**
   * `s` spells "<name> <d>, <y>": the name, a space, `d` in `n` digits, a
   * comma and a space, then `y` in all the digits that remain.
   */
  predicate SpellsDate(s: string, name: string, n: nat, d: nat, y: nat) {
    var k := |name|;
    && |s| > k + n + 3
    && s[..k] == name && s[k] == ' '
    && AllDigits(s[k + 1..k + 1 + n]) && ValueOf(s[k + 1..k + 1 + n]) == d
    && s[k + 1 + n..k + 3 + n] == ", "
    && AllDigits(s[k + 3 + n..]) && ValueOf(s[k + 3 + n..]) == y
  }

  /** Joining a name, a space, day digits, ", " and year digits spells that date. */
  lemma DatePieces(name: string, day: string, year: string)
    requires AllDigits(day) && AllDigits(year) && year != []
    ensures var s := name + " " + day + ", " + year;
      && SpellsDate(s, name, |day|, ValueOf(day), ValueOf(year))
      && (day != [] ==> s[|name| + 1] == day[0])
      && s[|name| + 3 + |day|] == year[0]
  {
    var s, k, n := name + " " + day + ", " + year, |name|, |day|;
    assert s[k + 1..k + 1 + n] == day;
    assert s[k + 1 + n..k + 3 + n] == ", ";
    assert s[k + 3 + n..] == year;
  }

  /** A string of digits is the zero-padded rendering of its own value. */
  lemma PaddedValueOf(t: string)
    requires AllDigits(t)
    ensures ZeroPadded(ValueOf(t), |t|) == t
  {
    DigitsOrder(t, ZeroPadded(ValueOf(t), |t|));
  }

  /** Zero-padded numbers of one width sort as the numbers do. */
  lemma ZeroPaddedOrder(m: nat, n: nat, w: nat)
    requires m < Pow10(w) && n < Pow10(w)
    ensures LexLe(ZeroPadded(m, w), ZeroPadded(n, w)) <==> m <= n
    ensures ZeroPadded(m, w) == ZeroPadded(n, w) <==> m == n
  {
    DigitsOrder(ZeroPadded(m, w), ZeroPadded(n, w));
  }
}
