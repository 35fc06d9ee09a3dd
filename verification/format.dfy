/** The ledger picture of a balance (`formatBalance` in src/accounting/index.js).

    The COBOL original displayed the balance through the picture `9(6)V99`:
    six integer digits, a decimal point and two fraction digits. The
    program builds it as `String(Math.floor(balance)).padStart(6, '0')`
    followed by `(balance % 1).toFixed(2)` without its leading `0`.
    `FormatBalance` renders a non-negative whole number of cents;
    `FormatRealAsWritten` renders a non-negative value that need not be one,
    as the program does for its credit and debit confirmations, and
    `FormatReal` is that rendering with the carry of the fraction kept.
 */
module Format {
  import opened Money

  datatype Option<T> = None | Some(value: T)

  predicate IsDigit(c: char) {
    '0' <= c <= '9'
  }

  predicate AllDigits(s: string) {
    forall i :: 0 <= i < |s| ==> IsDigit(s[i])
  }

  function DigitChar(d: nat): (c: char)
    requires d < 10
    ensures IsDigit(c) && c as int == '0' as int + d
  {
    ('0' as int + d) as char
  }

  function DigitValue(c: char): (d: nat)
    requires IsDigit(c)
    ensures d < 10 && DigitChar(d) == c
  {
    c as int - '0' as int
  }

  /** The number a string of decimal digits denotes, most significant first. */
  function DigitsValue(s: string): nat
    requires AllDigits(s)
  {
    if s == [] then 0
    else DigitsValue(s[..|s| - 1]) * 10 + DigitValue(s[|s| - 1])
  }

  function Pow10(k: nat): (p: nat)
    ensures p >= 1
  {
    if k == 0 then 1 else 10 * Pow10(k - 1)
  }

  /** `String(n)` for a non-negative integer: its decimal digits, without
      leading zeros. */
  function DecimalString(n: nat): (s: string)
    ensures |s| >= 1 && AllDigits(s)
    ensures s[0] == '0' ==> n == 0 && |s| == 1
  {
    if n < 10 then [DigitChar(n)]
    else DecimalString(n / 10) + [DigitChar(n % 10)]
  }

  /** `String(n)` denotes `n`. */
  lemma {:induction false} DecimalValue(n: nat)
    ensures DigitsValue(DecimalString(n)) == n
  {
    if n >= 10 {
      var t := DecimalString(n / 10);
      var s := DecimalString(n);
      assert s[..|s| - 1] == t;
      DecimalValue(n / 10);
    }
  }

  /** `padStart(width, fill)`: fills on the left up to `width` characters
      and never shortens a longer string. */
  function PadStart(s: string, width: nat, fill: char): (r: string)
    ensures |r| == if |s| >= width then |s| else width
    ensures r[|r| - |s|..] == s
    ensures forall i :: 0 <= i < |r| - |s| ==> r[i] == fill
  {
    if |s| >= width then s else Repeat(fill, width - |s|) + s
  }

  /** `k` copies of `c`. */
  function Repeat(c: char, k: nat): (r: string)
    ensures |r| == k && forall i :: 0 <= i < k ==> r[i] == c
  {
    if k == 0 then [] else Repeat(c, k - 1) + [c]
  }

  /** The two digits of a fraction of `f` hundredths. */
  function FractionDigits(f: nat): (s: string)
    requires f < 100
    ensures |s| == 2 && AllDigits(s)
  {
    [DigitChar(f / 10), DigitChar(f % 10)]
  }

  /** `f.toFixed(2)` for a fraction of `f` hundredths: `0.` and two digits. */
  function FixedTwo(f: nat): (s: string)
    requires f < 100
    ensures |s| == 4 && s[..2] == "0." && s[2..] == FractionDigits(f)
  {
    ['0', '.'] + FractionDigits(f)
  }

  /** The zero-padded integer part: `String(n).padStart(6, '0')`. */
  function IntegerPicture(n: nat): (s: string)
    ensures |s| >= 6
  {
    PadStart(DecimalString(n), 6, '0')
  }

  /** The zero-padded integer part is a digit string of at least six
      characters denoting `n`, exactly six while `n` has at most six digits. */
  lemma IntegerPictureValue(n: nat)
    ensures AllDigits(IntegerPicture(n)) && DigitsValue(IntegerPicture(n)) == n
    ensures |IntegerPicture(n)| == 6 <==> n < 1000000
  {
    PaddedValue(n, 6);
    DecimalLength(n, 6);
    assert Pow10(6) == 1000000 by {
      assert Pow10(1) == 10;
      assert Pow10(3) == 1000;
    }
  }

  /** The ledger picture of a balance of `cents` cents: the padded integer
      part, a point and the two digits of the hundredths. `CentsAsWritten`
      shows that the program's own expression gives this string on every
      whole number of cents. */
  function FormatBalance(cents: nat): (r: string)
    ensures |r| >= 9 && r[|r| - 3] == '.'
  {
    IntegerPicture(cents / 100) + ['.'] + FractionDigits(cents % 100)
  }

  /** Reads a ledger picture back: at least one integer digit, a point and
      exactly two fraction digits. Anything else is rejected. */
  function ParseBalance(s: string): (r: Option<nat>)
    ensures r.Some? ==> |s| >= 4 && s[|s| - 3] == '.'
  {
    if |s| < 4 || s[|s| - 3] != '.' then None
    else ParseParts(s[..|s| - 3], s[|s| - 2..])
  }

  /** The value of an integer part and a fraction part, when both are
      digit strings. */
  function ParseParts(p: string, q: string): (r: Option<nat>)
    ensures r.Some? <==> AllDigits(p) && AllDigits(q)
  {
    if AllDigits(p) && AllDigits(q) then Some(DigitsValue(p) * 100 + DigitsValue(q))
    else None
  }

  /** Zeros on the left do not change the value of a digit string. */
  lemma {:induction false} LeadingZeros(z: string, s: string)
    requires forall i :: 0 <= i < |z| ==> z[i] == '0'
    requires AllDigits(s)
    ensures AllDigits(z + s) && DigitsValue(z + s) == DigitsValue(s)
  {
    if s == [] {
      assert z + s == z;
      if z != [] {
        LeadingZeros(z[..|z| - 1], []);
        assert z[..|z| - 1] + [] == z[..|z| - 1];
      }
    } else {
      var t := s[..|s| - 1];
      LeadingZeros(z, t);
      assert (z + s)[..|z + s| - 1] == z + t;
    }
  }

  /** A decimal string has at most `k` digits exactly when the number is
      below `10^k`. */
  lemma {:induction false} DecimalLength(n: nat, k: nat)
    requires k >= 1
    ensures |DecimalString(n)| <= k <==> n < Pow10(k)
  {
    if n >= 10 && k > 1 {
      DecimalLength(n / 10, k - 1);
    } else if n >= 10 {
      assert |DecimalString(n)| == |DecimalString(n / 10)| + 1;
    }
  }

  /** The zero-padded integer part reads back as the number it shows. */
  lemma PaddedValue(n: nat, width: nat)
    ensures AllDigits(PadStart(DecimalString(n), width, '0'))
    ensures DigitsValue(PadStart(DecimalString(n), width, '0')) == n
  {
    var d := DecimalString(n);
    var p := PadStart(d, width, '0');
    assert p == p[..|p| - |d|] + d;
    LeadingZeros(p[..|p| - |d|], d);
    DecimalValue(n);
  }

  lemma TwoDigits(q: string)
    requires |q| == 2 && AllDigits(q)
    ensures DigitsValue(q) == DigitValue(q[0]) * 10 + DigitValue(q[1])
  {
    assert q[..1][..0] == [];
    assert DigitsValue(q[..1]) == DigitValue(q[0]);
  }

  /** The two fraction digits of `toFixed(2)` read back as the hundredths. */
  lemma FractionValue(f: nat)
    requires f < 100
    ensures DigitsValue(FractionDigits(f)) == f
  {
    var q := FractionDigits(f);
    TwoDigits(q);
    assert DigitValue(q[0]) == f / 10;
    assert DigitValue(q[1]) == f % 10;
  }

  /** A string with a point three characters from its end is read as its
      integer part and its two fraction characters. */
  lemma ParsePicture(p: string, q: string)
    requires |p| >= 1 && |q| == 2
    ensures ParseBalance(p + ['.'] + q) == ParseParts(p, q)
  {
    var s := p + ['.'] + q;
    assert s[|s| - 3] == '.';
    assert s[..|s| - 3] == p;
    assert s[|s| - 2..] == q;
  }

  /** Two digit strings are read as the first times 100 plus the second. */
  lemma PartsCombine(p: string, q: string, n: nat, f: nat)
    requires AllDigits(p) && DigitsValue(p) == n
    requires AllDigits(q) && DigitsValue(q) == f
    ensures ParseParts(p, q) == Some(n * 100 + f)
  {
  }

  /** The two parts of the picture of `n` units and `f` hundredths read
      back as `n * 100 + f` cents. */
  lemma PartsValue(n: nat, f: nat)
    requires f < 100
    ensures ParseParts(IntegerPicture(n), FractionDigits(f)) == Some(n * 100 + f)
  {
    PaddedValue(n, 6);
    FractionValue(f);
    PartsCombine(IntegerPicture(n), FractionDigits(f), n, f);
  }

  /** The ledger picture reads back as the balance it was made from. */
  lemma FormatRoundTrip(cents: nat)
    ensures ParseBalance(FormatBalance(cents)) == Some(cents)
  {
    var n, f := cents / 100, cents % 100;
    assert n * 100 + f == cents;
    ParsePicture(IntegerPicture(n), FractionDigits(f));
    PartsValue(n, f);
  }

  /** A digit string of value zero is all zeros. */
  lemma {:induction false} ZeroDigits(u: string)
    requires AllDigits(u) && DigitsValue(u) == 0
    ensures forall i :: 0 <= i < |u| ==> u[i] == '0'
  {
    if u != [] {
      ZeroDigits(u[..|u| - 1]);
      assert DigitChar(0) == '0';
      forall i | 0 <= i < |u|
        ensures u[i] == '0'
      {
        if i < |u| - 1 {
          assert u[i] == u[..|u| - 1][i];
        }
      }
    }
  }

  /** Padding commutes with appending one more character on the right. */
  lemma PadAppend(x: string, width: nat, c: char)
    requires width >= 1
    ensures PadStart(x + [c], width, '0') == PadStart(x, width - 1, '0') + [c]
  {
  }

  /** A digit string of width `w` is the zero-padded decimal string of its
      own value: padding restores exactly the leading zeros. */
  lemma {:induction false} PaddedDigits(t: string)
    requires |t| >= 1 && AllDigits(t)
    ensures PadStart(DecimalString(DigitsValue(t)), |t|, '0') == t
  {
    var u := t[..|t| - 1];
    var c := t[|t| - 1];
    assert t == u + [c];
    if u == [] {
      assert DigitsValue(t) == DigitValue(c);
    } else if DigitsValue(u) == 0 {
      ZeroDigits(u);
      PaddedSingleDigit(u, c);
    } else {
      PaddedDigits(u);
      PaddedNextDigit(u, c);
    }
  }

  /** Appending a digit multiplies the value by ten and adds the digit. */
  lemma DigitsAppend(u: string, c: char)
    requires AllDigits(u) && IsDigit(c)
    ensures AllDigits(u + [c]) && DigitsValue(u + [c]) == DigitsValue(u) * 10 + DigitValue(c)
  {
    assert (u + [c])[..|u|] == u;
  }

  lemma PaddedSingleDigit(u: string, c: char)
    requires IsDigit(c) && forall i :: 0 <= i < |u| ==> u[i] == '0'
    ensures AllDigits(u + [c]) && DigitsValue(u + [c]) == DigitValue(c)
    ensures PadStart(DecimalString(DigitValue(c)), |u| + 1, '0') == u + [c]
  {
    ZerosThenDigitValue(u, c);
    ZerosThenDigitPicture(u, c);
  }

  lemma ZerosThenDigitValue(u: string, c: char)
    requires IsDigit(c) && forall i :: 0 <= i < |u| ==> u[i] == '0'
    ensures AllDigits(u + [c]) && DigitsValue(u + [c]) == DigitValue(c)
  {
    LeadingZeros(u, [c]);
    assert [c][..0] == [];
  }

  lemma ZerosThenDigitPicture(u: string, c: char)
    requires IsDigit(c) && forall i :: 0 <= i < |u| ==> u[i] == '0'
    ensures PadStart(DecimalString(DigitValue(c)), |u| + 1, '0') == u + [c]
  {
    assert DecimalString(DigitValue(c)) == [c];
    assert Repeat('0', |u|) == u;
  }

  lemma PaddedNextDigit(u: string, c: char)
    requires |u| >= 1 && AllDigits(u) && IsDigit(c) && DigitsValue(u) > 0
    requires PadStart(DecimalString(DigitsValue(u)), |u|, '0') == u
    ensures AllDigits(u + [c])
    ensures PadStart(DecimalString(DigitsValue(u + [c])), |u| + 1, '0') == u + [c]
  {
    NextDigitString(u, c);
    PadAppend(DecimalString(DigitsValue(u)), |u| + 1, c);
  }

  /** The decimal string of a digit string extended by one digit is the
      decimal string of the shorter one, extended by the same digit. */
  lemma NextDigitString(u: string, c: char)
    requires AllDigits(u) && IsDigit(c) && DigitsValue(u) > 0
    ensures AllDigits(u + [c])
    ensures DecimalString(DigitsValue(u + [c])) == DecimalString(DigitsValue(u)) + [c]
  {
    var v := DigitsValue(u);
    var d := DigitValue(c);
    DigitsAppend(u, c);
    DecimalAppend(v, d);
  }

  /** Conversely, every nine-character picture that reads as a balance is
      the picture of that balance: the format is a bijection between
      0 .. 99999999 cents and the strings `dddddd.dd`. */
  lemma PictureUnique(s: string)
    requires |s| == 9 && ParseBalance(s).Some?
    ensures FormatBalance(ParseBalance(s).value) == s
  {
    var p, q := s[..6], s[7..];
    PictureParts(s);
    var n, f := DigitsValue(p), DigitsValue(q);
    FractionDigitsOf(q);
    PaddedDigits(p);
    assert IntegerPicture(n) == p;
    FormatOf(n, f);
    assert FormatBalance(n * 100 + f) == p + ['.'] + q;
  }

  /** A nine-character string that reads as a balance is six digits, a
      point and two digits, and reads as the two digit strings combined. */
  lemma PictureParts(s: string)
    requires |s| == 9 && ParseBalance(s).Some?
    ensures s == s[..6] + ['.'] + s[7..]
    ensures AllDigits(s[..6]) && AllDigits(s[7..])
    ensures ParseBalance(s).value == DigitsValue(s[..6]) * 100 + DigitsValue(s[7..])
  {
    assert s[..|s| - 3] == s[..6];
    assert s[|s| - 2..] == s[7..];
  }

  /** Two digits are the fraction digits of the hundredths they denote. */
  lemma FractionDigitsOf(q: string)
    requires |q| == 2 && AllDigits(q)
    ensures DigitsValue(q) < 100 && FractionDigits(DigitsValue(q)) == q
  {
    TwoDigits(q);
    var f := DigitsValue(q);
    assert f / 10 == DigitValue(q[0]) && f % 10 == DigitValue(q[1]);
  }

  /** The picture of `n` units and `f` hundredths. */
  lemma FormatOf(n: nat, f: nat)
    requires f < 100
    ensures FormatBalance(n * 100 + f) == IntegerPicture(n) + ['.'] + FractionDigits(f)
  {
    var c := n * 100 + f;
    var q, r := c / 100, c % 100;
    Hundredths(n, f);
    assert q == n && r == f;
    assert FormatBalance(c) == IntegerPicture(q) + ['.'] + FractionDigits(r);
  }

  lemma Hundredths(n: nat, f: nat)
    requires f < 100
    ensures (n * 100 + f) / 100 == n && (n * 100 + f) % 100 == f
  {
  }

  /** The picture is exactly nine characters wide when the balance fits
      the six integer digits, and wider (never cut) beyond 999999.99. */
  lemma FormatWidth(cents: nat)
    ensures |FormatBalance(cents)| == 9 <==> cents <= 99999999
  {
    DecimalLength(cents / 100, 6);
    assert Pow10(6) == 1000000 by {
      assert Pow10(1) == 10;
      assert Pow10(3) == 1000;
    }
  }

  /** The test suite's cases: 1000.00 shows as `001000.00`, 0.00 as
      `000000.00` and 999999.99 as `999999.99`. */
  lemma FormatExamples()
    ensures FormatBalance(100000) == "001000.00"
    ensures FormatBalance(0) == "000000.00"
    ensures FormatBalance(99999999) == "999999.99"
  {
    FormatInitialExample();
    FormatZeroExample();
    FormatLargestExample();
  }

  lemma FormatInitialExample()
    ensures FormatBalance(100000) == "001000.00"
  {
    assert DecimalString(10) == "10";
    assert DecimalString(100) == "100";
    assert DecimalString(1000) == "1000";
    assert FractionDigits(0) == "00";
  }

  lemma FormatZeroExample()
    ensures FormatBalance(0) == "000000.00"
  {
    assert DecimalString(0) == "0";
    assert FractionDigits(0) == "00";
  }

  lemma FormatLargestExample()
    ensures FormatBalance(99999999) == "999999.99"
  {
    var nine := DigitChar(9);
    assert nine == '9';
    DecimalAppend(9, 9);
    DecimalAppend(99, 9);
    DecimalAppend(999, 9);
    DecimalAppend(9999, 9);
    DecimalAppend(99999, 9);
    var d := DecimalString(999999);
    assert d == "999999";
    assert PadStart(d, 6, '0') == d;
    assert FractionDigits(99) == "99";
    assert 99999999 / 100 == 999999 && 99999999 % 100 == 99;
    assert FormatBalance(99999999) == PadStart(d, 6, '0') + ['.'] + FractionDigits(99);
  }

  lemma DecimalAppend(n: nat, d: nat)
    requires 1 <= n && d < 10
    ensures DecimalString(10 * n + d) == DecimalString(n) + [DigitChar(d)]
  {
    assert (10 * n + d) / 10 == n && (10 * n + d) % 10 == d;
  }

  /** `(f).toFixed(2)` for a fraction that rounds to `h` hundredths, where
      `h` may reach 100: a fraction of 0.995 or more gives `1.00`. */
  function FixedFraction(h: nat): (t: string)
    requires h <= 100
    ensures |t| == 4 && t[1] == '.'
    ensures t[0] == (if h == 100 then '1' else '0')
    ensures t[2..] == FractionDigits(h % 100)
  {
    if h == 100 then ['1', '.', '0', '0'] else FixedTwo(h)
  }

  /** The integer part of a non-negative value and the hundredths its
      fraction rounds to (0 .. 100). */
  function Fraction(x: real): (h: nat)
    requires x >= 0.0
    ensures h <= 100
    ensures (h as real - 0.5) / 100.0 <= x - x.Floor as real < (h as real + 0.5) / 100.0
  {
    RoundCents(x - x.Floor as real)
  }

  /** `formatBalance` as written, on a non-negative value: the padded floor,
      then `(x % 1).toFixed(2)` without its first character. When the
      fraction rounds up to a whole unit its `1` is dropped and the floor is
      not raised, so the carry is lost. */
  function FormatRealAsWritten(x: real): (r: string)
    requires x >= 0.0
    ensures r == IntegerPicture(x.Floor) + ['.'] + FractionDigits(Fraction(x) % 100)
  {
    var t := FixedFraction(Fraction(x));
    assert t[1..] == ['.'] + t[2..];
    IntegerPicture(x.Floor) + t[1..]
  }

  /** The intended picture of a non-negative value: the value rounded to the
      nearest cent (ties away from zero), shown in the ledger picture. */
  function FormatReal(x: real): (r: string)
    requires x >= 0.0
    ensures ParseBalance(r) == Some(RoundCents(x))
    ensures |r| == 9 <==> RoundCents(x) <= 99999999
  {
    var c := RoundCents(x);
    FormatRoundTrip(c);
    FormatWidth(c);
    FormatBalance(c)
  }

  /** Adding a whole number moves the floor by that number. */
  lemma FloorShift(k: int, y: real)
    ensures (k as real + y).Floor == k + y.Floor
  {
    var f := y.Floor;
    assert f as real <= y < f as real + 1.0;
    assert (k + f) as real <= k as real + y < (k + f) as real + 1.0;
  }

  /** The nearest cent of a non-negative value is its floor in hundreds plus
      the hundredths its fraction rounds to. */
  lemma RoundSplit(x: real)
    requires x >= 0.0
    ensures RoundCents(x) == 100 * x.Floor + Fraction(x)
  {
    var n := x.Floor;
    var fr := x - n as real;
    assert 100.0 * x + 0.5 == (100 * n) as real + (100.0 * fr + 0.5);
    FloorShift(100 * n, 100.0 * fr + 0.5);
  }

  /** Any picture made of a padded integer part, a point and two digits is
      the ledger picture of the cents it shows. */
  lemma PictureOf(n: nat, h: nat, c: int, w: string)
    requires h < 100 && c == 100 * n + h
    requires w == IntegerPicture(n) + ['.'] + FractionDigits(h)
    ensures c >= 0 && w == FormatBalance(c)
  {
    var q, r := c / 100, c % 100;
    Hundredths(n, h);
    assert q == n && r == h;
    assert FormatBalance(c) == IntegerPicture(q) + ['.'] + FractionDigits(r);
  }

  /** Without a carry the program's rendering is the intended one. */
  lemma AsWrittenWithoutCarry(x: real)
    requires x >= 0.0 && Fraction(x) < 100
    ensures FormatRealAsWritten(x) == FormatReal(x)
  {
    RoundSplit(x);
    PictureOf(x.Floor, Fraction(x) % 100, RoundCents(x), FormatRealAsWritten(x));
  }

  /** With a carry the program shows one unit less than the value rounded to
      the cent: the picture reads back as `RoundCents(x) - 100`, so it is
      not the intended picture. */
  lemma AsWrittenLosesCarry(x: real)
    requires x >= 0.0 && Fraction(x) == 100
    ensures ParseBalance(FormatRealAsWritten(x)) == Some(RoundCents(x) - 100)
    ensures FormatRealAsWritten(x) != FormatReal(x)
  {
    CarryValue(x);
    assert ParseBalance(FormatReal(x)) == Some(RoundCents(x));
  }

  lemma CarryValue(x: real)
    requires x >= 0.0 && Fraction(x) == 100
    ensures ParseBalance(FormatRealAsWritten(x)) == Some(RoundCents(x) - 100)
  {
    // With a carry the program shows the floor followed by `.00`.
    RoundSplit(x);
    CarryPicture(x.Floor, Fraction(x) % 100, RoundCents(x), FormatRealAsWritten(x));
  }

  /** A picture that shows `k` hundredths where `c` has `k + 100`: it reads
      back as one unit less than `c`. */
  lemma CarryPicture(n: nat, k: nat, c: int, w: string)
    requires k < 100 && c == 100 * n + k + 100
    requires w == IntegerPicture(n) + ['.'] + FractionDigits(k)
    ensures ParseBalance(w) == Some(c - 100)
  {
    PictureValue(n, k, w);
  }

  /** A padded integer part, a point and two digits read back as the cents they show. */
  lemma PictureValue(n: nat, h: nat, w: string)
    requires h < 100 && w == IntegerPicture(n) + ['.'] + FractionDigits(h)
    ensures ParseBalance(w) == Some(n * 100 + h)
  {
    ParsePicture(IntegerPicture(n), FractionDigits(h));
    PartsValue(n, h);
  }

  /** On a whole number of cents the program's expression gives exactly the
      ledger picture: no carry can occur. */
  lemma CentsAsWritten(cents: nat)
    ensures FormatRealAsWritten(Dollars(cents)) == FormatBalance(cents)
  {
    CentsSplit(cents);
  }

  /** A whole number of cents has the floor of its hundreds and a fraction
      of its remaining hundredths. */
  lemma CentsSplit(cents: nat)
    ensures Dollars(cents).Floor == cents / 100
    ensures Fraction(Dollars(cents)) == cents % 100
  {
    var n, f := cents / 100, cents % 100;
    CentsFloor(n, f);
    assert cents == n * 100 + f;
    RoundCentsOfCents(f);
    assert Dollars(cents) - n as real == Dollars(f);
  }

  /** `n` units and `f` hundredths have floor `n`. */
  lemma CentsFloor(n: nat, f: nat)
    requires f < 100
    ensures (n as real + Dollars(f)).Floor == n
    ensures Dollars(n * 100 + f) == n as real + Dollars(f)
  {
    FloorShift(n, Dollars(f));
    assert Dollars(f).Floor == 0;
  }

  /** The value 1000.999 rounds to 1001.00 but is shown as `001000.00`. */
  lemma CarryExample()
    ensures FormatRealAsWritten(1000.999) == "001000.00"
    ensures FormatReal(1000.999) == FormatBalance(100100)
  {
    assert (1000.999).Floor == 1000;
    assert Fraction(1000.999) == 100;
    AsWrittenLosesCarry(1000.999);
    FormatOf(1000, 0);
    FormatInitialExample();
  }
}
