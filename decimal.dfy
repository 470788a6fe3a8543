/** The part of Python's `float()` that a score token goes through: an optional sign,
    decimal digits and at most one decimal point. Tokens outside this grammar are
    rejected, which is where the interview falls back to its default score. */
module Decimal {
  import opened Wrappers
  import Text

  predicate IsDigit(c: char) {
    '0' <= c <= '9'
  }

  predicate AllDigits(s: string) {
    forall i | 0 <= i < |s| :: IsDigit(s[i])
  }

  function DigitValue(c: char): nat
    requires IsDigit(c)
  {
    c as int - '0' as int
  }

  function DigitChar(d: nat): (c: char)
    requires d < 10
    ensures IsDigit(c) && DigitValue(c) == d
  {
    ('0' as int + d) as char
  }

  /** The number a string of decimal digits denotes (0 for the empty string). */
  function Value(s: string): nat
    requires AllDigits(s)
  {
    if s == [] then 0 else 10 * Value(s[..|s| - 1]) + DigitValue(s[|s| - 1])
  }

  function Pow10(k: nat): (p: nat)
    ensures p >= 1
  {
    if k == 0 then 1 else 10 * Pow10(k - 1)
  }

  /** The shortest decimal numeral of `n` (Python's `str(n)`). */
  function Digits(n: nat): (s: string)
    ensures s != [] && AllDigits(s)
  {
    if n < 10 then [DigitChar(n)] else Digits(n / 10) + [DigitChar(n % 10)]
  }

  /** Printing a natural number and reading it back gives the number. */
  lemma {:induction false} ValueOfDigits(n: nat)
    ensures Value(Digits(n)) == n
  {
    if n >= 10 {
      var s := Digits(n);
      assert s[..|s| - 1] == Digits(n / 10);
      ValueOfDigits(n / 10);
    }
  }

  /** The value of `whole.frac`. */
  function PointValue(whole: string, frac: string): real
    requires AllDigits(whole) && AllDigits(frac)
  {
    Value(whole) as real + Value(frac) as real / Pow10(|frac|) as real
  }

  /** A token without a sign: digits, optionally with one '.' and digits after it, and at
      least one digit overall (`float` accepts "7", "7.5", "7." and ".5"). */
  function ParseUnsigned(u: string): (r: Option<real>)
    ensures r.Some? ==> u != [] && forall i | 0 <= i < |u| :: IsDigit(u[i]) || u[i] == '.'
    ensures r.Some? ==> forall i, j | 0 <= i < j < |u| :: !(u[i] == '.' && u[j] == '.')
    ensures r.Some? ==> r.value >= 0.0
  {
    if '.' in u then
      var i := Text.IndexOf(u, '.');
      var whole, frac := u[..i], u[i + 1..];
      if AllDigits(whole) && AllDigits(frac) && |whole| + |frac| > 0 then
        assert forall j | 0 <= j < |u| :: j < i ==> u[j] == whole[j];
        assert forall j | 0 <= j < |u| :: i < j ==> u[j] == frac[j - i - 1];
        Some(PointValue(whole, frac))
      else None
    else if u != [] && AllDigits(u) then Some(Value(u) as real)
    else None
  }

  /** The modelled `float(token)`: `None` stands for the `ValueError` it raises. Every token
      it accepts is non-empty and made of digits and '.', with at most a leading sign. */
  function ParseDecimal(t: string): (r: Option<real>)
    ensures r.Some? ==> t != []
    ensures r.Some? ==> forall i | 0 <= i < |t| ::
                          IsDigit(t[i]) || t[i] == '.' || (i == 0 && (t[i] == '+' || t[i] == '-'))
    ensures r.Some? ==> forall i, j | 0 <= i < j < |t| :: !(t[i] == '.' && t[j] == '.')
  {
    if t != [] && (t[0] == '+' || t[0] == '-') then
      match ParseUnsigned(t[1..])
      case None => None
      case Some(v) =>
        assert forall i | 1 <= i < |t| :: t[i] == t[1..][i - 1];
        Some(if t[0] == '-' then -v else v)
    else ParseUnsigned(t)
  }

  /** A numeral without a sign, as `float` reads it: digits and at most one point, with
      at least one digit. */
  predicate UnsignedNumeral(u: string) {
    (forall i | 0 <= i < |u| :: IsDigit(u[i]) || u[i] == '.') &&
    (forall i, j | 0 <= i < j < |u| :: !(u[i] == '.' && u[j] == '.')) &&
    (exists i | 0 <= i < |u| :: IsDigit(u[i]))
  }

  /** A numeral with an optional leading sign. */
  predicate Numeral(t: string) {
    if t != [] && (t[0] == '+' || t[0] == '-') then UnsignedNumeral(t[1..]) else UnsignedNumeral(t)
  }

  /** Exactly the unsigned numerals are accepted. */
  lemma UnsignedAccepted(u: string)
    ensures ParseUnsigned(u).Some? <==> UnsignedNumeral(u)
  {
    if '.' in u {
      var i := Text.IndexOf(u, '.');
      var whole, frac := u[..i], u[i + 1..];
      if UnsignedNumeral(u) {
        forall k | 0 <= k < |whole| ensures IsDigit(whole[k]) {
          assert whole[k] == u[k] && u[k] in u[..i];
        }
        forall k | 0 <= k < |frac| ensures IsDigit(frac[k]) {
          assert frac[k] == u[i + 1 + k];
        }
        var d :| 0 <= d < |u| && IsDigit(u[d]);
        assert d != i;
      }
      if ParseUnsigned(u).Some? {
        if |whole| > 0 {
          assert IsDigit(u[0]) by { assert u[0] == whole[0]; }
        } else {
          assert IsDigit(u[i + 1]) by { assert u[i + 1] == frac[0]; }
        }
      }
    } else {
      if UnsignedNumeral(u) {
        forall k | 0 <= k < |u| ensures IsDigit(u[k]) {
          assert u[k] in u;
        }
      }
      if ParseUnsigned(u).Some? {
        assert IsDigit(u[0]);
      }
    }
  }

  /** `float` accepts a token exactly when it is a numeral with an optional sign. */
  lemma ParseAcceptsNumerals(t: string)
    ensures ParseDecimal(t).Some? <==> Numeral(t)
  {
    if t != [] && (t[0] == '+' || t[0] == '-') {
      UnsignedAccepted(t[1..]);
    } else {
      UnsignedAccepted(t);
    }
  }

  /** Appending digits shifts the value: the digits of `w` then `f` denote `w` times ten
      to the length of `f`, plus `f`. */
  lemma {:induction false} ValueConcat(w: string, f: string)
    requires AllDigits(w) && AllDigits(f)
    ensures AllDigits(w + f) && Value(w + f) == Value(w) * Pow10(|f|) + Value(f)
    decreases |f|
  {
    DigitsConcat(w, f);
    if f == [] {
      assert w + f == w;
    } else {
      var g := f[..|f| - 1];
      var s := w + f;
      assert s[..|s| - 1] == w + g;
      ValueConcat(w, g);
      var d := DigitValue(f[|f| - 1]);
      assert Value(s) == 10 * Value(w + g) + d;
      ShiftDigit(Value(w), Pow10(|g|), Value(g), d);
    }
  }

  lemma DigitsConcat(w: string, f: string)
    requires AllDigits(w) && AllDigits(f)
    ensures AllDigits(w + f)
  {
    var s := w + f;
    forall k | 0 <= k < |s| ensures IsDigit(s[k]) {
      if k < |w| { assert s[k] == w[k]; } else { assert s[k] == f[k - |w|]; }
    }
  }

  /** One more digit on the right: `10 (a p + b) + d` is `a (10 p) + (10 b + d)`. */
  lemma ShiftDigit(a: nat, p: nat, b: nat, d: nat)
    ensures 10 * (a * p + b) + d == a * (10 * p) + (10 * b + d)
  {
  }

  /** Moving the point: `a + b / p` is `(a p + b) / p`. */
  lemma ShiftPoint(a: nat, b: nat, p: nat)
    requires p >= 1
    ensures a as real + b as real / p as real == (a * p + b) as real / p as real
  {
    var q := p as real;
    assert (a * p) as real == a as real * q;
    assert (a as real * q + b as real) / q == a as real + b as real / q;
  }

  /** The value of `w.f` is all its digits over ten to the number of decimals. */
  lemma PointValueIs(w: string, f: string)
    requires AllDigits(w) && AllDigits(f)
    ensures AllDigits(w + f) && PointValue(w, f) == Value(w + f) as real / Pow10(|f|) as real
  {
    ValueConcat(w, f);
    ShiftPoint(Value(w), Value(f), Pow10(|f|));
  }

  /** A token of digits reads as the number they denote. */
  lemma ParseWhole(w: string)
    requires w != [] && AllDigits(w)
    ensures ParseDecimal(w) == Some(Value(w) as real)
  {
    assert IsDigit(w[0]);
    assert '.' !in w by {
      forall k | 0 <= k < |w| ensures w[k] != '.' {
        assert IsDigit(w[k]);
      }
    }
  }

  /** A token with a point reads as all its digits, taken as one number, over ten to the
      number of digits after the point: "8.5" reads as 85 / 10 and "7." as 7. */
  lemma ParsePointed(w: string, f: string)
    requires AllDigits(w) && AllDigits(f) && |w| + |f| > 0
    ensures ParseDecimal(w + "." + f) == Some(Value(w + f) as real / Pow10(|f|) as real)
  {
    var u := w + "." + f;
    assert u[0] != '+' && u[0] != '-' by {
      if |w| > 0 { assert u[0] == w[0]; }
    }
    PointSplits(w, f);
    PointValueIs(w, f);
  }

  lemma PointSplits(w: string, f: string)
    requires AllDigits(w) && AllDigits(f) && |w| + |f| > 0
    ensures ParseUnsigned(w + "." + f) == Some(PointValue(w, f))
  {
    var u := w + "." + f;
    assert u[|w|] == '.';
    assert u[..|w|] == w;
    assert '.' !in w by {
      forall k | 0 <= k < |w| ensures w[k] != '.' {
        assert IsDigit(w[k]);
      }
    }
    Text.IndexOfUnique(u, '.', |w|);
    assert u[|w| + 1..] == f;
  }

  /** A leading '+' changes nothing and a leading '-' negates the value of an unsigned
      token. */
  lemma ParseSigned(u: string)
    requires u == [] || (u[0] != '+' && u[0] != '-')
    ensures ParseDecimal("+" + u) == ParseDecimal(u)
    ensures ParseDecimal("-" + u) == if ParseDecimal(u).Some? then Some(-ParseDecimal(u).value) else None
  {
    assert ("+" + u)[1..] == u && ("-" + u)[1..] == u;
  }

  /** The numeral of a natural number reads as that number. */
  lemma ParseDigits(n: nat)
    ensures ParseDecimal(Digits(n)) == Some(n as real)
  {
    ValueOfDigits(n);
    ParseWhole(Digits(n));
  }

  /** A minus sign negates the value. */
  lemma ParseNegative(n: nat)
    ensures ParseDecimal("-" + Digits(n)) == Some(-(n as real))
  {
    var s := Digits(n);
    assert ("-" + s)[1..] == s;
    ParseDigits(n);
    assert '.' !in s;
  }
}
