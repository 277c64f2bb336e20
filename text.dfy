/** Decimal text as the portfolio scripts read and write it: cells are strings,
    numbers are read with Python's float() (after str.strip() or
    str.rstrip('%')) and written with fixed-point f-strings (f"{x:.2f}") or
    str(x). Python floats are modelled as real numbers. */
module Text {

  datatype Option<+T> = None | Some(value: T)

  // ---------------------------------------------------------------------------
  // Digits

  predicate IsDigit(c: char) { '0' <= c <= '9' }

  predicate AllDigits(s: string) { forall i :: 0 <= i < |s| ==> IsDigit(s[i]) }

  function DigitValue(c: char): nat
    requires IsDigit(c)
  {
    c as int - '0' as int
  }

  function DigitChar(d: nat): (c: char)
    requires d < 10
    ensures IsDigit(c) && DigitValue(c) == d
  {
    ('0' as int + d) as char
  }

  function Max(a: nat, b: nat): (m: nat)
    ensures m >= a && m >= b && (m == a || m == b)
  {
    if a >= b then a else b
  }

  function Pow10(k: nat): (p: nat)
    ensures p >= 1
  {
    if k == 0 then 1 else 10 * Pow10(k - 1)
  }

  /** The value of a string of decimal digits, most significant digit first. */
  function DigitsValue(s: string): nat
    requires AllDigits(s)
  {
    if s == [] then 0 else DigitsValue(s[..|s| - 1]) * 10 + DigitValue(s[|s| - 1])
  }

  /** Decimal text of n, without leading zeros ("0" for zero). */
  function NatText(n: nat): (s: string)
    ensures AllDigits(s) && |s| > 0
  {
    if n < 10 then [DigitChar(n)] else NatText(n / 10) + [DigitChar(n % 10)]
  }

  /** The w lowest decimal digits of n, zero-padded to exactly w characters. */
  function PadDigits(n: nat, w: nat): (s: string)
    ensures AllDigits(s) && |s| == w
  {
    if w == 0 then [] else PadDigits(n / 10, w - 1) + [DigitChar(n % 10)]
  }

  lemma {:induction false} NatTextValue(n: nat)
    ensures DigitsValue(NatText(n)) == n
  {
    if n >= 10 {
      NatTextValue(n / 10);
      var s := NatText(n / 10) + [DigitChar(n % 10)];
      assert s[..|s| - 1] == NatText(n / 10);
    }
  }

  lemma {:induction false} PadDigitsValue(n: nat, w: nat)
    requires n < Pow10(w)
    ensures DigitsValue(PadDigits(n, w)) == n
  {
    if w > 0 {
      assert n / 10 < Pow10(w - 1);
      PadDigitsValue(n / 10, w - 1);
      var s := PadDigits(n / 10, w - 1) + [DigitChar(n % 10)];
      assert s[..|s| - 1] == PadDigits(n / 10, w - 1);
    }
  }

  /** A digit string is the zero-padded rendering of its own value. */
  lemma {:induction false} PadDigitsOfValue(s: string)
    requires AllDigits(s)
    ensures PadDigits(DigitsValue(s), |s|) == s
  {
    if s != [] {
      var init := s[..|s| - 1];
      PadDigitsOfValue(init);
      var v := DigitsValue(s);
      assert v / 10 == DigitsValue(init) && v % 10 == DigitValue(s[|s| - 1]);
      assert s == init + [s[|s| - 1]];
    }
  }

  // ---------------------------------------------------------------------------
  // Whitespace and suffixes

  /** The ASCII characters str.strip() and float() skip as whitespace: space,
      tab, line feed, vertical tab, form feed, carriage return and the
      separators 0x1C .. 0x1F. */
  predicate IsSpace(c: char)
  {
    c == ' ' || c == '\t' || c == '\n' || c == '\r' || c == '\U{0B}' || c == '\U{0C}'
    || ('\U{1C}' <= c <= '\U{1F}')
  }

  /** The index of the first character of s from i on that is not
      whitespace, or |s| when there is none. */
  function SkipSpaces(s: string, i: nat): (k: nat)
    requires i <= |s|
    ensures i <= k <= |s|
    decreases |s| - i
  {
    if i < |s| && IsSpace(s[i]) then SkipSpaces(s, i + 1) else i
  }

  /** The end of s[..j] once the whitespace ending it is dropped, never
      below lo. */
  function TrimSpaces(s: string, lo: nat, j: nat): (k: nat)
    requires lo <= j <= |s|
    ensures lo <= k <= j
  {
    if j > lo && IsSpace(s[j - 1]) then TrimSpaces(s, lo, j - 1) else j
  }

  /** str.strip(): drop leading and trailing whitespace. */
  function Strip(s: string): (t: string)
    ensures |t| <= |s|
  {
    var a := SkipSpaces(s, 0);
    s[a..TrimSpaces(s, a, |s|)]
  }

  /** A cell is blank when str.strip() leaves nothing of it. */
  predicate IsBlank(s: string) { Strip(s) == "" }

  /** The end of s[..j] once every c ending it is dropped. */
  function TrimChar(s: string, c: char, j: nat): (k: nat)
    requires j <= |s|
    ensures k <= j
  {
    if j > 0 && s[j - 1] == c then TrimChar(s, c, j - 1) else j
  }

  /** str.rstrip(c): drop every trailing occurrence of c. */
  function RStrip(s: string, c: char): (t: string)
    ensures |t| <= |s|
  {
    s[..TrimChar(s, c, |s|)]
  }

  /** str.lower() on ASCII letters. */
  function Lower(s: string): (t: string)
    ensures |t| == |s|
  {
    seq(|s|, i requires 0 <= i < |s| => if 'A' <= s[i] <= 'Z' then (s[i] as int + 32) as char else s[i])
  }

  // ---------------------------------------------------------------------------
  // Parsing: float(s)

  /** How far the reading of a number has got after a prefix of the text:
      the sign and the digits before and after the point seen so far. */
  datatype Lexer =
    | Lead                                    // whitespace only
    | Sign(neg: bool)                         // a sign, no digit yet
    | Whole(neg: bool, w: string)             // digits, no point yet
    | Point(neg: bool, w: string, f: string)  // the point and the digits after it
    | Trail(neg: bool, w: string, f: string)  // whitespace after the number
    | Reject

  /** The lexer after one more character. */
  function Step(st: Lexer, c: char): Lexer
  {
    match st
    case Lead =>
      if IsSpace(c) then Lead
      else if c == '-' || c == '+' then Sign(c == '-')
      else if IsDigit(c) then Whole(false, [c])
      else if c == '.' then Point(false, "", "")
      else Reject
    case Sign(neg) =>
      if IsDigit(c) then Whole(neg, [c])
      else if c == '.' then Point(neg, "", "")
      else Reject
    case Whole(neg, w) =>
      if IsDigit(c) then Whole(neg, w + [c])
      else if c == '.' then Point(neg, w, "")
      else if IsSpace(c) then Trail(neg, w, "")
      else Reject
    case Point(neg, w, f) =>
      if IsDigit(c) then Point(neg, w, f + [c])
      else if IsSpace(c) && |w| + |f| > 0 then Trail(neg, w, f)
      else Reject
    case Trail(_, _, _) => if IsSpace(c) then st else Reject
    case Reject => Reject
  }

  /** The lexer after the whole of t. */
  function Feed(st: Lexer, t: string): Lexer
    decreases |t|
  {
    if |t| == 0 then st else Feed(Step(st, t[0]), t[1..])
  }

  /** The signed value of the digits w.f; None when there is no digit. */
  function Number(neg: bool, w: string, f: string): (r: Option<real>)
    ensures r.Some? <==> |w| + |f| > 0 && AllDigits(w) && AllDigits(f)
  {
    if |w| + |f| > 0 && AllDigits(w) && AllDigits(f) then
      var v := DecimalValue(w, f);
      Some(if neg then -v else v)
    else
      None
  }

  /** What the text read so far denotes once it ends. */
  function Accept(st: Lexer): Option<real>
  {
    match st
    case Whole(neg, w) => Number(neg, w, "")
    case Point(neg, w, f) => Number(neg, w, f)
    case Trail(neg, w, f) => Number(neg, w, f)
    case _ => None
  }

  /** The value of the decimal whole.frac. */
  function DecimalValue(whole: string, frac: string): real
    requires AllDigits(whole) && AllDigits(frac)
  {
    DigitsValue(whole) as real + DigitsValue(frac) as real / Pow10(|frac|) as real
  }

  /** float(s): optional whitespace, an optional sign, digits with at most
      one point and at least one digit, optional whitespace. None stands for
      the ValueError Python raises. */
  function ParseReal(s: string): Option<real>
  {
    Accept(Feed(Lead, s))
  }

  /** float(s.rstrip('%')), the way percentage cells are read. */
  function ParsePercent(s: string): Option<real>
  {
    ParseReal(RStrip(s, '%'))
  }

  // ---------------------------------------------------------------------------
  // Rendering: f"{x:.<p>f}" and str(x)

  /** x scaled by 10^p and rounded to an integer, halves to even. */
  function Scaled(x: real, p: nat): int
  {
    var y := x * Pow10(p) as real;
    var f := y.Floor;
    var r := y - f as real;
    if r > 0.5 || (r == 0.5 && f % 2 == 1) then f + 1 else f
  }

  /** x rounded to p decimal places. */
  function RoundTo(x: real, p: nat): real
  {
    Scaled(x, p) as real / Pow10(p) as real
  }

  /** Text of a / 10^p with exactly p decimals. */
  function UnsignedFixed(a: nat, p: nat): string
  {
    var P := Pow10(p);
    if p == 0 then NatText(a) else DivMod(a, P); NatText(a / P) + "." + PadDigits(a % P, p)
  }

  function Magnitude(m: int): nat
  {
    if m < 0 then -m else m
  }

  /** The value a / 10^p, negated when neg. */
  function Shift(neg: bool, a: nat, p: nat): real
  {
    var v := a as real / Pow10(p) as real;
    if neg then -v else v
  }

  /** f"{x:.<p>f}": a minus sign for negative x (even when the rounded value
      is zero), then the rounded magnitude. */
  function Fixed(x: real, p: nat): string
  {
    SignedFixed(x < 0.0, Magnitude(Scaled(x, p)), p)
  }

  /** a / 10^p with p decimals, behind a minus sign when neg. */
  function SignedFixed(neg: bool, a: nat, p: nat): string
  {
    var body := UnsignedFixed(a, p);
    if neg then "-" + body else body
  }

  const MaxReprPlaces: nat := 17

  /** The fewest decimal places, from p on and at most MaxReprPlaces, that
      render x exactly. */
  function ReprPlaces(x: real, p: nat): nat
    decreases MaxReprPlaces - p
  {
    if p >= MaxReprPlaces || RoundTo(x, p) == x then p else ReprPlaces(x, p + 1)
  }

  /** str(x) of a float: the shortest fixed rendering with at least one decimal. */
  function Repr(x: real): string
  {
    Fixed(x, ReprPlaces(x, 1))
  }

  // ---------------------------------------------------------------------------
  // Round trips

  lemma {:induction false} ScaledSign(x: real, p: nat)
    ensures x < 0.0 ==> Scaled(x, p) <= 0
    ensures x >= 0.0 ==> Scaled(x, p) >= 0
  {
    var y := x * Pow10(p) as real;
    assert x < 0.0 ==> y < 0.0;
    assert x >= 0.0 ==> y >= 0.0;
  }

  /** Reading a + b is reading a, then b. */
  lemma {:induction false} FeedAppend(st: Lexer, a: string, b: string)
    ensures Feed(st, a + b) == Feed(Feed(st, a), b)
    decreases |a|
  {
    if |a| > 0 {
      assert (a + b)[0] == a[0] && (a + b)[1..] == a[1..] + b;
      FeedAppend(Step(st, a[0]), a[1..], b);
    } else {
      assert a + b == b;
    }
  }

  /** Digits after digits extend the whole part. */
  lemma {:induction false} FeedWholeDigits(neg: bool, w: string, d: string)
    requires AllDigits(d)
    ensures Feed(Whole(neg, w), d) == Whole(neg, w + d)
    decreases |d|
  {
    if |d| > 0 {
      FeedWholeDigits(neg, w + [d[0]], d[1..]);
      assert w + [d[0]] + d[1..] == w + d;
    }
  }

  /** Digits after the point extend the fraction. */
  lemma {:induction false} FeedPointDigits(neg: bool, w: string, f: string, d: string)
    requires AllDigits(d)
    ensures Feed(Point(neg, w, f), d) == Point(neg, w, f + d)
    decreases |d|
  {
    if |d| > 0 {
      FeedPointDigits(neg, w, f + [d[0]], d[1..]);
      assert f + [d[0]] + d[1..] == f + d;
    }
  }

  /** A digit string read at the start, or after a sign, is the whole part. */
  lemma {:induction false} FeedDigits(st: Lexer, neg: bool, w: string)
    requires st == Sign(neg) || (st == Lead && !neg)
    requires |w| > 0 && AllDigits(w)
    ensures Feed(st, w) == Whole(neg, w)
  {
    assert Step(st, w[0]) == Whole(neg, [w[0]]);
    FeedWholeDigits(neg, [w[0]], w[1..]);
    assert [w[0]] + w[1..] == w;
  }

  /** w.f read at the start or after a sign leaves both parts. */
  lemma {:induction false} FeedDecimal(st: Lexer, neg: bool, w: string, f: string)
    requires st == Sign(neg) || (st == Lead && !neg)
    requires |w| > 0 && AllDigits(w) && AllDigits(f)
    ensures Feed(st, w + "." + f) == Point(neg, w, f)
  {
    assert w + "." + f == w + ("." + f);
    FeedAppend(st, w, "." + f);
    FeedDigits(st, neg, w);
    assert ("." + f)[0] == '.' && ("." + f)[1..] == f;
    FeedPointDigits(neg, w, "", f);
    assert "" + f == f;
  }

  lemma {:induction false} DivMod(a: nat, d: nat)
    requires d > 0
    ensures a / d >= 0 && 0 <= a % d < d && a == (a / d) * d + a % d
  {
  }

  lemma {:induction false} QuotientValue(a: nat, d: nat)
    requires d > 0
    ensures (a / d) as real + (a % d) as real / d as real == a as real / d as real
  {
    DivMod(a, d);
    var q, r := a / d, a % d;
    assert (q * d) as real == q as real * d as real;
  }

  lemma {:induction false} UnsignedFixedShape(a: nat, p: nat)
    ensures var t := UnsignedFixed(a, p);
      |t| > 0 && IsDigit(t[0]) && IsDigit(t[|t| - 1])
  {
  }

  /** The text of a / 10^p, read at the start or after a sign, denotes
      that value with the sign. */
  lemma {:induction false} FeedUnsignedFixed(st: Lexer, neg: bool, a: nat, p: nat)
    requires st == Sign(neg) || (st == Lead && !neg)
    ensures var v := a as real / Pow10(p) as real;
      Accept(Feed(st, UnsignedFixed(a, p))) == Some(if neg then -v else v)
  {
    if p == 0 {
      FeedNatText(st, neg, a);
    } else {
      FeedSplitText(st, neg, a, p);
    }
  }

  lemma {:induction false} FeedNatText(st: Lexer, neg: bool, a: nat)
    requires st == Sign(neg) || (st == Lead && !neg)
    ensures var v := a as real / Pow10(0) as real;
      Accept(Feed(st, UnsignedFixed(a, 0))) == Some(if neg then -v else v)
  {
    NatTextValue(a);
    FeedDigits(st, neg, NatText(a));
    assert DecimalValue(NatText(a), "") == a as real;
  }

  lemma {:induction false} FeedSplitText(st: Lexer, neg: bool, a: nat, p: nat)
    requires st == Sign(neg) || (st == Lead && !neg)
    requires p > 0
    ensures var v := a as real / Pow10(p) as real;
      Accept(Feed(st, UnsignedFixed(a, p))) == Some(if neg then -v else v)
  {
    var P := Pow10(p);
    DivMod(a, P);
    var q, r := a / P, a % P;
    var w, f := NatText(q), PadDigits(r, p);
    assert UnsignedFixed(a, p) == w + "." + f;
    NatTextValue(q);
    PadDigitsValue(r, p);
    FeedDecimal(st, neg, w, f);
    QuotientValue(a, P);
    assert DecimalValue(w, f) == a as real / P as real;
    assert Accept(Point(neg, w, f)) == Number(neg, w, f);
  }

  /** The literal "0" some cells are reset to reads as zero. */
  lemma {:induction false} ParseZero()
    ensures ParseReal("0") == Some(0.0)
  {
    FeedDigits(Lead, false, "0");
    assert DigitsValue("0") == 0;
    assert DecimalValue("0", "") == 0.0;
  }

  lemma {:induction false} NegatedQuotient(a: nat, m: int, d: nat)
    requires d > 0 && a == -m
    ensures -(a as real / d as real) == m as real / d as real
  {
    assert a as real == -(m as real);
  }

  lemma {:induction false} SignedFixedParses(neg: bool, a: nat, p: nat)
    ensures ParseReal(SignedFixed(neg, a, p)) == Some(Shift(neg, a, p))
  {
    var body := UnsignedFixed(a, p);
    if neg {
      FeedAppend(Lead, "-", body);
      assert Feed(Lead, "-") == Sign(true);
      FeedUnsignedFixed(Sign(true), true, a, p);
    } else {
      FeedUnsignedFixed(Lead, false, a, p);
    }
  }

  /** The rounded value, split into the sign of x and a magnitude. */
  lemma {:induction false} RoundToShift(x: real, p: nat)
    ensures RoundTo(x, p) == Shift(x < 0.0, Magnitude(Scaled(x, p)), p)
  {
    ScaledSign(x, p);
    var n := Scaled(x, p);
    if x < 0.0 {
      NegatedQuotient(-n, n, Pow10(p));
    }
  }

  /** What f"{x:.<p>f}" writes, float() reads back as x rounded to p places. */
  lemma {:induction false} FixedRoundTrip(x: real, p: nat)
    ensures ParseReal(Fixed(x, p)) == Some(RoundTo(x, p))
  {
    RoundToShift(x, p);
    SignedFixedParses(x < 0.0, Magnitude(Scaled(x, p)), p);
  }

  /** The same for a percentage cell written as f"{x:.<p>f}%". */
  lemma {:induction false} FixedPercentRoundTrip(x: real, p: nat)
    ensures ParsePercent(Fixed(x, p) + "%") == Some(RoundTo(x, p))
  {
    FixedRoundTrip(x, p);
    FixedEndsInDigit(x, p);
    RStripOne(Fixed(x, p), '%');
  }

  lemma {:induction false} FixedEndsInDigit(x: real, p: nat)
    ensures var s := Fixed(x, p); |s| > 0 && IsDigit(s[|s| - 1])
  {
    UnsignedFixedShape(Magnitude(Scaled(x, p)), p);
  }

  /** rstrip(c) removes a single c appended to text that does not end in c. */
  lemma {:induction false} RStripOne(s: string, c: char)
    requires |s| > 0 && s[|s| - 1] != c
    ensures RStrip(s + [c], c) == s
  {
    var t := s + [c];
    assert TrimChar(t, c, |s|) == |s|;
    assert t[..|s|] == s;
  }

  /** Rounding leaves a number with at most p decimals alone. */
  lemma {:induction false} ScaledExact(x: real, p: nat, n: int)
    requires x * Pow10(p) as real == n as real
    ensures Scaled(x, p) == n && RoundTo(x, p) == x
  {
    var P := Pow10(p) as real;
    assert x == n as real / P;
  }

  lemma {:induction false} ExactScaled(x: real, k: nat)
    requires RoundTo(x, k) == x
    ensures x * Pow10(k) as real == Scaled(x, k) as real
  {
    var K := Pow10(k) as real;
    assert x == Scaled(x, k) as real / K;
  }

  lemma {:induction false} ExactStep(x: real, k: nat, n: int)
    requires x * Pow10(k) as real == n as real
    ensures x * Pow10(k + 1) as real == (10 * n) as real
  {
    assert Pow10(k + 1) as real == 10.0 * Pow10(k) as real;
  }

  lemma {:induction false} TenTimes(n: int, q: nat)
    ensures (10 * n) * q == n * (10 * q)
  {
  }

  /** x * 10^k whole implies x * 10^p whole for every p >= k. */
  lemma {:induction false} ExactAbove(x: real, k: nat, n: int, p: nat)
    requires k <= p && x * Pow10(k) as real == n as real
    ensures x * Pow10(p) as real == (n * Pow10(p - k)) as real
    decreases p - k
  {
    if k < p {
      ExactStep(x, k, n);
      ExactAbove(x, k + 1, 10 * n, p);
      assert Pow10(p - k) == 10 * Pow10(p - (k + 1));
      TenTimes(n, Pow10(p - (k + 1)));
    }
  }

  lemma {:induction false} RoundToStaysExact(x: real, k: nat, p: nat)
    requires k <= p && RoundTo(x, k) == x
    ensures RoundTo(x, p) == x
  {
    var n := Scaled(x, k);
    ExactScaled(x, k);
    ExactAbove(x, k, n, p);
    ScaledExact(x, p, n * Pow10(p - k));
  }

  lemma {:induction false} ReprPlacesExact(x: real, p: nat, k: nat)
    requires 1 <= p && k <= MaxReprPlaces && RoundTo(x, k) == x
    ensures RoundTo(x, ReprPlaces(x, p)) == x
    decreases MaxReprPlaces - p
  {
    if p >= MaxReprPlaces {
      RoundToStaysExact(x, k, p);
    } else if RoundTo(x, p) != x {
      ReprPlacesExact(x, p + 1, k);
    }
  }

  /** str(x) of a number with at most 17 decimals reads back as exactly x. */
  lemma {:induction false} ReprRoundTrip(x: real, k: nat)
    requires k <= MaxReprPlaces && RoundTo(x, k) == x
    ensures ParseReal(Repr(x)) == Some(x)
  {
    ReprPlacesExact(x, 1, k);
    FixedRoundTrip(x, ReprPlaces(x, 1));
  }
}
