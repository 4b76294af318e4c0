/** `decimal.Decimal` amounts, their plain-notation text (`_format_amount`) and the parser that reads it back. */
module Decimals {
  import opened Wrappers

  /** A finite `Decimal`: (-1)^neg * coef * 10^exp. Unequal triples may denote the same number. */
  datatype Decimal = Decimal(neg: bool, coef: nat, exp: int) {
    function Magnitude(): real {
      Shift10(coef as real, exp)
    }

    function Value(): real {
      if neg then -Magnitude() else Magnitude()
    }

    /** The `Decimal` with the same sign and value and the least trailing zeros. */
    function Normal(): Decimal
      decreases -exp
    {
      if coef == 0 then Decimal(neg, 0, 0)
      else if exp >= 0 then Decimal(neg, Scale(coef, exp), 0)
      else if coef % 10 == 0 then Decimal(neg, coef / 10, exp + 1).Normal()
      else this
    }

    predicate IsNormal() {
      exp <= 0 && (exp < 0 ==> coef % 10 != 0)
    }
  }

  /** x * 10^e. */
  function Shift10(x: real, e: int): real
    decreases if e < 0 then -e else e
  {
    if e == 0 then x
    else if e > 0 then 10.0 * Shift10(x, e - 1)
    else Shift10(x, e + 1) / 10.0
  }

  /** n * 10^k. */
  function Scale(n: nat, k: nat): nat {
    if k == 0 then n else 10 * Scale(n, k - 1)
  }

  // ---------- Printing ----------

  function Digit(n: nat): char
    requires n < 10
  {
    '0' + n as char
  }

  function Digits(n: nat): (s: string)
    ensures s != []
  {
    if n < 10 then [Digit(n)] else Digits(n / 10) + [Digit(n % 10)]
  }

  function Zeros(k: nat): string {
    if k == 0 then "" else Zeros(k - 1) + "0"
  }

  /** `s` with zeros in front, to at least `n` characters. */
  function PadLeft(s: string, n: nat): (r: string)
    ensures |r| == if |s| < n then n else |s|
    decreases n - |s|
  {
    if |s| < n then PadLeft("0" + s, n) else s
  }

  /** A decimal point before the last `k` characters. */
  function InsertPoint(s: string, k: nat): string
    requires k <= |s|
  {
    s[..|s| - k] + "." + s[|s| - k..]
  }

  function FormatMagnitude(coef: nat, exp: int): string {
    if exp > 0 then (if coef == 0 then "0" else Digits(coef) + Zeros(exp))
    else if exp == 0 then Digits(coef)
    else InsertPoint(PadLeft(Digits(coef), 1 - exp), -exp)
  }

  function Sign(neg: bool): string { if neg then "-" else "" }

  /** `format(amount, "f")`: positional notation that keeps every trailing zero of the fraction. */
  function FormatF(d: Decimal): string {
    Sign(d.neg) + FormatMagnitude(d.coef, d.exp)
  }

  /** `s.rstrip(c)` for a single character. */
  function RStrip(s: string, c: char): string {
    if s != "" && s[|s| - 1] == c then RStrip(s[..|s| - 1], c) else s
  }

  /** Trailing zeros of a fraction, and a point left bare, are dropped. */
  function Trim(plain: string): string {
    var stripped := if '.' in plain then RStrip(RStrip(plain, '0'), '.') else plain;
    if stripped == "" then "0" else stripped
  }

  function FormatAmount(d: Decimal): string {
    Trim(FormatF(d))
  }

  function IntText(n: int): string {
    if n < 0 then "-" + Digits(-n) else Digits(n)
  }

  // ---------- Parsing ----------

  predicate IsDigit(c: char) { '0' <= c <= '9' }

  predicate AllDigits(s: string) { forall i :: 0 <= i < |s| ==> IsDigit(s[i]) }

  function DigitValue(c: char): nat { if IsDigit(c) then (c - '0') as nat else 0 }

  function NatOf(s: string): nat {
    if s == "" then 0 else 10 * NatOf(s[..|s| - 1]) + DigitValue(s[|s| - 1])
  }

  /** The position of the first `c` in `s`, or `|s|` when there is none. */
  function IndexOf(s: string, c: char): (i: nat)
    ensures i <= |s|
  {
    if s == "" || s[0] == c then 0 else 1 + IndexOf(s[1..], c)
  }

  function ParseMagnitude(body: string, neg: bool): Option<Decimal> {
    var dot := IndexOf(body, '.');
    if dot == |body| then
      if body != "" && AllDigits(body) then Some(Decimal(neg, NatOf(body), 0)) else None
    else
      var digits := body[..dot] + body[dot + 1..];
      if digits != "" && AllDigits(digits) then Some(Decimal(neg, NatOf(digits), -(|body| - dot - 1))) else None
  }

  /** `Decimal(text)` for text in plain notation; None where the text is not in that notation. */
  function ParsePlain(s: string): Option<Decimal> {
    if s != "" && s[0] == '-' then ParseMagnitude(s[1..], true) else ParseMagnitude(s, false)
  }

  // ---------- Values ----------

  lemma {:induction false} Shift10Step(x: real, e: int)
    ensures Shift10(10.0 * x, e - 1) == Shift10(x, e)
    ensures Shift10(10.0 * x, e) == 10.0 * Shift10(x, e)
    decreases if e < 0 then -e else e
  {
    if e > 0 {
      Shift10Step(x, e - 1);
    } else if e < 0 {
      Shift10Step(x, e + 1);
    }
  }

  lemma {:induction false} Shift10Injective(x: real, y: real, e: int)
    ensures Shift10(x, e) == Shift10(y, e) ==> x == y
    ensures x >= 0.0 ==> Shift10(x, e) >= 0.0
    ensures Shift10(0.0, e) == 0.0
    decreases if e < 0 then -e else e
  {
    if e > 0 {
      Shift10Injective(x, y, e - 1);
    } else if e < 0 {
      Shift10Injective(x, y, e + 1);
    }
  }

  /** Moving factors of ten from the exponent into the coefficient keeps the magnitude. */
  lemma {:induction false} MagnitudeShift(coef: nat, exp: int, k: nat)
    ensures Shift10(Scale(coef, k) as real, exp - k) == Shift10(coef as real, exp)
  {
    if k != 0 {
      MagnitudeShift(coef, exp, k - 1);
      var c := Scale(coef, k - 1);
      Shift10Step(c as real, exp - k + 1);
      assert Scale(coef, k) as real == 10.0 * c as real;
    }
  }

  lemma {:induction false} ScalePositive(n: nat, k: nat)
    ensures Scale(n, k) == 0 <==> n == 0
  {
    if k != 0 { ScalePositive(n, k - 1); }
  }

  lemma {:induction false} NormalKeepsValue(d: Decimal)
    ensures d.Normal().IsNormal() && d.Normal().neg == d.neg
    ensures d.Normal().Value() == d.Value()
    ensures d.Normal().coef == 0 <==> d.coef == 0
    decreases -d.exp
  {
    if d.coef == 0 {
      Shift10Injective(0.0, 0.0, d.exp);
    } else if d.exp >= 0 {
      MagnitudeShift(d.coef, d.exp, d.exp);
      ScalePositive(d.coef, d.exp);
    } else if d.coef % 10 == 0 {
      NormalKeepsValue(Decimal(d.neg, d.coef / 10, d.exp + 1));
      MagnitudeShift(d.coef / 10, d.exp + 1, 1);
      assert Scale(d.coef / 10, 1) == 10 * Scale(d.coef / 10, 0) == d.coef;
    }
  }

  lemma ScaleEndsInZero(n: nat, k: nat)
    ensures k > 0 ==> Scale(n, k) % 10 == 0
    ensures k == 0 ==> Scale(n, k) == n
  {
  }

  /** Normal forms are unique: equal sign and value leave one normal triple. */
  lemma NormalUnique(a: Decimal, b: Decimal)
    requires a.IsNormal() && b.IsNormal() && a.neg == b.neg && a.Value() == b.Value()
    requires a.exp >= b.exp
    ensures a == b
  {
    var k: nat := a.exp - b.exp;
    var c := Scale(a.coef, k);
    MagnitudeShift(a.coef, a.exp, k);
    Shift10Injective(c as real, b.coef as real, b.exp);
    ScaleEndsInZero(a.coef, k);
  }

  lemma MagnitudeNonNegative(d: Decimal)
    ensures d.Magnitude() >= 0.0
    ensures d.Magnitude() == 0.0 <==> d.coef == 0
  {
    Shift10Injective(d.coef as real, 0.0, d.exp);
  }

  // ---------- The printed text depends on the value only ----------

  lemma {:induction false} DigitsAreDigits(n: nat)
    ensures AllDigits(Digits(n))
  {
    if n >= 10 { DigitsAreDigits(n / 10); }
  }

  lemma {:induction false} PadLeftZeros(s: string, n: nat)
    ensures PadLeft(s, n) == Zeros(if |s| < n then n - |s| else 0) + s
    decreases n - |s|
  {
    if |s| < n {
      PadLeftZeros("0" + s, n);
      assert Zeros(n - |s|) + s == Zeros(n - |s| - 1) + ("0" + s);
    }
  }

  lemma {:induction false} ZerosAreDigits(k: nat)
    ensures AllDigits(Zeros(k))
  {
    if k != 0 { ZerosAreDigits(k - 1); }
  }

  lemma RStripSnoc(s: string, c: char)
    ensures RStrip(s + [c], c) == RStrip(s, c)
  {
    assert (s + [c])[..|s|] == s;
  }

  lemma {:induction false} RStripZeros(s: string, k: nat)
    ensures RStrip(s + Zeros(k), '0') == RStrip(s, '0')
  {
    if k == 0 {
      assert s + Zeros(0) == s;
    } else {
      RStripZeros(s, k - 1);
      assert s + Zeros(k) == (s + Zeros(k - 1)) + ['0'];
      RStripSnoc(s + Zeros(k - 1), '0');
    }
  }

  lemma PlainHasNoDot(neg: bool, s: string)
    requires AllDigits(s)
    ensures '.' !in Sign(neg) + s
  {
  }

  /** Text followed by a zero fraction strips back to the text. */
  lemma ZeroFraction(kept: string, k: nat)
    requires kept != "" && IsDigit(kept[|kept| - 1])
    ensures RStrip(RStrip(kept + "." + Zeros(k), '0'), '.') == kept
  {
    var pointed := kept + ['.'];
    RStripZeros(pointed, k);
    assert RStrip(pointed, '0') == pointed;
    RStripSnoc(kept, '.');
    assert RStrip(kept, '.') == kept;
  }

  lemma TrimZeroFraction(neg: bool, digits: string, k: nat)
    requires digits != "" && AllDigits(digits)
    ensures Trim(Sign(neg) + (digits + "." + Zeros(k))) == Sign(neg) + digits
  {
    var text := Sign(neg) + (digits + "." + Zeros(k));
    var kept := Sign(neg) + digits;
    assert text == kept + "." + Zeros(k);
    assert text[|kept|] == '.';
    assert IsDigit(kept[|kept| - 1]);
    ZeroFraction(kept, k);
  }

  lemma {:induction false} ZerosAppend(a: nat, b: nat)
    ensures Zeros(a) + Zeros(b) == Zeros(a + b) && |Zeros(a)| == a
  {
    if a != 0 { ZerosAppend(a - 1, 0); }
    if b == 0 {
      assert Zeros(a) + Zeros(0) == Zeros(a);
    } else {
      ZerosAppend(a, b - 1);
      assert Zeros(a) + Zeros(b) == (Zeros(a) + Zeros(b - 1)) + "0";
    }
  }

  lemma FormatFZero(neg: bool, exp: int)
    ensures exp >= 0 ==> FormatF(Decimal(neg, 0, exp)) == Sign(neg) + "0"
    ensures exp < 0 ==> FormatF(Decimal(neg, 0, exp)) == Sign(neg) + (Digits(0) + "." + Zeros(-exp))
  {
    assert Digits(0) == "0";
    if exp < 0 {
      PadLeftZeros("0", 1 - exp);
      ZerosAppend(1, -exp);
      ZerosAppend(-exp, 1);
      ZerosAppend(-exp, 0);
      assert Zeros(1) == "0";
      assert InsertPoint(Zeros(1 - exp), -exp) == "0" + "." + Zeros(-exp);
    }
  }

  lemma FormatZero(neg: bool, exp: int)
    ensures FormatAmount(Decimal(neg, 0, exp)) == Sign(neg) + "0"
  {
    FormatFZero(neg, exp);
    var text := FormatF(Decimal(neg, 0, exp));
    if exp >= 0 {
      PlainHasNoDot(neg, "0");
      assert Trim(text) == text;
    } else {
      DigitsAreDigits(0);
      TrimZeroFraction(neg, Digits(0), -exp);
    }
  }

  lemma {:induction false} DigitsScale(n: nat, k: nat)
    requires n > 0
    ensures Digits(Scale(n, k)) == Digits(n) + Zeros(k)
  {
    if k == 0 {
      assert Digits(n) + Zeros(0) == Digits(n);
    } else {
      DigitsScale(n, k - 1);
      ScalePositive(n, k - 1);
      assert Digits(Scale(n, k)) == Digits(Scale(n, k - 1)) + ['0'];
      assert Digits(n) + Zeros(k) == Digits(n) + Zeros(k - 1) + ['0'];
    }
  }

  /** One more digit of precision adds one zero to the untrimmed text. */
  lemma FormatFShift(neg: bool, coef: nat, exp: int)
    requires coef > 0 && exp < 0
    ensures FormatF(Decimal(neg, 10 * coef, exp))
         == Sign(neg) + (InsertPoint(PadLeft(Digits(coef), -exp), -exp - 1) + ['0'])
  {
    var k := -exp - 1;
    var digits := Digits(coef);
    var long := PadLeft(digits + ['0'], k + 2);
    assert Digits(10 * coef) == digits + ['0'];
    PadLeftSnoc(digits, k + 1);
    PointSnoc(PadLeft(digits, k + 1), k);
    assert FormatMagnitude(10 * coef, exp) == InsertPoint(long, k + 1);
  }

  lemma PointSnoc(s: string, k: nat)
    requires k <= |s|
    ensures InsertPoint(s + ['0'], k + 1) == InsertPoint(s, k) + ['0']
  {
  }

  lemma TrimZero(text: string)
    requires '.' in text
    ensures Trim(text + ['0']) == Trim(text)
  {
    RStripSnoc(text, '0');
  }

  lemma FormatFSnoc(neg: bool, coef: nat, exp: int)
    requires coef > 0 && exp < -1
    ensures FormatF(Decimal(neg, 10 * coef, exp)) == FormatF(Decimal(neg, coef, exp + 1)) + ['0']
  {
    FormatFShift(neg, coef, exp);
    var text := InsertPoint(PadLeft(Digits(coef), -exp), -exp - 1);
    assert FormatF(Decimal(neg, coef, exp + 1)) == Sign(neg) + text;
    assert Sign(neg) + (text + ['0']) == (Sign(neg) + text) + ['0'];
  }

  /** Dropping a trailing zero of the fraction does not change the printed text. */
  lemma FormatShift(d: Decimal)
    requires d.coef > 0 && d.exp < -1 && d.coef % 10 == 0
    ensures FormatAmount(d) == FormatAmount(Decimal(d.neg, d.coef / 10, d.exp + 1))
  {
    var s := Decimal(d.neg, d.coef / 10, d.exp + 1);
    assert d == Decimal(d.neg, 10 * s.coef, d.exp);
    FormatFSnoc(d.neg, s.coef, d.exp);
    PointInText(s.neg, s.coef, s.exp);
    TrimZero(FormatF(s));
  }

  /** The same for the only digit of the fraction: the point goes too. */
  lemma FormatShiftToWhole(d: Decimal)
    requires d.coef > 0 && d.exp == -1 && d.coef % 10 == 0
    ensures FormatAmount(d) == FormatAmount(Decimal(d.neg, d.coef / 10, 0))
  {
    var coef := d.coef / 10;
    var digits := Digits(coef);
    var whole := FormatF(Decimal(d.neg, coef, 0));
    assert d == Decimal(d.neg, 10 * coef, -1);
    FormatFShift(d.neg, coef, -1);
    assert InsertPoint(PadLeft(digits, 1), 0) == digits + ".";
    assert Zeros(1) == "0";
    assert FormatF(d) == Sign(d.neg) + (digits + "." + Zeros(1));
    DigitsAreDigits(coef);
    TrimZeroFraction(d.neg, digits, 1);
    PlainHasNoDot(d.neg, digits);
    assert Trim(FormatF(d)) == whole == Trim(whole);
  }

  lemma PointInText(neg: bool, coef: nat, exp: int)
    requires exp < 0
    ensures '.' in FormatF(Decimal(neg, coef, exp))
  {
    var digits := PadLeft(Digits(coef), 1 - exp);
    assert InsertPoint(digits, -exp)[|digits| + exp] == '.';
  }

  lemma {:induction false} PadLeftSnoc(s: string, n: nat)
    ensures PadLeft(s + ['0'], n + 1) == PadLeft(s, n) + ['0']
    decreases n - |s|
  {
    if |s| < n {
      PadLeftSnoc("0" + s, n);
      assert "0" + (s + ['0']) == ("0" + s) + ['0'];
    }
  }

  lemma {:induction false} PadLeftDigits(s: string, n: nat)
    requires AllDigits(s)
    ensures AllDigits(PadLeft(s, n))
    decreases n - |s|
  {
    if |s| < n { PadLeftDigits("0" + s, n); }
  }

  lemma FormatNormalWhole(d: Decimal)
    requires d.coef > 0 && d.exp >= 0
    ensures FormatAmount(d) == FormatAmount(d.Normal())
  {
    var n := d.Normal();
    assert n == Decimal(d.neg, Scale(d.coef, d.exp), 0);
    DigitsScale(d.coef, d.exp);
    assert Digits(d.coef) + Zeros(0) == Digits(d.coef);
    assert FormatF(d) == FormatF(n);
  }

  lemma FormatNormalZero(d: Decimal)
    requires d.coef == 0
    ensures FormatAmount(d) == FormatAmount(d.Normal())
  {
    var n := d.Normal();
    assert d == Decimal(d.neg, 0, d.exp) && n == Decimal(d.neg, 0, 0);
    FormatZero(d.neg, d.exp);
    FormatZero(d.neg, 0);
  }

  /** Printing sees only the normal form. */
  lemma {:induction false} FormatNormal(d: Decimal)
    ensures FormatAmount(d) == FormatAmount(d.Normal())
    decreases -d.exp
  {
    if d.coef == 0 {
      FormatNormalZero(d);
    } else if d.exp >= 0 {
      FormatNormalWhole(d);
    } else if d.coef % 10 == 0 {
      if d.exp == -1 { FormatShiftToWhole(d); } else { FormatShift(d); }
      var short := Decimal(d.neg, d.coef / 10, d.exp + 1);
      FormatNormal(short);
      assert d.Normal() == short.Normal();
    }
  }

  // ---------- The parser inverts the printer ----------

  lemma {:induction false} NatOfDigits(n: nat)
    ensures AllDigits(Digits(n)) && NatOf(Digits(n)) == n
  {
    DigitsAreDigits(n);
    if n >= 10 {
      NatOfDigits(n / 10);
      assert Digits(n)[..|Digits(n)| - 1] == Digits(n / 10);
    }
  }

  lemma {:induction false} NatOfPadLeft(s: string, n: nat)
    requires AllDigits(s)
    ensures AllDigits(PadLeft(s, n)) && NatOf(PadLeft(s, n)) == NatOf(s)
    decreases n - |s|
  {
    if |s| < n {
      NatOfZero(s);
      NatOfPadLeft("0" + s, n);
    }
  }

  lemma {:induction false} NatOfZero(s: string)
    requires AllDigits(s)
    ensures AllDigits("0" + s) && NatOf("0" + s) == NatOf(s)
  {
    if s == "" {
      assert "0" + s == "0";
    } else {
      NatOfZero(s[..|s| - 1]);
      assert ("0" + s)[..|s|] == "0" + s[..|s| - 1];
    }
  }

  lemma {:induction false} IndexOfAfter(s: string, c: char, t: string)
    requires c !in s
    ensures IndexOf(s + [c] + t, c) == |s|
  {
    if s != "" {
      IndexOfAfter(s[1..], c, t);
      assert (s + [c] + t)[1..] == s[1..] + [c] + t;
    }
  }

  lemma {:induction false} IndexOfAbsent(s: string, c: char)
    requires c !in s
    ensures IndexOf(s, c) == |s|
  {
    if s != "" { IndexOfAbsent(s[1..], c); }
  }

  lemma ParseSignedText(neg: bool, body: string)
    requires body != "" && body[0] != '-'
    ensures ParsePlain(Sign(neg) + body) == ParseMagnitude(body, neg)
  {
    if neg {
      assert (Sign(neg) + body)[1..] == body;
    } else {
      assert Sign(neg) + body == body;
    }
  }

  /** A normal decimal needs no trimming. */
  lemma TrimNormal(d: Decimal)
    requires d.IsNormal()
    ensures FormatAmount(d) == FormatF(d)
  {
    if d.exp == 0 {
      DigitsAreDigits(d.coef);
      PlainHasNoDot(d.neg, Digits(d.coef));
    } else {
      var text := FormatF(d);
      LastDigit(d.coef, 1 - d.exp);
      assert text[|text| - 1] == Digit(d.coef % 10);
      assert RStrip(RStrip(text, '0'), '.') == text;
    }
  }

  lemma MagnitudePointed(whole: string, frac: string, neg: bool)
    requires AllDigits(whole) && whole != "" && AllDigits(frac)
    ensures ParseMagnitude(whole + "." + frac, neg) == Some(Decimal(neg, NatOf(whole + frac), -|frac|))
  {
    var body := whole + "." + frac;
    assert body == whole + ['.'] + frac;
    assert '.' !in whole;
    IndexOfAfter(whole, '.', frac);
    assert body[..|whole|] == whole && body[|whole| + 1..] == frac;
    assert AllDigits(whole + frac);
  }

  lemma ParsePointed(whole: string, frac: string, neg: bool)
    requires AllDigits(whole) && whole != "" && AllDigits(frac)
    ensures ParsePlain(Sign(neg) + (whole + "." + frac)) == Some(Decimal(neg, NatOf(whole + frac), -|frac|))
  {
    var body := whole + "." + frac;
    assert IsDigit(whole[0]);
    ParseSignedText(neg, body);
    MagnitudePointed(whole, frac, neg);
  }

  lemma ParseWhole(digits: string, neg: bool)
    requires AllDigits(digits) && digits != ""
    ensures ParsePlain(Sign(neg) + digits) == Some(Decimal(neg, NatOf(digits), 0))
  {
    assert IsDigit(digits[0]);
    ParseSignedText(neg, digits);
    IndexOfAbsent(digits, '.');
  }

  lemma ParseInserted(neg: bool, digits: string, k: nat)
    requires AllDigits(digits) && k < |digits|
    ensures ParsePlain(Sign(neg) + InsertPoint(digits, k)) == Some(Decimal(neg, NatOf(digits), 0 - k as int))
  {
    var cut := |digits| - k;
    ParsePointed(digits[..cut], digits[cut..], neg);
    assert digits[..cut] + digits[cut..] == digits;
  }

  lemma ParseNormalFraction(neg: bool, coef: nat, exp: int)
    requires exp < 0
    ensures ParsePlain(FormatF(Decimal(neg, coef, exp))) == Some(Decimal(neg, coef, exp))
  {
    NatOfDigits(coef);
    NatOfPadLeft(Digits(coef), 1 - exp);
    var digits := PadLeft(Digits(coef), 1 - exp);
    ParseInserted(neg, digits, -exp);
    assert FormatF(Decimal(neg, coef, exp)) == Sign(neg) + InsertPoint(digits, -exp);
  }

  /** A normal decimal is printed digit for digit, and read back unchanged. */
  lemma ParseNormal(d: Decimal)
    requires d.IsNormal()
    ensures ParsePlain(FormatAmount(d)) == Some(d)
  {
    TrimNormal(d);
    var text := FormatF(d);
    assert FormatAmount(d) == text;
    if d.exp == 0 {
      NatOfDigits(d.coef);
      ParseWhole(Digits(d.coef), d.neg);
      assert text == Sign(d.neg) + Digits(d.coef);
      assert ParsePlain(text) == Some(d);
    } else {
      ParseNormalFraction(d.neg, d.coef, d.exp);
      assert Decimal(d.neg, d.coef, d.exp) == d;
      assert ParsePlain(text) == Some(d);
    }
  }

  lemma LastDigit(n: nat, k: nat)
    ensures var s := PadLeft(Digits(n), k); s[|s| - 1] == Digit(n % 10)
  {
    PadLeftZeros(Digits(n), k);
  }

  /** Round trip: the printed amount parses back to the same sign and the same value. */
  lemma FormatParsesBack(d: Decimal)
    ensures ParsePlain(FormatAmount(d)) == Some(d.Normal())
    ensures d.Normal().neg == d.neg && d.Normal().Value() == d.Value()
  {
    NormalKeepsValue(d);
    FormatNormal(d);
    ParseNormal(d.Normal());
  }

  /**
   * Canonical printing. Two amounts print alike exactly when their values are equal and, at zero, their signs
   * agree: `Decimal("-0")` keeps its minus sign, so value alone does not fix the text there.
   */
  lemma FormatCanonical(a: Decimal, b: Decimal)
    ensures FormatAmount(a) == FormatAmount(b) <==> a.Value() == b.Value() && (a.coef == 0 ==> a.neg == b.neg)
  {
    FormatParsesBack(a);
    FormatParsesBack(b);
    NormalKeepsValue(a);
    NormalKeepsValue(b);
    MagnitudeNonNegative(a);
    MagnitudeNonNegative(b);
    if a.Value() == b.Value() && (a.coef == 0 ==> a.neg == b.neg) {
      assert a.neg == b.neg;
      var x, y := a.Normal(), b.Normal();
      if x.exp >= y.exp { NormalUnique(x, y); } else { NormalUnique(y, x); }
      FormatNormal(a);
      FormatNormal(b);
    }
  }

  /** Non-negative amounts, the ones a transfer can carry, print alike exactly when they are equal numbers. */
  lemma FormatCanonicalNonNegative(a: Decimal, b: Decimal)
    requires !a.neg && !b.neg
    ensures FormatAmount(a) == FormatAmount(b) <==> a.Value() == b.Value()
  {
    FormatCanonical(a, b);
  }

  /** The exception at zero: equal values, different text. */
  lemma NegativeZeroPrintsItsSign()
    ensures Decimal(true, 0, 0).Value() == Decimal(false, 0, 0).Value()
    ensures FormatAmount(Decimal(true, 0, 0)) == "-0" && FormatAmount(Decimal(false, 0, 0)) == "0"
  {
    FormatZero(true, 0);
    FormatZero(false, 0);
  }

  lemma IntTextInjective(a: int, b: int)
    requires IntText(a) == IntText(b)
    ensures a == b
  {
    NatOfDigits(if a < 0 then -a else a);
    NatOfDigits(if b < 0 then -b else b);
    var da, db := Digits(if a < 0 then -a else a), Digits(if b < 0 then -b else b);
    assert IsDigit(da[0]) && IsDigit(db[0]);
    assert a < 0 <==> IntText(a)[0] == '-';
    assert b < 0 <==> IntText(b)[0] == '-';
    if a < 0 {
      assert IntText(a)[1..] == da && IntText(b)[1..] == db;
    }
  }

  lemma FormatFHasNoColon(neg: bool, coef: nat, exp: int)
    ensures ':' !in FormatF(Decimal(neg, coef, exp))
  {
    var digits := Digits(coef);
    DigitsAreDigits(coef);
    if exp > 0 {
      ZerosAreDigits(exp);
    } else if exp < 0 {
      var padded := PadLeft(digits, 1 - exp);
      PadLeftDigits(digits, 1 - exp);
      assert ':' !in InsertPoint(padded, -exp);
    }
  }

  /** Printed amounts contain no colon. */
  lemma FormatHasNoColon(d: Decimal)
    ensures ':' !in FormatAmount(d)
  {
    var n := d.Normal();
    NormalKeepsValue(d);
    FormatNormal(d);
    TrimNormal(n);
    FormatFHasNoColon(n.neg, n.coef, n.exp);
  }

  // ---------- The shape of the text ----------

  lemma {:induction false} NoLeadingZero(n: nat)
    ensures Digits(n)[0] == '0' ==> n == 0 && Digits(n) == "0"
  {
    if n >= 10 { NoLeadingZero(n / 10); }
  }

  /** Digits with a point put in, and zeros in front only to have a digit there. */
  lemma PointedShape(coef: nat, k: nat) returns (whole: string, frac: string)
    requires k >= 1 && coef % 10 != 0
    ensures InsertPoint(PadLeft(Digits(coef), k + 1), k) == whole + "." + frac && |frac| == k
    ensures AllDigits(whole + frac) && NatOf(whole + frac) == coef
    ensures whole != "" && (whole[0] == '0' ==> whole == "0") && frac[|frac| - 1] != '0'
  {
    var digits, padded := Digits(coef), PadLeft(Digits(coef), k + 1);
    NatOfDigits(coef);
    NatOfPadLeft(digits, k + 1);
    PadLeftZeros(digits, k + 1);
    NoLeadingZero(coef);
    LastDigit(coef, k + 1);
    if |digits| < k + 1 { FirstZero(digits, k + 1 - |digits|); }
    assert padded[0] == '0' ==> |padded| == k + 1;
    whole, frac := CutAt(padded, k);
  }

  lemma CutAt(s: string, k: nat) returns (whole: string, frac: string)
    requires k < |s|
    ensures InsertPoint(s, k) == whole + "." + frac && |frac| == k && whole + frac == s && whole != ""
    ensures whole[0] == s[0] && (|s| == k + 1 ==> |whole| == 1) && (k > 0 ==> frac[|frac| - 1] == s[|s| - 1])
  {
    var cut := |s| - k;
    whole, frac := s[..cut], s[cut..];
  }

  lemma FirstZero(s: string, k: nat)
    requires k >= 1
    ensures (Zeros(k) + s)[0] == '0'
  {
    ZerosAppend(k, 0);
    ZerosAreZero(k);
  }

  lemma {:induction false} ZerosAreZero(k: nat)
    ensures |Zeros(k)| == k && forall i :: 0 <= i < k ==> Zeros(k)[i] == '0'
  {
    if k != 0 { ZerosAreZero(k - 1); }
  }

  /** The text of a whole part and a fraction. */
  function Pointed(whole: string, frac: string): string { if frac == "" then whole else whole + "." + frac }

  lemma NormalShape(n: Decimal) returns (whole: string, frac: string)
    requires n.IsNormal()
    ensures AllDigits(whole + frac) && whole != "" && (whole[0] == '0' ==> whole == "0")
    ensures frac != "" ==> frac[|frac| - 1] != '0'
    ensures FormatF(n) == Sign(n.neg) + Pointed(whole, frac)
    ensures NatOf(whole + frac) == n.coef && |frac| == -n.exp
  {
    if n.exp == 0 {
      NatOfDigits(n.coef);
      NoLeadingZero(n.coef);
      whole, frac := Digits(n.coef), "";
      assert whole + frac == whole;
    } else {
      whole, frac := PointedShape(n.coef, -n.exp);
    }
  }

  lemma NormalMagnitude(d: Decimal)
    ensures d.Normal().Magnitude() == d.Magnitude()
  {
    NormalKeepsValue(d);
    var n := d.Normal();
    assert n.Value() == d.Value() && n.neg == d.neg;
  }

  lemma NormalText(d: Decimal) returns (n: Decimal)
    ensures n.IsNormal() && n.neg == d.neg && FormatAmount(d) == FormatF(n)
    ensures d.Magnitude() == Shift10(n.coef as real, n.exp)
  {
    n := d.Normal();
    NormalKeepsValue(d);
    NormalMagnitude(d);
    FormatNormal(d);
    TrimNormal(n);
  }

  /**
   * An amount is printed as a whole part without needless zeros in front and, where it is not whole, a point and a
   * fraction without zeros at the end; read as decimal digits the two give its magnitude.
   */
  lemma FormatShape(d: Decimal) returns (whole: string, frac: string)
    ensures AllDigits(whole + frac) && whole != "" && (whole[0] == '0' ==> whole == "0")
    ensures frac != "" ==> frac[|frac| - 1] != '0'
    ensures FormatAmount(d) == (if d.neg then "-" else "") + (if frac == "" then whole else whole + "." + frac)
    ensures d.Magnitude() == Shift10(NatOf(whole + frac) as real, -|frac|)
  {
    var n := NormalText(d);
    whole, frac := NormalShape(n);
    assert NatOf(whole + frac) as real == n.coef as real;
  }

  /** A nonce is written in decimal, with a minus sign when negative and no zeros in front. */
  lemma IntTextShape(n: int)
    ensures n < 0 ==> IntText(n) == "-" + IntText(-n)
    ensures n >= 0 ==> AllDigits(IntText(n)) && NatOf(IntText(n)) == n && (IntText(n)[0] == '0' ==> n == 0)
  {
    if n >= 0 {
      NatOfDigits(n);
      NoLeadingZero(n);
    }
  }

  /** Every digit stands for itself. */
  lemma DigitVector()
    ensures IntText(1234567890) == "1234567890"
  {
    assert Digits(1) == "1" && Digits(12) == "12";
    assert Digits(123) == "123" && Digits(1234) == "1234";
    assert Digits(12345) == "12345" && Digits(123456) == "123456";
    assert Digits(1234567) == "1234567" && Digits(12345678) == "12345678";
    assert Digits(123456789) == "123456789";
  }
}
