/** Token amounts as decimal strings: an amount `a` with `d` decimals stands for a / 10^d. */
module TokenAmount {

  import opened Wrappers

  const AMOUNT_LIMIT: nat := 0x1_0000_0000_0000_0000

  type Amount = n: nat | n < AMOUNT_LIMIT

  function Pow10(d: nat): (p: nat)
    ensures p > 0
  {
    if d == 0 then 1 else 10 * Pow10(d - 1)
  }

  lemma {:induction false} Pow10Adds(a: nat, b: nat)
    ensures Pow10(a + b) == Pow10(a) * Pow10(b)
  {
    if a > 0 {
      Pow10Adds(a - 1, b);
      assert 10 * (Pow10(a - 1) * Pow10(b)) == (10 * Pow10(a - 1)) * Pow10(b);
    }
  }

  // ---- digits

  predicate IsDigit(c: char) {
    '0' <= c <= '9'
  }

  function DigitChar(k: nat): (c: char)
    requires k < 10
    ensures IsDigit(c) && DigitValue(c) == k
  {
    '0' + k as char
  }

  function DigitValue(c: char): (k: nat)
    requires IsDigit(c)
    ensures k < 10
  {
    (c - '0') as nat
  }

  predicate AllDigits(s: string) {
    forall i :: 0 <= i < |s| ==> IsDigit(s[i])
  }

  /** The digits of `n`, without leading zeros. */
  function Decimal(n: nat): (s: string)
    ensures |s| >= 1 && AllDigits(s) && (n > 0 ==> s[0] != '0')
  {
    if n < 10 then [DigitChar(n)] else Decimal(n / 10) + [DigitChar(n % 10)]
  }

  /** The last `d` digits of `n`. */
  function FixedWidth(n: nat, d: nat): (s: string)
    ensures |s| == d && AllDigits(s)
  {
    if d == 0 then "" else FixedWidth(n / 10, d - 1) + [DigitChar(n % 10)]
  }

  function ValueOf(s: string): (n: nat)
    requires AllDigits(s)
  {
    if s == [] then 0 else 10 * ValueOf(s[..|s| - 1]) + DigitValue(s[|s| - 1])
  }

  lemma {:induction false} DecimalReadsBack(n: nat)
    ensures ValueOf(Decimal(n)) == n
  {
    var s := Decimal(n);
    if n < 10 {
      assert s[..0] == [];
    } else {
      assert s[..|s| - 1] == Decimal(n / 10);
      DecimalReadsBack(n / 10);
    }
  }

  /** `n` without its last `d` digits. */
  function Whole(n: nat, d: nat): nat {
    if d == 0 then n else Whole(n / 10, d - 1)
  }

  lemma {:induction false} SplitReadsBack(n: nat, d: nat)
    ensures ValueOf(Decimal(Whole(n, d)) + FixedWidth(n, d)) == n
  {
    var s := Decimal(Whole(n, d)) + FixedWidth(n, d);
    if d == 0 {
      assert s == Decimal(n);
      DecimalReadsBack(n);
    } else {
      assert s[..|s| - 1] == Decimal(Whole(n / 10, d - 1)) + FixedWidth(n / 10, d - 1);
      SplitReadsBack(n / 10, d - 1);
    }
  }

  // ---- digits by their places

  lemma Smaller(q: nat, w: nat, p: nat)
    ensures q < w ==> (q + 1) * p <= w * p
  {
    if q < w {
      assert w * p == (q + 1) * p + (w - q - 1) * p;
    }
  }

  lemma QuotientIs(n: nat, p: nat, w: nat)
    requires p > 0 && w * p <= n < (w + 1) * p
    ensures n / p == w
  {
    Smaller(n / p, w, p);
    Smaller(w, n / p, p);
  }

  lemma {:induction false} WholeBounds(n: nat, d: nat)
    ensures Whole(n, d) * Pow10(d) <= n < (Whole(n, d) + 1) * Pow10(d)
    decreases d
  {
    if d > 0 {
      WholeBounds(n / 10, d - 1);
      TenTimes(Whole(n / 10, d - 1), Pow10(d - 1), n / 10);
    }
  }

  lemma TenTimes(w: nat, p: nat, m: nat)
    requires w * p <= m < (w + 1) * p
    ensures w * (10 * p) <= 10 * m && 10 * m + 10 <= (w + 1) * (10 * p)
  {
    assert w * (10 * p) == 10 * (w * p) && (w + 1) * (10 * p) == 10 * ((w + 1) * p);
  }

  lemma WholeIs(n: nat, d: nat)
    ensures Whole(n, d) == n / Pow10(d)
  {
    hide Whole, Pow10;
    WholeBounds(n, d);
    QuotientIs(n, Pow10(d), Whole(n, d));
  }

  /** The character `s[i]` is the decimal digit of `n` at its place. */
  ghost predicate DigitsOf(s: string, n: int) {
    forall i :: 0 <= i < |s| ==> s[i] as int == 48 + (n / Pow10(|s| - 1 - i)) % 10
  }

  /** The usual way to write `n`: its digits, no more than it needs. */
  ghost predicate IsDecimal(s: string, n: int) {
    s != "" && DigitsOf(s, n) && n < Pow10(|s|) && (|s| > 1 ==> Pow10(|s| - 1) <= n)
  }

  lemma {:induction false} FixedWidthAt(n: nat, d: nat, i: nat)
    requires i < d
    ensures FixedWidth(n, d)[i] as int == 48 + Whole(n, d - 1 - i) % 10
    decreases d
  {
    if i < d - 1 {
      FixedWidthAt(n / 10, d - 1, i);
    }
  }

  lemma FixedWidthDigits(n: nat, d: nat)
    ensures DigitsOf(FixedWidth(n, d), n)
  {
    hide FixedWidth, Whole, Pow10;
    forall i | 0 <= i < d
      ensures FixedWidth(n, d)[i] as int == 48 + (n / Pow10(d - 1 - i)) % 10
    {
      FixedWidthAt(n, d, i);
      WholeIs(n, d - 1 - i);
    }
  }

  lemma {:induction false} DecimalWidth(n: nat)
    ensures var d := |Decimal(n)|;
            && Decimal(n) == FixedWidth(n, d) && n < Pow10(d) && (d > 1 ==> Pow10(d - 1) <= n)
  {
    if n >= 10 {
      DecimalWidth(n / 10);
    } else {
      assert FixedWidth(n / 10, 0) == "" && Pow10(1) == 10 * Pow10(0);
    }
  }

  lemma DecimalIsDecimal(n: nat)
    ensures IsDecimal(Decimal(n), n)
  {
    hide Decimal, FixedWidth, DigitsOf;
    DecimalWidth(n);
    FixedWidthDigits(n, |Decimal(n)|);
    DecimalReadsBack(n);
  }

  // ---- printing

  function Zeros(k: nat): (s: string)
    ensures |s| == k && forall i :: 0 <= i < k ==> s[i] == '0'
  {
    seq(k, _ => '0')
  }

  /** The digits of `n`, left-padded with zeros to the given width. */
  function ZeroPadded(n: nat, width: nat): string {
    var s := Decimal(n);
    if |s| < width then Zeros(width - |s|) + s else s
  }

  /** What the printed form must be: the whole part, then exactly `decimals` digits of the fraction. */
  function RealString(amount: nat, decimals: nat): string {
    if decimals == 0 then Decimal(amount)
    else Decimal(Whole(amount, decimals)) + "." + FixedWidth(amount, decimals)
  }

  /** The whole part as it is usually written, a point at `k`, and one digit for each of the decimals. */
  ghost predicate WritesReal(s: string, k: nat, amount: nat, decimals: nat) {
    && |s| == k + 1 + decimals && s[k] == '.'
    && IsDecimal(s[..k], amount / Pow10(decimals)) && DigitsOf(s[k + 1..], amount)
  }

  lemma RealStringDigits(amount: nat, decimals: nat) returns (k: nat)
    requires decimals > 0
    ensures WritesReal(RealString(amount, decimals), k, amount, decimals)
  {
    var whole, fraction := Decimal(Whole(amount, decimals)), FixedWidth(amount, decimals);
    var s := RealString(amount, decimals);
    k := |whole|;
    assert s[..k] == whole && s[k + 1..] == fraction;
    hide IsDecimal, DigitsOf, Decimal, FixedWidth, Whole;
    WholeIs(amount, decimals);
    DecimalIsDecimal(Whole(amount, decimals));
    FixedWidthDigits(amount, decimals);
  }

  lemma PaddedLastDigit(n: nat, width: nat)
    requires width >= 1
    ensures ZeroPadded(n, width + 1) == ZeroPadded(n / 10, width) + [DigitChar(n % 10)]
  {
  }

  lemma {:induction false} PaddedSplits(n: nat, d: nat)
    ensures ZeroPadded(n, d + 1) == Decimal(Whole(n, d)) + FixedWidth(n, d)
  {
    if d > 0 {
      PaddedLastDigit(n, d);
      PaddedSplits(n / 10, d - 1);
    }
  }

  /** Padding to one more than the decimals and inserting the point gives the real number string. */
  method RealNumberString(amount: nat, decimals: nat) returns (s: string)
    ensures s == RealString(amount, decimals)
  {
    if decimals > 0 {
      s := ZeroPadded(amount, decimals + 1);
      PaddedSplits(amount, decimals);
      var at := |s| - decimals;
      assert s[..at] == Decimal(Whole(amount, decimals)) && s[at..] == FixedWidth(amount, decimals);
      s := s[..at] + "." + s[at..];
    } else {
      s := Decimal(amount);
    }
  }

  // ---- reading back

  /** Position of the decimal point, or the length when there is none. */
  function PointAt(s: string): (k: nat)
    ensures k <= |s| && (k < |s| ==> s[k] == '.') && forall i :: 0 <= i < k ==> s[i] != '.'
  {
    if s == [] || s[0] == '.' then 0 else 1 + PointAt(s[1..])
  }

  /** An unsigned decimal number: digits, possibly a point, and then more digits. */
  function ReadReal(s: string): (r: Option<(nat, nat)>) {
    var k := PointAt(s);
    var fraction := if k < |s| then s[k + 1..] else "";
    var digits := s[..k] + fraction;
    if k > 0 && AllDigits(digits) && (k < |s| ==> fraction != "")
    then Some((ValueOf(digits), |fraction|)) else None
  }

  lemma PointIsAt(whole: string, rest: string)
    requires AllDigits(whole)
    ensures PointAt(whole) == |whole| && PointAt(whole + "." + rest) == |whole|
  {
    var s := whole + "." + rest;
    assert s[|whole|] == '.';
    assert forall i :: 0 <= i < |whole| ==> s[i] == whole[i] != '.';
  }

  /** The string shows exactly `decimals` digits of fraction and stands for the amount. */
  lemma RealStringReadsBack(amount: nat, decimals: nat)
    ensures ReadReal(RealString(amount, decimals)) == Some((amount, decimals))
  {
    var s := RealString(amount, decimals);
    if decimals == 0 {
      PointIsAt(s, "");
      DecimalReadsBack(amount);
      assert s[..|s|] + "" == s;
    } else {
      var whole, fraction := Decimal(Whole(amount, decimals)), FixedWidth(amount, decimals);
      PointIsAt(whole, fraction);
      assert s[..|whole|] == whole && s[|whole| + 1..] == fraction;
      SplitReadsBack(amount, decimals);
    }
  }

  // ---- trimming

  function TrimEnd(s: string, c: char): (t: string)
    ensures t <= s && (forall i :: |t| <= i < |s| ==> s[i] == c) && (t != "" ==> t[|t| - 1] != c)
  {
    if s != [] && s[|s| - 1] == c then TrimEnd(s[..|s| - 1], c) else s
  }

  function TrimmedString(amount: nat, decimals: nat): string {
    var s := RealString(amount, decimals);
    if decimals > 0 then TrimEnd(TrimEnd(s, '0'), '.') else s
  }

  /** The same number in lowest terms: as few decimals as possible. */
  function Reduced(amount: nat, decimals: nat): (r: (nat, nat)) {
    if decimals > 0 && amount % 10 == 0 then Reduced(amount / 10, decimals - 1) else (amount, decimals)
  }

  /** Two amounts that stand for the same number. */
  predicate SameNumber(a1: nat, d1: nat, a2: nat, d2: nat) {
    a1 * Pow10(d2) == a2 * Pow10(d1)
  }

  lemma TrimDropsLast(s: string, c: char)
    ensures TrimEnd(s + [c], c) == TrimEnd(s, c)
  {
    assert (s + [c])[..|s|] == s;
  }

  lemma OnlyZeroDropped(whole: string)
    requires AllDigits(whole)
    ensures TrimEnd(TrimEnd(whole + ".0", '0'), '.') == whole
  {
    var pointed := whole + ".";
    assert whole + ".0" == pointed + ['0'];
    TrimDropsLast(pointed, '0');
    TrimDropsLast(whole, '.');
  }

  lemma RealStringDropsZero(amount: nat, decimals: nat)
    requires decimals > 0 && amount % 10 == 0
    ensures RealString(amount, decimals)
            == RealString(amount / 10, decimals - 1) + if decimals == 1 then ".0" else "0"
  {
    hide Decimal;
    assert DigitChar(amount % 10) == '0';
    assert FixedWidth(amount, decimals) == FixedWidth(amount / 10, decimals - 1) + "0";
    assert Whole(amount, decimals) == Whole(amount / 10, decimals - 1);
  }

  /** A trailing zero of the amount is a trailing zero of the string. */
  lemma TrailingZero(amount: nat, decimals: nat)
    requires decimals > 0 && amount % 10 == 0
    ensures TrimmedString(amount, decimals) == TrimmedString(amount / 10, decimals - 1)
  {
    RealStringDropsZero(amount, decimals);
    hide FixedWidth, TrimEnd;
    if decimals == 1 {
      OnlyZeroDropped(RealString(amount / 10, 0));
    } else {
      TrimDropsLast(RealString(amount / 10, decimals - 1), '0');
    }
  }

  /** Trimming prints the number in lowest terms. */
  lemma {:induction false} TrimmedIsReduced(amount: nat, decimals: nat)
    ensures var (a, d) := Reduced(amount, decimals); TrimmedString(amount, decimals) == RealString(a, d)
  {
    if decimals > 0 && amount % 10 == 0 {
      TrailingZero(amount, decimals);
      TrimmedIsReduced(amount / 10, decimals - 1);
    } else if decimals > 0 {
      var s := RealString(amount, decimals);
      assert s[|s| - 1] == DigitChar(amount % 10);
      assert DigitValue('0') == 0;
    }
  }

  lemma {:induction false} ReducedIsLeast(amount: nat, decimals: nat)
    ensures var (a, d) := Reduced(amount, decimals);
            d <= decimals && amount == a * Pow10(decimals - d) && (d > 0 ==> a % 10 != 0)
  {
    if decimals > 0 && amount % 10 == 0 {
      ReducedIsLeast(amount / 10, decimals - 1);
      var (a, d) := Reduced(amount / 10, decimals - 1);
      var p := Pow10(decimals - 1 - d);
      assert amount == 10 * (a * p) == a * (10 * p);
    }
  }

  lemma ReducedIsUnique(a1: nat, d1: nat, a2: nat, d2: nat)
    requires d1 > 0 ==> a1 % 10 != 0
    requires d2 > 0 ==> a2 % 10 != 0
    requires SameNumber(a1, d1, a2, d2)
    ensures d1 == d2 && a1 == a2
  {
    if d1 <= d2 {
      FewerDecimals(a1, d1, a2, d2);
    } else {
      FewerDecimals(a2, d2, a1, d1);
    }
  }

  lemma CancelPower(a: nat, b: nat, p: nat)
    requires p > 0 && a * p == b * p
    ensures a == b
  {
    assert (a - b) * p == 0;
  }

  lemma PowerIsRound(a: nat, k: nat)
    requires k > 0
    ensures (a * Pow10(k)) % 10 == 0
  {
    assert a * (10 * Pow10(k - 1)) == 10 * (a * Pow10(k - 1));
  }

  lemma FewerDecimals(a1: nat, d1: nat, a2: nat, d2: nat)
    requires d1 <= d2 && (d2 > 0 ==> a2 % 10 != 0) && SameNumber(a1, d1, a2, d2)
    ensures d1 == d2 && a1 == a2
  {
    var p, q := Pow10(d1), Pow10(d2 - d1);
    Pow10Adds(d1, d2 - d1);
    assert a1 * (p * q) == (a1 * q) * p;
    CancelPower(a1 * q, a2, p);
    if d1 < d2 {
      PowerIsRound(a1, d2 - d1);
    }
  }

  /** A number and its lowest terms are the same number. */
  lemma ReducedIsSame(a: nat, d: nat, b: nat, e: nat)
    requires Reduced(a, d) == (b, e)
    ensures SameNumber(a, d, b, e)
  {
    ReducedIsLeast(a, d);
    var p, q := Pow10(e), Pow10(d - e);
    Pow10Adds(e, d - e);
    assert (b * q) * p == b * (p * q);
  }

  lemma SwapFactors(x: nat, y: nat, z: nat)
    ensures (x * y) * z == (x * z) * y
  {
  }

  lemma SameNumberTransitive(a1: nat, d1: nat, a2: nat, d2: nat, a3: nat, d3: nat)
    requires SameNumber(a1, d1, a2, d2) && SameNumber(a2, d2, a3, d3)
    ensures SameNumber(a1, d1, a3, d3)
  {
    var p1, p2, p3 := Pow10(d1), Pow10(d2), Pow10(d3);
    calc {
      (a1 * p3) * p2;
      { SwapFactors(a1, p3, p2); }
      (a1 * p2) * p3;
      (a2 * p1) * p3;
      { SwapFactors(a2, p1, p3); }
      (a2 * p3) * p1;
      (a3 * p2) * p1;
      { SwapFactors(a3, p2, p1); }
      (a3 * p1) * p2;
    }
    CancelPower(a1 * p3, a3 * p1, p2);
  }

  /** The trimmed string is canonical: two amounts print alike exactly when they are the same number. */
  lemma TrimmedIsCanonical(a1: nat, d1: nat, a2: nat, d2: nat)
    ensures TrimmedString(a1, d1) == TrimmedString(a2, d2) <==> SameNumber(a1, d1, a2, d2)
  {
    hide SameNumber, TrimmedString, RealString, ReadReal;
    var (b1, e1) := Reduced(a1, d1);
    var (b2, e2) := Reduced(a2, d2);
    TrimmedIsReduced(a1, d1);
    TrimmedIsReduced(a2, d2);
    ReducedIsSame(a1, d1, b1, e1);
    ReducedIsSame(a2, d2, b2, e2);
    SameIsSymmetric(a2, d2, b2, e2);
    if TrimmedString(a1, d1) == TrimmedString(a2, d2) {
      RealStringReadsBack(b1, e1);
      RealStringReadsBack(b2, e2);
      SameNumberTransitive(a1, d1, b1, e1, a2, d2);
    }
    if SameNumber(a1, d1, a2, d2) {
      SameIsSymmetric(a1, d1, b1, e1);
      SameIsSymmetric(b2, e2, a2, d2);
      SameNumberTransitive(b1, e1, a1, d1, a2, d2);
      SameNumberTransitive(b1, e1, a2, d2, b2, e2);
      ReducedIsLeast(a1, d1);
      ReducedIsLeast(a2, d2);
      ReducedIsUnique(b1, e1, b2, e2);
    }
  }

  lemma SameIsSymmetric(a1: nat, d1: nat, a2: nat, d2: nat)
    requires SameNumber(a1, d1, a2, d2)
    ensures SameNumber(a2, d2, a1, d1)
  {
  }

  /** The trimmed string still stands for the amount, with as few fraction digits as any reading of it can have. */
  lemma TrimmedReadsBack(amount: nat, decimals: nat) returns (a: nat, d: nat)
    ensures (a, d) == Reduced(amount, decimals) && ReadReal(TrimmedString(amount, decimals)) == Some((a, d))
    ensures d <= decimals && SameNumber(amount, decimals, a, d) && (d > 0 ==> a % 10 != 0)
  {
    hide SameNumber, TrimmedString, RealString, ReadReal;
    a, d := Reduced(amount, decimals).0, Reduced(amount, decimals).1;
    TrimmedIsReduced(amount, decimals);
    RealStringReadsBack(a, d);
    ReducedIsSame(amount, decimals, a, d);
    ReducedIsLeast(amount, decimals);
  }

  /** The trimmed string prints the number in lowest terms, and reads back as that number. */
  method RealNumberStringTrimmed(amount: nat, decimals: nat) returns (s: string)
    ensures var (a, d) := Reduced(amount, decimals);
            && s == RealString(a, d) && ReadReal(s) == Some((a, d))
            && SameNumber(amount, decimals, a, d) && (d > 0 ==> a % 10 != 0)
  {
    hide SameNumber, RealString, ReadReal, TrimEnd, Reduced;
    s := RealNumberString(amount, decimals);
    if decimals > 0 {
      var zerosTrimmed := TrimEnd(s, '0');
      s := TrimEnd(zerosTrimmed, '.');
    }
    TrimmedIsReduced(amount, decimals);
    var a, d := TrimmedReadsBack(amount, decimals);
  }

  // ---- amounts as served to clients

  lemma QuotientTimes(x: real, y: real)
    requires y > 0.0
    ensures (x / y) * y == x
  {
  }

  /** The powers of ten that fit 64 bits are those up to the nineteenth. */
  lemma Pow10Fits(d: nat)
    ensures Pow10(d) < AMOUNT_LIMIT <==> d <= 19
  {
    assert Pow10(5) == 100_000 && Pow10(4) == 10_000;
    Pow10Adds(5, 5);
    Pow10Adds(5, 4);
    Pow10Adds(10, 9);
    Pow10Adds(10, 10);
    if d <= 19 {
      Pow10Adds(d, 19 - d);
      assert Pow10(d) * Pow10(19 - d) >= Pow10(d) * 1;
    } else {
      Pow10Adds(20, d - 20);
      assert Pow10(20) * Pow10(d - 20) >= Pow10(20) * 1;
    }
  }

  /** Parses an unsigned 64-bit integer: an optional plus sign and at least one digit, without overflow. */
  function ParseU64(s: string): Option<Amount> {
    var digits := if s != [] && s[0] == '+' then s[1..] else s;
    if digits != [] && AllDigits(digits) && ValueOf(digits) < AMOUNT_LIMIT then Some(ValueOf(digits)) else None
  }

  /** A string parses exactly when it is digits, possibly behind a plus sign, whose value fits 64 bits. */
  lemma ParseExactly(s: string, n: nat)
    ensures (n < 0x1_0000_0000_0000_0000 && ParseU64(s) == Some(n)) <==>
              && n < 18_446_744_073_709_551_616
              && exists digits: string ::
                   (s == digits || s == "+" + digits) && digits != "" && AllDigits(digits) && ValueOf(digits) == n
  {
    var rest := if s != [] && s[0] == '+' then s[1..] else s;
    assert s == rest || s == "+" + rest;
    forall digits: string | (s == digits || s == "+" + digits) && digits != "" && AllDigits(digits)
      ensures digits == rest
    {
      assert IsDigit(digits[0]);
    }
  }

  function ParsedOrZero(s: string): Amount {
    var r := ParseU64(s);
    if r.Some? then r.value else 0
  }

  lemma DecimalParses(n: Amount)
    ensures ParseU64(Decimal(n)) == Some(n)
  {
    DecimalReadsBack(n);
    assert IsDigit(Decimal(n)[0]);
  }

  /** `uiAmount` is the number itself, without the rounding of a floating-point quotient. */
  datatype UiTokenAmount =
    UiTokenAmount(uiAmount: Option<real>, decimals: nat, amount: string, uiAmountString: string)

  /** The record stands for this amount, whether or not its sender filled in the printed form. */
  ghost predicate Shows(u: UiTokenAmount, amount: Amount, decimals: nat) {
    && u.decimals == decimals
    && ParseU64(u.amount) == Some(amount)
    && (u.uiAmountString == "" || u.uiAmountString == TrimmedString(amount, decimals))
  }

  method TokenAmountToUiAmount(amount: Amount, decimals: nat) returns (u: UiTokenAmount)
    ensures Shows(u, amount, decimals) && u.uiAmountString == TrimmedString(amount, decimals)
    ensures IsDecimal(u.amount, amount)
    ensures AllDigits(u.amount) && ValueOf(u.amount) == amount && (u.amount[0] == '0' ==> u.amount == "0")
    ensures u.uiAmount.Some? <==> decimals <= 19
    ensures u.uiAmount.Some? ==> u.uiAmount.value * Pow10(decimals) as real == amount as real
  {
    hide Pow10, TrimmedString, RealString, ReadReal, Reduced, SameNumber, ParseU64, IsDecimal, ValueOf;
    DecimalParses(amount);
    DecimalReadsBack(amount);
    DecimalIsDecimal(amount);
    Pow10Fits(decimals);
    QuotientTimes(amount as real, Pow10(decimals) as real);
    TrimmedIsReduced(amount, decimals);
    var dividend := if Pow10(decimals) < AMOUNT_LIMIT then Some(Pow10(decimals)) else None;
    var uiAmount := if dividend.Some? then Some(amount as real / dividend.value as real) else None;
    var s := RealNumberStringTrimmed(amount, decimals);
    u := UiTokenAmount(uiAmount, decimals, Decimal(amount), s);
  }

  method UiRealNumberString(u: UiTokenAmount) returns (s: string)
    ensures forall a: Amount :: Shows(u, a, u.decimals) ==> s == RealString(a, u.decimals)
    ensures ParseU64(u.amount).None? ==> s == RealString(0, u.decimals)
  {
    s := RealNumberString(ParsedOrZero(u.amount), u.decimals);
  }

  method UiRealNumberStringTrimmed(u: UiTokenAmount) returns (s: string)
    ensures forall a: Amount :: Shows(u, a, u.decimals) ==> s == TrimmedString(a, u.decimals)
    ensures u.uiAmountString != "" ==> s == u.uiAmountString
    ensures u.uiAmountString == "" && ParseU64(u.amount).None? ==> s == TrimmedString(0, u.decimals)
  {
    if u.uiAmountString != "" {
      s := u.uiAmountString;
    } else {
      TrimmedIsReduced(ParsedOrZero(u.amount), u.decimals);
      s := RealNumberStringTrimmed(ParsedOrZero(u.amount), u.decimals);
    }
  }
}
