/**
 * The calculation engine of src/App.jsx: `toNum`, `mortgagePI` and `runCalc`.
 *
 * `runCalc` is modelled in two stages: `Coerce` turns the form's text fields
 * into raw numbers with `ToNum`, and `Compute` is the arithmetic from those
 * numbers to the results record. All numbers are exact reals; `None` is the
 * engine's `null` ("not applicable").
 */
module Engine {
  import opened Wrappers
  import opened Text

  // ---------------------------------------------------------------------------
  // Numbers from text
  // ---------------------------------------------------------------------------

  /** A form or a saved scenario's values: field name to the text typed in it. */
  type Form = map<string, string>

  /** `v.key ?? ""`: an absent field reads as the empty text. */
  function Field(v: Form, key: string): (r: string)
    ensures key in v ==> r == v[key]
    ensures key !in v ==> r == ""
  {
    if key in v then v[key] else ""
  }

  /**
   * JavaScript's `Number(s)` on a trimmed, comma-free text: `Some(x)` for a
   * finite number, `None` for NaN or an infinity.
   */
  type NumberParser = string -> Option<real>

  /** `s.replace(/,/g, "")`: the text with every thousands separator removed. */
  function StripCommas(s: string): (r: string)
    ensures ',' !in r
    ensures multiset(r) == multiset(s)[',' := 0]
    ensures ',' !in s ==> r == s
    ensures s == "," ==> r == ""
  {
    if s == [] then []
    else
      var rest := StripCommas(s[1..]);
      assert s == [s[0]] + s[1..];
      if s[0] == ',' then rest else [s[0]] + rest
  }

  /**
   * Commas are removed one by one, each part of the text on its own: the
   * characters that stay keep their order.
   */
  lemma {:induction false} StripCommasAppend(a: string, b: string)
    ensures StripCommas(a + b) == StripCommas(a) + StripCommas(b)
    decreases |a|
  {
    if a == [] {
      assert a + b == b;
    } else {
      assert (a + b)[0] == a[0];
      assert (a + b)[1..] == a[1..] + b;
      StripCommasAppend(a[1..], b);
    }
  }

  /** The texts `toNum` maps to 0 before asking `Number`: a sign or point with no digit. */
  predicate IsBlankNumber(t: string): (b: bool)
    ensures b ==> |t| <= 2 && forall k :: 0 <= k < |t| ==> t[k] == '-' || t[k] == '.'
  {
    t == "" || t == "-" || t == "." || t == "-."
  }

  /** `toNum`: permissive coercion of a field's text to a number; never fails. */
  function ToNum(s: string, number: NumberParser): (r: real)
    ensures IsBlankNumber(Trim(StripCommas(s))) ==> r == 0.0
    ensures number(Trim(StripCommas(s))).None? ==> r == 0.0
    ensures r != 0.0 ==> number(Trim(StripCommas(s))) == Some(r)
    ensures var t := Trim(StripCommas(s));
      !IsBlankNumber(t) && number(t).Some? ==> r == number(t).value
  {
    var t := Trim(StripCommas(s));
    if IsBlankNumber(t) then 0.0
    else
      match number(t)
      case Some(x) => x
      case None => 0.0
  }

  /** An absent field reads as 0. */
  lemma ToNumEmpty(number: NumberParser)
    ensures ToNum("", number) == 0.0
  {
    assert StripCommas("") == "";
    assert Trim("") == "";
  }

  /** Thousands separators never change what a field means. */
  lemma ToNumIgnoresCommas(s: string, number: NumberParser)
    ensures ToNum(StripCommas(s), number) == ToNum(s, number)
  {
  }

  // ---------------------------------------------------------------------------
  // Small real helpers (Math.max, Math.min, Math.round)
  // ---------------------------------------------------------------------------

  function Max(a: real, b: real): real { if a >= b then a else b }

  function Min(a: real, b: real): real { if a <= b then a else b }

  /** `Math.max(lo, Math.min(hi, x))`. */
  function Clamp(x: real, lo: real, hi: real): (r: real)
    requires lo <= hi
    ensures lo <= r <= hi
    ensures lo <= x <= hi ==> r == x
    ensures x < lo ==> r == lo
    ensures x > hi ==> r == hi
  {
    Max(lo, Min(hi, x))
  }

  /** `b` raised to the whole power `n`. */
  function Pow(b: real, n: nat): real {
    if n == 0 then 1.0 else b * Pow(b, n - 1)
  }

  lemma {:induction false} PowAboveOne(b: real, n: nat)
    requires b > 1.0 && n >= 1
    ensures Pow(b, n) >= b > 1.0
  {
    if n > 1 {
      PowAboveOne(b, n - 1);
      assert b * Pow(b, n - 1) >= b * b;
      assert b * b > b * 1.0;
    }
  }

  // ---------------------------------------------------------------------------
  // mortgagePI
  // ---------------------------------------------------------------------------

  /** `Math.max(1, Math.round(termYears * 12))`: the number of monthly payments. */
  function Months(termYears: real): (n: nat)
    ensures n >= 1
    ensures termYears * 12.0 >= 0.5 ==> n as real - 0.5 <= termYears * 12.0 < n as real + 0.5
    ensures termYears * 12.0 < 0.5 ==> n == 1
  {
    var k := (termYears * 12.0 + 0.5).Floor;
    if k < 1 then 1 else k
  }

  /** Monthly rate of an annual percentage: `ratePct / 100 / 12`. */
  function MonthlyRate(ratePct: real): real {
    ratePct / 100.0 / 12.0
  }

  /** Twelve months of the monthly rate make the annual percentage; its sign is the percentage's. */
  lemma MonthlyRateOfAnnual(ratePct: real)
    ensures MonthlyRate(ratePct) * 1200.0 == ratePct
    ensures ratePct > 0.0 <==> MonthlyRate(ratePct) > 0.0
    ensures ratePct == 0.0 <==> MonthlyRate(ratePct) == 0.0
  {
  }

  /**
   * `mortgagePI`: the level monthly payment that repays `loanAmount` over the
   * term; negative principal and rate count as 0.
   */
  function MortgagePI(loanAmount: real, ratePct: real, termYears: real): (pmt: real)
    ensures pmt >= 0.0
    ensures loanAmount <= 0.0 ==> pmt == 0.0
    ensures loanAmount > 0.0 ==> pmt > 0.0
    ensures ratePct <= 0.0 ==> pmt == Max(0.0, loanAmount) / Months(termYears) as real
    ensures ratePct > 0.0 ==> pmt >= Max(0.0, loanAmount) * MonthlyRate(ratePct)
  {
    var P := Max(0.0, loanAmount);
    var r := MonthlyRate(Max(0.0, ratePct));
    var n := Months(termYears);
    if r == 0.0 then
      ShareSign(P, n as real);
      P / n as real
    else
      Annuity(P, r, n)
  }

  /** `P * r * q / (q - 1)` with `q = (1 + r)^n`: the amortised payment at a positive rate. */
  function Annuity(P: real, r: real, n: nat): (pmt: real)
    requires P >= 0.0 && r > 0.0 && n >= 1
    ensures pmt >= P * r
    ensures P > 0.0 ==> pmt > 0.0
    ensures P == 0.0 ==> pmt == 0.0
    ensures pmt * (Pow(1.0 + r, n) - 1.0) == P * r * Pow(1.0 + r, n)
  {
    var q := Pow(1.0 + r, n);
    PowAboveOne(1.0 + r, n);
    PaymentBounds(P, r, q);
    P * r * q / (q - 1.0)
  }

  lemma ShareSign(x: real, n: real)
    requires x >= 0.0 && n >= 1.0
    ensures x / n >= 0.0
    ensures x > 0.0 ==> x / n > 0.0
  {
  }

  /** The annuity factor `q / (q - 1)` exceeds 1, so the payment covers interest. */
  lemma PaymentBounds(P: real, r: real, q: real)
    requires P >= 0.0 && r > 0.0 && q > 1.0
    ensures P * r * q / (q - 1.0) >= P * r
    ensures P > 0.0 ==> P * r * q / (q - 1.0) > 0.0
  {
    var x := P * r;
    assert x >= 0.0;
    QuotientAtLeast(x, q);
  }

  /** For `x >= 0` and `q > 1`, `x * q / (q - 1) >= x`, strictly when `x > 0`. */
  lemma QuotientAtLeast(x: real, q: real)
    requires x >= 0.0 && q > 1.0
    ensures x * q / (q - 1.0) >= x
    ensures x > 0.0 ==> x * q / (q - 1.0) > 0.0
  {
    var d := q - 1.0;
    var y := x * q / d;
    assert y * d == x * q;
    assert x * q == x * d + x;
    assert (y - x) * d == x;
  }

  /** The balance left after `k` monthly payments of `payment` at monthly rate `rate`. */
  function Balance(principal: real, rate: real, payment: real, k: nat): real {
    if k == 0 then principal else Balance(principal, rate, payment, k - 1) * (1.0 + rate) - payment
  }

  lemma {:induction false} BalanceClosedForm(P: real, r: real, pmt: real, k: nat)
    ensures Balance(P, r, pmt, k) * r == P * r * Pow(1.0 + r, k) - pmt * (Pow(1.0 + r, k) - 1.0)
  {
    if k > 0 {
      var b, q := Balance(P, r, pmt, k - 1), Pow(1.0 + r, k - 1);
      var b', q' := Balance(P, r, pmt, k), Pow(1.0 + r, k);
      assert b' == b * (1.0 + r) - pmt;
      assert q' == (1.0 + r) * q;
      BalanceClosedForm(P, r, pmt, k - 1);
      BalanceStep(b, r, pmt, P, q, b', q');
    }
  }

  /**
   * One month of the closed form: if it holds for balance `b` and power `q`,
   * it holds for the next balance `b'` and power `q'`.
   */
  lemma BalanceStep(b: real, r: real, pmt: real, P: real, q: real, b': real, q': real)
    requires b * r == P * r * q - pmt * (q - 1.0)
    requires b' == b * (1.0 + r) - pmt && q' == (1.0 + r) * q
    ensures b' * r == P * r * q' - pmt * (q' - 1.0)
  {
    calc {
      b' * r;
      (b * (1.0 + r) - pmt) * r;
      (1.0 + r) * (b * r) - pmt * r;
      (1.0 + r) * (P * r * q - pmt * (q - 1.0)) - pmt * r;
      P * r * ((1.0 + r) * q) - pmt * ((1.0 + r) * q - 1.0);
      P * r * q' - pmt * (q' - 1.0);
    }
  }

  lemma {:induction false} BalanceInterestFree(P: real, pmt: real, k: nat)
    ensures Balance(P, 0.0, pmt, k) == P - k as real * pmt
  {
    if k > 0 {
      BalanceInterestFree(P, pmt, k - 1);
    }
  }

  /**
   * The payment `MortgagePI` returns pays the (clamped) loan off exactly:
   * after `Months(termYears)` payments nothing is owed.
   */
  lemma MortgagePIAmortises(loanAmount: real, ratePct: real, termYears: real)
    ensures Balance(Max(0.0, loanAmount), MonthlyRate(Max(0.0, ratePct)),
                    MortgagePI(loanAmount, ratePct, termYears), Months(termYears)) == 0.0
  {
    var P := Max(0.0, loanAmount);
    var r := MonthlyRate(Max(0.0, ratePct));
    var n := Months(termYears);
    var pmt := MortgagePI(loanAmount, ratePct, termYears);
    if r == 0.0 {
      assert pmt == P / n as real;
      BalanceInterestFree(P, pmt, n);
      EvenShares(P, n as real);
    } else {
      assert pmt == Annuity(P, r, n);
      BalanceClosedForm(P, r, pmt, n);
      ZeroProduct(Balance(P, r, pmt, n), r);
    }
  }

  lemma EvenShares(x: real, n: real)
    requires n >= 1.0
    ensures x - n * (x / n) == 0.0
  {
  }

  lemma ZeroProduct(x: real, r: real)
    requires x * r == 0.0 && r != 0.0
    ensures x == 0.0
  {
  }

  // ---------------------------------------------------------------------------
  // runCalc
  // ---------------------------------------------------------------------------

  /** The form's fields after `toNum`, before any clamping. */
  datatype Inputs = Inputs(
    targetRent: real, vacancyRatePct: real, mgmtFeePct: real,
    insurance: real, hoa: real, maintenance: real,
    mortgagePI: real, propertyTaxAnnual: real,
    purchasePrice: real, downPct: real, ratePct: real, termYears: real,
    closingCostPct: real, pmiAnnualPct: real,
    useLoan: bool, capexAnnual: real)

  /** The record `runCalc` returns. */
  datatype Results = Results(
    rentLow: real, rentMid: real, rentHigh: real,
    vacancy: real, mgmtFee: real, effectiveRentMid: real,
    taxMonthly: real, otherFixed: real, monthlyFixed: real,
    monthlyPI: real, monthlyPMI: real,
    monthlyCashFlow: real, annualProfit: real,
    vacPct: real, mgmtPct: real,
    noi: real, capRate: Option<real>,
    dscr: Option<real>, cashOnCash: Option<real>,
    breakEvenRent: Option<real>, breakEvenOcc: Option<real>,
    purchasePrice: real, loanAmount: real, downPct: real, ratePct: real,
    termYears: real, closingPct: real, pmiPct: real, capexAnnual: real)

  /** `String(v.useLoan || "1") === "1"`: an absent or empty flag means "use the loan". */
  function UsesLoan(flag: string): (b: bool)
    ensures b <==> flag == "" || flag == "1"
  {
    (if flag == "" then "1" else flag) == "1"
  }

  /** Every field `runCalc` reads, through `toNum`. */
  function Coerce(v: Form, number: NumberParser): (i: Inputs)
    ensures i.useLoan <==> Field(v, "useLoan") == "" || Field(v, "useLoan") == "1"
    ensures "targetRent" !in v ==> i.targetRent == 0.0
    ensures "purchasePrice" !in v ==> i.purchasePrice == 0.0
  {
    ToNumEmpty(number);
    Inputs(
      ToNum(Field(v, "targetRent"), number),
      ToNum(Field(v, "vacancyRatePct"), number),
      ToNum(Field(v, "mgmtFeePct"), number),
      ToNum(Field(v, "insurance"), number),
      ToNum(Field(v, "hoa"), number),
      ToNum(Field(v, "maintenance"), number),
      ToNum(Field(v, "mortgagePI"), number),
      ToNum(Field(v, "propertyTaxAnnual"), number),
      ToNum(Field(v, "purchasePrice"), number),
      ToNum(Field(v, "downPct"), number),
      ToNum(Field(v, "ratePct"), number),
      ToNum(Field(v, "termYears"), number),
      ToNum(Field(v, "closingCostPct"), number),
      ToNum(Field(v, "pmiAnnualPct"), number),
      UsesLoan(Field(v, "useLoan")),
      ToNum(Field(v, "capexAnnual"), number))
  }

  // The stages of `runCalc` that the results report: each percentage share,
  // the rent collected, the loan, PMI and each ratio. The plain sums stay in `Compute`.

  /** `rentMid * (pct / 100)`: the part of the rent a clamped percentage takes. */
  function PctOf(rentMid: real, pct: real): (x: real)
    requires rentMid >= 0.0 && 0.0 <= pct <= 100.0
    ensures 0.0 <= x <= rentMid
    ensures 100.0 * x == rentMid * pct
  {
    PctOfBounds(rentMid, pct);
    rentMid * (pct / 100.0)
  }

  lemma PctOfBounds(rentMid: real, pct: real)
    requires rentMid >= 0.0 && 0.0 <= pct <= 100.0
    ensures 0.0 <= rentMid * (pct / 100.0) <= rentMid
  {
    assert rentMid * (pct / 100.0) <= rentMid * 1.0;
  }

  /** `Math.max(0, rentMid - vacancy - mgmtFee)`: the rent actually collected. */
  function EffectiveRent(rentMid: real, vacPct: real, mgmtPct: real): (e: real)
    requires rentMid >= 0.0 && 0.0 <= vacPct <= 100.0 && 0.0 <= mgmtPct <= 100.0
    ensures 0.0 <= e <= rentMid
    ensures vacPct + mgmtPct <= 100.0 ==>
      PctOf(rentMid, vacPct) + PctOf(rentMid, mgmtPct) + e == rentMid &&
      e == rentMid * (1.0 - vacPct / 100.0 - mgmtPct / 100.0)
    ensures vacPct + mgmtPct >= 100.0 ==> e == 0.0
  {
    EffectiveRentBounds(rentMid, vacPct, mgmtPct);
    Max(0.0, rentMid - PctOf(rentMid, vacPct) - PctOf(rentMid, mgmtPct))
  }

  lemma EffectiveRentBounds(rentMid: real, vacPct: real, mgmtPct: real)
    requires rentMid >= 0.0 && 0.0 <= vacPct <= 100.0 && 0.0 <= mgmtPct <= 100.0
    ensures rentMid - rentMid * (vacPct / 100.0) - rentMid * (mgmtPct / 100.0)
         == rentMid * (1.0 - vacPct / 100.0 - mgmtPct / 100.0)
    ensures vacPct + mgmtPct <= 100.0 ==> rentMid * (1.0 - vacPct / 100.0 - mgmtPct / 100.0) >= 0.0
    ensures vacPct + mgmtPct >= 100.0 ==> rentMid * (1.0 - vacPct / 100.0 - mgmtPct / 100.0) <= 0.0
  {
    var d := 1.0 - vacPct / 100.0 - mgmtPct / 100.0;
    if vacPct + mgmtPct <= 100.0 {
      assert d >= 0.0;
      assert rentMid * d >= 0.0;
    }
    if vacPct + mgmtPct >= 100.0 {
      assert d <= 0.0;
      assert rentMid * d <= 0.0;
    }
  }

  /** `Math.max(0, purchasePrice * (1 - downPct / 100))`: the amount borrowed. */
  function LoanAmount(purchasePrice: real, downPct: real): (l: real)
    requires purchasePrice >= 0.0 && downPct >= 0.0
    ensures 0.0 <= l <= purchasePrice
    ensures downPct <= 100.0 ==> l == purchasePrice * (1.0 - downPct / 100.0)
    ensures downPct >= 100.0 ==> l == 0.0
    ensures downPct < 20.0 ==> (l > 0.0 <==> purchasePrice > 0.0)
  {
    LoanBounds(purchasePrice, downPct);
    Max(0.0, purchasePrice * (1.0 - downPct / 100.0))
  }

  lemma LoanBounds(purchasePrice: real, downPct: real)
    requires purchasePrice >= 0.0 && downPct >= 0.0
    ensures purchasePrice * (1.0 - downPct / 100.0) <= purchasePrice
    ensures downPct <= 100.0 ==> purchasePrice * (1.0 - downPct / 100.0) >= 0.0
    ensures downPct >= 100.0 ==> purchasePrice * (1.0 - downPct / 100.0) <= 0.0
    ensures downPct < 20.0 && purchasePrice > 0.0 ==> purchasePrice * (1.0 - downPct / 100.0) > 0.0
  {
    var f := 1.0 - downPct / 100.0;
    assert f <= 1.0;
    assert purchasePrice * f <= purchasePrice * 1.0;
    if downPct <= 100.0 {
      assert purchasePrice * f >= purchasePrice * 0.0;
    }
    if downPct >= 100.0 {
      assert purchasePrice * f <= purchasePrice * 0.0;
    }
    if downPct < 20.0 && purchasePrice > 0.0 {
      assert f > 0.0;
    }
  }

  /** `useLoan && downPct < 20 && pmiPct > 0 ? loanAmount * (pmiPct / 100) / 12 : 0`. */
  function MonthlyPMI(useLoan: bool, downPct: real, pmiPct: real, loanAmount: real): (m: real)
    requires loanAmount >= 0.0 && pmiPct >= 0.0
    ensures m >= 0.0
    ensures m != 0.0 <==> useLoan && downPct < 20.0 && pmiPct > 0.0 && loanAmount > 0.0
    ensures m != 0.0 ==> 12.0 * m == loanAmount * pmiPct / 100.0
  {
    if useLoan && downPct < 20.0 && pmiPct > 0.0 then
      ProductSign(loanAmount, pmiPct / 100.0);
      (loanAmount * (pmiPct / 100.0)) / 12.0
    else 0.0
  }

  lemma ProductSign(x: real, y: real)
    requires x >= 0.0 && y > 0.0
    ensures x * y >= 0.0
    ensures x * y == 0.0 <==> x == 0.0
  {
    if x > 0.0 {
      assert x * y > 0.0 * y;
    }
  }

  /** `purchasePrice > 0 ? noi / purchasePrice * 100 : null`. */
  function CapRate(noi: real, purchasePrice: real): (r: Option<real>)
    requires purchasePrice >= 0.0
    ensures r.None? <==> purchasePrice == 0.0
    ensures r.Some? ==> r.value * purchasePrice == 100.0 * noi
  {
    if purchasePrice > 0.0 then Some((noi / purchasePrice) * 100.0) else None
  }

  /** `annualDebt > 0 ? noi / annualDebt : null`: debt service coverage. */
  function DebtCoverage(noi: real, annualDebt: real): (r: Option<real>)
    requires annualDebt >= 0.0
    ensures r.None? <==> annualDebt == 0.0
    ensures r.Some? ==> r.value * annualDebt == noi
  {
    if annualDebt > 0.0 then Some(noi / annualDebt) else None
  }

  /** The cash a purchase ties up: down payment plus closing costs, 0 without a price. */
  function CashInvested(purchasePrice: real, downPct: real, closingPct: real): (x: real)
    requires purchasePrice >= 0.0 && downPct >= 0.0 && closingPct >= 0.0
    ensures x >= 0.0
    ensures 100.0 * x == purchasePrice * (downPct + closingPct)
    ensures x == 0.0 <==> purchasePrice == 0.0 || downPct + closingPct == 0.0
  {
    if purchasePrice > 0.0 then
      ProductSign(downPct + closingPct, purchasePrice);
      (purchasePrice * (downPct / 100.0)) + (purchasePrice * (closingPct / 100.0))
    else 0.0
  }

  /** `cashInvested > 0 ? annualProfit / cashInvested * 100 : null`. */
  function CashOnCash(annualProfit: real, cashInvested: real): (r: Option<real>)
    requires cashInvested >= 0.0
    ensures r.None? <==> cashInvested == 0.0
    ensures r.Some? ==> r.value * cashInvested == 100.0 * annualProfit
  {
    if cashInvested > 0.0 then Some((annualProfit / cashInvested) * 100.0) else None
  }

  /** `denom > 0 ? monthlyFixed / denom : null` with `denom = 1 - vacPct/100 - mgmtPct/100`. */
  function BreakEvenRent(monthlyFixed: real, vacPct: real, mgmtPct: real): (r: Option<real>)
    requires monthlyFixed >= 0.0
    ensures r.None? <==> vacPct + mgmtPct >= 100.0
    ensures r.Some? ==> r.value >= 0.0 && r.value * (1.0 - vacPct / 100.0 - mgmtPct / 100.0) == monthlyFixed
  {
    var denom := 1.0 - (vacPct / 100.0) - (mgmtPct / 100.0);
    if denom > 0.0 then
      QuotientNonNegative(monthlyFixed, denom);
      Some(monthlyFixed / denom)
    else None
  }

  lemma QuotientNonNegative(x: real, d: real)
    requires x >= 0.0 && d > 0.0
    ensures x / d >= 0.0 && (x / d) * d == x
  {
  }

  /**
   * `rentMid > 0 ? clamp01(monthlyFixed / rentMid + mgmtPct / 100) : null`:
   * the occupancy at which the collected rent just covers the fixed costs.
   */
  function BreakEvenOcc(monthlyFixed: real, rentMid: real, mgmtPct: real): (r: Option<real>)
    requires rentMid >= 0.0
    ensures r.None? <==> rentMid == 0.0
    ensures r.Some? ==> 0.0 <= r.value <= 1.0
    ensures r.Some? && 0.0 <= monthlyFixed / rentMid + mgmtPct / 100.0 <= 1.0 ==>
      rentMid * (r.value - mgmtPct / 100.0) == monthlyFixed
    // a share of the rent at or above 1 is reported as 1: the rent cannot cover the costs
    ensures r.Some? && monthlyFixed / rentMid + mgmtPct / 100.0 >= 1.0 ==> r.value == 1.0
    ensures r.Some? && monthlyFixed / rentMid + mgmtPct / 100.0 <= 0.0 ==> r.value == 0.0
  {
    if rentMid > 0.0 then
      var o := (monthlyFixed / rentMid) + (mgmtPct / 100.0);
      ShareOfRent(monthlyFixed, rentMid, mgmtPct / 100.0);
      Some(Clamp(o, 0.0, 1.0))
    else None
  }

  lemma ShareOfRent(x: real, R: real, m: real)
    requires R > 0.0
    ensures R * ((x / R + m) - m) == x
  {
  }

  /** The arithmetic of `runCalc`, from the coerced fields to the results. */
  function Compute(i: Inputs): (c: Results)
    // rent band
    ensures c.rentMid == Max(0.0, i.targetRent)
    ensures c.rentMid >= 0.0 && (i.targetRent >= 0.0 ==> c.rentMid == i.targetRent)
    ensures c.rentLow == 0.975 * c.rentMid && c.rentHigh == 1.025 * c.rentMid
    ensures 0.0 <= c.rentLow <= c.rentMid <= c.rentHigh
    ensures c.rentMid > 0.0 ==> c.rentLow < c.rentMid < c.rentHigh
    // clamped percentages and effective rent
    ensures c.vacPct == Clamp(i.vacancyRatePct, 0.0, 100.0) && c.mgmtPct == Clamp(i.mgmtFeePct, 0.0, 100.0)
    ensures c.vacancy == PctOf(c.rentMid, c.vacPct) && c.mgmtFee == PctOf(c.rentMid, c.mgmtPct)
    ensures c.effectiveRentMid == EffectiveRent(c.rentMid, c.vacPct, c.mgmtPct)
    ensures 0.0 <= c.effectiveRentMid <= c.rentMid
    ensures c.vacPct + c.mgmtPct <= 100.0 ==> c.vacancy + c.mgmtFee + c.effectiveRentMid == c.rentMid
    ensures c.vacPct + c.mgmtPct >= 100.0 ==> c.effectiveRentMid == 0.0
    // fixed costs, cash flow and NOI
    ensures c.taxMonthly * 12.0 == Max(0.0, i.propertyTaxAnnual)
    ensures c.otherFixed == Max(0.0, i.insurance) + Max(0.0, i.hoa) + Max(0.0, i.maintenance) + c.monthlyPMI
    ensures c.monthlyFixed == c.taxMonthly + c.otherFixed + c.monthlyPI
    ensures c.monthlyCashFlow == c.effectiveRentMid - c.monthlyFixed
    ensures c.annualProfit == 12.0 * c.monthlyCashFlow
    ensures c.noi == 12.0 * c.effectiveRentMid - i.propertyTaxAnnual - 12.0 * (c.otherFixed - c.monthlyPMI)
  {
    var rentMid := Max(0.0, i.targetRent);
    var rentLow := Max(0.0, rentMid * 0.975);
    var rentHigh := rentMid * 1.025;

    var vacPct := Clamp(i.vacancyRatePct, 0.0, 100.0);
    var mgmtPct := Clamp(i.mgmtFeePct, 0.0, 100.0);

    var vacancy := PctOf(rentMid, vacPct);
    var mgmtFee := PctOf(rentMid, mgmtPct);
    var effectiveRentMid := EffectiveRent(rentMid, vacPct, mgmtPct);

    var taxMonthly := Max(0.0, i.propertyTaxAnnual) / 12.0;
    var ins := Max(0.0, i.insurance);
    var hoa := Max(0.0, i.hoa);
    var maint := Max(0.0, i.maintenance);
    var mortOverride := Max(0.0, i.mortgagePI);

    var purchasePrice := Max(0.0, i.purchasePrice);
    var downPct := Max(0.0, i.downPct);
    var ratePct := Max(0.0, i.ratePct);
    var termYears := Max(1.0, i.termYears);
    var closingPct := Max(0.0, i.closingCostPct);
    var pmiPct := Max(0.0, i.pmiAnnualPct);
    var useLoan := i.useLoan;

    var loanAmount := LoanAmount(purchasePrice, downPct);
    var monthlyPI := if useLoan && purchasePrice > 0.0 then MortgagePI(loanAmount, ratePct, termYears) else mortOverride;
    var monthlyPMI := MonthlyPMI(useLoan, downPct, pmiPct, loanAmount);

    var otherFixed := ins + hoa + maint + monthlyPMI;
    var monthlyFixed := taxMonthly + otherFixed + monthlyPI;

    var monthlyCashFlow := effectiveRentMid - monthlyFixed;
    var annualProfit := monthlyCashFlow * 12.0;

    var capexAnnual := Max(0.0, i.capexAnnual);
    var noi := (effectiveRentMid * 12.0) - i.propertyTaxAnnual - ((ins + hoa + maint) * 12.0);
    var capRate := CapRate(noi, purchasePrice);

    var annualDebt := monthlyPI * 12.0;
    var dscr := DebtCoverage(noi, annualDebt);

    var cashInvested := CashInvested(purchasePrice, downPct, closingPct);
    var cashOnCash := CashOnCash(annualProfit, cashInvested);

    var breakEvenRent := BreakEvenRent(monthlyFixed, vacPct, mgmtPct);
    var breakEvenOcc := BreakEvenOcc(monthlyFixed, rentMid, mgmtPct);

    Results(
      rentLow, rentMid, rentHigh,
      vacancy, mgmtFee, effectiveRentMid,
      taxMonthly, otherFixed, monthlyFixed,
      monthlyPI, monthlyPMI,
      monthlyCashFlow, annualProfit,
      vacPct, mgmtPct,
      noi, capRate,
      dscr, cashOnCash,
      breakEvenRent, breakEvenOcc,
      purchasePrice, loanAmount, downPct, ratePct, termYears, closingPct, pmiPct, capexAnnual)
  }

  /** `runCalc`: the results for a form's text values. */
  function RunCalc(v: Form, number: NumberParser): (c: Results)
    ensures IsBlankNumber(Trim(StripCommas(Field(v, "targetRent")))) ==>
      c.rentMid == 0.0 && c.effectiveRentMid == 0.0 && c.breakEvenOcc.None?
    ensures IsBlankNumber(Trim(StripCommas(Field(v, "purchasePrice")))) ==>
      c.capRate.None? && c.cashOnCash.None? && c.loanAmount == 0.0
    ensures (Field(v, "useLoan") == "" || Field(v, "useLoan") == "1") && c.purchasePrice > 0.0 ==>
      c.monthlyPI == MortgagePI(c.loanAmount, c.ratePct, c.termYears)
  {
    ComputeRatios(Coerce(v, number));
    ComputeLoan(Coerce(v, number));
    Compute(Coerce(v, number))
  }

  /**
   * The rent and the loan terms `runCalc` computes with are the typed fields,
   * read through `toNum` and clamped, and the loan is the one they give.
   */
  lemma RunCalcLoanTerms(v: Form, number: NumberParser)
    ensures var c := RunCalc(v, number);
      && c.rentMid == Max(0.0, ToNum(Field(v, "targetRent"), number))
      && c.purchasePrice == Max(0.0, ToNum(Field(v, "purchasePrice"), number))
      && c.downPct == Max(0.0, ToNum(Field(v, "downPct"), number))
      && c.ratePct == Max(0.0, ToNum(Field(v, "ratePct"), number))
      && c.termYears == Max(1.0, ToNum(Field(v, "termYears"), number))
      && c.loanAmount == LoanAmount(c.purchasePrice, c.downPct)
  {
    var i := Coerce(v, number);
    assert i.targetRent == ToNum(Field(v, "targetRent"), number);
    assert i.purchasePrice == ToNum(Field(v, "purchasePrice"), number);
    assert i.downPct == ToNum(Field(v, "downPct"), number);
    assert i.ratePct == ToNum(Field(v, "ratePct"), number);
    assert i.termYears == ToNum(Field(v, "termYears"), number);
    ComputeLoan(i);
  }

  /** The loan parameters of `runCalc`, and its choice between the amortised P&I and the typed override. */
  lemma ComputeLoan(i: Inputs)
    ensures var c := Compute(i);
      && c.purchasePrice == Max(0.0, i.purchasePrice) && c.downPct == Max(0.0, i.downPct)
      && c.ratePct == Max(0.0, i.ratePct) && c.termYears == Max(1.0, i.termYears)
      && c.closingPct == Max(0.0, i.closingCostPct) && c.pmiPct == Max(0.0, i.pmiAnnualPct)
      && c.capexAnnual == Max(0.0, i.capexAnnual)
      && c.purchasePrice >= 0.0 && c.downPct >= 0.0 && c.ratePct >= 0.0 && c.termYears >= 1.0
      && c.closingPct >= 0.0 && c.pmiPct >= 0.0 && c.capexAnnual >= 0.0
      && 0.0 <= c.loanAmount <= c.purchasePrice
      && c.loanAmount == LoanAmount(c.purchasePrice, c.downPct)
      && c.monthlyPMI == MonthlyPMI(i.useLoan, c.downPct, c.pmiPct, c.loanAmount)
      && (i.useLoan && c.purchasePrice > 0.0 ==> c.monthlyPI == MortgagePI(c.loanAmount, c.ratePct, c.termYears))
      && (!(i.useLoan && c.purchasePrice > 0.0) ==> c.monthlyPI == Max(0.0, i.mortgagePI))
      && c.monthlyPI >= 0.0 && c.monthlyPMI >= 0.0
      && (c.monthlyPMI != 0.0 <==> i.useLoan && c.downPct < 20.0 && c.pmiPct > 0.0 && c.purchasePrice > 0.0)
  {
  }

  /** When each ratio of `runCalc` is `null`, and the range of the break-even occupancy. */
  lemma ComputeRatios(i: Inputs)
    ensures var c := Compute(i);
      && (c.capRate.None? <==> c.purchasePrice == 0.0)
      && (c.dscr.None? <==> c.monthlyPI == 0.0)
      && (c.cashOnCash.None? <==> c.purchasePrice == 0.0 || c.downPct + c.closingPct == 0.0)
      && (c.breakEvenRent.None? <==> c.vacPct + c.mgmtPct >= 100.0)
      && (c.breakEvenOcc.None? <==> c.rentMid == 0.0)
      && (c.breakEvenOcc.Some? ==> 0.0 <= c.breakEvenOcc.value <= 1.0)
      && c.capRate == CapRate(c.noi, c.purchasePrice)
      && c.dscr == DebtCoverage(c.noi, 12.0 * c.monthlyPI)
      && c.cashOnCash == CashOnCash(c.annualProfit, CashInvested(c.purchasePrice, c.downPct, c.closingPct))
      && c.breakEvenRent == BreakEvenRent(c.monthlyFixed, c.vacPct, c.mgmtPct)
      && c.breakEvenOcc == BreakEvenOcc(c.monthlyFixed, c.rentMid, c.mgmtPct)
  {
  }

  // ---------------------------------------------------------------------------
  // Properties relating several results or several calls
  // ---------------------------------------------------------------------------

  /** An absent `useLoan` field and an explicit "1" give the same results. */
  lemma AbsentUseLoanMeansLoan(v: Form, number: NumberParser)
    ensures RunCalc(v - {"useLoan"}, number) == RunCalc(v["useLoan" := "1"], number)
  {
    AbsentUseLoanCoerce(v, number);
  }

  lemma AbsentUseLoanCoerce(v: Form, number: NumberParser)
    ensures Coerce(v - {"useLoan"}, number) == Coerce(v["useLoan" := "1"], number)
  {
    var a := v - {"useLoan"};
    var b := v["useLoan" := "1"];
    assert Field(a, "useLoan") == "" && Field(b, "useLoan") == "1";
    assert Field(a, "targetRent") == Field(b, "targetRent");
    assert Field(a, "vacancyRatePct") == Field(b, "vacancyRatePct");
    assert Field(a, "mgmtFeePct") == Field(b, "mgmtFeePct");
    assert Field(a, "insurance") == Field(b, "insurance");
    assert Field(a, "hoa") == Field(b, "hoa");
    assert Field(a, "maintenance") == Field(b, "maintenance");
    assert Field(a, "mortgagePI") == Field(b, "mortgagePI");
    assert Field(a, "propertyTaxAnnual") == Field(b, "propertyTaxAnnual");
    assert Field(a, "purchasePrice") == Field(b, "purchasePrice");
    assert Field(a, "downPct") == Field(b, "downPct");
    assert Field(a, "ratePct") == Field(b, "ratePct");
    assert Field(a, "termYears") == Field(b, "termYears");
    assert Field(a, "closingCostPct") == Field(b, "closingCostPct");
    assert Field(a, "pmiAnnualPct") == Field(b, "pmiAnnualPct");
    assert Field(a, "capexAnnual") == Field(b, "capexAnnual");
  }

  /**
   * Annual profit is NOI less a year of P&I and PMI, except that NOI subtracts
   * the property tax as typed while the cash flow subtracts it clamped at 0:
   * the two differ by the negative part of the tax.
   */
  lemma ProfitIsNoiLessFinancing(i: Inputs)
    ensures var c := Compute(i);
      c.annualProfit == c.noi - 12.0 * (c.monthlyPI + c.monthlyPMI) - (Max(0.0, i.propertyTaxAnnual) - i.propertyTaxAnnual)
    ensures var c := Compute(i);
      i.propertyTaxAnnual >= 0.0 ==> c.annualProfit == c.noi - 12.0 * (c.monthlyPI + c.monthlyPMI)
  {
  }

  /** The fixed monthly costs depend neither on the rent nor on vacancy. */
  lemma FixedCostsIgnoreRent(i: Inputs, rent: real, vacancyPct: real)
    ensures Compute(i.(targetRent := rent, vacancyRatePct := vacancyPct)).monthlyFixed == Compute(i).monthlyFixed
  {
  }

  /**
   * Setting the rent to the break-even rent, all else unchanged, makes the
   * monthly cash flow exactly zero.
   */
  lemma BreakEvenRentZeroesCashFlow(i: Inputs)
    requires Compute(i).breakEvenRent.Some?
    ensures Compute(i.(targetRent := Compute(i).breakEvenRent.value)).monthlyCashFlow == 0.0
  {
    var c := Compute(i);
    var b := c.breakEvenRent.value;
    var i' := i.(targetRent := b);
    FixedCostsIgnoreRent(i, b, i.vacancyRatePct);
    assert i' == i.(targetRent := b, vacancyRatePct := i.vacancyRatePct);
    CollectedAtBreakEven(c.monthlyFixed, c.vacPct, c.mgmtPct);
    assert Compute(i').effectiveRentMid == EffectiveRent(b, c.vacPct, c.mgmtPct);
  }

  /** At the break-even rent the rent collected equals the fixed costs. */
  lemma CollectedAtBreakEven(monthlyFixed: real, vacPct: real, mgmtPct: real)
    requires monthlyFixed >= 0.0 && 0.0 <= vacPct <= 100.0 && 0.0 <= mgmtPct <= 100.0
    requires vacPct + mgmtPct < 100.0
    ensures BreakEvenRent(monthlyFixed, vacPct, mgmtPct).Some?
    ensures EffectiveRent(BreakEvenRent(monthlyFixed, vacPct, mgmtPct).value, vacPct, mgmtPct) == monthlyFixed
  {
  }

  /**
   * When the break-even occupancy is not clamped, renting at that occupancy
   * (vacancy = 100 - 100 * occupancy), all else unchanged, makes the monthly
   * cash flow exactly zero.
   */
  lemma BreakEvenOccupancyZeroesCashFlow(i: Inputs)
    requires Compute(i).rentMid > 0.0
    requires Compute(i).monthlyFixed / Compute(i).rentMid + Compute(i).mgmtPct / 100.0 <= 1.0
    ensures Compute(i).breakEvenOcc.Some?
    ensures Compute(i.(vacancyRatePct := 100.0 - 100.0 * Compute(i).breakEvenOcc.value)).monthlyCashFlow == 0.0
  {
    var c := Compute(i);
    var R := c.rentMid;
    var o := c.breakEvenOcc.value;
    var v := 100.0 - 100.0 * o;
    var i' := i.(vacancyRatePct := v);
    FixedCostsIgnoreRent(i, i.targetRent, v);
    assert i' == i.(targetRent := i.targetRent, vacancyRatePct := v);
    CollectedAtBreakEvenOcc(c.monthlyFixed, R, c.mgmtPct);
    assert Compute(i').vacPct == v;
    assert Compute(i').effectiveRentMid == EffectiveRent(R, v, c.mgmtPct);
  }

  /** At the break-even occupancy the rent collected equals the fixed costs. */
  lemma CollectedAtBreakEvenOcc(monthlyFixed: real, rentMid: real, mgmtPct: real)
    requires monthlyFixed >= 0.0 && rentMid > 0.0 && 0.0 <= mgmtPct <= 100.0
    requires monthlyFixed / rentMid + mgmtPct / 100.0 <= 1.0
    ensures BreakEvenOcc(monthlyFixed, rentMid, mgmtPct).Some?
    ensures var o := BreakEvenOcc(monthlyFixed, rentMid, mgmtPct).value;
      0.0 <= 100.0 - 100.0 * o <= 100.0 &&
      EffectiveRent(rentMid, 100.0 - 100.0 * o, mgmtPct) == monthlyFixed
  {
    QuotientNonNegative(monthlyFixed, rentMid);
    var o := BreakEvenOcc(monthlyFixed, rentMid, mgmtPct).value;
    assert rentMid * (o - mgmtPct / 100.0) == monthlyFixed;
    assert 1.0 - (100.0 - 100.0 * o) / 100.0 - mgmtPct / 100.0 == o - mgmtPct / 100.0;
  }

  /** Raising the asking rent, all else unchanged, never lowers the cash flow. */
  lemma HigherRentNeverLowersCashFlow(i: Inputs, rent: real)
    requires rent >= i.targetRent
    ensures Compute(i.(targetRent := rent)).monthlyCashFlow >= Compute(i).monthlyCashFlow
  {
    var c := Compute(i);
    var c' := Compute(i.(targetRent := rent));
    FixedCostsIgnoreRent(i, rent, i.vacancyRatePct);
    assert i.(targetRent := rent) == i.(targetRent := rent, vacancyRatePct := i.vacancyRatePct);
    assert c'.vacPct == c.vacPct && c'.mgmtPct == c.mgmtPct && c'.rentMid >= c.rentMid;
    RentMonotone(c.rentMid, c'.rentMid, c.vacPct, c.mgmtPct);
  }

  /** The rent collected grows with the asking rent. */
  lemma RentMonotone(r1: real, r2: real, vacPct: real, mgmtPct: real)
    requires 0.0 <= r1 <= r2 && 0.0 <= vacPct <= 100.0 && 0.0 <= mgmtPct <= 100.0
    ensures EffectiveRent(r1, vacPct, mgmtPct) <= EffectiveRent(r2, vacPct, mgmtPct)
  {
    if vacPct + mgmtPct <= 100.0 {
      var d := 1.0 - vacPct / 100.0 - mgmtPct / 100.0;
      calc {
        EffectiveRent(r1, vacPct, mgmtPct);
      ==
        r1 * d;
      <= { ScaleMonotone(r1, r2, d); }
        r2 * d;
      ==
        EffectiveRent(r2, vacPct, mgmtPct);
      }
    }
  }

  lemma ScaleMonotone(a: real, b: real, d: real)
    requires a <= b && d >= 0.0
    ensures a * d <= b * d
  {
  }
}
