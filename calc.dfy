// The pure helpers of src/utils/calc.js: each takes JavaScript numbers,
// guards them with the global `isFinite`, and returns a number or `null`.

module Calc {
  import opened Wrappers
  import Engine

  /**
   * A JavaScript number as these helpers see it: a finite value, or one
   * that `isFinite` rejects (NaN, ±Infinity, `undefined`, a non-numeric
   * string). A `null` result is `None` in the `Option<real>` results.
   */
  datatype Num = Finite(value: real) | NonFinite

  /** `numOrZero`: a non-finite argument counts as 0. */
  function NumOrZero(x: Num): real {
    if x.Finite? then x.value else 0.0
  }

  /** The guard of lines 21-22: a finite, non-negative value, or else 0. */
  function NonNegativeOrZero(x: Num): (r: real)
    ensures r >= 0.0
    ensures r != 0.0 ==> x == Finite(r)
    ensures x.Finite? && x.value >= 0.0 ==> r == x.value
  {
    if x.Finite? && x.value >= 0.0 then x.value else 0.0
  }

  /** `numOrZero` passes a finite value through; clamping it at 0 gives the non-negative guard. */
  lemma NumOrZeroAgrees(x: Num)
    ensures x.Finite? ==> NumOrZero(x) == x.value
    ensures !x.Finite? ==> NumOrZero(x) == 0.0
    ensures NonNegativeOrZero(x) == Engine.Max(0.0, NumOrZero(x))
  {
  }

  // ---------------------------------------------------------------- monthlyPI

  /**
   * What `monthlyPI` needs of `Math.pow`: a base above 1 raised to a
   * negative exponent lies strictly between 0 and 1.
   */
  ghost predicate PowShrinks(pow: (real, real) -> real) {
    forall b: real, e: real :: 1.0 < b && e < 0.0 ==> 0.0 < pow(b, e) < 1.0
  }

  /**
   * `monthlyPI`: the level monthly payment that repays `principal` over
   * `years` at `annualRatePct`, or `null` when an argument is out of range.
   * `Math.pow` is the parameter `pow`.
   */
  function MonthlyPI(principal: Num, annualRatePct: Num, years: Num, pow: (real, real) -> real): (r: Option<real>)
    requires PowShrinks(pow)
    ensures r.Some? <==>
      principal.Finite? && principal.value > 0.0 &&
      annualRatePct.Finite? && annualRatePct.value >= 0.0 &&
      years.Finite? && years.value > 0.0
    ensures r.Some? ==> r.value > 0.0
    // without interest the principal is split evenly over the months
    ensures r.Some? && annualRatePct.value == 0.0 ==> r.value * (years.value * 12.0) == principal.value
    // with interest every payment exceeds the first month's interest
    ensures r.Some? && annualRatePct.value > 0.0 ==>
      r.value > principal.value * (annualRatePct.value / 100.0 / 12.0)
    // with interest, the payment times one less the discount factor is the first month's interest
    ensures r.Some? && annualRatePct.value > 0.0 ==>
      var rate := annualRatePct.value / 100.0 / 12.0;
      r.value * (1.0 - pow(1.0 + rate, -(years.value * 12.0))) == principal.value * rate
  {
    if principal.NonFinite? || principal.value <= 0.0 then None
    else if annualRatePct.NonFinite? || annualRatePct.value < 0.0 then None
    else if years.NonFinite? || years.value <= 0.0 then None
    else
      var P := principal.value;
      var r := (annualRatePct.value / 100.0) / 12.0;
      var n := years.value * 12.0;
      if r == 0.0 then
        Some(P / n)
      else
        Some(LevelPayment(P, r, pow(1.0 + r, -n)))
  }

  /** `(principal * r) / (1 - w)` with `w` the discount factor `(1 + r)^-n`. */
  function LevelPayment(P: real, r: real, w: real): (pmt: real)
    requires P > 0.0 && r > 0.0 && 0.0 < w < 1.0
    ensures pmt > P * r
    ensures pmt * (1.0 - w) == P * r
  {
    var x := P * r;
    assert x > 0.0;
    assert ((x / (1.0 - w)) - x) * (1.0 - w) == x * w;
    x / (1.0 - w)
  }

  /**
   * For a whole number of months, `monthlyPI` and the calculator's own
   * `mortgagePI` agree, provided `pow` computes the reciprocal power exactly.
   */
  lemma MonthlyPIMatchesMortgagePI(principal: real, ratePct: real, years: real, n: nat, pow: (real, real) -> real)
    requires PowShrinks(pow)
    requires principal > 0.0 && ratePct >= 0.0 && n >= 1 && years * 12.0 == n as real
    requires pow(1.0 + Engine.MonthlyRate(ratePct), -(n as real)) * Engine.Pow(1.0 + Engine.MonthlyRate(ratePct), n) == 1.0
    ensures MonthlyPI(Finite(principal), Finite(ratePct), Finite(years), pow) ==
      Some(Engine.MortgagePI(principal, ratePct, years))
  {
    assert (n as real + 0.5).Floor == n;
    assert Engine.Months(years) == n;
    var r := Engine.MonthlyRate(ratePct);
    if r == 0.0 {
      assert ratePct == 0.0;
      assert MonthlyPI(Finite(principal), Finite(ratePct), Finite(years), pow) == Some(principal / (n as real));
      assert Engine.MortgagePI(principal, ratePct, years) == principal / (n as real);
    } else {
      var q := Engine.Pow(1.0 + r, n);
      var w := pow(1.0 + r, -(n as real));
      assert -(years * 12.0) == -(n as real);
      Engine.PowAboveOne(1.0 + r, n);
      assert Engine.MortgagePI(principal, ratePct, years) == Engine.Annuity(principal, r, n);
      var pmt := Engine.Annuity(principal, r, n);
      assert MonthlyPI(Finite(principal), Finite(ratePct), Finite(years), pow) == Some(LevelPayment(principal, r, w));
      LevelPaymentIsAnnuity(principal, r, q, w, pmt);
    }
  }

  /** The level payment over a discount factor `w = 1/q` is the annuity payment for `q`. */
  lemma LevelPaymentIsAnnuity(P: real, r: real, q: real, w: real, pmt: real)
    requires P > 0.0 && r > 0.0 && 0.0 < w < 1.0
    requires q > 1.0 && w * q == 1.0 && pmt * (q - 1.0) == (P * r) * q
    ensures LevelPayment(P, r, w) == pmt
  {
    ReciprocalAnnuity(P * r, pmt, q, w);
  }

  lemma ReciprocalAnnuity(x: real, pmt: real, q: real, w: real)
    requires q > 1.0 && w * q == 1.0 && pmt * (q - 1.0) == x * q
    ensures w < 1.0 && x / (1.0 - w) == pmt
  {
    var d := 1.0 - w;
    assert d * q == q - w * q;
    assert d * q == q - 1.0;
    assert (pmt * d) * q == x * q;
    assert (pmt * d - x) * q == 0.0;
    assert pmt * d == x;
    assert d > 0.0;
  }

  // ----------------------------------------------------- effectiveRentMonthly

  /**
   * `effectiveRentMonthly`: the rent collected after vacancy plus other
   * income; a negative or non-finite vacancy or other income counts as 0.
   */
  function EffectiveRentMonthly(targetRentMid: Num, vacancyPct: Num, otherIncome: Num): (r: Option<real>)
    ensures r.None? <==> targetRentMid.NonFinite? || targetRentMid.value < 0.0
    ensures r.Some? ==> r.value <= targetRentMid.value + NonNegativeOrZero(otherIncome)
    ensures r.Some? && NonNegativeOrZero(vacancyPct) <= 100.0 ==> r.value >= NonNegativeOrZero(otherIncome)
    ensures r.Some? && NonNegativeOrZero(vacancyPct) >= 100.0 ==> r.value <= NonNegativeOrZero(otherIncome)
    ensures r.Some? && NonNegativeOrZero(vacancyPct) == 0.0 ==>
      r.value == targetRentMid.value + NonNegativeOrZero(otherIncome)
    // the vacancy is not clamped at 100%: the lost share is the rent times the vacancy
    ensures r.Some? ==>
      r.value + targetRentMid.value * NonNegativeOrZero(vacancyPct) / 100.0 ==
      targetRentMid.value + NonNegativeOrZero(otherIncome)
  {
    if targetRentMid.NonFinite? || targetRentMid.value < 0.0 then None
    else
      var vac := NonNegativeOrZero(vacancyPct);
      var other := NonNegativeOrZero(otherIncome);
      VacancyShare(targetRentMid.value, vac);
      Some(targetRentMid.value * (1.0 - vac / 100.0) + other)
  }

  lemma VacancyShare(rent: real, vac: real)
    requires rent >= 0.0 && vac >= 0.0
    ensures rent * (1.0 - vac / 100.0) <= rent
    ensures vac <= 100.0 ==> rent * (1.0 - vac / 100.0) >= 0.0
    ensures vac >= 100.0 ==> rent * (1.0 - vac / 100.0) <= 0.0
    ensures rent * (1.0 - vac / 100.0) + rent * vac / 100.0 == rent
  {
    var f := 1.0 - vac / 100.0;
    assert rent * f <= rent * 1.0;
    if vac <= 100.0 {
      assert rent * f >= rent * 0.0;
    } else {
      assert rent * f <= rent * 0.0;
    }
  }

  /**
   * Without a management fee, `effectiveRentMonthly` collects what the
   * calculator's own effective rent does, plus the other income.
   */
  lemma EffectiveRentMonthlyMatchesEngine(rent: real, vacancyPct: real, otherIncome: Num)
    requires rent >= 0.0 && 0.0 <= vacancyPct <= 100.0
    ensures EffectiveRentMonthly(Finite(rent), Finite(vacancyPct), otherIncome) ==
      Some(Engine.EffectiveRent(rent, vacancyPct, 0.0) + NonNegativeOrZero(otherIncome))
  {
    var e := Engine.EffectiveRent(rent, vacancyPct, 0.0);
    assert e == rent * (1.0 - vacancyPct / 100.0 - 0.0 / 100.0);
    assert NonNegativeOrZero(Finite(vacancyPct)) == vacancyPct;
    var other := NonNegativeOrZero(otherIncome);
    var r := EffectiveRentMonthly(Finite(rent), Finite(vacancyPct), otherIncome);
    assert r.Some?;
    assert r.value == rent * (1.0 - vacancyPct / 100.0) + other;
    assert r.value == e + other;
  }

  // ------------------------------------------------- operatingExpensesMonthly

  /** The argument object of `operatingExpensesMonthly`; a missing key is `NonFinite`. */
  datatype ExpenseOptions = ExpenseOptions(
    taxes: Num, insurance: Num, hoa: Num, maintenance: Num,
    mgmtPct: Num, capexPct: Num, effectiveRent: Num)

  /** The fixed part: taxes, insurance, HOA and maintenance. */
  function BaseExpenses(o: ExpenseOptions): real {
    NumOrZero(o.taxes) + NumOrZero(o.insurance) + NumOrZero(o.hoa) + NumOrZero(o.maintenance)
  }

  /**
   * `operatingExpensesMonthly`: the fixed costs plus management and capex
   * as percentages of the (non-negative) effective rent.
   */
  function OperatingExpensesMonthly(o: ExpenseOptions): (r: real)
    // with no rent collected only the fixed costs remain
    ensures NumOrZero(o.effectiveRent) <= 0.0 ==> r == BaseExpenses(o)
    // with non-negative percentages the rent-based costs only add
    ensures NumOrZero(o.mgmtPct) >= 0.0 && NumOrZero(o.capexPct) >= 0.0 ==> r >= BaseExpenses(o)
    // with percentages summing to at most 100 they never exceed the rent
    ensures (NumOrZero(o.mgmtPct) >= 0.0 && NumOrZero(o.capexPct) >= 0.0 &&
             NumOrZero(o.mgmtPct) + NumOrZero(o.capexPct) <= 100.0) ==>
      r <= BaseExpenses(o) + Engine.Max(0.0, NumOrZero(o.effectiveRent))
  {
    var base := BaseExpenses(o);
    var m := NumOrZero(o.mgmtPct);
    var c := NumOrZero(o.capexPct);
    var eff := Engine.Max(0.0, NumOrZero(o.effectiveRent));
    var mgmt := (m / 100.0) * eff;
    var capex := (c / 100.0) * eff;
    RentShares(base, m, c, eff, base + mgmt + capex);
    base + mgmt + capex
  }

  /** The rent-based costs added to the fixed ones `b`, as the code sums them into `r`. */
  lemma RentShares(b: real, m: real, c: real, eff: real, r: real)
    requires eff >= 0.0 && r == b + (m / 100.0) * eff + (c / 100.0) * eff
    ensures r == b + ((m + c) / 100.0) * eff
    ensures eff == 0.0 ==> r == b
    ensures m >= 0.0 && c >= 0.0 ==> r >= b
    ensures m >= 0.0 && c >= 0.0 && m + c <= 100.0 ==> r <= b + eff
  {
    var k := (m + c) / 100.0;
    assert (m / 100.0) * eff + (c / 100.0) * eff == k * eff;
    if m >= 0.0 && c >= 0.0 {
      Engine.ScaleMonotone(0.0, k, eff);
      if m + c <= 100.0 {
        Engine.ScaleMonotone(k, 1.0, eff);
      }
    }
  }

  /** More collected rent never lowers the expenses when the percentages are non-negative. */
  lemma {:induction false} ExpensesMonotoneInRent(o: ExpenseOptions, rent1: real, rent2: real)
    requires NumOrZero(o.mgmtPct) >= 0.0 && NumOrZero(o.capexPct) >= 0.0 && rent1 <= rent2
    ensures OperatingExpensesMonthly(o.(effectiveRent := Finite(rent1))) <=
      OperatingExpensesMonthly(o.(effectiveRent := Finite(rent2)))
  {
    var o1 := o.(effectiveRent := Finite(rent1));
    var o2 := o.(effectiveRent := Finite(rent2));
    var k := (NumOrZero(o.mgmtPct) + NumOrZero(o.capexPct)) / 100.0;
    calc {
      OperatingExpensesMonthly(o1);
    == { ExpensesSplit(o1); }
      BaseExpenses(o) + k * Engine.Max(0.0, rent1);
    <= { Engine.ScaleMonotone(Engine.Max(0.0, rent1), Engine.Max(0.0, rent2), k); }
      BaseExpenses(o) + k * Engine.Max(0.0, rent2);
    == { ExpensesSplit(o2); }
      OperatingExpensesMonthly(o2);
    }
  }

  lemma ExpensesSplit(o: ExpenseOptions)
    ensures OperatingExpensesMonthly(o) == BaseExpenses(o) +
      ((NumOrZero(o.mgmtPct) + NumOrZero(o.capexPct)) / 100.0) * Engine.Max(0.0, NumOrZero(o.effectiveRent))
  {
    RentShares(BaseExpenses(o), NumOrZero(o.mgmtPct), NumOrZero(o.capexPct), Engine.Max(0.0, NumOrZero(o.effectiveRent)), OperatingExpensesMonthly(o));
  }

  // ---------------------------------------- noiMonthly, cashFlowMonthly, dscr

  /** `noiMonthly`: net operating income, `null` unless both arguments are finite. */
  function NoiMonthly(effectiveRent: Num, opexMonthly: Num): (r: Option<real>)
    ensures r.Some? <==> effectiveRent.Finite? && opexMonthly.Finite?
    ensures r.Some? ==> r.value + opexMonthly.value == effectiveRent.value
  {
    if effectiveRent.NonFinite? || opexMonthly.NonFinite? then None
    else Some(effectiveRent.value - opexMonthly.value)
  }

  /** `cashFlowMonthly`: NOI less the loan payment, `null` unless both are finite. */
  function CashFlowMonthly(noiMo: Num, pAndIMo: Num): (r: Option<real>)
    ensures r.Some? <==> noiMo.Finite? && pAndIMo.Finite?
    ensures r.Some? ==> r.value + pAndIMo.value == noiMo.value
  {
    if noiMo.NonFinite? || pAndIMo.NonFinite? then None
    else Some(noiMo.value - pAndIMo.value)
  }

  /** `annualize`: twelve months of a monthly figure. */
  function Annualize(x: Num): (r: Option<real>)
    ensures r.Some? <==> x.Finite?
    ensures r.Some? ==> r.value / 12.0 == x.value
  {
    if x.Finite? then Some(x.value * 12.0) else None
  }

  /** `annualDebtService`: twelve monthly payments. */
  function AnnualDebtService(pmtMonthly: Num): (r: Option<real>)
    ensures r.Some? <==> pmtMonthly.Finite?
    ensures r.Some? && pmtMonthly.value > 0.0 ==> r.value > pmtMonthly.value
    ensures r == Annualize(pmtMonthly)
  {
    if pmtMonthly.Finite? then Some(pmtMonthly.value * 12.0) else None
  }

  /** `dscr`: debt service coverage, `null` when an argument is non-finite or the debt is 0. */
  function Dscr(noiAnnual: Num, debtServiceAnnual: Num): (r: Option<real>)
    ensures r.Some? <==> noiAnnual.Finite? && debtServiceAnnual.Finite? && debtServiceAnnual.value != 0.0
    ensures r.Some? ==> r.value * debtServiceAnnual.value == noiAnnual.value
    ensures r.Some? && debtServiceAnnual.value > 0.0 ==> (r.value >= 1.0 <==> noiAnnual.value >= debtServiceAnnual.value)
  {
    if noiAnnual.NonFinite? || debtServiceAnnual.NonFinite? || debtServiceAnnual.value == 0.0 then None
    else
      CoverageAtLeastOne(noiAnnual.value, debtServiceAnnual.value);
      Some(noiAnnual.value / debtServiceAnnual.value)
  }

  lemma CoverageAtLeastOne(noi: real, ds: real)
    requires ds != 0.0
    ensures (noi / ds) * ds == noi
    ensures ds > 0.0 ==> (noi / ds >= 1.0 <==> noi >= ds)
  {
    if ds > 0.0 {
      if noi / ds >= 1.0 {
        assert (noi / ds) * ds >= 1.0 * ds;
      }
      if noi >= ds {
        assert noi / ds >= ds / ds;
      }
    }
  }

  /** On a positive debt service `dscr` agrees with the calculator's own coverage ratio. */
  lemma DscrMatchesDebtCoverage(noi: real, annualDebt: real)
    requires annualDebt > 0.0
    ensures Dscr(Finite(noi), Finite(annualDebt)) == Engine.DebtCoverage(noi, annualDebt)
  {
  }

  /**
   * Chaining the helpers on finite figures: the cash flow is the collected
   * rent less the expenses and the loan payment, and a year of it is the
   * difference of the annual figures.
   */
  lemma CashFlowChain(effectiveRent: real, opex: real, pmt: real)
    ensures NoiMonthly(Finite(effectiveRent), Finite(opex)).Some?
    ensures var noi := NoiMonthly(Finite(effectiveRent), Finite(opex)).value;
      var cf := CashFlowMonthly(Finite(noi), Finite(pmt));
      cf == Some(effectiveRent - opex - pmt) &&
      Annualize(Finite(cf.value)).value ==
        Annualize(Finite(noi)).value - AnnualDebtService(Finite(pmt)).value
  {
  }

  // ------------------------------------------------------- rentBandFromSpread

  /** The object `rentBandFromSpread` returns. */
  datatype Band = Band(low: Option<real>, mid: Option<real>, high: Option<real>)

  /**
   * `rentBandFromSpread`: `spreadPct` percent either side of the mid rent;
   * a non-finite spread counts as 0, and an invalid mid gives an all-`null` band.
   */
  function RentBandFromSpread(targetRentMid: Num, spreadPct: Num): (b: Band)
    ensures (targetRentMid.NonFinite? || targetRentMid.value < 0.0) <==> b == Band(None, None, None)
    ensures b.low.Some? == b.mid.Some? == b.high.Some?
    ensures b.mid.Some? ==> b.mid.value == targetRentMid.value
    ensures b.mid.Some? ==> b.low.value + b.high.value == 2.0 * b.mid.value
    ensures b.mid.Some? ==> b.high.value - b.low.value == 2.0 * b.mid.value * NumOrZero(spreadPct) / 100.0
    ensures b.mid.Some? && NumOrZero(spreadPct) >= 0.0 ==> b.low.value <= b.mid.value <= b.high.value
    ensures b.mid.Some? && 0.0 <= NumOrZero(spreadPct) <= 100.0 ==> b.low.value >= 0.0
  {
    if targetRentMid.NonFinite? || targetRentMid.value < 0.0 then Band(None, None, None)
    else
      var m := targetRentMid.value;
      var s := NumOrZero(spreadPct);
      SpreadBounds(m, s);
      Band(Some(m * (1.0 - s / 100.0)), Some(m), Some(m * (1.0 + s / 100.0)))
  }

  lemma SpreadBounds(m: real, s: real)
    requires m >= 0.0
    ensures m * (1.0 - s / 100.0) + m * (1.0 + s / 100.0) == 2.0 * m
    ensures m * (1.0 + s / 100.0) - m * (1.0 - s / 100.0) == 2.0 * m * s / 100.0
    ensures s >= 0.0 ==> m * (1.0 - s / 100.0) <= m <= m * (1.0 + s / 100.0)
    ensures s <= 100.0 ==> m * (1.0 - s / 100.0) >= 0.0
  {
    if s >= 0.0 {
      assert m * (s / 100.0) >= 0.0;
    }
    if s <= 100.0 {
      assert m * (1.0 - s / 100.0) >= m * 0.0;
    }
  }

  /**
   * With a 2.5% spread the band is the one the calculator itself reports
   * around a non-negative target rent.
   */
  lemma RentBandMatchesEngine(i: Engine.Inputs)
    requires i.targetRent >= 0.0
    ensures var c := Engine.Compute(i);
      RentBandFromSpread(Finite(i.targetRent), Finite(2.5)) ==
        Band(Some(c.rentLow), Some(c.rentMid), Some(c.rentHigh))
  {
    var c := Engine.Compute(i);
    var m := i.targetRent;
    var b := RentBandFromSpread(Finite(m), Finite(2.5));
    assert NumOrZero(Finite(2.5)) == 2.5;
    assert b.mid == Some(m) && c.rentMid == m;
    assert b.low.value + b.high.value == 2.0 * m;
    assert b.high.value - b.low.value == 0.05 * m;
    assert b.low == Some(c.rentLow) && b.high == Some(c.rentHigh);
  }
}
