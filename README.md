# rentmax — a verified model of the rental calculator's core

rentmax is a single-page calculator for rental properties. The user types an
asking rent, vacancy and management percentages, fixed costs and (optionally)
the terms of a purchase loan. The calculator returns:

- the suggested rent band and the rent actually collected;
- the monthly principal-and-interest (P&I) and mortgage-insurance (PMI) payments;
- the monthly cash flow and the annual profit;
- net operating income (NOI) and the ratios that may be "not applicable": cap
  rate, debt service coverage (DSCR), cash-on-cash return, break-even rent and
  break-even occupancy.

Scenarios can be saved, renamed, deleted and compared two at a time. They can
also be imported from and exported to CSV.

This project models that core in Dafny and proves what the code promises:

- `wrappers.dfy` (`Wrappers`): the `Option` type. `None` plays JavaScript's `null`.
- `text.dfy` (`Text`): `String.prototype.trim` over the ECMAScript white-space
  set, with its idempotence.
- `engine.dfy` (`Engine`): `toNum`, `mortgagePI` and `runCalc` from `src/App.jsx`.
  - `RunCalc` is `Coerce` followed by `Compute`. `Coerce` reads every numeric
    field through `ToNum`, and the `useLoan` flag through `UsesLoan`.
    `Compute` is the arithmetic.
  - Each reported stage has its own function: each percentage share, the
    rent collected, the loan amount, PMI and each ratio. The plain sums
    (monthly tax, other fixed costs, fixed costs, cash flow, annual profit, NOI,
    annual debt service) are local definitions inside `Compute`.
  - The lemmas prove:
    - the amortised payment pays the loan off exactly;
    - asking the break-even rent zeroes the cash flow, and so does the
      break-even occupancy whenever it is not clamped to `[0, 1]`;
    - a higher rent never lowers the cash flow.
- `calc.dfy` (`Calc`): the separate helper library `src/utils/calc.js`.
  - Each argument is a `Num`: a finite real or a non-finite value, for the
    library's `isFinite` guards.
  - Each `null` result is `None`.
  - Lemmas tie the helpers to the engine where the two agree.
- `csv.dfy` (`Csv`): the CSV import and export.
  - `splitCSVLine` and `parseCSV` are methods with loops. They are proved
    against `Scan`, a functional form of the same two-state machine (inside or
    outside quotes).
  - Proved properties:
    - the cell count is one more than the number of commas outside quotes;
    - in a line with no two quote characters side by side, no quote
      character reaches a cell (inside quotes a doubled quote stands for one);
    - the quote state machine reads every row the export writes (`csvEscape`
      plus `join(",")`) back exactly; `splitCSVLine` then trims each cell, so
      an exported value comes back trimmed.
- `scenarios.dfy` (`Scenarios`): the operations on the saved-scenario list:
  - delete and rename;
  - the two-slot comparison selection;
  - the portfolio sort comparator;
  - the import mapping's fallback for the target-rent column.

Numbers are exact reals. JavaScript's `Number(string)` parser is a parameter
`number: string -> Option<real>`, where `None` stands for NaN or an infinity.
`Math.pow` with a real exponent, used by `calc.js`, is a parameter `pow`. Its
only constraint is `PowShrinks`: a base above 1 raised to a negative power
lies strictly between 0 and 1.

A few behaviours of the code worth knowing:

- `breakEvenRent` is `null` exactly when `vacPct + mgmtPct >= 100`. A missing
  purchase price does not make it `null`.
- `loanAmount` is clamped at 0 even when the down payment exceeds 100%.
- `rentLow` is clamped at 0.
- NOI subtracts the property tax as typed. It is not clamped at 0, unlike the
  tax in the monthly costs (`ProfitIsNoiLessFinancing`).

## Model

| member | source | states |
|---|---|---|
| Text.Trim | src/App.jsx:333 | the trimmed text is no longer than the input and has no white space at either end |
| Text.TrimInfix | src/App.jsx:333 | trimming cuts only white space, and only from the two ends |
| Text.TrimIdempotent | src/App.jsx:254 | trimming an already trimmed text changes nothing |
| Text.TrimEdgeFree | src/App.jsx:254 | a text with no white space at either end is left unchanged |
| Engine.StripCommas | src/App.jsx:81 | the result holds no comma and otherwise has the same characters as the input; a text without commas is unchanged and a lone comma is removed |
| Engine.StripCommasAppend | src/App.jsx:81 | removing commas distributes over concatenation, so the kept characters stay in order (with the single-character cases this fixes the result) |
| Engine.ToNum | src/App.jsx:80-85 | after removing commas and trimming: `""`, `"-"`, `"."` and `"-."` give 0, a text `Number` rejects gives 0, and any other text gives exactly the number `Number` parses |
| Engine.ToNumEmpty | src/App.jsx:81-82 | an absent field (`Field` gives the empty text for it) reads as 0 |
| Engine.ToNumIgnoresCommas | src/App.jsx:81 | thousands separators never change a field's value |
| Engine.Clamp | src/App.jsx:142-143 | `Math.max(lo, Math.min(hi, x))` lies in `[lo, hi]`: it is `x` inside the range and the nearer bound outside it |
| Engine.PowAboveOne | src/App.jsx:97 | `(1 + r)^n` exceeds 1 for `r > 0`, `n >= 1`, so the annuity denominator is never 0 |
| Engine.Months | src/App.jsx:95 | the payment count is at least 1 and is `termYears * 12` rounded to the nearest whole number |
| Engine.MortgagePI | src/App.jsx:92-99 | the payment is at least 0, and positive iff the loan is; a zero or negative rate gives exactly `P / n`; a positive rate gives at least the first month's interest |
| Engine.Annuity | src/App.jsx:97-98 | `pmt * (q - 1) == P * r * q` for `q = (1 + r)^n`, with `pmt >= P * r` |
| Engine.BalanceClosedForm | src/App.jsx:97-98 | closed form of the balance owed after `k` level payments: `B_k * r == P * r * q^k - pmt * (q^k - 1)` |
| Engine.BalanceInterestFree | src/App.jsx:96 | at a zero rate, `k` payments reduce the balance by exactly `k * pmt` |
| Engine.MortgagePIAmortises | src/App.jsx:92-99 | after `Months(termYears)` payments of `MortgagePI` the clamped loan is paid off exactly (balance 0), at any rate |
| Engine.UsesLoan | src/App.jsx:161 | the loan model is used iff the flag is absent/empty or `"1"` |
| Engine.Coerce | src/App.jsx:136-161 | `useLoan` follows `UsesLoan` of the field's text; a rent or price field that `Field` finds absent reads as 0 |
| Engine.PctOf | src/App.jsx:145-146 | the share is exactly `rentMid * pct / 100`, and lies between 0 and the rent |
| Engine.EffectiveRent | src/App.jsx:145-147 | the collected rent lies in `[0, rentMid]`; it is `rentMid` less vacancy and fee when those total at most 100%, and 0 when they total at least 100% |
| Engine.LoanAmount | src/App.jsx:163 | the loan lies in `[0, price]`; it is `price * (1 - down/100)` for a down payment up to 100% and 0 above; below 20% down it is positive iff the price is |
| Engine.MonthlyPMI | src/App.jsx:165 | PMI is at least 0, and non-zero iff the loan is used, down is under 20%, the PMI rate is positive and something is borrowed; a year of it is `loan * pmiPct / 100` |
| Engine.CapRate | src/App.jsx:176 | `null` iff the price is 0; otherwise `capRate * price == 100 * noi` |
| Engine.DebtCoverage | src/App.jsx:179-180 | `null` iff the annual debt is 0; otherwise `dscr * annualDebt == noi` |
| Engine.CashInvested | src/App.jsx:183 | the cash invested is `price * (down + closing) / 100`, at least 0, and 0 iff no price or no down/closing percentage |
| Engine.CashOnCash | src/App.jsx:184 | `null` iff no cash is invested; otherwise `coc * invested == 100 * annualProfit` |
| Engine.BreakEvenRent | src/App.jsx:187-188 | `null` iff vacancy plus fee reach 100%; otherwise a non-negative rent whose collected share equals the fixed costs |
| Engine.BreakEvenOcc | src/App.jsx:189 | `null` iff the rent is 0; otherwise in `[0, 1]`, equal to the unclamped ratio when that ratio lies in `[0, 1]`, 1 when the ratio is at least 1 (the rent cannot cover the costs) and 0 when it is at most 0 |
| Engine.Compute | src/App.jsx:136-175 | the mid rent is the asking rent clamped at 0; the rent band and its order; clamped percentages; vacancy and fee are `PctOf` the rent and the collected rent is `EffectiveRent`, with its bounds and decomposition; the fixed-cost, cash-flow, profit and NOI identities |
| Engine.ComputeLoan | src/App.jsx:155-174 | the reported price, down payment, rate, closing, PMI rate and capex are the inputs clamped at 0, and the term is clamped at 1; the loan amount is `LoanAmount` of the clamped price and down payment, within the price; PMI is `MonthlyPMI` of the loan; amortised P&I with the loan flag and a price, else the typed override clamped at 0; PMI non-zero exactly with a loan, under 20% down, a PMI rate and a price |
| Engine.ComputeRatios | src/App.jsx:176-189 | cap rate, DSCR, cash-on-cash and break-even occupancy are `null` exactly when their divisor (price, debt service, cash invested, rent) is 0, and the break-even rent exactly when the collected share of rent `1 - vac/100 - mgmt/100` is 0 or below; the break-even occupancy lies in `[0, 1]`; each ratio is its stage function (`CapRate`, `DebtCoverage` of twelve months of P&I, `CashOnCash` of `CashInvested`, `BreakEvenRent`, `BreakEvenOcc`) of the results |
| Engine.RunCalc | src/App.jsx:133-203 | blank rent gives zero rent, zero effective rent and no break-even occupancy; a blank price gives no cap rate, no cash-on-cash and no loan; with the loan flag set and a price the P&I is `MortgagePI` of the loan, rate and term |
| Engine.RunCalcLoanTerms | src/App.jsx:136-164 | the mid rent, price, down payment, rate and term that `runCalc` computes with are the typed fields read through `ToNum` and clamped (term at 1, the rest at 0), and the loan is `LoanAmount` of them |
| Engine.AbsentUseLoanMeansLoan | src/App.jsx:161 | a form without `useLoan` computes the same results as one with `useLoan = "1"` |
| Engine.ProfitIsNoiLessFinancing | src/App.jsx:167-175 | annual profit is NOI less a year of P&I and PMI, corrected by the negative part of the property tax, which NOI subtracts unclamped |
| Engine.FixedCostsIgnoreRent | src/App.jsx:149-168 | the fixed monthly costs do not depend on the rent or on the vacancy |
| Engine.BreakEvenRentZeroesCashFlow | src/App.jsx:186-188 | asking the break-even rent makes the monthly cash flow exactly 0 |
| Engine.CollectedAtBreakEven | src/App.jsx:187-188 | at the break-even rent the collected rent equals the fixed costs |
| Engine.BreakEvenOccupancyZeroesCashFlow | src/App.jsx:189 | when the ratio is not clamped to `[0, 1]`, a vacancy of `100 * (1 - breakEvenOcc)` makes the monthly cash flow exactly 0 |
| Engine.CollectedAtBreakEvenOcc | src/App.jsx:189 | at the break-even occupancy the collected rent equals the fixed costs |
| Engine.HigherRentNeverLowersCashFlow | src/App.jsx:136-170 | raising the asking rent, all else equal, never lowers the monthly cash flow |
| Engine.RentMonotone | src/App.jsx:145-147 | the collected rent is monotone in the asking rent |
| Calc.NumOrZeroAgrees | src/utils/calc.js:77-79 | a finite argument passes through and a non-finite one counts as 0; clamped at 0 it is the non-negative guard `NonNegativeOrZero` |
| Calc.NonNegativeOrZero | src/utils/calc.js:21-22 | a finite non-negative argument passes through; anything else gives 0 |
| Calc.MonthlyPI | src/utils/calc.js:4-16 | non-null iff principal > 0, rate >= 0 and years > 0 are all finite; the payment is positive; a zero rate gives `principal / (years * 12)`; a positive rate gives more than the first month's interest, and the payment times `1 - pow(1 + r, -years * 12)` equals the principal times the monthly rate `r` |
| Calc.LevelPayment | src/utils/calc.js:14 | with a discount factor `w` in `(0, 1)`, `payment * (1 - w) == principal * r`, so the payment exceeds the first month's interest |
| Calc.MonthlyPIMatchesMortgagePI | src/utils/calc.js:4-16 | for a whole number of months and an exact `pow`, the helper's payment equals the engine's `MortgagePI` |
| Calc.EffectiveRentMonthly | src/utils/calc.js:19-24 | null iff the rent is non-finite or negative; the result is at most rent plus other income; it is at least the other income when the vacancy is at most 100%; zero vacancy gives rent plus other income; for every vacancy, unclamped above 100%, the result plus `rent * vacancy / 100` is rent plus other income |
| Calc.EffectiveRentMonthlyMatchesEngine | src/utils/calc.js:19-24 | for vacancy in `[0, 100]` and any other income the helper is the engine's `EffectiveRent` with no management fee, plus the guarded other income, i.e. `rent * (1 - vac/100) + other` |
| Calc.OperatingExpensesMonthly | src/utils/calc.js:27-40 | no rent gives exactly the fixed costs; non-negative percentages never lower them; percentages totalling at most 100% add at most the rent |
| Calc.ExpensesSplit | src/utils/calc.js:36-39 | the expenses are the fixed costs plus `(mgmtPct + capexPct) / 100` of the non-negative rent |
| Calc.ExpensesMonotoneInRent | src/utils/calc.js:34-39 | with non-negative percentages more rent never lowers the expenses |
| Calc.NoiMonthly | src/utils/calc.js:42-45 | non-null iff both arguments are finite; then `noi + opex == effectiveRent` |
| Calc.Annualize | src/utils/calc.js:47-49 | non-null iff finite; then a twelfth of the result is the argument |
| Calc.AnnualDebtService | src/utils/calc.js:51-53 | equals `Annualize`; a positive payment gives a larger annual figure |
| Calc.Dscr | src/utils/calc.js:55-58 | non-null iff both are finite and the debt service is non-zero; `dscr * debt == noi`; with positive debt, `dscr >= 1` iff NOI covers the debt |
| Calc.DscrMatchesDebtCoverage | src/utils/calc.js:55-58 | on positive debt the helper agrees with the engine's coverage ratio |
| Calc.CashFlowMonthly | src/utils/calc.js:72-75 | non-null iff both are finite; then `cashFlow + pAndI == noi` |
| Calc.CashFlowChain | src/utils/calc.js:42-75 | on finite figures the cash flow through `noiMonthly` and `cashFlowMonthly` is rent less expenses less P&I, and its annual figure is annual NOI less annual debt service |
| Calc.RentBandFromSpread | src/utils/calc.js:61-69 | all-null iff the mid is non-finite or negative; otherwise mid passes through, low and high are symmetric about it at `mid * spread / 100`, ordered for a non-negative spread, with low >= 0 up to 100% |
| Calc.RentBandMatchesEngine | src/utils/calc.js:61-69 | at a 2.5% spread the helper's band equals the engine's `rentLow`, `rentMid`, `rentHigh` |
| Csv.ScanExtends | src/App.jsx:318-332 | the state machine never drops a cell it has already closed and always closes at least one more |
| Csv.Fields | src/App.jsx:318-332 | a line has one cell more than it has commas outside quotes |
| Csv.TrimAllIdempotent | src/App.jsx:333 | trimming the cells again changes none of them |
| Csv.TrimAllInfix | src/App.jsx:333 | each trimmed cell is its cell with only white space cut, at the two ends |
| Csv.SplitCsvLine | src/App.jsx:317-334 | the loop returns exactly the trimmed cells of the quote-aware state machine `Fields` |
| Csv.SplitOn | src/App.jsx:307 | `split` gives at least one piece and no piece contains the separator |
| Csv.SplitOnJoin | src/App.jsx:307 | joining the pieces with the separator restores the text |
| Csv.UnquotedLine | src/App.jsx:317-334 | a line without quote characters splits exactly at every comma |
| Csv.QuotesNotCopied | src/App.jsx:322-327 | with no doubled quote in the line, no cell contains a quote character |
| Csv.DoubleQuotesQuoteFree | src/App.jsx:393 | a value without quote characters is unchanged |
| Csv.DoubleQuotesLength | src/App.jsx:393 | escaping lengthens the value by exactly its number of quote characters |
| Csv.CsvEscape | src/App.jsx:393 | the escaped value starts and ends with a quote |
| Csv.EncodeRowRoundTrip | src/App.jsx:393 | the quote state machine reads back exactly the (untrimmed) cells of any row the export writes, commas and quotes included |
| Csv.ExportThenImport | src/App.jsx:333 | `splitCSVLine` reads an exported row back as the trimmed values; values with no white space at either end come back exactly |
| Csv.ScanEscapedCell | src/App.jsx:322-325 | an escaped cell followed by anything but a quote is read back whole (doubled quotes become one) |
| Csv.RemoveCR | src/App.jsx:307 | the result holds every character of the text except carriage returns; a text without one is unchanged |
| Csv.RemoveCRAppend | src/App.jsx:307 | removing carriage returns distributes over concatenation, so the kept characters stay in order and keep their count |
| Csv.NonEmpty | src/App.jsx:307 | `filter(Boolean)` keeps only non-empty pieces and every non-empty piece; a list with no empty piece is unchanged and a lone empty piece is dropped |
| Csv.NonEmptyAppend | src/App.jsx:307 | the filter distributes over concatenation, so the kept lines stay in order and keep their multiplicity |
| Csv.Lines | src/App.jsx:307 | every line read is non-empty, and an empty text has no line |
| Csv.LinesAreClean | src/App.jsx:307 | every line read is non-empty and contains no line feed or carriage return |
| Csv.RowOf | src/App.jsx:311-312 | a row object has exactly the header names as keys |
| Csv.RowOfLookup | src/App.jsx:312 | a header's value is the cell of the last column with that header |
| Csv.RowObject | src/App.jsx:311-312 | the loop builds exactly `RowOf(header, cells)` |
| Csv.ParseCsv | src/App.jsx:303-316 | fails iff the text has no non-empty line; otherwise the header is the first line's trimmed cells and the rows are one object per later line, in order |
| Scenarios.Without | src/App.jsx:249 | filtering never lengthens the list |
| Scenarios.WithoutMembers | src/App.jsx:249 | an entry survives iff its id differs from the deleted id |
| Scenarios.WithoutAppend | src/App.jsx:249 | the filter distributes over concatenation, so order is kept |
| Scenarios.WithoutAbsent | src/App.jsx:249 | a list without the id is left as it is |
| Scenarios.DeleteScenario | src/App.jsx:247-251 | with nothing selected nothing changes; otherwise exactly the entries with the selected id go, and the first remaining scenario (or none) is selected |
| Scenarios.DeleteRemovesAllMatches | src/App.jsx:249 | deleting the same id again changes nothing |
| Scenarios.NewName | src/App.jsx:254 | the stored name is the typed name trimmed, or `"Scenario"` when the name is empty; it has no white space at either end |
| Scenarios.RenameScenario | src/App.jsx:252-257 | with nothing selected nothing changes; otherwise length, order, ids, values and stamps are kept and only entries with the selected id get the new name |
| Scenarios.RenameIdempotent | src/App.jsx:252-257 | renaming twice with the same text equals renaming once |
| Scenarios.RenameKeepsTrimmedName | src/App.jsx:254 | an already trimmed, non-empty name is stored exactly |
| Scenarios.DropId | src/App.jsx:545 | exactly the other ids are kept; the list shrinks iff the id was present, and is unchanged otherwise |
| Scenarios.DropIdConcat | src/App.jsx:545 | removal distributes over concatenation, so the kept ids stay in order |
| Scenarios.ToggleCompare | src/App.jsx:543-549 | the id is in the result iff it was not before; a present id is removed, leaving exactly `DropId` of the selection; an absent one is appended last, dropping the oldest of two held ids; at most two ids remain |
| Scenarios.ToggleKeepsSelectionValid | src/App.jsx:543-549 | a selection of at most two distinct ids stays so |
| Scenarios.ToggleTwiceRestores | src/App.jsx:545-547 | with fewer than two ids held, toggling the same id twice restores the selection |
| Scenarios.CompareRows | src/App.jsx:530-538 | rows without a value sort after rows with one in either direction; valued rows order by value, ascending or descending |
| Scenarios.CompareAntisymmetric | src/App.jsx:530-538 | swapping the two rows negates the comparison |
| Scenarios.CompareTransitive | src/App.jsx:530-538 | "sorts no later than" is transitive, so the comparator is a consistent order |
| Scenarios.CompareDirection | src/App.jsx:531-537 | switching the direction reverses the order of two valued rows |
| Scenarios.MentionsRentAnywhere | src/App.jsx:361 | "rent" in any mix of letter case, anywhere in a header, is recognised |
| Scenarios.FirstRentHeader | src/App.jsx:361 | finds the first header mentioning "rent" in any letter case, or reports that none does |
| Scenarios.GuessTargetRent | src/App.jsx:360-361 | other keys are untouched; an existing non-empty target-rent column is kept; otherwise the target rent becomes a header, either the first one or one mentioning rent |
| Scenarios.GuessPrefersRentHeader | src/App.jsx:361 | the first header mentioning rent is chosen over the first header |

## Left out

- The React interface is not part of this model: rendering, styles, density, hints and the input components (`Inputs.jsx`, `NumberInput.jsx`, `ScenarioTable.jsx`).
- Storage and files are left out: `localStorage` (`loadLS`, `saveLS`), the `FileReader` import, the `Blob` downloads and printing. The model covers what the data goes through, not the I/O.
- Ids and names built from `Date.now()` and `Math.random()` (save, duplicate, CSV import) are left out. Scenario ids are given values in the model.
- `Intl` currency and percentage formatting, `maskThousands` and the display rounding with `Math.round` in the exports are left out. They are presentation only.
- Numbers are exact reals, not IEEE-754 doubles: rounding error, overflow to Infinity and `-0` are not modelled.
- Engine.ToNum: JavaScript's `Number(string)` grammar is not modelled. It is the parameter `number`, and only `toNum`'s own cases (commas, trimming, the four blank forms, a rejected text giving 0) are stated.
- Calc.MonthlyPI: `Math.pow` with a real exponent is the parameter `pow`, known only to satisfy `PowShrinks`. The payment is fixed by the amortisation identity for that `pow`. Agreement with the engine's payment is proved for whole month counts with an exact `pow` (`MonthlyPIMatchesMortgagePI`).
- The `calc.js` helpers are modelled on numbers only. `null`, strings, booleans and other values that JavaScript would coerce are not inputs of the model.
- Scenarios.CompareRows: only numeric columns are modelled. The string columns sorted with `localeCompare` depend on locale collation, which is not modelled.
- Scenarios.GuessTargetRent: only the target-rent fallback of `guessMap` is modelled. The keyword classification of the other headers is not.
- Scenarios.GuessTargetRent: with no headers at all, the source stores `undefined` under `targetRent`. The model leaves the key unset.
- Scenarios.MentionsRent: the case-insensitive `/rent/i` match folds only ASCII letters.
- Csv.RowOf: a row object is a map from header to cell. JavaScript's special property names (`__proto__`) are not modelled.
- The unused regular expression `re` in `parseCSV` has no effect and is not modelled.
- Csv.ParseCsv: on text with no non-empty line the source throws, because it splits an undefined first line. The model returns `None`.
- `commitCsvImport`, `duplicateScenario`, `loadScenario` and the quick-add form are not part of this model. They copy records with fresh ids and time stamps.
- `api/estimates.js`, `api/create-checkout-session.js` and `vite.config.js` are not part of this model. They are a mocked HTTP lookup, a payment-provider call and build configuration.
