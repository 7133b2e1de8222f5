# hypo.js: loan and investment arithmetic, modelled in Dafny

hypo.js is a small French loan and investment library. This project models
its computational core over exact real numbers and proves properties of it.
The core covers:

- decimal rounding (`arrondi`);
- conversion of a rate between periods (`convTx` and the `tx<From><To>` converters);
- future and present values (`VC_K`, `VC`, `VA_K`, `VA`);
- constant payments (`VPM`, `VPM_Kn`, `VPM_amd`);
- the principal of a period (`princPer1`, `princPer`, `princPerP`);
- balances and totals (`SRDPn`, `SRDPn_K`, `capRmb_K`, `intTotaux`);
- the summing loops `cumulPrinc` and `cumulInt`;
- the Newton rate solver `taux`;
- the bisection solvers `calcTAEG` and `calcTAEGMens`, which give the effective annual rate of a loan with fees;
- the amortisation table builders `tableauAmort` and `tableauAmort_amd`.

The model makes these choices:

- Numbers are Dafny `real`, so there is no IEEE rounding error.
- `Math.round(x)` is `(x + 0.5).Floor`.
- `Math.pow` with an integer exponent is `IPow`, where `b^-k = 1/b^k`.
- An optional JavaScript argument is an `Option<real>`.
- The test `parseInt(x, 10) === x` is "x is an integer" (`Arith.IsInt`).
- `parseInt` of a number is truncation toward zero (`Arith.Trunc`).
- A division by zero that the source would perform is excluded by a precondition.

Modules, one per file:

- `Arith` (arith.dfy): rounding, truncation, integer powers, geometric sums and field lemmas.
- `Formulas` (formulas.dfy): the annuity closed forms over plain reals and the identities between them.
- `Primitives` (primitives.dfy): the closed-form functions of hypo.js.
- `Cumul` (cumul.dfy): `cumulPrinc` and `cumulInt` as loops, proved against recursive sums.
- `Newton` (newton.dfy): `taux` as a loop, proved against a recursive run of the rounded Newton step.
- `Bisection` (bisection.dfy): `calcTAEG` and `calcTAEGMens` as loops with their bracket invariants.
- `Schedule` (schedule.dfy): the two table builders.
  - They work as methods that push rows onto a sequence.
  - They are proved equal to table functions.
  - The rows are characterised as a ledger: a balance chained from row to row.

A note on the code: the row slice in `tableauAmort_amd` (hypo.js:795-797)
keeps exactly the rows of the periods in `[p1, p2]` whenever `p1 >= 1` and
`p2 >= 0`. Slicing from index `p1` of an array that starts with the header
loses no row (`Schedule.DeferredWindow`). A last period `p2 <= -2` gives
`slice` a negative end, which counts back from the end of the array, so rows
outside the window are returned (`Schedule.NegativeEndCountsBack`).

Where the code and its documentation differ, the model follows the code.
`taux` replaces a fee that is not an integer by 0 (hypo.js:267-269); it
does not truncate it.

## Model

| member | source | states |
|---|---|---|
| Arith.Round | hypo.js:46 | `Math.round`: the integer nearest to `x`, ties rounded up (`x - 0.5 < r <= x + 0.5`) |
| Arith.Trunc | hypo.js:689 | `parseInt` of a number: its integer part, toward zero, never further from 0 than `x` |
| Arith.IPow | hypo.js:94 | `Math.pow` with an integer exponent: nonzero for a nonzero base, positive for a positive base |
| Primitives.Scale | hypo.js:45 | `10^dec` is positive for every integral `dec`, negative ones included |
| Primitives.RoundTo | hypo.js:46 | `Math.round(m*s)/s` is a multiple of `1/s` within half a unit of `m` |
| Primitives.Arrondi | hypo.js:42-49 | `m` unchanged when `dec` is absent or not an integer; otherwise the result times `10^dec` is an integer within 1/2 of `m * 10^dec` |
| Primitives.ArrondiExact | hypo.js:42-49 | a value already on the `10^-dec` grid is returned unchanged |
| Primitives.ArrondiIdempotent | hypo.js:42-49 | rounding a rounded value changes nothing |
| Primitives.ArrondiNonNeg | hypo.js:42-49 | rounding never makes a non-negative amount negative |
| Primitives.ArrondiCents | hypo.js:42-49 | `arrondi(x, 2)` is a whole number of cents within half a cent of `x` |
| Primitives.ArrondiCentsExact | hypo.js:42-49 | an amount in cents is unchanged by `arrondi(_, 2)` |
| Primitives.ConvTx | hypo.js:80-97 | a zero rate converts to 0; a rate converted to its own period is returned as given |
| Primitives.ConvTxEquivalent | hypo.js:94-96 | unrounded, the converted rate compounded over `pDest` periods equals the original compounded over `pOri` |
| Primitives.AnnualisedNonNeg | hypo.js:831 | `convTx(tst, 12, 1, 4)` of a positive monthly rate is not negative, so it cannot be confused with the `-1` sentinel |
| Primitives.Tx | hypo.js:863-883 | each `tx<From><To>` converter of an integral period ratio yields an equivalent rate when not rounding |
| Primitives.VcK | hypo.js:110-118 | at rate 0 or after 0 periods the capital is unchanged |
| Primitives.VaK | hypo.js:161-173 | at rate 0 or over 0 periods the present value is the future value |
| Primitives.VaKVcK | hypo.js:110-173 | unrounded, `VA_K` undoes `VC_K` and `VC_K` undoes `VA_K` |
| Primitives.Vc | hypo.js:134-145 | the value of 0 deposits is the deposit itself (the `n === 0` branch) |
| Primitives.VcIsSumOfDeposits | hypo.js:134-145 | unrounded, `VC` is `m (1 + (1+t) + ... + (1+t)^(n-1))`, at rate 0 as well |
| Primitives.Va | hypo.js:189-202 | at rate 0 the present value is `m n` rounded to 2 decimals, whatever `dec` is |
| Primitives.VaIsDiscountedVc | hypo.js:134-202 | unrounded, `VA` is `VC` discounted over `n` periods |
| Primitives.VpmDefinedFor | hypo.js:367-381 | the payment is defined for every rate above -100% |
| Primitives.Vpm | hypo.js:367-381 | 0 for `n = 0`; `round(K0/n, dec)` at rate 0 |
| Primitives.VpmVa | hypo.js:367-381 | unrounded, `VPM` and `VA` are inverse in both directions |
| Primitives.VpmKn | hypo.js:399-406 | at rate 0 the deposit is `Kn/n` rounded to 2 decimals, whatever `dec` is |
| Primitives.VpmKnVc | hypo.js:399-406 | unrounded, `VPM_Kn` inverts `VC` |
| Primitives.VpmAmd | hypo.js:419-425 | `m_amd` is `K0 t` in cents (within half a cent); `cumulInt = m_amd n_amd`; `m = VPM(K0, n - n_amd, t, dec)` |
| Primitives.PrincPer1 | hypo.js:442-454 | the whole loan for `n = 0`; the payment itself at rate 0 |
| Primitives.PrincPer1IsPaymentLessInterest | hypo.js:442-454 | unrounded, the first principal is the payment less the first interest `K0 t` |
| Primitives.PrincPer | hypo.js:471-487 | for period 1 or at rate 0, the (re-rounded) first principal |
| Primitives.PrincPerP | hypo.js:504-512 | at rate 0 the principal of `p2` is that of `p1` |
| Primitives.PrincPerForm | hypo.js:482-485 | unrounded, the principal of period `q` is the first principal grown by `(1+t)^(q-1)` |
| Primitives.PrincPerGeometric | hypo.js:471-512 | unrounded, `princPer` agrees with `princPerP` from period 1, and the principal grows by `1 + t` each period |
| Primitives.PrincPerPRoundTrip | hypo.js:504-512 | unrounded (`dec` absent), `princPerP` from `p1` to `p2` and back returns the starting principal |
| Primitives.IntTotaux | hypo.js:594-601 | 0 when the loan, payment or term is 0; otherwise, unrounded, interest plus capital is all the payments `m n` |
| Primitives.SrdPn | hypo.js:640-643 | nothing is owed after the last period |
| Primitives.SrdPnRecurrence | hypo.js:640-643 | unrounded, the balance at period 0 is `VA` of the payments, and each payment turns balance `s` into `s (1+t) - m` |
| Primitives.SrdPnK | hypo.js:619-623 | `SRDPn_K` is `SRDPn` of the unrounded payment on `K0` |
| Primitives.CapRmbK | hypo.js:663-669 | nothing is repaid after 0 periods |
| Primitives.CapitalSplit | hypo.js:619-669 | unrounded, capital repaid plus capital owed after any period is the loan; nothing is owed after period `n` |
| Formulas.Annuity | hypo.js:143 | the value at term of deposits `m` at rate `t`, `m ((1+t)^n - 1) / t`, given the power; `Formulas.AnnuityGeom` proves it is `m` times the geometric sum of the powers |
| Formulas.Discounted | hypo.js:200 | the present value of `k` payments `m`, `m (1 - (1+t)^-k) / t`, as in `VA` (also hypo.js:621, 641); `Formulas.PaymentDiscounted` proves it inverse to `Payment` |
| Formulas.Payment | hypo.js:380 | the constant payment `K t / (1 - (1+t)^-n)` that repays `K`; inverse to `Discounted` (`Formulas.PaymentDiscounted`) |
| Formulas.Sinking | hypo.js:405 | the deposit `K t / ((1+t)^n - 1)` that grows to `K`, also the first principal (hypo.js:452); `Formulas.SinkingAnnuity` inverts `Annuity` and `Formulas.SinkingIsPaymentLessInterest` makes it the payment less `K t` |
| Formulas.Repaid | hypo.js:666 | the capital `A ((1+t)^p - 1) / t` repaid after `p` periods; with the balance it adds up to the loan (`Formulas.CapitalPlusBalance`) |
| Formulas.PaymentDiscounted | hypo.js:367-381 | the payment formula and the present-value formula are inverse |
| Formulas.CapitalPlusBalance | hypo.js:640-669 | the balance formula and the capital-repaid formula add up to the loan |
| Cumul.CumulPrinc | hypo.js:526-545 | the loop's result is the rounded sum of `princPer` over periods `p1 .. p2` (0 for an empty range) |
| Cumul.SumPrincGeom | hypo.js:526-545 | unrounded, the principal of periods `1 .. p` is the first principal times `1 + (1+t) + ... + (1+t)^(p-1)` |
| Cumul.CumulPrincIsCapRmb | hypo.js:526-545 | unrounded, `cumulPrinc` over `1 .. p` equals `capRmb_K` at `p` |
| Cumul.CumulPrincTotal | hypo.js:526-545 | unrounded, the principal of all `n` periods is the loan |
| Cumul.CumulInt | hypo.js:576-592 | 0 at rate 0; otherwise the rounded sum over `p1 .. p2` of the payment less `princPer` |
| Cumul.SumIntIsPaymentsLessPrinc | hypo.js:576-592 | the interest of a range is its payments less its principal |
| Cumul.CumulIntTotal | hypo.js:576-601 | unrounded, `cumulInt` over the whole loan equals `intTotaux` of its payment |
| Newton.Fee | hypo.js:267-269 | an integral fee is kept; an absent or non-integral fee becomes 0 |
| Newton.Ratio | hypo.js:271 | `M = (K0 - f) / m` with the fee as `taux` reads it: the capital net of fees per unit of payment |
| Newton.NewtonP | hypo.js:279 | `P(r) = M r (1+r)^n - (1+r)^n + 1`, whose root is the rate at which `n` payments of `1/M` repay 1 |
| Newton.NewtonDp | hypo.js:280 | `P'(r)`, the derivative of `P` the source writes out by hand |
| Newton.Step | hypo.js:279-281 | each Newton iterate is a multiple of 1e-9 |
| Newton.NineDecimals | hypo.js:281 | `arrondi(x, 9)` is on the 1e-9 grid within half a unit of `x` |
| Newton.Run | hypo.js:276-282 | the do-while runs at least once and at most 20 times; below 20 it stopped on a repeated iterate; the last iterate is the rounded step from the previous one |
| Newton.Taux | hypo.js:239-288 | the loop returns exactly the result of the recursive run: `-1` at the cap, the last iterate otherwise |
| Newton.TauxResult | hypo.js:284-287 | the value `taux` returns: `-1` when the recursive run hit the cap of 20, otherwise its last iterate; `Newton.TauxOutcome` and `Newton.TauxResidual` state what it means |
| Newton.FixedPointResidual | hypo.js:281-282 | at a fixed point of the rounded step, `|P(r)/P'(r)| <= 5e-10` |
| Newton.TauxOutcome | hypo.js:276-287 | `-1` whenever the counter reached 20 (even on a repeat at the 20th step); below 20 the result equals the previous iterate, is a fixed point of the step and a multiple of 1e-9 |
| Newton.TauxSentinel | hypo.js:276-287 | for two or more payments, `-1` exactly when the counter reached 20: no step is defined at `-1`, so `-1` is never a settled iterate |
| Newton.ZeroIsRoot | hypo.js:279 | `P(0) = 0` for every ratio and number of payments: the polynomial `taux` solves always has the root 0 besides the rate |
| Newton.OnePaymentSettlesOnZero | hypo.js:271-287 | for `K0 = 1000` repaid by one payment of 1100 without fee, the rate is 10% (`P(0.1) = 0`), yet from 0.01 the iterates are -0.00125, -0.000015244, -0.000000002, 0, 0, and `taux` returns 0 |
| Newton.TauxResidual | hypo.js:276-287 | the returned rate, when not `-1`, is within 5e-10 of the Newton update of itself |
| Newton.NonIntegerFeeIgnored | hypo.js:267-271 | a non-integral fee gives the same result as no fee |
| Bisection.Val | hypo.js:808-810 | `val_polyn` of both solvers (also hypo.js:840-842): the present value at `p` of the payments less the capital net of fees, as `Bisection.ValIsPresentValueGap` proves |
| Bisection.Halve | hypo.js:820-829 | the bracket the halving rule ends with, from `[lo, hi]`: positive, at most 1e-7 wide, and nested in `[lo, hi]` |
| Bisection.Bisect | hypo.js:820-829 | ends with the bracket `Halve` gives from the start bracket, which is the start bracket halved `k` times, `k` being the first count that makes it at most 1e-7 wide; `tst` is its midpoint; its ends straddle a sign change of `val`, or an exact root of `val` was passed over |
| Bisection.CalcTaeg | hypo.js:802-832 | without fees, `convTx(t, 12, 1, 4)`; with fees, `-1` if and only if `val` has one strict sign at both ends of `[round(t, 6), 1]`, otherwise `convTx` of the midpoint of the bracket `Halve` ends with from `[round(t, 6), 1]`, reached after at most 24 halvings, the first count to make it at most 1e-7 wide |
| Bisection.CalcTaegMens | hypo.js:834-860 | the same from `[0.000001, 1]` for a given payment, with no zero-fee shortcut: the result is pinned to the midpoint of the `Halve` bracket, reached after at most 24 halvings |
| Bisection.Solve | hypo.js:820-830 | the loop and the final `convTx(tst, 12, 1, 4)` both solvers share: a result of at least 0, hence never `-1`, the annualised midpoint of the `Halve` bracket reached from the start bracket in at most 24 halvings |
| Bisection.AtMost24Halvings | hypo.js:820 | from a bracket at most 1 wide, the first halving count that reaches 1e-7 is at most 24 |
| Bisection.ValIsPresentValueGap | hypo.js:808-810 | `val(p)` is the present value of the payments at `p` less the loan net of fees |
| Schedule.IntOr | hypo.js:736-746 | an integral period bound is kept; an absent or non-integral one becomes the default |
| Schedule.RegularEnd | hypo.js:689-691 | the last period is `n` when `p2` is absent or its integer part equals `p1`; otherwise `p2` |
| Schedule.Interest | hypo.js:712 | the interest of a period on its opening balance: exact in `tableauAmort`, rounded to cents in `tableauAmort_amd` (hypo.js:788) |
| Schedule.Ligne | hypo.js:709-714 | the row of a period from its opening balance (also hypo.js:785-791); `Schedule.RowPaymentSplit` and `Schedule.LedgerCents` state how its amounts relate |
| Schedule.Rows | hypo.js:706-717 | the rows the `while (srd > 0 && i < stop)` loop pushes (also hypo.js:782-793), as recursion; `Schedule.RowsCharacterised` proves them the unique ledger |
| Schedule.RowsCharacterised | hypo.js:706-717 | the rows the loop pushes are exactly the ledgers: consecutive periods, each opening with the previous closing balance, stopping at the first balance at or below 0 or at the last permitted period |
| Schedule.LedgerCents | hypo.js:713-714 | from a balance in cents every closing balance and principal is in cents, and closing equals opening less principal exactly |
| Schedule.PrincipalRepaid | hypo.js:706-717 | for a ledger opening with a balance in cents, the principal of the rows adds up to the opening balance less the final balance |
| Schedule.RowPaymentSplit | hypo.js:712-713 | in each row interest plus principal is the payment to within half a cent |
| Schedule.ZeroRateRows | hypo.js:712-713 | at rate 0 and a payment in cents every row has no interest and repays the whole payment |
| Schedule.ZeroRateRun | hypo.js:706-717 | at rate 0, from `r` payments in cents, the loop pushes `r` rows, row `j` opening with `r - j` payments and closing with `r - j - 1` |
| Schedule.ZeroRateTable | hypo.js:683-717 | at rate 0 with the default window, for `K0` equal to `n` payments in cents: the payment is `K0 / n`, there are `n` rows, row `k` closes with `K0 - k K0 / n`, and the last closes at exactly 0 |
| Schedule.PushRows | hypo.js:706-717 | the loop appends exactly the rows of the ledger from its starting balance and period |
| Schedule.TableauAmort | hypo.js:683-720 | the method returns the table `AmortTable`: defaults, header, then the regular rows |
| Schedule.AmortTable | hypo.js:683-720 | the array `tableauAmort` returns; `Schedule.RegularTableLedger` and `Schedule.RegularWindow` state its header and rows |
| Schedule.RegularTableLedger | hypo.js:693-704 | element 0 is the header `{K0, n, t, m = VPM(K0, n, t, 2), p1, p2}`, followed by the rows; the first opening balance is `K0` when `p1 = 1` |
| Schedule.RegularWindow | hypo.js:706-717 | with an integral `p2`, every row's period lies in `[p1, p2]` |
| Schedule.DeferredRows | hypo.js:766-776 | the deferral rows are periods `1 .. n_amd`, each opening and closing at `K0`, repaying 0 and paying `round(K0 t, 2)` of interest |
| Schedule.TableauAmortAmd | hypo.js:734-798 | the method returns the table `AmdTable`: forwarding without deferral, otherwise header, deferral, regular rows and slice |
| Schedule.AmdTable | hypo.js:734-798 | the array `tableauAmort_amd` returns: `tableauAmort` with `p1 = 0` without deferral, otherwise the deferred table |
| Schedule.DeferredTable | hypo.js:752-797 | the header followed by `slice(p1, p2 + 1)` of the header and all generated rows; `Schedule.DeferredWindow` gives the rows it keeps |
| Schedule.SliceBound | hypo.js:797 | `Array.prototype.slice`'s reading of an index: a negative one counts back from the end, and the result never exceeds the length |
| Schedule.JsSlice | hypo.js:797 | `Array.prototype.slice`: never longer than the array; `Schedule.SliceWindow` gives the rows it keeps |
| Schedule.DeferredShape | hypo.js:752-793 | the deferral rows come first, then a ledger from `K0` after period `n_amd` with rounded interest, up to period `n`; the header, for any window `p1`, `p2`, carries `m_amd` and the payment over `n - n_amd` periods |
| Schedule.DeferredWindow | hypo.js:795-797 | for `p1 >= 1` and `p2 >= 0`, the deferred table is its header followed by exactly the generated rows whose period lies in `[p1, p2]`, in order |
| Schedule.DeferredExample | hypo.js:734-798 | 1000 over 2 periods at 10%, one deferred period: a row paying 100 of interest, then one paying 100 of interest and 1000 of principal, closing at 0 |
| Schedule.EqualBoundsReadAsOpen | hypo.js:689-691 | as written: periods 3 to 3 of a 12-period loan give the table up to period 12 |
| Schedule.IntendedWindow | hypo.js:689-691 | with the corrected default, the header records the caller's window and every row lies in it |
| Schedule.ZeroDeferralDiscardsWindow | hypo.js:748-750 | as written: without deferral the table is the same for every `p1`, `p2`, namely the regular table from period 0 |
| Schedule.ZeroDeferralStartsAtPeriodZero | hypo.js:748-750 | as written: 1000 over 2 periods at 10%, asked for periods 1 to 2, yields a first row of period 0 opening above 1000 |
| Schedule.IntendedZeroDeferralWindow | hypo.js:748-750 | with the window forwarded, every row returned without deferral lies in the caller's window |
| Schedule.NegativeEndCountsBack | hypo.js:797 | with `p2 = -2` the window `[1, -2]` is empty, yet the table of 1000 over 2 periods at 10% with one deferred period returns its period-1 row |

## Left out

- `convStrNum` (hypo.js:56-69) and its calls: inputs are taken as numbers already. Parsing strings with `isNaN` and `parseFloat` has no exact model over reals.
- `taux_Kn` (hypo.js:220), `duree_Kn` (hypo.js:308) and `duree` (hypo.js:340): these are left out. They use a fractional power or a logarithm, which have no exact real model.
- `intPer` (hypo.js:563-574) is not part of this model.
- Primitives.ConvTx: only conversions whose period ratio `pOri / pDest` is an integer are modelled. A conversion from a coarser to a finer period has a fractional exponent.
- Primitives.Tx: only the six converters from a finer to a coarser period are modelled, for the same reason.
- IEEE-754 doubles are not modelled: no rounding error, no NaN, no infinities.
- A division by zero becomes a precondition (`VpmDefined`, `PrincDefined`, `SrdDefined`, `t != 0` in `capRmb_K`, `m != 0` and `P'(r) != 0` in `taux`). In the source these return NaN or Infinity.
- Bisection.CalcTaeg: with fees it requires `round(t, 6) > 0`.
  - At 0 the source's `val` divides by zero.
  - A negative starting rate is not modelled.
- Bisection.Bisect: it states that the final bracket straddles a sign change of `val`. It does not state that a root lies inside, which would need the continuity of `val`.
- Newton.Taux: requires that every step the loop takes has a defined, nonzero derivative (`TauxDefined`).
- Newton.TauxOutcome: for a single payment, a result of `-1` below 20 steps is not excluded. At `-1` the one-payment step is defined, and it is a fixed point when `|M + 1|` exceeds about 2e9. `Newton.TauxSentinel` covers two or more payments.
- Newton.TauxOutcome: that `taux` recovers the rate of a loan from its payment is not proved, and it does not hold as written. `P` has the root 0 for every loan (`Newton.ZeroIsRoot`), and from 0.01 the iteration can settle there. A loan of 1000 repaid by one payment of 1100 has the rate 10%, yet `taux` returns 0 (`Newton.OnePaymentSettlesOnZero`). No corrected solver is modelled: the source gives no intended behaviour to prove against.
- `parseInt` is modelled as truncation. Numbers whose string form uses an exponent (`1e21`, `1e-7`) parse differently in JavaScript, and that is not modelled.
- Cumul.CumulPrinc: the periods `p1` and `p2` are integers. Fractional bounds are not modelled.
- Cumul.CumulPrinc: the `mensualite` that `cumulPrinc` computes and never uses is dropped.
- Schedule.TableauAmort: the returned array of objects is a `seq<Entry>` value, so aliasing of the row objects is not modelled. Setting `m` on the deferred table's header is a sequence update.
- These scoping accidents affect no returned value and are not modelled:
  - the implicit globals `srd` and `tableau` of `tableauAmort_amd` (hypo.js:754);
  - the redeclared `var t` (hypo.js:795).
- The module wrapper and its exports (hypo.js:19-33, hypo.js:886-888) are not modelled.

## Findings

| source | as written | input that shows it | evidently intended | confidence | as-written member | corrected member |
|---|---|---|---|---|---|---|
| hypo.js:689-691 | `tableauAmort` resets `p2` to `n` when `parseInt(p2, 10) === p1`, i.e. when the integer part of the last period equals the first period | `p1 = p2 = 3`, `n = 12`: the table runs to period 12 instead of stopping at 3 | reset `p2` only when it is absent or not an integer, as `tableauAmort_amd` does at hypo.js:740-742 | medium, not executed | Schedule.EqualBoundsReadAsOpen | Schedule.IntendedWindow |
| hypo.js:748-750 | without a deferral, `tableauAmort_amd` calls `tableauAmort(K0, n, t, n_amd)`, passing the deferral count 0 as `p1` and dropping `p1`, `p2` | `K0 = 1000`, `n = 2`, `t = 0.1`, `n_amd = 0`, `p1 = 1`, `p2 = 2`: the first row is period 0, opening above 1000 | forward the caller's window, `tableauAmort(K0, n, t, p1, p2)`; the corrected member also applies the first row's correction to `tableauAmort`, since with only the forwarding fix `p1 = p2 = 3` would still run to period `n` | high, not executed | Schedule.ZeroDeferralStartsAtPeriodZero | Schedule.IntendedZeroDeferralWindow |

The corrected functions are `Schedule.AmortTableIntended` and
`Schedule.AmdTableIntended`. `Schedule.ZeroDeferralDiscardsWindow` proves
the second finding for every input.
