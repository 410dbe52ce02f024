# WACC and Modigliani-Miller calculator, modelled in Dafny

The calculator (`main.py`) computes a firm's Weighted Average Cost of
Capital (WACC) from the values of debt D and equity E, the cost of debt rD,
the cost of equity rE and the tax rate T. Taxes can be applied through the
debt tax shield or ignored. It also computes the levered cost of equity by
Modigliani-Miller Proposition II, rE = rU + (D/E)(rU - rD). Two sweeps
tabulate each formula over an evenly spaced grid of debt-to-equity ratios
D/E from 0 to 5:

- the WACC with taxes over 100 points;
- the levered cost of equity over 40 points, returned as a two-column table.

The model has two modules:

- `CostOfCapital` (`cost_of_capital.dfy`) holds the pure formulas over
  exact reals and the lemmas about them:
  - the capital weights wD = D/V and wE = E/V, with V = D + E;
  - the WACC with and without the tax shield;
  - Proposition II.

  Each formula requires the divisor to be non-zero. `CalculateWacc` and
  `CalculateMMCostOfEquity` model a call with Python floats: they return
  `Err(DivisionByZero)` exactly where such a call raises
  `ZeroDivisionError`. The driver calls `calcular_wacc` that way
  (main.py:39-40). The only call of `calcular_rE_MM` (main.py:92) passes a
  numpy float D, for which E = 0 yields NaN instead (see "Left out"). The Python defaults `T=0.0` and
  `considerar_impostos=True` are the Dafny default parameter values of
  `Wacc` and `CalculateWacc`.
- `LeverageSweeps` (`leverage_sweeps.dfy`) holds numpy's `linspace` grid,
  as a function with lemmas about order and spacing, and the two sweep
  loops, as methods with loop invariants. Each method returns the values
  the program would plot: the leverage column and the WACC column, or the
  Proposition II table.

For a leverage de, the sweeps set D = de·E, and E cancels out of both
formulas:

- WACC = rE + de/(1+de)·(debt cost − rE);
- levered rE = rU + de·(rU − rD).

Because of this, every sweep property holds for any non-zero E.

The model follows the code rather than the intended use of the program:

- The intended inputs are D ≥ 0, E > 0 and 0 ≤ T ≤ 1, but the code checks
  none of them. The formulas here demand only what the code needs, a
  non-zero divisor. The sign conditions appear only as hypotheses of the
  lemmas whose statements need them.
- A zero divisor is meant to abort the run. Inside the sweeps, however,
  E = 0 makes numpy return NaN instead of raising an error. See
  "Left out".

## Model

| member | source | states |
|---|---|---|
| CostOfCapital.DebtWeight | main.py:18-19 | wD = D/V lies in [0, 1] for non-negative D and E, and is zero exactly when there is no debt |
| CostOfCapital.EquityWeight | main.py:18-20 | wE = E/V lies in [0, 1] for non-negative D and E, and is one exactly when there is no debt |
| CostOfCapital.WeightsSumToOne | main.py:18-20 | the two weights always add up to 1 |
| CostOfCapital.Wacc | main.py:7-27 | with non-negative D and E the WACC, taxed or not, lies between the cost of equity and the cost of debt charged |
| CostOfCapital.WaccAsBlend | main.py:22-25 | both branches equal rE + wD·(debt cost − rE): the WACC is the cost of equity moved toward the debt cost by the debt weight |
| CostOfCapital.CalculateWacc | main.py:18-20 | a division by zero is raised exactly when V = D + E is zero; otherwise the WACC is returned |
| CostOfCapital.WaccWithoutDebt | main.py:18-25 | with D = 0 the WACC is rE for any rD, T and tax flag |
| CostOfCapital.TaxShield | main.py:22-25 | the WACC with taxes is the WACC without taxes minus exactly wD·rD·T |
| CostOfCapital.WaccAtZeroTaxRate | main.py:7 | with the default T = 0 the tax flag makes no difference |
| CostOfCapital.TaxShieldLowersWacc | main.py:22-25 | for D ≥ 0, E > 0, rD ≥ 0 and T ≥ 0 the WACC with taxes never exceeds the WACC without |
| CostOfCapital.TaxFlagMattersIff | main.py:22-25 | the tax flag changes the WACC if and only if D, rD and T are all non-zero |
| CostOfCapital.LeverageShare | main.py:58-59 | the debt weight at leverage de ≥ 0, de/(1+de), lies in [0, 1) |
| CostOfCapital.LeverageShareMonotone | main.py:54-59 | that debt weight never falls as the leverage grows |
| CostOfCapital.DebtWeightAtLeverage | main.py:58-59 | with D = de·E and E ≠ 0, V is non-zero and wD = de/(1+de) whatever E is |
| CostOfCapital.WaccDependsOnLeverageOnly | main.py:57-59 | the sweep's call never divides by zero, and its WACC equals the closed form in de alone |
| CostOfCapital.WaccMonotoneInLeverage | main.py:54-60 | over growing leverage the WACC falls when the debt cost charged is at most rE, and rises when it is at least rE |
| CostOfCapital.MMCostOfEquity | main.py:75-80 | Proposition II gives rU when D = 0, and at least rU when D ≥ 0, E > 0 and rD ≤ rU |
| CostOfCapital.CalculateMMCostOfEquity | main.py:75-80 | a division by zero is raised exactly when E is zero; otherwise Proposition II's rE is returned |
| CostOfCapital.MMDependsOnLeverageOnly | main.py:90-92 | with D = de·E the levered cost is rU + de·(rU − rD) whatever non-zero E is |
| CostOfCapital.MMMonotoneInDebt | main.py:75-80 | for fixed E > 0 and rD ≤ rU, more debt never lowers rE |
| CostOfCapital.MMStrictlyIncreasingIff | main.py:75-80 | for fixed E > 0 and strictly more debt, rE strictly rises if and only if rD < rU |
| CostOfCapital.MMKeepsWaccAtUnleveredCost | main.py:75-80 | without taxes, feeding Proposition II's rE into the WACC yields rU for any debt level |
| CostOfCapital.WaccWorkedExample | main.py:18-25 | D = E = 100, rD = 0.08, rE = 0.12, T = 0.34 give 0.0864 with taxes and 0.10 without |
| CostOfCapital.MMWorkedExample | main.py:78-80 | rU = 0.10, rD = 0.06, D = 200, E = 100 give rE = 0.18 |
| LeverageSweeps.Linspace | main.py:54 | the grid has num points, starts at start, and ends at stop from two points on |
| LeverageSweeps.LinspaceStep | main.py:54 | the num − 1 steps span stop − start; the step is non-negative, or positive, when the range is |
| LeverageSweeps.LinspaceOrdered | main.py:87 | for start ≤ stop every point lies in [start, stop], the grid is non-decreasing, and it is strictly increasing when start < stop |
| LeverageSweeps.LinspacePairOrdered | main.py:87 | two grid points follow the order of their indices |
| LeverageSweeps.LinspaceAt | main.py:54 | point i is start + i·step |
| LeverageSweeps.LinspaceEvenlySpaced | main.py:54 | consecutive points are exactly one step apart |
| LeverageSweeps.WaccSweep | main.py:49-60 | returns the 100-point grid over [0, 5] and 100 WACCs; each is the WACC with taxes at D = de·E (never a division by zero) and its closed form in de; the first row is (0, rE); the column is non-increasing when rD(1−T) ≤ rE and non-decreasing when rD(1−T) ≥ rE |
| LeverageSweeps.WaccColumnIsFormula | main.py:57-60 | a column that follows the closed form is, row by row, the WACC with taxes at D = de·E |
| LeverageSweeps.WaccRowIsFormula | main.py:58-59 | one such row |
| LeverageSweeps.WaccColumnOrdered | main.py:54-60 | over a non-decreasing grid the WACC column follows the direction set by comparing rD(1−T) with rE |
| LeverageSweeps.SimulateMM | main.py:82-99 | the table's leverage column is the 40-point grid over [0, 5] and its rE column has the same length; row i is Proposition II at D = de_i·E, i.e. rU + de_i(rU − rD); the first row is (0, rU); the rE column is non-decreasing when rD ≤ rU and strictly increasing when rD < rU |
| LeverageSweeps.MMColumnIsFormula | main.py:90-93 | a column that follows the closed form is, row by row, Proposition II at D = de·E |
| LeverageSweeps.MMRowIsFormula | main.py:91-92 | one such row |
| LeverageSweeps.MMColumnOrdered | main.py:87-93 | over a non-decreasing grid the rE column is non-decreasing when rD ≤ rU; when rD < rU, rows at strictly larger leverage have strictly larger rE |
| LeverageSweeps.MMRowsOrdered | main.py:80 | two rows follow the order of their leverages when rD ≤ rU, strictly when rD < rU |

## Left out

- `interface_usuario` (main.py:30-46) and the `__main__` block (main.py:119-124): console prompts, parsing of decimal input and printing to four decimals are I/O. The computations they trigger are `CalculateWacc`, `WaccSweep` and `SimulateMM`.
- Plotting and saving (main.py:62-73, 104-114): matplotlib figures and `savefig` are file output. The timestamped file names depend on the clock (`datetime.now`). Each sweep returns the data it would plot instead.
- Printing the Proposition II table rounded to four decimals (main.py:101-102): rounding affects display only. `SimulateMM` returns the unrounded table, as the program does.
- Floating point: all quantities are exact reals. IEEE-754 rounding in the formulas and in numpy's `linspace` is not modelled, so equalities such as WACC = 0.0864 hold exactly here.
- LeverageSweeps.WaccSweep: requires E ≠ 0. With E = 0 the program divides numpy floats, which yield NaN with a warning instead of raising, and NaN has no counterpart among the reals.
- LeverageSweeps.SimulateMM: requires E ≠ 0, for the same reason as `WaccSweep`.
- CostOfCapital.CalculateMMCostOfEquity: its error result describes a call with Python floats. The program's only call (main.py:92) passes the numpy float D = de·E, and there E = 0 gives NaN rather than an error, which the model does not represent.
- Python's dynamic typing: inputs are taken to be numbers, as the `float(...)` parsing of the driver guarantees.
