/**
 * The closed-form corporate-finance formulas of the calculator:
 * the Weighted Average Cost of Capital (WACC) and Modigliani-Miller
 * Proposition II for the levered cost of equity.
 *
 * Values are exact reals. D is the value of debt, E the value of equity,
 * rD the cost of debt, rE the cost of levered equity, rU the cost of
 * unlevered equity and T the tax rate, all as decimals.
 */
module CostOfCapital {

  /** The one failure the formulas can raise: a division by zero. */
  datatype ArithError = DivisionByZero

  datatype Result<T> = Ok(value: T) | Err(error: ArithError)

  function Min(a: real, b: real): real { if a <= b then a else b }

  function Max(a: real, b: real): real { if a <= b then b else a }

  // ---------------------------------------------------------------------
  // Weights of the capital structure
  // ---------------------------------------------------------------------

  /** wD = D / V, the share of debt in the firm value V = D + E. */
  function DebtWeight(D: real, E: real): (wD: real)
    requires D + E != 0.0
    ensures 0.0 <= D && 0.0 <= E ==> 0.0 <= wD <= 1.0
    ensures wD == 0.0 <==> D == 0.0
  {
    var V := D + E;
    ShareOfWhole(D, V);
    D / V
  }

  /** wE = E / V, the share of equity in the firm value V = D + E. */
  function EquityWeight(D: real, E: real): (wE: real)
    requires D + E != 0.0
    ensures 0.0 <= D && 0.0 <= E ==> 0.0 <= wE <= 1.0
    ensures wE == 1.0 <==> D == 0.0
  {
    var V := D + E;
    ShareOfWhole(E, V);
    E / V
  }

  /** The two weights partition the firm value: wD + wE = 1. */
  lemma WeightsSumToOne(D: real, E: real)
    requires D + E != 0.0
    ensures DebtWeight(D, E) + EquityWeight(D, E) == 1.0
  {
    var V := D + E;
    assert D / V + E / V == (D + E) / V;
  }

  // ---------------------------------------------------------------------
  // WACC
  // ---------------------------------------------------------------------

  /**
   * The cost of debt that the WACC formula charges: after the tax shield,
   * rD * (1 - T), when taxes are considered, and rD otherwise.
   */
  function DebtCost(rD: real, T: real, withTaxes: bool): real
  {
    if withTaxes then rD * (1.0 - T) else rD
  }

  /**
   * WACC = wE * rE + wD * rD * (1 - T) with taxes, wE * rE + wD * rD without.
   * Defined only when the firm value D + E is not zero. When both parts of
   * the capital are non-negative it is an average of the cost of equity and
   * the cost of debt charged, so it lies between the two.
   */
  function Wacc(D: real, E: real, rD: real, rE: real, T: real := 0.0, withTaxes: bool := true): (wacc: real)
    requires D + E != 0.0
    ensures 0.0 <= D && 0.0 <= E ==>
              Min(rE, DebtCost(rD, T, withTaxes)) <= wacc <= Max(rE, DebtCost(rD, T, withTaxes))
  {
    var wD := DebtWeight(D, E);
    var wE := EquityWeight(D, E);
    WaccAsBlendOf(D, E, rD, rE, T, withTaxes, wD, wE);
    if withTaxes then wE * rE + wD * rD * (1.0 - T) else wE * rE + wD * rD
  }

  /**
   * Both branches of the WACC formula are rE moved towards the debt cost
   * by the debt weight; with the weight in [0, 1] the result lies between
   * the two costs.
   */
  lemma WaccAsBlendOf(D: real, E: real, rD: real, rE: real, T: real, withTaxes: bool, wD: real, wE: real)
    requires D + E != 0.0
    requires wD == DebtWeight(D, E) && wE == EquityWeight(D, E)
    ensures (if withTaxes then wE * rE + wD * rD * (1.0 - T) else wE * rE + wD * rD)
            == rE + wD * (DebtCost(rD, T, withTaxes) - rE)
    ensures 0.0 <= D && 0.0 <= E ==>
              Min(rE, DebtCost(rD, T, withTaxes))
              <= rE + wD * (DebtCost(rD, T, withTaxes) - rE)
              <= Max(rE, DebtCost(rD, T, withTaxes))
  {
    WeightsSumToOne(D, E);
    var k := DebtCost(rD, T, withTaxes);
    assert wE == 1.0 - wD;
    assert wD * rD * (1.0 - T) == wD * (rD * (1.0 - T));
    assert (1.0 - wD) * rE + wD * k == rE + wD * (k - rE);
    if 0.0 <= D && 0.0 <= E {
      ScaleWithinUnit(wD, k - rE);
    }
  }

  /** WACC as the weighted blend rE + wD * (debt cost - rE). */
  lemma WaccAsBlend(D: real, E: real, rD: real, rE: real, T: real, withTaxes: bool)
    requires D + E != 0.0
    ensures Wacc(D, E, rD, rE, T, withTaxes) == rE + DebtWeight(D, E) * (DebtCost(rD, T, withTaxes) - rE)
  {
    WaccAsBlendOf(D, E, rD, rE, T, withTaxes, DebtWeight(D, E), EquityWeight(D, E));
  }

  /**
   * calcular_wacc called with Python floats, as the driver calls it: it
   * raises a division by zero exactly when the firm value D + E is zero
   * and otherwise returns the WACC.
   */
  function CalculateWacc(D: real, E: real, rD: real, rE: real, T: real := 0.0, withTaxes: bool := true): (r: Result<real>)
    ensures r.Err? <==> D + E == 0.0
    ensures r.Err? ==> r.error == DivisionByZero
    ensures r.Ok? ==> D + E != 0.0 && r.value == Wacc(D, E, rD, rE, T, withTaxes)
  {
    if D + E == 0.0 then Err(DivisionByZero) else Ok(Wacc(D, E, rD, rE, T, withTaxes))
  }

  /** Without debt the WACC is the cost of equity, with or without taxes, for any rD and T. */
  lemma WaccWithoutDebt(E: real, rD: real, rE: real, T: real, withTaxes: bool)
    requires E != 0.0
    ensures Wacc(0.0, E, rD, rE, T, withTaxes) == rE
  {
    WaccAsBlend(0.0, E, rD, rE, T, withTaxes);
  }

  /** The tax shield lowers the WACC by exactly wD * rD * T. */
  lemma TaxShield(D: real, E: real, rD: real, rE: real, T: real)
    requires D + E != 0.0
    ensures Wacc(D, E, rD, rE, T, true) == Wacc(D, E, rD, rE, T, false) - DebtWeight(D, E) * rD * T
  {
    var wD := DebtWeight(D, E);
    assert wD * rD * (1.0 - T) == wD * rD - wD * rD * T;
  }

  /** At the default tax rate T = 0 the flag makes no difference. */
  lemma WaccAtZeroTaxRate(D: real, E: real, rD: real, rE: real)
    requires D + E != 0.0
    ensures Wacc(D, E, rD, rE) == Wacc(D, E, rD, rE, 0.0, false)
  {
    TaxShield(D, E, rD, rE, 0.0);
  }

  /**
   * The tax shield never raises the WACC when debt, its cost and the tax
   * rate are non-negative and equity is positive.
   */
  lemma TaxShieldLowersWacc(D: real, E: real, rD: real, rE: real, T: real)
    requires 0.0 <= D && 0.0 < E && 0.0 <= rD && 0.0 <= T
    ensures Wacc(D, E, rD, rE, T, true) <= Wacc(D, E, rD, rE, T, false)
  {
    ShieldNonneg(D, E, rD, T);
    TaxShield(D, E, rD, rE, T);
  }

  /** The flag changes the WACC exactly when there is debt, its cost is non-zero and taxes are non-zero. */
  lemma TaxFlagMattersIff(D: real, E: real, rD: real, rE: real, T: real)
    requires D + E != 0.0
    ensures Wacc(D, E, rD, rE, T, true) == Wacc(D, E, rD, rE, T, false)
            <==> D == 0.0 || rD == 0.0 || T == 0.0
  {
    TaxShield(D, E, rD, rE, T);
    var wD := DebtWeight(D, E);
    if wD != 0.0 && rD != 0.0 && T != 0.0 {
      MulNonzero(wD, rD);
      MulNonzero(wD * rD, T);
    }
  }

  // ---------------------------------------------------------------------
  // WACC along the leverage D/E
  // ---------------------------------------------------------------------

  /** The debt weight at a debt-to-equity ratio de >= 0: de / (1 + de). */
  function LeverageShare(de: real): (w: real)
    requires 0.0 <= de
    ensures 0.0 <= w < 1.0
  {
    DivMonotone(0.0, de, 1.0 + de);
    DivStrictMonotone(de, 1.0 + de, 1.0 + de);
    de / (1.0 + de)
  }

  /** The debt weight grows with the leverage. */
  lemma LeverageShareMonotone(a: real, b: real)
    requires 0.0 <= a <= b
    ensures LeverageShare(a) <= LeverageShare(b)
  {
    assert a / (1.0 + a) == 1.0 - 1.0 / (1.0 + a);
    assert b / (1.0 + b) == 1.0 - 1.0 / (1.0 + b);
    ReciprocalAntitone(1.0 + a, 1.0 + b);
  }

  /**
   * With D = de * E for a leverage de >= 0 and any non-zero equity the firm
   * value is not zero and the debt weight is de / (1 + de).
   */
  lemma DebtWeightAtLeverage(de: real, E: real)
    requires 0.0 <= de && E != 0.0
    ensures de * E + E != 0.0
    ensures DebtWeight(de * E, E) == LeverageShare(de)
  {
    var V := de * E + E;
    assert V == E * (1.0 + de);
    MulNonzero(E, 1.0 + de);
    var w, s := DebtWeight(de * E, E), LeverageShare(de);
    assert w * V == de * E;
    assert s * (1.0 + de) == de;
    assert s * V == (s * (1.0 + de)) * E;
    CancelNonzero(w, s, V);
  }

  /**
   * The WACC at leverage de, the cost of equity moved towards the debt cost
   * charged by the debt weight de / (1 + de).
   */
  function WaccAtLeverage(de: real, rD: real, rE: real, T: real, withTaxes: bool): real
    requires 0.0 <= de
  {
    rE + LeverageShare(de) * (DebtCost(rD, T, withTaxes) - rE)
  }

  /**
   * Setting D = de * E for a non-zero equity E, as the leverage sweep does,
   * gives a firm value that is not zero and a WACC that depends on the
   * leverage de alone.
   */
  lemma WaccDependsOnLeverageOnly(de: real, E: real, rD: real, rE: real, T: real, withTaxes: bool)
    requires 0.0 <= de && E != 0.0
    ensures de * E + E != 0.0
    ensures Wacc(de * E, E, rD, rE, T, withTaxes) == WaccAtLeverage(de, rD, rE, T, withTaxes)
  {
    DebtWeightAtLeverage(de, E);
    WaccAsBlend(de * E, E, rD, rE, T, withTaxes);
  }

  /**
   * Along growing leverage a <= b the WACC falls when the debt cost charged
   * is at most the cost of equity, and rises when it is at least that.
   */
  lemma WaccMonotoneInLeverage(a: real, b: real, rD: real, rE: real, T: real, withTaxes: bool)
    requires 0.0 <= a <= b
    ensures DebtCost(rD, T, withTaxes) <= rE ==>
              WaccAtLeverage(b, rD, rE, T, withTaxes) <= WaccAtLeverage(a, rD, rE, T, withTaxes)
    ensures rE <= DebtCost(rD, T, withTaxes) ==>
              WaccAtLeverage(a, rD, rE, T, withTaxes) <= WaccAtLeverage(b, rD, rE, T, withTaxes)
  {
    var gap := DebtCost(rD, T, withTaxes) - rE;
    LeverageShareMonotone(a, b);
    if gap <= 0.0 {
      MulAntitone(LeverageShare(a), LeverageShare(b), gap);
    } else {
      MulMonotone(LeverageShare(a), LeverageShare(b), gap);
    }
  }

  // ---------------------------------------------------------------------
  // Modigliani-Miller Proposition II
  // ---------------------------------------------------------------------

  /**
   * rE = rU + (D / E) * (rU - rD), defined only when E is not zero.
   * Without debt it is the unlevered cost; with non-negative debt on
   * positive equity and debt no dearer than unlevered equity it is at
   * least the unlevered cost.
   */
  function MMCostOfEquity(rU: real, rD: real, D: real, E: real): (rE: real)
    requires E != 0.0
    ensures D == 0.0 ==> rE == rU
    ensures 0.0 <= D && 0.0 < E && rD <= rU ==> rU <= rE
  {
    LeverageTimesSpread(D, E, rU - rD);
    rU + (D / E) * (rU - rD)
  }

  /**
   * calcular_rE_MM called with Python floats: a division by zero exactly
   * when E is zero. The program's only call passes a numpy float D, for
   * which E = 0 gives NaN instead (see SimulateMM).
   */
  function CalculateMMCostOfEquity(rU: real, rD: real, D: real, E: real): (r: Result<real>)
    ensures r.Err? <==> E == 0.0
    ensures r.Err? ==> r.error == DivisionByZero
    ensures r.Ok? ==> E != 0.0 && r.value == MMCostOfEquity(rU, rD, D, E)
  {
    if E == 0.0 then Err(DivisionByZero) else Ok(MMCostOfEquity(rU, rD, D, E))
  }

  /** The levered cost of equity at leverage de: linear in de, rU + de * (rU - rD). */
  function MMCostAtLeverage(rU: real, rD: real, de: real): real
  {
    rU + de * (rU - rD)
  }

  /**
   * Setting D = de * E for a non-zero equity E, as the Proposition II sweep
   * does, gives a levered cost that depends on the leverage de alone.
   */
  lemma MMDependsOnLeverageOnly(rU: real, rD: real, de: real, E: real)
    requires E != 0.0
    ensures MMCostOfEquity(rU, rD, de * E, E) == MMCostAtLeverage(rU, rD, de)
  {
    assert (de * E) / E == de;
  }

  /** For a fixed positive equity, more debt never lowers rE when rU >= rD. */
  lemma MMMonotoneInDebt(rU: real, rD: real, D1: real, D2: real, E: real)
    requires 0.0 < E && D1 <= D2 && rD <= rU
    ensures MMCostOfEquity(rU, rD, D1, E) <= MMCostOfEquity(rU, rD, D2, E)
  {
    DivMonotone(D1, D2, E);
    MulMonotone(D1 / E, D2 / E, rU - rD);
  }

  /**
   * For strictly more debt on positive equity, rE strictly rises exactly
   * when the unlevered cost exceeds the cost of debt.
   */
  lemma MMStrictlyIncreasingIff(rU: real, rD: real, D1: real, D2: real, E: real)
    requires 0.0 < E && D1 < D2
    ensures MMCostOfEquity(rU, rD, D1, E) < MMCostOfEquity(rU, rD, D2, E) <==> rD < rU
  {
    DivStrictMonotone(D1, D2, E);
    if rD < rU {
      MulStrictMonotone(D1 / E, D2 / E, rU - rD);
    } else {
      MulAntitone(D1 / E, D2 / E, rU - rD);
    }
  }

  /**
   * Proposition II keeps the firm's cost of capital constant: without
   * taxes, the WACC computed with the levered cost of equity of
   * Proposition II is the unlevered cost rU, whatever the debt.
   */
  lemma MMKeepsWaccAtUnleveredCost(rU: real, rD: real, D: real, E: real)
    requires E != 0.0 && D + E != 0.0
    ensures Wacc(D, E, rD, MMCostOfEquity(rU, rD, D, E), 0.0, false) == rU
  {
    var V := D + E;
    var q := D / E;
    var rE := MMCostOfEquity(rU, rD, D, E);
    var wD, wE := DebtWeight(D, E), EquityWeight(D, E);
    WeightsSumToOne(D, E);
    // wE * q == wD, since both times V give D
    assert wE * V == E && wD * V == D && q * E == D;
    assert (wE * q) * V == (wE * V) * q;
    CancelNonzero(wE * q, wD, V);
    assert wE * rE == wE * rU + (wE * q) * (rU - rD);
    assert wE * rE + wD * rD == (wE + wD) * rU;
  }

  // ---------------------------------------------------------------------
  // Worked figures
  // ---------------------------------------------------------------------

  /** D = E = 100, rD = 0.08, rE = 0.12, T = 0.34: 0.0864 with taxes, 0.10 without. */
  lemma WaccWorkedExample()
    ensures Wacc(100.0, 100.0, 0.08, 0.12, 0.34, true) == 0.0864
    ensures Wacc(100.0, 100.0, 0.08, 0.12, 0.34, false) == 0.10
  {
    assert DebtWeight(100.0, 100.0) == 0.5 && EquityWeight(100.0, 100.0) == 0.5;
  }

  /** rU = 0.10, rD = 0.06, D = 200, E = 100: rE = 0.18. */
  lemma MMWorkedExample()
    ensures MMCostOfEquity(0.10, 0.06, 200.0, 100.0) == 0.18
  {
    assert 200.0 / 100.0 == 2.0;
  }

  // ---------------------------------------------------------------------
  // Real arithmetic used by the proofs above
  // ---------------------------------------------------------------------

  /** A part between 0 and the whole is a share between 0 and 1 of it. */
  lemma ShareOfWhole(part: real, whole: real)
    requires whole != 0.0
    ensures 0.0 <= part <= whole ==> 0.0 <= part / whole <= 1.0
  {
    if 0.0 <= part <= whole {
      DivMonotone(0.0, part, whole);
      DivMonotone(part, whole, whole);
    }
  }

  /** A non-negative ratio D / E times a non-negative spread is non-negative. */
  lemma LeverageTimesSpread(D: real, E: real, spread: real)
    requires E != 0.0
    ensures 0.0 <= D && 0.0 < E && 0.0 <= spread ==> 0.0 <= (D / E) * spread
  {
    if 0.0 <= D && 0.0 < E && 0.0 <= spread {
      DivMonotone(0.0, D, E);
      MulNonneg(D / E, spread);
    }
  }

  /** A weight in [0, 1] scales g to a value between 0 and g. */
  lemma ScaleWithinUnit(w: real, g: real)
    requires 0.0 <= w <= 1.0
    ensures Min(0.0, g) <= w * g <= Max(0.0, g)
  {
    if 0.0 <= g {
      MulMonotone(0.0, w, g);
      MulMonotone(w, 1.0, g);
    } else {
      MulAntitone(0.0, w, g);
      MulAntitone(w, 1.0, g);
    }
  }

  /** The amount the tax shield takes off the WACC, wD * rD * T, is non-negative. */
  lemma ShieldNonneg(D: real, E: real, rD: real, T: real)
    requires 0.0 <= D && 0.0 < E && 0.0 <= rD && 0.0 <= T
    ensures 0.0 <= DebtWeight(D, E) * rD * T
  {
    MulNonneg(DebtWeight(D, E), rD);
    MulNonneg(DebtWeight(D, E) * rD, T);
  }

  lemma MulNonneg(x: real, y: real)
    requires 0.0 <= x && 0.0 <= y
    ensures 0.0 <= x * y
  {
  }

  lemma MulNonzero(x: real, y: real)
    requires x != 0.0 && y != 0.0
    ensures x * y != 0.0
  {
  }

  lemma MulMonotone(a: real, b: real, c: real)
    requires a <= b && 0.0 <= c
    ensures a * c <= b * c
  {
    MulNonneg(b - a, c);
    assert b * c - a * c == (b - a) * c;
  }

  lemma MulStrictMonotone(a: real, b: real, c: real)
    requires a < b && 0.0 < c
    ensures a * c < b * c
  {
    assert b * c - a * c == (b - a) * c;
  }

  lemma MulAntitone(a: real, b: real, c: real)
    requires a <= b && c <= 0.0
    ensures b * c <= a * c
  {
    MulNonneg(b - a, -c);
    assert a * c - b * c == (b - a) * (-c);
  }

  lemma CancelNonzero(x: real, y: real, v: real)
    requires v != 0.0 && x * v == y * v
    ensures x == y
  {
    assert (x - y) * v == 0.0;
  }

  lemma DivMonotone(a: real, b: real, c: real)
    requires a <= b && 0.0 < c
    ensures a / c <= b / c
  {
    MulMonotone(a, b, 1.0 / c);
    assert a / c == a * (1.0 / c) && b / c == b * (1.0 / c);
  }

  lemma DivStrictMonotone(a: real, b: real, c: real)
    requires a < b && 0.0 < c
    ensures a / c < b / c
  {
    assert 0.0 < 1.0 / c;
    MulStrictMonotone(a, b, 1.0 / c);
    assert a / c == a * (1.0 / c) && b / c == b * (1.0 / c);
  }

  lemma ReciprocalAntitone(x: real, y: real)
    requires 0.0 < x <= y
    ensures 1.0 / y <= 1.0 / x
  {
    var p, r := 1.0 / x, 1.0 / y;
    assert p * x == 1.0 && r * y == 1.0;
    assert 0.0 < p && 0.0 < r;
    MulNonneg(p * r, y - x);
    assert (p * r) * (y - x) == p * (r * y) - r * (p * x);
  }
}
