/**
 * The two leverage sweeps of the calculator: the WACC and the levered cost
 * of equity (Modigliani-Miller Proposition II) tabulated over an evenly
 * spaced grid of debt-to-equity ratios from 0 to 5. Plotting, printing and
 * the saved image files are not part of this model; each sweep returns
 * the values it would plot.
 */
module LeverageSweeps {
  import opened CostOfCapital

  /** The leverage grid runs from D/E = 0 to D/E = 5 (0% to 500% debt). */
  const MaxLeverage: real := 5.0

  /** Number of grid points of the WACC sweep. */
  const WaccGridSize: nat := 100

  /** Number of grid points of the Modigliani-Miller sweep. */
  const MMGridSize: nat := 40

  /**
   * num evenly spaced points from start to stop, both ends included, as
   * numpy's linspace computes them (over exact reals): a single point is
   * start, and from two points on consecutive points are
   * (stop - start) / (num - 1) apart.
   */
  function Linspace(start: real, stop: real, num: nat): (xs: seq<real>)
    ensures |xs| == num
    ensures num >= 1 ==> xs[0] == start
    ensures num >= 2 ==> xs[num - 1] == stop
  {
    if num == 0 then []
    else if num == 1 then [start]
    else
      var step := LinspaceStep(start, stop, num);
      assert (num - 1) as real * step == stop - start;
      seq(num, i requires 0 <= i < num => start + i as real * step)
  }

  /** The distance between consecutive points of a grid of num >= 2 points. */
  function LinspaceStep(start: real, stop: real, num: nat): (step: real)
    requires 2 <= num
    ensures (num - 1) as real * step == stop - start
    ensures start <= stop ==> 0.0 <= step
    ensures start < stop ==> 0.0 < step
  {
    var n := (num - 1) as real;
    SpanOverCount(stop - start, n);
    (stop - start) / n
  }

  /** A non-negative span over a positive count is non-negative, and positive when the span is. */
  lemma SpanOverCount(span: real, n: real)
    requires 0.0 < n
    ensures 0.0 <= span ==> 0.0 <= span / n
    ensures 0.0 < span ==> 0.0 < span / n
  {
    if 0.0 < span {
      DivStrictMonotone(0.0, span, n);
    }
  }

  /**
   * An increasing range gives a non-decreasing grid inside [start, stop],
   * strictly increasing when start < stop.
   */
  lemma LinspaceOrdered(start: real, stop: real, num: nat)
    requires start <= stop
    ensures forall i :: 0 <= i < num ==> start <= Linspace(start, stop, num)[i] <= stop
    ensures forall i, j :: 0 <= i <= j < num ==> Linspace(start, stop, num)[i] <= Linspace(start, stop, num)[j]
    ensures start < stop ==>
              forall i, j :: 0 <= i < j < num ==> Linspace(start, stop, num)[i] < Linspace(start, stop, num)[j]
  {
    var xs := Linspace(start, stop, num);
    if num >= 2 {
      forall i, j | 0 <= i <= j < num
        ensures xs[i] <= xs[j]
        ensures i < j && start < stop ==> xs[i] < xs[j]
      {
        LinspacePairOrdered(start, stop, num, i, j);
      }
      forall i | 0 <= i < num
        ensures start <= xs[i] <= stop
      {
        assert xs[0] <= xs[i] <= xs[num - 1];
      }
    }
  }

  /** Two points of an increasing grid are in the order of their indices. */
  lemma LinspacePairOrdered(start: real, stop: real, num: nat, i: nat, j: nat)
    requires start <= stop && 2 <= num && i <= j < num
    ensures Linspace(start, stop, num)[i] <= Linspace(start, stop, num)[j]
    ensures i < j && start < stop ==> Linspace(start, stop, num)[i] < Linspace(start, stop, num)[j]
  {
    LinspaceAt(start, stop, num, i);
    LinspaceAt(start, stop, num, j);
    MulMonotone(i as real, j as real, LinspaceStep(start, stop, num));
    if i < j && start < stop {
      MulStrictMonotone(i as real, j as real, LinspaceStep(start, stop, num));
    }
  }

  /** Point i of the grid is start + i * step, with step = (stop - start) / (num - 1). */
  lemma LinspaceAt(start: real, stop: real, num: nat, i: nat)
    requires 2 <= num && i < num
    ensures Linspace(start, stop, num)[i] == start + i as real * LinspaceStep(start, stop, num)
  {
  }

  /** Consecutive points of the grid are the same step apart. */
  lemma LinspaceEvenlySpaced(start: real, stop: real, num: nat)
    requires 2 <= num
    ensures forall i :: 0 <= i < num - 1 ==>
              Linspace(start, stop, num)[i + 1] - Linspace(start, stop, num)[i] == LinspaceStep(start, stop, num)
  {
    var xs := Linspace(start, stop, num);
    var step := LinspaceStep(start, stop, num);
    forall i | 0 <= i < num - 1
      ensures xs[i + 1] - xs[i] == step
    {
      LinspaceAt(start, stop, num, i);
      LinspaceAt(start, stop, num, i + 1);
      assert (i + 1) as real * step - i as real * step == step;
    }
  }

  /**
   * grafico_wacc_vs_alavancagem without the chart: over the 100-point grid
   * of leverages de, sets D = de * E, computes the WACC with taxes and
   * collects it. Element i is the WACC at the i-th leverage; the first is
   * the cost of equity. The curve falls with leverage when the after-tax
   * cost of debt is at most the cost of equity, and rises otherwise.
   */
  method WaccSweep(E: real, rD: real, rE: real, T: real) returns (ratios: seq<real>, waccs: seq<real>)
    requires E != 0.0
    ensures ratios == Linspace(0.0, MaxLeverage, WaccGridSize)
    ensures |waccs| == |ratios| == WaccGridSize
    ensures IsWaccColumn(E, rD, rE, T, ratios, waccs)
    ensures forall i :: 0 <= i < |waccs| ==>
              0.0 <= ratios[i] && waccs[i] == WaccAtLeverage(ratios[i], rD, rE, T, true)
    ensures ratios[0] == 0.0 && waccs[0] == rE
    ensures rD * (1.0 - T) <= rE ==> forall i, j :: 0 <= i <= j < |waccs| ==> waccs[j] <= waccs[i]
    ensures rE <= rD * (1.0 - T) ==> forall i, j :: 0 <= i <= j < |waccs| ==> waccs[i] <= waccs[j]
  {
    ratios := Linspace(0.0, MaxLeverage, WaccGridSize);
    LinspaceOrdered(0.0, MaxLeverage, WaccGridSize);
    waccs := [];
    var i := 0;
    while i < |ratios|
      invariant 0 <= i <= |ratios|
      invariant |waccs| == i
      invariant forall k :: 0 <= k < i ==> waccs[k] == WaccAtLeverage(ratios[k], rD, rE, T, true)
    {
      var de := ratios[i];
      WaccDependsOnLeverageOnly(de, E, rD, rE, T, true);
      var D := de * E;
      var wacc := Wacc(D, E, rD, rE, T, true);
      waccs := waccs + [wacc];
      i := i + 1;
    }
    WaccColumnIsFormula(E, rD, rE, T, ratios, waccs);
    WaccColumnOrdered(rD, rE, T, ratios, waccs);
  }

  /**
   * Each WACC is the WACC with taxes applied at its leverage de with
   * D = de * E, where the firm value de * E + E is not zero.
   */
  ghost predicate IsWaccColumn(E: real, rD: real, rE: real, T: real, ratios: seq<real>, waccs: seq<real>)
  {
    |waccs| == |ratios| &&
    forall k :: 0 <= k < |ratios| ==> IsWaccRow(E, rD, rE, T, ratios[k], waccs[k])
  }

  /** The WACC with taxes at leverage de, with D = de * E. */
  ghost predicate IsWaccRow(E: real, rD: real, rE: real, T: real, de: real, wacc: real)
  {
    de * E + E != 0.0 && wacc == Wacc(de * E, E, rD, rE, T, true)
  }

  /** A column of WACCs at the given leverages is the WACC with taxes applied with D = de * E. */
  lemma WaccColumnIsFormula(E: real, rD: real, rE: real, T: real, ratios: seq<real>, waccs: seq<real>)
    requires E != 0.0 && |waccs| == |ratios|
    requires forall k :: 0 <= k < |ratios| ==> 0.0 <= ratios[k]
    requires forall k :: 0 <= k < |ratios| ==> waccs[k] == WaccAtLeverage(ratios[k], rD, rE, T, true)
    ensures IsWaccColumn(E, rD, rE, T, ratios, waccs)
  {
    forall k | 0 <= k < |ratios|
      ensures IsWaccRow(E, rD, rE, T, ratios[k], waccs[k])
    {
      WaccRowIsFormula(E, rD, rE, T, ratios[k], waccs[k]);
    }
  }

  /** One row of WaccColumnIsFormula. */
  lemma WaccRowIsFormula(E: real, rD: real, rE: real, T: real, de: real, wacc: real)
    requires E != 0.0 && 0.0 <= de
    requires wacc == WaccAtLeverage(de, rD, rE, T, true)
    ensures IsWaccRow(E, rD, rE, T, de, wacc)
  {
    WaccDependsOnLeverageOnly(de, E, rD, rE, T, true);
  }

  /**
   * Over growing leverages the WACCs with taxes never rise when the
   * after-tax cost of debt is at most the cost of equity, and never fall
   * when it is at least that.
   */
  lemma WaccColumnOrdered(rD: real, rE: real, T: real, ratios: seq<real>, waccs: seq<real>)
    requires |waccs| == |ratios|
    requires forall k :: 0 <= k < |ratios| ==> 0.0 <= ratios[k]
    requires forall i, j :: 0 <= i <= j < |ratios| ==> ratios[i] <= ratios[j]
    requires forall k :: 0 <= k < |ratios| ==> waccs[k] == WaccAtLeverage(ratios[k], rD, rE, T, true)
    ensures rD * (1.0 - T) <= rE ==> forall i, j :: 0 <= i <= j < |waccs| ==> waccs[j] <= waccs[i]
    ensures rE <= rD * (1.0 - T) ==> forall i, j :: 0 <= i <= j < |waccs| ==> waccs[i] <= waccs[j]
  {
    forall i, j | 0 <= i <= j < |waccs|
      ensures rD * (1.0 - T) <= rE ==> waccs[j] <= waccs[i]
      ensures rE <= rD * (1.0 - T) ==> waccs[i] <= waccs[j]
    {
      WaccMonotoneInLeverage(ratios[i], ratios[j], rD, rE, T, true);
    }
  }

  /** The Modigliani-Miller table: a leverage column and a levered cost of equity column. */
  datatype Table = Table(leverage: seq<real>, leveredCost: seq<real>)

  /**
   * simular_proposicao_MM without the printout and the chart: over the
   * 40-point grid of leverages de, sets D = de * E, computes rE by
   * Proposition II and collects it, then pairs the grid with the results
   * as a two-column table. The columns have one row per grid point; row i
   * holds rU + de_i * (rU - rD), so the first row is (0, rU), and the rE
   * column never falls when rU >= rD and strictly rises when rU > rD.
   */
  method SimulateMM(rU: real, rD: real, E: real) returns (table: Table)
    requires E != 0.0
    ensures table.leverage == Linspace(0.0, MaxLeverage, MMGridSize)
    ensures |table.leveredCost| == |table.leverage| == MMGridSize
    ensures IsMMColumn(rU, rD, E, table.leverage, table.leveredCost)
    ensures forall i :: 0 <= i < MMGridSize ==>
              table.leveredCost[i] == MMCostAtLeverage(rU, rD, table.leverage[i])
    ensures table.leverage[0] == 0.0 && table.leveredCost[0] == rU
    ensures rD <= rU ==>
              forall i, j :: 0 <= i <= j < MMGridSize ==> table.leveredCost[i] <= table.leveredCost[j]
    ensures rD < rU ==>
              forall i, j :: 0 <= i < j < MMGridSize ==> table.leveredCost[i] < table.leveredCost[j]
  {
    var ratios := Linspace(0.0, MaxLeverage, MMGridSize);
    LinspaceOrdered(0.0, MaxLeverage, MMGridSize);
    var costs: seq<real> := [];
    var i := 0;
    while i < |ratios|
      invariant 0 <= i <= |ratios|
      invariant |costs| == i
      invariant forall k :: 0 <= k < i ==> costs[k] == MMCostAtLeverage(rU, rD, ratios[k])
    {
      var de := ratios[i];
      MMDependsOnLeverageOnly(rU, rD, de, E);
      var D := de * E;
      var cost := MMCostOfEquity(rU, rD, D, E);
      costs := costs + [cost];
      i := i + 1;
    }
    table := Table(ratios, costs);
    MMColumnIsFormula(rU, rD, E, ratios, costs);
    MMColumnOrdered(rU, rD, ratios, costs);
  }

  /** Each cost is Proposition II applied at its leverage de with D = de * E. */
  ghost predicate IsMMColumn(rU: real, rD: real, E: real, ratios: seq<real>, costs: seq<real>)
    requires E != 0.0
  {
    |costs| == |ratios| &&
    forall k :: 0 <= k < |ratios| ==> IsMMRow(rU, rD, E, ratios[k], costs[k])
  }

  /** Proposition II at leverage de, with D = de * E. */
  ghost predicate IsMMRow(rU: real, rD: real, E: real, de: real, cost: real)
    requires E != 0.0
  {
    cost == MMCostOfEquity(rU, rD, de * E, E)
  }

  /** A column of levered costs at the given leverages is Proposition II applied with D = de * E. */
  lemma MMColumnIsFormula(rU: real, rD: real, E: real, ratios: seq<real>, costs: seq<real>)
    requires E != 0.0 && |costs| == |ratios|
    requires forall k :: 0 <= k < |ratios| ==> costs[k] == MMCostAtLeverage(rU, rD, ratios[k])
    ensures IsMMColumn(rU, rD, E, ratios, costs)
  {
    forall k | 0 <= k < |ratios|
      ensures IsMMRow(rU, rD, E, ratios[k], costs[k])
    {
      MMRowIsFormula(rU, rD, E, ratios[k], costs[k]);
    }
  }

  /** One row of MMColumnIsFormula. */
  lemma MMRowIsFormula(rU: real, rD: real, E: real, de: real, cost: real)
    requires E != 0.0
    requires cost == MMCostAtLeverage(rU, rD, de)
    ensures IsMMRow(rU, rD, E, de, cost)
  {
    MMDependsOnLeverageOnly(rU, rD, de, E);
  }

  /**
   * Over non-decreasing leverages the levered costs never fall when
   * rU >= rD, and when rU > rD they strictly rise wherever the leverage
   * strictly rises.
   */
  lemma MMColumnOrdered(rU: real, rD: real, ratios: seq<real>, costs: seq<real>)
    requires |costs| == |ratios|
    requires forall k :: 0 <= k < |ratios| ==> costs[k] == MMCostAtLeverage(rU, rD, ratios[k])
    requires forall i, j :: 0 <= i <= j < |ratios| ==> ratios[i] <= ratios[j]
    ensures rD <= rU ==> forall i, j :: 0 <= i <= j < |costs| ==> costs[i] <= costs[j]
    ensures rD < rU ==> forall i, j :: 0 <= i < j < |costs| && ratios[i] < ratios[j] ==> costs[i] < costs[j]
  {
    forall i, j | 0 <= i <= j < |costs|
      ensures rD <= rU ==> costs[i] <= costs[j]
      ensures ratios[i] < ratios[j] && rD < rU ==> costs[i] < costs[j]
    {
      MMRowsOrdered(rU, rD, ratios[i], ratios[j], ratios[i] < ratios[j]);
    }
  }

  /** Levered costs follow the order of their leverages when rU >= rD, strictly when rU > rD. */
  lemma MMRowsOrdered(rU: real, rD: real, a: real, b: real, strict: bool)
    requires a <= b && (strict ==> a < b)
    ensures rD <= rU ==> MMCostAtLeverage(rU, rD, a) <= MMCostAtLeverage(rU, rD, b)
    ensures strict && rD < rU ==> MMCostAtLeverage(rU, rD, a) < MMCostAtLeverage(rU, rD, b)
  {
    var c := rU - rD;
    assert MMCostAtLeverage(rU, rD, a) == rU + a * c && MMCostAtLeverage(rU, rD, b) == rU + b * c;
    if 0.0 <= c {
      MulMonotone(a, b, c);
    }
    if strict && 0.0 < c {
      MulStrictMonotone(a, b, c);
    }
  }
}
