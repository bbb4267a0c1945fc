/** The threshold gate: which coverage categories fall below their configured
    minimum under a cross-module aggregation policy. */
module Thresholds {
  import Coverage

  /** The members of the `ThresholdTypeFlags` bit-flag enum; a combination of
      flags is a set of them, and `None` is the empty set. */
  datatype ThresholdType = Line | Branch | Method

  /** How per-module percentages are combined before the comparison. */
  datatype ThresholdStatistic = Minimum | Maximum | Average | Total

  /** The configured minimum percentage per category (a dictionary: a category
      that is not a key is never evaluated). */
  type ThresholdValues = map<ThresholdType, real>

  /** The covered/total counts of a category over the given methods. */
  function Details(t: ThresholdType, ms: seq<Coverage.Method>): Coverage.CoverageDetails
  {
    match t
    case Line => Coverage.LineCoverageOf(ms)
    case Branch => Coverage.BranchCoverageOf(ms)
    case Method => Coverage.MethodCoverageOf(ms)
  }

  /** The percentage of a category within one module. */
  function ModulePercent(t: ThresholdType, documents: Coverage.Documents): real
  {
    Details(t, Coverage.MethodsOfModule(documents)).Percent()
  }

  /** Picks the value belonging to a category out of a (line, branch, method) triple. */
  function Select(t: ThresholdType, linePercent: real, branchPercent: real, methodPercent: real): real
  {
    match t
    case Line => linePercent
    case Branch => branchPercent
    case Method => methodPercent
  }

  /** Adds to `flags` each configured category whose threshold is strictly
      greater than its achieved percentage. */
  function CompareThresholdValues(values: ThresholdValues, flags: set<ThresholdType>,
                                  linePercent: real, branchPercent: real, methodPercent: real): (r: set<ThresholdType>)
    ensures forall t :: t in r <==> t in flags || (t in values && values[t] > Select(t, linePercent, branchPercent, methodPercent))
  {
    var withLine := if Line in values && values[Line] > linePercent then flags + {Line} else flags;
    var withBranch := if Branch in values && values[Branch] > branchPercent then withLine + {Branch} else withLine;
    if Method in values && values[Method] > methodPercent then withBranch + {Method} else withBranch
  }

  /** The Minimum policy's loop: every module is compared on its own and the
      failing categories are accumulated. */
  function MinimumLoop(values: ThresholdValues, flags: set<ThresholdType>, modules: Coverage.Modules): (r: set<ThresholdType>)
    ensures forall t :: t in r <==> t in flags || (t in values && exists i :: 0 <= i < |modules| && values[t] > ModulePercent(t, modules[i].1))
    decreases |modules|
  {
    if |modules| == 0 then flags
    else
      var documents := modules[0].1;
      var flags' := CompareThresholdValues(values, flags, ModulePercent(Line, documents),
                                           ModulePercent(Branch, documents), ModulePercent(Method, documents));
      var r := MinimumLoop(values, flags', modules[1..]);
      assert forall i :: 0 <= i < |modules| - 1 ==> modules[1..][i] == modules[i + 1];
      r
  }

  /** The lowest per-module percentage. */
  function MinPercent(t: ThresholdType, modules: Coverage.Modules): (p: real)
    requires |modules| > 0
    ensures forall i :: 0 <= i < |modules| ==> p <= ModulePercent(t, modules[i].1)
    ensures exists i :: 0 <= i < |modules| && p == ModulePercent(t, modules[i].1)
    decreases |modules|
  {
    var here := ModulePercent(t, modules[0].1);
    if |modules| == 1 then here
    else
      var rest := MinPercent(t, modules[1..]);
      assert forall i :: 1 <= i < |modules| ==> modules[i] == modules[1..][i - 1];
      if here <= rest then here else rest
  }

  /** The highest per-module percentage. */
  function MaxPercent(t: ThresholdType, modules: Coverage.Modules): (p: real)
    requires |modules| > 0
    ensures forall i :: 0 <= i < |modules| ==> ModulePercent(t, modules[i].1) <= p
    ensures exists i :: 0 <= i < |modules| && p == ModulePercent(t, modules[i].1)
    decreases |modules|
  {
    var here := ModulePercent(t, modules[0].1);
    if |modules| == 1 then here
    else
      var rest := MaxPercent(t, modules[1..]);
      assert forall i :: 1 <= i < |modules| ==> modules[i] == modules[1..][i - 1];
      if here >= rest then here else rest
  }

  /** The per-module percentages of a category, in module order. */
  function Percents(t: ThresholdType, modules: Coverage.Modules): (ps: seq<real>)
    ensures |ps| == |modules|
    ensures forall i :: 0 <= i < |modules| ==> ps[i] == ModulePercent(t, modules[i].1)
  {
    seq(|modules|, i requires 0 <= i < |modules| => ModulePercent(t, modules[i].1))
  }

  /** The sum of a sequence of percentages. */
  function Sum(ps: seq<real>): real
    decreases |ps|
  {
    if |ps| == 0 then 0.0 else ps[0] + Sum(ps[1..])
  }

  /** The arithmetic mean of a non-empty sequence of percentages. */
  function Mean(ps: seq<real>): real
    requires |ps| > 0
  {
    Sum(ps) / (|ps| as real)
  }

  /** The percentage each policy compares against the threshold. With no
      modules at all the achieved percentage is 0, whatever the policy. */
  function Realized(t: ThresholdType, modules: Coverage.Modules, statistic: ThresholdStatistic): (r: real)
    ensures |modules| == 0 ==> r == 0.0
    ensures |modules| > 0 && statistic == Minimum ==>
      (forall i :: 0 <= i < |modules| ==> r <= ModulePercent(t, modules[i].1)) &&
      (exists i :: 0 <= i < |modules| && r == ModulePercent(t, modules[i].1))
    ensures |modules| > 0 && statistic == Maximum ==>
      (forall i :: 0 <= i < |modules| ==> ModulePercent(t, modules[i].1) <= r) &&
      (exists i :: 0 <= i < |modules| && r == ModulePercent(t, modules[i].1))
    ensures |modules| > 0 && statistic == Total ==> r == Details(t, Coverage.MethodsOfModules(modules)).Percent()
  {
    if |modules| == 0 then 0.0
    else
      match statistic
      case Minimum => MinPercent(t, modules)
      case Maximum => MaxPercent(t, modules)
      case Average => Mean(Percents(t, modules))
      case Total => Details(t, Coverage.MethodsOfModules(modules)).Percent()
  }

  /** The counts of a category over a scope taken as one pool: all its lines,
      all its branch records, or all its methods. */
  function PooledDetails(t: ThresholdType, ms: seq<Coverage.Method>): Coverage.CoverageDetails
  {
    match t
    case Line => Coverage.LineCoverage(Coverage.AllLines(ms))
    case Branch => Coverage.BranchCoverage(Coverage.AllBranches(ms))
    case Method => Coverage.MethodCoverageOf(ms)
  }

  /** The Total policy realises the percentage of the pooled counts of the
      whole result, not a combination of per-module percentages. */
  lemma TotalIsPooled(t: ThresholdType, modules: Coverage.Modules)
    requires |modules| > 0
    ensures Realized(t, modules, Total) == PooledDetails(t, Coverage.MethodsOfModules(modules)).Percent()
  {
    var ms := Coverage.MethodsOfModules(modules);
    Coverage.ScopeCoverageIsPooled(ms);
    assert Details(t, ms) == PooledDetails(t, ms);
  }

  /** `x` added to itself `n` times. */
  function Scaled(x: real, n: nat): real
    decreases n
  {
    if n == 0 then 0.0 else x + Scaled(x, n - 1)
  }

  /** The Average policy realises the mean of the per-module percentages: the
      realised value, counted once per module, adds up to their sum. */
  lemma AverageIsMean(t: ThresholdType, modules: Coverage.Modules)
    requires |modules| > 0
    ensures Scaled(Realized(t, modules, Average), |modules|) == Sum(Percents(t, modules))
  {
    RealizedAverage(t, modules);
    MeanTimesCount(Percents(t, modules), Realized(t, modules, Average), |modules|);
  }

  /** The Average policy takes the mean of the per-module percentages. */
  lemma RealizedAverage(t: ThresholdType, modules: Coverage.Modules)
    requires |modules| > 0
    ensures Realized(t, modules, Average) == Mean(Percents(t, modules))
  {
  }

  /** A mean counted once per value adds up to the sum of the values. */
  lemma MeanTimesCount(ps: seq<real>, mean: real, count: nat)
    requires |ps| > 0 && count == |ps| && mean == Mean(ps)
    ensures Scaled(mean, count) == Sum(ps)
  {
    ScaledIsProduct(mean, count);
  }

  /** Repeated addition is multiplication. */
  lemma {:induction false} ScaledIsProduct(x: real, n: nat)
    ensures Scaled(x, n) == x * (n as real)
    decreases n
  {
    if n > 0 {
      ScaledIsProduct(x, n - 1);
      calc {
        Scaled(x, n);
        x + x * ((n - 1) as real);
        x * (1.0 + ((n - 1) as real));
        x * (n as real);
      }
    }
  }

  /** `CoverageResult.GetThresholdTypesBelowThreshold`: the categories whose
      configured minimum is not met. */
  function GetThresholdTypesBelowThreshold(modules: Coverage.Modules, values: ThresholdValues,
                                           statistic: ThresholdStatistic): (r: set<ThresholdType>)
    ensures r <= values.Keys
    ensures |modules| == 0 ==> forall t :: t in r <==> t in values && values[t] > 0.0
  {
    if |modules| == 0 then CompareThresholdValues(values, {}, 0.0, 0.0, 0.0)
    else
      match statistic
      case Minimum => MinimumLoop(values, {}, modules)
      case _ =>
        CompareThresholdValues(values, {}, Realized(Line, modules, statistic),
                               Realized(Branch, modules, statistic), Realized(Method, modules, statistic))
  }

  /** Under every policy a category fails exactly when it is configured and its
      threshold exceeds the percentage the policy realises; for Minimum this
      says the per-module loop fails a category iff the worst module misses it. */
  lemma GateIsBelowRealized(modules: Coverage.Modules, values: ThresholdValues, statistic: ThresholdStatistic, t: ThresholdType)
    ensures t in GetThresholdTypesBelowThreshold(modules, values, statistic)
        <==> t in values && values[t] > Realized(t, modules, statistic)
  {
    if |modules| > 0 && statistic == Minimum && t in values {
      var m := MinPercent(t, modules);
      if values[t] > m {
        var i :| 0 <= i < |modules| && m == ModulePercent(t, modules[i].1);
        assert values[t] > ModulePercent(t, modules[i].1);
      }
    }
  }

  /** With a single module the four policies agree. */
  lemma SingleModulePoliciesAgree(modules: Coverage.Modules, values: ThresholdValues, t: ThresholdType)
    requires |modules| == 1
    ensures Realized(t, modules, Minimum) == ModulePercent(t, modules[0].1)
    ensures Realized(t, modules, Maximum) == ModulePercent(t, modules[0].1)
    ensures Realized(t, modules, Average) == ModulePercent(t, modules[0].1)
    ensures Realized(t, modules, Total) == ModulePercent(t, modules[0].1)
  {
    assert modules[1..] == [];
    assert Sum(Percents(t, modules)) == ModulePercent(t, modules[0].1) + Sum(Percents(t, modules)[1..]);
    assert Coverage.MethodsOfModules(modules[1..]) == [];
    assert Coverage.MethodsOfModules(modules) == Coverage.MethodsOfModule(modules[0].1) + [];
    assert Coverage.MethodsOfModule(modules[0].1) + [] == Coverage.MethodsOfModule(modules[0].1);
  }

  /** With no module instrumented every category configured with a positive
      threshold fails, under every policy. */
  lemma NoModulesFailEverything(values: ThresholdValues, statistic: ThresholdStatistic)
    requires forall t :: t in values ==> values[t] > 0.0
    ensures GetThresholdTypesBelowThreshold([], values, statistic) == values.Keys
  {
  }

  // ---------------------------------------------------------------------------
  // The assertions of the coverage-result tests

  /** The fixture module's percentages: lines 60, branches 200/3, methods 50. */
  lemma FixturePercents(t: ThresholdType)
    ensures ModulePercent(t, Coverage.FixtureModules[0].1) == Select(t, 60.0, 200.0 / 3.0, 50.0)
  {
    var ms := Coverage.MethodsOfModule(Coverage.FixtureModules[0].1);
    FixtureModuleCounts();
    FixtureCountPercents();
    CategoryPercent(t, ms, Coverage.CoverageDetails(3, 5), Coverage.CoverageDetails(2, 3), Coverage.CoverageDetails(1, 2));
  }

  lemma FixtureModuleCounts()
    ensures Coverage.LineCoverageOf(Coverage.MethodsOfModule(Coverage.FixtureModules[0].1)) == Coverage.CoverageDetails(3, 5)
    ensures Coverage.BranchCoverageOf(Coverage.MethodsOfModule(Coverage.FixtureModules[0].1)) == Coverage.CoverageDetails(2, 3)
    ensures Coverage.MethodCoverageOf(Coverage.MethodsOfModule(Coverage.FixtureModules[0].1)) == Coverage.CoverageDetails(1, 2)
  {
    Coverage.FixtureMethods();
    Coverage.FixtureLineCounts();
    Coverage.FixtureBranchCounts();
    Coverage.FixtureMethodCounts();
  }

  lemma FixtureCountPercents()
    ensures Coverage.CoverageDetails(3, 5).Percent() == 60.0
    ensures Coverage.CoverageDetails(2, 3).Percent() == 200.0 / 3.0
    ensures Coverage.CoverageDetails(1, 2).Percent() == 50.0
  {
    PercentOf(3, 5, 60.0);
    PercentOf(2, 3, 200.0 / 3.0);
    PercentOf(1, 2, 50.0);
  }

  /** The percentage of a category is that of the category's counts. */
  lemma CategoryPercent(t: ThresholdType, ms: seq<Coverage.Method>,
                        lineCounts: Coverage.CoverageDetails, branchCounts: Coverage.CoverageDetails,
                        methodCounts: Coverage.CoverageDetails)
    requires Coverage.LineCoverageOf(ms) == lineCounts
    requires Coverage.BranchCoverageOf(ms) == branchCounts
    requires Coverage.MethodCoverageOf(ms) == methodCounts
    ensures Details(t, ms).Percent() == Select(t, lineCounts.Percent(), branchCounts.Percent(), methodCounts.Percent())
  {
  }

  lemma PercentOf(covered: nat, total: nat, p: real)
    requires total > 0 && p * (total as real) == (covered as real) * 100.0
    ensures Coverage.CoverageDetails(covered, total).Percent() == p
  {
  }

  /** The realised percentages of the fixture under any policy. */
  lemma FixtureRealized(t: ThresholdType, statistic: ThresholdStatistic)
    ensures Realized(t, Coverage.FixtureModules, statistic) == Select(t, 60.0, 200.0 / 3.0, 50.0)
  {
    FixturePercents(t);
    SingleModulePoliciesAgree(Coverage.FixtureModules, map[], t);
  }

  /** The fixture gate decides each category by comparing against (60, 200/3, 50). */
  lemma FixtureGate(values: ThresholdValues, statistic: ThresholdStatistic)
    ensures forall t :: t in GetThresholdTypesBelowThreshold(Coverage.FixtureModules, values, statistic)
                <==> t in values && values[t] > Select(t, 60.0, 200.0 / 3.0, 50.0)
  {
    forall t
      ensures t in GetThresholdTypesBelowThreshold(Coverage.FixtureModules, values, statistic)
          <==> t in values && values[t] > Select(t, 60.0, 200.0 / 3.0, 50.0)
    {
      GateIsBelowRealized(Coverage.FixtureModules, values, statistic, t);
      FixtureRealized(t, statistic);
    }
  }

  lemma MinimumReportsLine()
    ensures GetThresholdTypesBelowThreshold(Coverage.FixtureModules, map[Line := 90.0, Method := 10.0, Branch := 10.0], Minimum) == {Line}
  {
    FixtureGate(map[Line := 90.0, Method := 10.0, Branch := 10.0], Minimum);
  }

  lemma MinimumReportsMethod()
    ensures GetThresholdTypesBelowThreshold(Coverage.FixtureModules, map[Line := 50.0, Method := 75.0, Branch := 10.0], Minimum) == {Method}
  {
    FixtureGate(map[Line := 50.0, Method := 75.0, Branch := 10.0], Minimum);
  }

  lemma TotalReportsBranch()
    ensures GetThresholdTypesBelowThreshold(Coverage.FixtureModules, map[Line := 50.0, Method := 50.0, Branch := 90.0], Total) == {Branch}
  {
    FixtureGate(map[Line := 50.0, Method := 50.0, Branch := 90.0], Total);
  }

  /** Method coverage of exactly 50% meets a threshold of 50: the comparison is strict. */
  lemma AverageReportsNone()
    ensures GetThresholdTypesBelowThreshold(Coverage.FixtureModules, map[Line := 50.0, Method := 50.0, Branch := 50.0], Average) == {}
  {
    FixtureGate(map[Line := 50.0, Method := 50.0, Branch := 50.0], Average);
  }

  lemma FullThresholdsReportAll()
    ensures GetThresholdTypesBelowThreshold(Coverage.FixtureModules, map[Line := 100.0, Method := 100.0, Branch := 100.0], Minimum) == {Line, Branch, Method}
  {
    FixtureGate(map[Line := 100.0, Method := 100.0, Branch := 100.0], Minimum);
  }

  lemma NoModulesReportAll()
    ensures GetThresholdTypesBelowThreshold([], map[Line := 80.0, Method := 80.0, Branch := 80.0], Minimum) == {Line, Branch, Method}
  {
    NoModulesFailEverything(map[Line := 80.0, Method := 80.0, Branch := 80.0], Minimum);
  }
}
