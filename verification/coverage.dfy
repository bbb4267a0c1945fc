/** The coverage data model (Module -> Document -> Class -> Method -> {Lines, Branches})
    and the statistics computed over it: covered/total counts of lines, branches
    and methods at every scope. */
module Coverage {
  import Seqs

  /** One branch exit point: the source line, the offset of the branching
      instruction (which groups the arms of one decision point), the outgoing
      edge, a tie-break ordinal and the hit count. */
  datatype BranchInfo = BranchInfo(line: int, offset: int, path: int, ordinal: int, hits: int)

  /** One tracked source line and its hit count. */
  datatype LineHit = LineHit(number: int, hits: int)

  datatype Method = Method(lines: seq<LineHit>, branches: seq<BranchInfo>)

  /** The dictionaries of the source, as key/value pairs in insertion order. */
  type Methods = seq<(string, Method)>
  type Classes = seq<(string, Methods)>
  type Documents = seq<(string, Classes)>
  type Modules = seq<(string, Documents)>

  /** The run-wide switches the reporters look at. */
  datatype Parameters = Parameters(deterministicReport: bool, useSourceLink: bool)

  datatype CoverageResult = CoverageResult(modules: Modules, parameters: Parameters)

  /** A covered/total pair. The percentage is kept exact; a scope with nothing
      to cover counts as fully covered. */
  datatype CoverageDetails = CoverageDetails(covered: nat, total: nat)
  {
    function Percent(): real
    {
      if total == 0 then 100.0 else (covered as real) * 100.0 / (total as real)
    }

    function Plus(other: CoverageDetails): CoverageDetails
    {
      CoverageDetails(covered + other.covered, total + other.total)
    }
  }

  /** A percentage lies in [0, 100] and is 100 exactly when everything is covered. */
  lemma PercentBounds(d: CoverageDetails)
    requires d.covered <= d.total
    ensures 0.0 <= d.Percent() <= 100.0
    ensures d.Percent() == 100.0 <==> d.covered == d.total
  {
    if d.total > 0 {
      var t := d.total as real;
      var c := d.covered as real;
      assert d.Percent() * t == c * 100.0;
      if d.Percent() == 100.0 {
        assert c * 100.0 == 100.0 * t;
      }
    }
  }

  // ---------------------------------------------------------------------------
  // Flattening the hierarchy to the methods of a scope

  function MethodsOfClass(ms: Methods): seq<Method>
    ensures |MethodsOfClass(ms)| == |ms|
    decreases |ms|
  {
    if |ms| == 0 then [] else [ms[0].1] + MethodsOfClass(ms[1..])
  }

  function MethodsOfDocument(cs: Classes): seq<Method>
    decreases |cs|
  {
    if |cs| == 0 then [] else MethodsOfClass(cs[0].1) + MethodsOfDocument(cs[1..])
  }

  function MethodsOfModule(ds: Documents): seq<Method>
    decreases |ds|
  {
    if |ds| == 0 then [] else MethodsOfDocument(ds[0].1) + MethodsOfModule(ds[1..])
  }

  function MethodsOfModules(mods: Modules): seq<Method>
    decreases |mods|
  {
    if |mods| == 0 then [] else MethodsOfModule(mods[0].1) + MethodsOfModules(mods[1..])
  }

  // ---------------------------------------------------------------------------
  // Statistics over a single line list / branch list

  /** Line coverage of a line list: a line is covered when its hit count is positive. */
  function LineCoverage(lines: seq<LineHit>): (d: CoverageDetails)
    ensures d.total == |lines|
    ensures d.covered <= d.total
    ensures d.covered == d.total <==> forall i :: 0 <= i < |lines| ==> lines[i].hits > 0
    ensures d.covered == 0 <==> forall i :: 0 <= i < |lines| ==> lines[i].hits <= 0
    decreases |lines|
  {
    if |lines| == 0 then CoverageDetails(0, 0)
    else
      var rest := LineCoverage(lines[1..]);
      CoverageDetails(rest.covered + (if lines[0].hits > 0 then 1 else 0), rest.total + 1)
  }

  /** Branch coverage of a branch list: every record counts, one with positive
      hits counts as covered; records are not merged by decision point. */
  function BranchCoverage(branches: seq<BranchInfo>): (d: CoverageDetails)
    ensures d.total == |branches|
    ensures d.covered <= d.total
    ensures d.covered == d.total <==> forall i :: 0 <= i < |branches| ==> branches[i].hits > 0
    ensures d.covered == 0 <==> forall i :: 0 <= i < |branches| ==> branches[i].hits <= 0
    decreases |branches|
  {
    if |branches| == 0 then CoverageDetails(0, 0)
    else
      var rest := BranchCoverage(branches[1..]);
      CoverageDetails(rest.covered + (if branches[0].hits > 0 then 1 else 0), rest.total + 1)
  }

  /** The covered line count is the number of lines with a positive hit count. */
  lemma {:induction false} LineCoveredIsFiltered(lines: seq<LineHit>)
    ensures LineCoverage(lines).covered == |Seqs.Filter((l: LineHit) => l.hits > 0, lines)|
    decreases |lines|
  {
    if |lines| > 0 {
      LineCoveredIsFiltered(lines[1..]);
    }
  }

  /** The covered branch count is the number of records with a positive hit count. */
  lemma {:induction false} BranchCoveredIsFiltered(branches: seq<BranchInfo>)
    ensures BranchCoverage(branches).covered == |Seqs.Filter((b: BranchInfo) => b.hits > 0, branches)|
    decreases |branches|
  {
    if |branches| > 0 {
      BranchCoveredIsFiltered(branches[1..]);
    }
  }

  /** A method counts as covered when at least one of its lines was hit. */
  predicate MethodCovered(m: Method)
  {
    exists i :: 0 <= i < |m.lines| && m.lines[i].hits > 0
  }

  // ---------------------------------------------------------------------------
  // Statistics over the methods of a scope

  /** Line coverage of a scope: the per-method counts summed. */
  function LineCoverageOf(ms: seq<Method>): (d: CoverageDetails)
    ensures d.covered <= d.total
    decreases |ms|
  {
    if |ms| == 0 then CoverageDetails(0, 0)
    else LineCoverage(ms[0].lines).Plus(LineCoverageOf(ms[1..]))
  }

  /** Branch coverage of a scope: the per-method counts summed. */
  function BranchCoverageOf(ms: seq<Method>): (d: CoverageDetails)
    ensures d.covered <= d.total
    decreases |ms|
  {
    if |ms| == 0 then CoverageDetails(0, 0)
    else BranchCoverage(ms[0].branches).Plus(BranchCoverageOf(ms[1..]))
  }

  /** A method with at least one tracked line. */
  predicate HasLines(m: Method)
  {
    |m.lines| > 0
  }

  /** A method with tracked lines, at least one of them hit. */
  predicate CoveredWithLines(m: Method)
  {
    |m.lines| > 0 && MethodCovered(m)
  }

  /** Method coverage of a scope: the per-method contributions summed. */
  function MethodCoverageOf(ms: seq<Method>): (d: CoverageDetails)
    ensures d.covered <= d.total <= |ms|
    decreases |ms|
  {
    if |ms| == 0 then CoverageDetails(0, 0)
    else MethodCount(ms[0]).Plus(MethodCoverageOf(ms[1..]))
  }

  /** The method total counts the methods with lines, the covered count those
      of them with a hit line. */
  lemma {:induction false} MethodCountsAreFiltered(ms: seq<Method>)
    ensures MethodCoverageOf(ms).total == |Seqs.Filter(HasLines, ms)|
    ensures MethodCoverageOf(ms).covered == |Seqs.Filter(CoveredWithLines, ms)|
    decreases |ms|
  {
    if |ms| > 0 {
      MethodCountsAreFiltered(ms[1..]);
    }
  }

  /** A method without lines is in neither method count; one with lines is in
      the total, and in the covered count when at least one line was hit. */
  function MethodCount(m: Method): CoverageDetails
  {
    if |m.lines| == 0 then CoverageDetails(0, 0)
    else CoverageDetails(if MethodCovered(m) then 1 else 0, 1)
  }

  /** No method of the scope has lines. */
  predicate NoneWithLines(ms: seq<Method>)
  {
    forall i :: 0 <= i < |ms| ==> |ms[i].lines| == 0
  }

  /** Every method of the scope that has lines was hit. */
  predicate AllWithLinesCovered(ms: seq<Method>)
  {
    forall i :: 0 <= i < |ms| && |ms[i].lines| > 0 ==> MethodCovered(ms[i])
  }

  lemma NoneWithLinesCons(ms: seq<Method>)
    requires |ms| > 0
    ensures NoneWithLines(ms) <==> |ms[0].lines| == 0 && NoneWithLines(ms[1..])
  {
    assert forall i :: 1 <= i < |ms| ==> ms[i] == ms[1..][i - 1];
  }

  lemma AllWithLinesCoveredCons(ms: seq<Method>)
    requires |ms| > 0
    ensures AllWithLinesCovered(ms) <==> (|ms[0].lines| > 0 ==> MethodCovered(ms[0])) && AllWithLinesCovered(ms[1..])
  {
    assert forall i :: 1 <= i < |ms| ==> ms[i] == ms[1..][i - 1];
  }

  /** The method total is zero exactly when no method has lines. */
  lemma {:induction false} MethodTotalMeaning(ms: seq<Method>)
    ensures MethodCoverageOf(ms).total == 0 <==> NoneWithLines(ms)
    decreases |ms|
  {
    if |ms| > 0 {
      MethodTotalMeaning(ms[1..]);
      NoneWithLinesCons(ms);
    }
  }

  /** Every counted method is covered exactly when no method with lines was missed. */
  lemma {:induction false} MethodCoveredMeaning(ms: seq<Method>)
    ensures MethodCoverageOf(ms).covered == MethodCoverageOf(ms).total <==> AllWithLinesCovered(ms)
    decreases |ms|
  {
    if |ms| > 0 {
      MethodCoveredMeaning(ms[1..]);
      AllWithLinesCoveredCons(ms);
      var c := MethodCount(ms[0]);
      var rest := MethodCoverageOf(ms[1..]);
      assert c.covered <= c.total && rest.covered <= rest.total;
      assert c.covered == c.total <==> (|ms[0].lines| > 0 ==> MethodCovered(ms[0]));
    }
  }

  /** Every line of the scope, method after method. */
  function AllLines(ms: seq<Method>): seq<LineHit>
    decreases |ms|
  {
    if |ms| == 0 then [] else ms[0].lines + AllLines(ms[1..])
  }

  /** Every branch record of the scope, method after method. */
  function AllBranches(ms: seq<Method>): seq<BranchInfo>
    decreases |ms|
  {
    if |ms| == 0 then [] else ms[0].branches + AllBranches(ms[1..])
  }

  // ---------------------------------------------------------------------------
  // Folding: counts of a scope are the counts of its parts

  lemma {:induction false} LineCoverageAppend(a: seq<LineHit>, b: seq<LineHit>)
    ensures LineCoverage(a + b) == LineCoverage(a).Plus(LineCoverage(b))
    decreases |a|
  {
    if |a| > 0 {
      assert (a + b)[1..] == a[1..] + b;
      LineCoverageAppend(a[1..], b);
    } else {
      assert a + b == b;
    }
  }

  lemma {:induction false} BranchCoverageAppend(a: seq<BranchInfo>, b: seq<BranchInfo>)
    ensures BranchCoverage(a + b) == BranchCoverage(a).Plus(BranchCoverage(b))
    decreases |a|
  {
    if |a| > 0 {
      assert (a + b)[1..] == a[1..] + b;
      BranchCoverageAppend(a[1..], b);
    } else {
      assert a + b == b;
    }
  }

  /** Summing per-method counts equals counting the pooled lines and branches:
      the covered/total of a scope does not depend on how it is partitioned. */
  lemma {:induction false} ScopeCoverageIsPooled(ms: seq<Method>)
    ensures LineCoverageOf(ms) == LineCoverage(AllLines(ms))
    ensures BranchCoverageOf(ms) == BranchCoverage(AllBranches(ms))
    decreases |ms|
  {
    if |ms| > 0 {
      ScopeCoverageIsPooled(ms[1..]);
      LineCoverageAppend(ms[0].lines, AllLines(ms[1..]));
      BranchCoverageAppend(ms[0].branches, AllBranches(ms[1..]));
    }
  }

  /** The counts of two concatenated scopes are the sums of their counts. */
  lemma ScopeCoverageAppend(a: seq<Method>, b: seq<Method>)
    ensures LineCoverageOf(a + b) == LineCoverageOf(a).Plus(LineCoverageOf(b))
    ensures BranchCoverageOf(a + b) == BranchCoverageOf(a).Plus(BranchCoverageOf(b))
    ensures MethodCoverageOf(a + b) == MethodCoverageOf(a).Plus(MethodCoverageOf(b))
  {
    LineCoverageOfAppend(a, b);
    BranchCoverageOfAppend(a, b);
    MethodCoverageOfAppend(a, b);
  }

  lemma {:induction false} LineCoverageOfAppend(a: seq<Method>, b: seq<Method>)
    ensures LineCoverageOf(a + b) == LineCoverageOf(a).Plus(LineCoverageOf(b))
    decreases |a|
  {
    if |a| > 0 {
      assert (a + b)[1..] == a[1..] + b;
      LineCoverageOfAppend(a[1..], b);
      calc {
        LineCoverageOf(a + b);
        LineCoverage(a[0].lines).Plus(LineCoverageOf(a[1..] + b));
        LineCoverage(a[0].lines).Plus(LineCoverageOf(a[1..]).Plus(LineCoverageOf(b)));
        LineCoverageOf(a).Plus(LineCoverageOf(b));
      }
    } else {
      assert a + b == b;
    }
  }

  lemma {:induction false} BranchCoverageOfAppend(a: seq<Method>, b: seq<Method>)
    ensures BranchCoverageOf(a + b) == BranchCoverageOf(a).Plus(BranchCoverageOf(b))
    decreases |a|
  {
    if |a| > 0 {
      assert (a + b)[1..] == a[1..] + b;
      BranchCoverageOfAppend(a[1..], b);
      calc {
        BranchCoverageOf(a + b);
        BranchCoverage(a[0].branches).Plus(BranchCoverageOf(a[1..] + b));
        BranchCoverage(a[0].branches).Plus(BranchCoverageOf(a[1..]).Plus(BranchCoverageOf(b)));
        BranchCoverageOf(a).Plus(BranchCoverageOf(b));
      }
    } else {
      assert a + b == b;
    }
  }

  lemma {:induction false} MethodCoverageOfAppend(a: seq<Method>, b: seq<Method>)
    ensures MethodCoverageOf(a + b) == MethodCoverageOf(a).Plus(MethodCoverageOf(b))
    decreases |a|
  {
    if |a| > 0 {
      assert (a + b)[1..] == a[1..] + b;
      MethodCoverageOfAppend(a[1..], b);
      calc {
        MethodCoverageOf(a + b);
        MethodCount(a[0]).Plus(MethodCoverageOf(a[1..] + b));
        MethodCount(a[0]).Plus(MethodCoverageOf(a[1..]).Plus(MethodCoverageOf(b)));
        MethodCoverageOf(a).Plus(MethodCoverageOf(b));
      }
    } else {
      assert a + b == b;
    }
  }

  // ---------------------------------------------------------------------------
  // The worked example of the coverage-result tests

  const FixtureCoveredMethod: Method :=
    Method([LineHit(1, 1), LineHit(2, 1), LineHit(3, 1)],
           [BranchInfo(1, 1, 0, 1, 1), BranchInfo(1, 1, 1, 2, 1), BranchInfo(2, 1, 0, 1, 0)])

  const FixtureMissedMethod: Method := Method([LineHit(1, 0), LineHit(2, 0)], [])

  const FixtureModules: Modules :=
    [("module", [("doc.cs", [("Coverlet.Core.Tests.CoverageResultTests",
      [("System.Void Coverlet.Core.Tests.CoverageResultTests::CoverageResultTests()", FixtureCoveredMethod),
       ("System.Void Coverlet.Core.Tests.CoverageResultTests::GetThresholdTypesBelowThreshold()", FixtureMissedMethod)])])])]

  /** The fixture's hierarchy holds the two methods, in order. */
  lemma FixtureMethods()
    ensures MethodsOfModule(FixtureModules[0].1) == [FixtureCoveredMethod, FixtureMissedMethod]
    ensures MethodsOfModules(FixtureModules) == [FixtureCoveredMethod, FixtureMissedMethod]
  {
    var cls := FixtureModules[0].1[0].1[0].1;
    var ms := [FixtureCoveredMethod, FixtureMissedMethod];
    assert MethodsOfClass(cls[1..]) == [FixtureMissedMethod];
    assert MethodsOfClass(cls) == ms;
    var doc := FixtureModules[0].1[0].1;
    assert MethodsOfDocument(doc) == ms + MethodsOfDocument(doc[1..]);
    assert MethodsOfDocument(doc) == ms;
    var md := FixtureModules[0].1;
    assert MethodsOfModule(md) == ms + MethodsOfModule(md[1..]);
    assert MethodsOfModule(md) == ms;
    assert MethodsOfModules(FixtureModules) == ms + MethodsOfModules(FixtureModules[1..]);
  }

  lemma FixtureCoveredMethodLines()
    ensures LineCoverage(FixtureCoveredMethod.lines) == CoverageDetails(3, 3)
  {
    var hit := FixtureCoveredMethod.lines;
    assert hit[1..][1..] == hit[2..] == [LineHit(3, 1)];
    assert LineCoverage(hit[2..]) == CoverageDetails(1, 1);
    assert LineCoverage(hit[1..]) == CoverageDetails(2, 2);
  }

  lemma FixtureMissedMethodLines()
    ensures LineCoverage(FixtureMissedMethod.lines) == CoverageDetails(0, 2)
  {
    var missed := FixtureMissedMethod.lines;
    assert missed[1..] == [LineHit(2, 0)];
    assert LineCoverage(missed[1..]) == CoverageDetails(0, 1);
  }

  lemma LineCoverageOfPair(m1: Method, m2: Method)
    ensures LineCoverageOf([m1, m2]) == LineCoverage(m1.lines).Plus(LineCoverage(m2.lines))
  {
    assert [m1, m2][1..] == [m2];
    assert [m2][1..] == [];
    assert LineCoverageOf([m2]) == LineCoverage(m2.lines).Plus(CoverageDetails(0, 0));
    assert LineCoverageOf([m1, m2]) == LineCoverage(m1.lines).Plus(LineCoverageOf([m2]));
  }

  lemma FixtureLineCounts()
    ensures LineCoverageOf([FixtureCoveredMethod, FixtureMissedMethod]) == CoverageDetails(3, 5)
  {
    FixtureCoveredMethodLines();
    FixtureMissedMethodLines();
    LineCoverageOfPair(FixtureCoveredMethod, FixtureMissedMethod);
  }

  lemma FixtureCoveredMethodBranches()
    ensures BranchCoverage(FixtureCoveredMethod.branches) == CoverageDetails(2, 3)
  {
    var bs := FixtureCoveredMethod.branches;
    assert bs[1..][1..] == bs[2..] == [BranchInfo(2, 1, 0, 1, 0)];
    assert BranchCoverage(bs[2..]) == CoverageDetails(0, 1);
    assert BranchCoverage(bs[1..]) == CoverageDetails(1, 2);
  }

  lemma BranchCoverageOfPair(m1: Method, m2: Method)
    ensures BranchCoverageOf([m1, m2]) == BranchCoverage(m1.branches).Plus(BranchCoverage(m2.branches))
  {
    assert [m1, m2][1..] == [m2];
    assert [m2][1..] == [];
    assert BranchCoverageOf([m2]) == BranchCoverage(m2.branches).Plus(CoverageDetails(0, 0));
    assert BranchCoverageOf([m1, m2]) == BranchCoverage(m1.branches).Plus(BranchCoverageOf([m2]));
  }

  lemma FixtureBranchCounts()
    ensures BranchCoverageOf([FixtureCoveredMethod, FixtureMissedMethod]) == CoverageDetails(2, 3)
  {
    FixtureCoveredMethodBranches();
    assert BranchCoverage(FixtureMissedMethod.branches) == CoverageDetails(0, 0);
    BranchCoverageOfPair(FixtureCoveredMethod, FixtureMissedMethod);
  }

  lemma FixtureMethodCounts()
    ensures MethodCoverageOf([FixtureCoveredMethod, FixtureMissedMethod]) == CoverageDetails(1, 2)
  {
    var ms := [FixtureCoveredMethod, FixtureMissedMethod];
    assert MethodCovered(FixtureCoveredMethod) by {
      assert FixtureCoveredMethod.lines[0].hits > 0;
    }
    assert !MethodCovered(FixtureMissedMethod);
    assert ms[1..] == [FixtureMissedMethod];
    assert MethodCoverageOf(ms[1..]) == CoverageDetails(0, 1);
  }

  /** The fixture has lines 3/5, branches 2/3 and methods 1/2: a method whose
      lines were all missed is in the method total but not in the covered count. */
  lemma FixtureCounts()
    ensures LineCoverageOf(MethodsOfModules(FixtureModules)) == CoverageDetails(3, 5)
    ensures BranchCoverageOf(MethodsOfModules(FixtureModules)) == CoverageDetails(2, 3)
    ensures MethodCoverageOf(MethodsOfModules(FixtureModules)) == CoverageDetails(1, 2)
  {
    FixtureMethods();
    FixtureLineCounts();
    FixtureBranchCounts();
    FixtureMethodCounts();
  }
}
