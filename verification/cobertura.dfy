/** The Cobertura reporter: the report built as a tree of elements rather than
    XML text, with its path normalisation, method skipping, name/signature
    split and branch-condition grouping. */
module Cobertura {
  import Seqs
  import Strings
  import opened Wrappers
  import opened Coverage
  import BasePaths

  /** Collaborators the reporter calls but whose code is not part of this model:
      the platform's path functions, the deterministic source-root translator and
      the cyclomatic-complexity calculation at method, class and module scope. */
  datatype Collaborators = Collaborators(
    directoryRoot: string -> string,
    fileNameWithoutExtension: string -> string,
    resolveDeterministicPath: string -> string,
    methodComplexity: seq<BranchInfo> -> int,
    classComplexity: Methods -> int,
    moduleComplexity: Documents -> int)

  /** The kind of a decision point, guessed from the number of its branch records. */
  datatype ConditionType = Jump | Switch

  /** A `condition` element: one per distinct branch offset on a line. */
  datatype Condition = Condition(number: int, conditionType: ConditionType, coverage: CoverageDetails)

  /** A `line` element. `conditionCoverage` and `conditions` are present only on branch points. */
  datatype LineElement = LineElement(number: int, hits: int, branch: bool,
                                     conditionCoverage: Option<CoverageDetails>, conditions: seq<Condition>)

  datatype MethodElement = MethodElement(name: string, signature: string, lineCoverage: CoverageDetails,
                                         branchCoverage: CoverageDetails, complexity: int, lines: seq<LineElement>)

  datatype ClassElement = ClassElement(name: string, filename: string, lineCoverage: CoverageDetails,
                                       branchCoverage: CoverageDetails, complexity: int,
                                       methods: seq<MethodElement>, lines: seq<LineElement>)

  datatype PackageElement = PackageElement(name: string, lineCoverage: CoverageDetails,
                                           branchCoverage: CoverageDetails, complexity: int,
                                           classes: seq<ClassElement>)

  /** The root `coverage` element (the render-time timestamp is not modelled). */
  datatype CoverageElement = CoverageElement(lineCoverage: CoverageDetails, branchCoverage: CoverageDetails,
                                             version: string, sources: seq<string>, packages: seq<PackageElement>,
                                             linesCovered: nat, linesValid: nat,
                                             branchesCovered: nat, branchesValid: nat)

  // ---------------------------------------------------------------------------
  // The Cobertura format version written on the root element (its format name
  // and extension are `Reporters.Cobertura`)

  const Version: string := "1.9"

  // ---------------------------------------------------------------------------
  // Method name and signature

  /** The member part of a method key: the longest ':'-free suffix of the key. */
  function MemberSegment(key: string): (r: string)
    ensures ':' !in r
    ensures |r| <= |key| && key[|key| - |r|..] == r
    ensures ':' in key ==> |r| < |key| && key[|key| - |r| - 1] == ':'
  {
    Strings.LastSegment(key, ':')
  }

  /** The `name` attribute: the member part up to its first '(', so free of
      ':' and '('. */
  function MethodName(key: string): (r: string)
    ensures ':' !in r && '(' !in r
    ensures r <= MemberSegment(key)
    ensures '(' in MemberSegment(key) ==> MemberSegment(key)[|r|] == '('
    ensures '(' !in MemberSegment(key) ==> r == MemberSegment(key)
  {
    Strings.FirstSegment(MemberSegment(key), '(')
  }

  /** The `signature` attribute: '(' and the '('-free tail of the member part. */
  function MethodSignature(key: string): (r: string)
    ensures |r| >= 1 && r[0] == '('
    ensures '(' !in r[1..] && ':' !in r[1..]
    ensures var m := MemberSegment(key); |r| - 1 <= |m| && m[|m| - (|r| - 1)..] == r[1..]
    ensures var m := MemberSegment(key); '(' in m ==> |r| <= |m| && m[|m| - |r|..] == r
    ensures var m := MemberSegment(key); '(' !in m ==> r[1..] == m
  {
    SignatureOfMember(MemberSegment(key))
  }

  /** "(" and the text after the last '(' of a member part `m`: a suffix of
      `m` when `m` holds a '(', and "(" + `m` when it holds none. */
  function SignatureOfMember(m: string): (r: string)
    ensures |r| >= 1 && r[0] == '(' && '(' !in r[1..] && (':' !in m ==> ':' !in r[1..])
    ensures |r| - 1 <= |m| && m[|m| - (|r| - 1)..] == r[1..]
    ensures '(' in m ==> |r| <= |m| && m[|m| - |r|..] == r
    ensures '(' !in m ==> r[1..] == m
  {
    var tail := Strings.LastSegment(m, '(');
    assert ("(" + tail)[1..] == tail;
    if '(' in m then
      assert m[|m| - |tail| - 1..] == [m[|m| - |tail| - 1]] + m[|m| - |tail|..];
      "(" + tail
    else
      "(" + tail
  }



  /** The method key `declaringType::name(parameters)` (a return type, if any,
      is part of `declaring`). */
  function MethodKey(declaring: string, name: string, parameters: string): string
  {
    declaring + "::" + name + "(" + parameters
  }

  /** The name and signature recovered from a key together rebuild its member part. */
  lemma MethodNameAndSignature(declaring: string, name: string, parameters: string)
    requires ':' !in name && ':' !in parameters
    requires '(' !in name && '(' !in parameters
    ensures MethodName(MethodKey(declaring, name, parameters)) == name
    ensures MethodSignature(MethodKey(declaring, name, parameters)) == "(" + parameters
    ensures MemberSegment(MethodKey(declaring, name, parameters)) == name + "(" + parameters
  {
    MethodNameOfKey(declaring, name, parameters);
    MethodSignatureOfKey(declaring, name, parameters);
    MemberOfMethodKey(declaring, name, parameters);
  }

  /** The member part of a key is `name(parameters)`. */
  lemma MemberOfMethodKey(declaring: string, name: string, parameters: string)
    requires ':' !in name && ':' !in parameters
    ensures MemberSegment(MethodKey(declaring, name, parameters)) == name + "(" + parameters
  {
    var member := name + "(" + parameters;
    assert MethodKey(declaring, name, parameters) == declaring + "::" + member;
    MemberOfKey(declaring, member);
  }

  /** The `name` attribute of a key is the method's name. */
  lemma MethodNameOfKey(declaring: string, name: string, parameters: string)
    requires ':' !in name && ':' !in parameters
    requires '(' !in name && '(' !in parameters
    ensures MethodName(MethodKey(declaring, name, parameters)) == name
  {
    MemberOfMethodKey(declaring, name, parameters);
    NameAndParameters(name, parameters);
  }

  /** The `signature` attribute of a key is "(" and the parameters. */
  lemma MethodSignatureOfKey(declaring: string, name: string, parameters: string)
    requires ':' !in name && ':' !in parameters
    requires '(' !in name && '(' !in parameters
    ensures MethodSignature(MethodKey(declaring, name, parameters)) == "(" + parameters
  {
    MemberOfMethodKey(declaring, name, parameters);
    NameAndParameters(name, parameters);
  }

  /** The member part of `declaring::member` is `member` when it holds no ':'. */
  lemma MemberOfKey(declaring: string, member: string)
    requires ':' !in member
    ensures MemberSegment(declaring + "::" + member) == member
  {
    assert declaring + "::" + member == (declaring + ":") + [':'] + member;
    Strings.LastSegmentOf(declaring + ":", ':', member);
  }

  /** `name(parameters)` splits on '(' into the name and the parameters. */
  lemma NameAndParameters(name: string, parameters: string)
    requires '(' !in name && '(' !in parameters
    ensures Strings.FirstSegment(name + "(" + parameters, '(') == name
    ensures Strings.LastSegment(name + "(" + parameters, '(') == parameters
  {
    assert name + "(" + parameters == name + ['('] + parameters;
    Strings.FirstSegmentOf(name, '(', parameters);
    Strings.LastSegmentOf(name, '(', parameters);
  }

  // ---------------------------------------------------------------------------
  // Lines and conditions

  /** The branch records of a line. */
  function LineBranches(branches: seq<BranchInfo>, line: int): seq<BranchInfo>
  {
    Seqs.Filter((b: BranchInfo) => b.line == line, branches)
  }

  /** The branch records of one decision point (one offset). */
  function OffsetGroup(branches: seq<BranchInfo>, offset: int): seq<BranchInfo>
  {
    Seqs.Filter((b: BranchInfo) => b.offset == offset, branches)
  }

  /** The offsets of the records, in order, repeats included. */
  function OffsetsOf(branches: seq<BranchInfo>): (r: seq<int>)
    ensures |r| == |branches| && forall i :: 0 <= i < |r| ==> r[i] == branches[i].offset
    ensures forall o :: o in r <==> exists b :: b in branches && b.offset == o
    decreases |branches|
  {
    if |branches| == 0 then []
    else
      var rest := OffsetsOf(branches[1..]);
      assert forall b :: b in branches <==> b == branches[0] || b in branches[1..];
      [branches[0].offset] + rest
  }

  /** The type guess: more than two records at one offset make a switch. */
  function ConditionTypeOf(group: seq<BranchInfo>): (t: ConditionType)
    ensures t == Switch <==> |group| > 2
  {
    if |group| > 2 then Switch else Jump
  }

  /** The condition of one decision point. */
  function ConditionAt(branches: seq<BranchInfo>, offset: int): Condition
  {
    var group := OffsetGroup(branches, offset);
    Condition(offset, ConditionTypeOf(group), BranchCoverage(group))
  }

  function ConditionsFor(branches: seq<BranchInfo>, offsets: seq<int>): (r: seq<Condition>)
    ensures |r| == |offsets|
    ensures forall i :: 0 <= i < |r| ==> r[i] == ConditionAt(branches, offsets[i])
    decreases |offsets|
  {
    if |offsets| == 0 then []
    else [ConditionAt(branches, offsets[0])] + ConditionsFor(branches, offsets[1..])
  }

  /** What the conditions of a line must say about its branch records: one
      condition per distinct offset, typed by the size of its group and
      carrying the coverage of exactly that group. */
  predicate ConditionsDescribe(conditions: seq<Condition>, branches: seq<BranchInfo>)
  {
    OnePerOffset(conditions, branches) && Classified(conditions, branches)
  }

  /** The condition numbers are distinct and are exactly the offsets of the records. */
  predicate OnePerOffset(conditions: seq<Condition>, branches: seq<BranchInfo>)
  {
    && (forall i, j :: 0 <= i < j < |conditions| ==> conditions[i].number != conditions[j].number)
    && (forall b :: b in branches ==> exists i :: 0 <= i < |conditions| && conditions[i].number == b.offset)
    && (forall i :: 0 <= i < |conditions| ==> exists b :: b in branches && b.offset == conditions[i].number)
  }

  /** Each condition is a switch iff its offset group has more than two records,
      and carries that group's branch coverage. */
  predicate Classified(conditions: seq<Condition>, branches: seq<BranchInfo>)
  {
    && (forall i :: 0 <= i < |conditions| ==>
          (conditions[i].conditionType == Switch <==> |OffsetGroup(branches, conditions[i].number)| > 2))
    && (forall i :: 0 <= i < |conditions| ==>
          conditions[i].coverage == BranchCoverage(OffsetGroup(branches, conditions[i].number)))
  }

  /** The conditions of a line: the records grouped by offset, groups in
      first-occurrence order. */
  function Conditions(branches: seq<BranchInfo>): (r: seq<Condition>)
    ensures ConditionsDescribe(r, branches)
    ensures var offsets := Seqs.Distinct(OffsetsOf(branches));
      |r| == |offsets| && forall i :: 0 <= i < |r| ==> r[i].number == offsets[i]
  {
    var offsets := Seqs.Distinct(OffsetsOf(branches));
    ConditionsForNumbers(branches, offsets);
    ConditionsForOnePerOffset(branches, offsets);
    ConditionsForClassified(branches, offsets);
    ConditionsFor(branches, offsets)
  }

  /** Conditions come in the order in which their offsets first occur among
      the records: a condition listed before another has a record earlier than
      any record of the later one. */
  lemma ConditionsInFirstOccurrenceOrder(branches: seq<BranchInfo>)
    ensures var r := Conditions(branches);
      forall i, j, q :: 0 <= i < j < |r| && 0 <= q < |branches| && branches[q].offset == r[j].number ==>
        exists p :: 0 <= p < q && branches[p].offset == r[i].number
  {
    var r := Conditions(branches);
    var offsets := OffsetsOf(branches);
    forall i, j, q | 0 <= i < j < |r| && 0 <= q < |branches| && branches[q].offset == r[j].number
      ensures exists p :: 0 <= p < q && branches[p].offset == r[i].number
    {
      assert offsets[q] == r[j].number;
      assert r[i].number in offsets[..q];
      var p :| 0 <= p < q && offsets[..q][p] == r[i].number;
      assert branches[p].offset == r[i].number;
    }
  }

  lemma ConditionsForNumbers(branches: seq<BranchInfo>, offsets: seq<int>)
    ensures forall i :: 0 <= i < |offsets| ==> ConditionsFor(branches, offsets)[i].number == offsets[i]
  {
    var r := ConditionsFor(branches, offsets);
    forall i | 0 <= i < |offsets|
      ensures r[i].number == offsets[i]
    {
      assert r[i] == ConditionAt(branches, offsets[i]);
    }
    assert r == ConditionsFor(branches, offsets);
  }

  lemma ConditionsForClassified(branches: seq<BranchInfo>, offsets: seq<int>)
    ensures Classified(ConditionsFor(branches, offsets), branches)
  {
    var r := ConditionsFor(branches, offsets);
    forall i | 0 <= i < |r|
      ensures r[i].conditionType == Switch <==> |OffsetGroup(branches, r[i].number)| > 2
      ensures r[i].coverage == BranchCoverage(OffsetGroup(branches, r[i].number))
    {
      assert r[i] == ConditionAt(branches, offsets[i]);
    }
    assert r == ConditionsFor(branches, offsets);
  }

  lemma ConditionsForOnePerOffset(branches: seq<BranchInfo>, offsets: seq<int>)
    requires Seqs.NoDuplicates(offsets)
    requires forall o :: o in offsets <==> exists b :: b in branches && b.offset == o
    ensures OnePerOffset(ConditionsFor(branches, offsets), branches)
  {
    ConditionsForNumbers(branches, offsets);
    ConditionsForCoverRecords(branches, offsets);
    ConditionsForFromRecords(branches, offsets);
  }

  lemma ConditionsForCoverRecords(branches: seq<BranchInfo>, offsets: seq<int>)
    requires forall b :: b in branches ==> b.offset in offsets
    ensures forall b :: b in branches ==>
      exists i :: 0 <= i < |offsets| && ConditionsFor(branches, offsets)[i].number == b.offset
  {
    var r := ConditionsFor(branches, offsets);
    ConditionsForNumbers(branches, offsets);
    forall b | b in branches
      ensures exists i :: 0 <= i < |offsets| && r[i].number == b.offset
    {
      var i :| 0 <= i < |offsets| && offsets[i] == b.offset;
      assert r[i].number == b.offset;
    }
    assert r == ConditionsFor(branches, offsets);
  }

  lemma ConditionsForFromRecords(branches: seq<BranchInfo>, offsets: seq<int>)
    requires forall o :: o in offsets ==> exists b :: b in branches && b.offset == o
    ensures forall i :: 0 <= i < |offsets| ==>
      exists b :: b in branches && b.offset == ConditionsFor(branches, offsets)[i].number
  {
    var r := ConditionsFor(branches, offsets);
    ConditionsForNumbers(branches, offsets);
    forall i | 0 <= i < |offsets|
      ensures exists b :: b in branches && b.offset == r[i].number
    {
      assert offsets[i] in offsets;
    }
    assert r == ConditionsFor(branches, offsets);
  }

  /** The `line` element of one tracked line of a method. */
  function MakeLine(m: Method, line: LineHit): (e: LineElement)
    ensures e.number == line.number && e.hits == line.hits
    ensures e.branch <==> exists b :: b in m.branches && b.line == line.number
    ensures !e.branch ==> e.conditionCoverage == None && e.conditions == []
    ensures e.branch ==> e.conditionCoverage == Some(BranchCoverage(LineBranches(m.branches, line.number)))
    ensures e.branch ==> ConditionsDescribe(e.conditions, LineBranches(m.branches, line.number))
    ensures e.branch ==> e.conditions == Conditions(LineBranches(m.branches, line.number))
  {
    var isBranchPoint := exists b :: b in m.branches && b.line == line.number;
    if isBranchPoint then
      var branches := LineBranches(m.branches, line.number);
      LineElement(line.number, line.hits, true, Some(BranchCoverage(branches)), Conditions(branches))
    else
      LineElement(line.number, line.hits, false, None, [])
  }

  function MakeLines(m: Method, lines: seq<LineHit>): (r: seq<LineElement>)
    ensures |r| == |lines|
    ensures forall i :: 0 <= i < |lines| ==> r[i] == MakeLine(m, lines[i])
  {
    seq(|lines|, i requires 0 <= i < |lines| => MakeLine(m, lines[i]))
  }

  // ---------------------------------------------------------------------------
  // Methods and classes

  /** The `method` element: one `line` element per tracked line, in order. */
  function MakeMethod(collaborators: Collaborators, key: string, m: Method): (e: MethodElement)
    ensures e.name == MethodName(key) && e.signature == MethodSignature(key)
    ensures e.lineCoverage == LineCoverage(m.lines) && e.branchCoverage == BranchCoverage(m.branches)
    ensures |e.lines| == |m.lines|
    ensures forall i :: 0 <= i < |m.lines| ==> e.lines[i].number == m.lines[i].number && e.lines[i].hits == m.lines[i].hits
    ensures forall i :: 0 <= i < |m.lines| ==> e.lines[i] == MakeLine(m, m.lines[i])
  {
    var lines := MakeLines(m, m.lines);
    LineElementsKeepLines(m, lines);
    MethodElement(MethodName(key), MethodSignature(key), LineCoverage(m.lines), BranchCoverage(m.branches),
                  collaborators.methodComplexity(m.branches), lines)
  }

  /** The line elements of a method keep each line's number and hits. */
  lemma LineElementsKeepLines(m: Method, lines: seq<LineElement>)
    requires lines == MakeLines(m, m.lines)
    ensures |lines| == |m.lines|
    ensures forall i :: 0 <= i < |m.lines| ==> lines[i] == MakeLine(m, m.lines[i])
    ensures forall i :: 0 <= i < |m.lines| ==> lines[i].number == m.lines[i].number && lines[i].hits == m.lines[i].hits
  {
    forall i | 0 <= i < |m.lines|
      ensures lines[i].number == m.lines[i].number && lines[i].hits == m.lines[i].hits
    {
      assert lines[i] == MakeLine(m, m.lines[i]);
    }
  }

  /** The methods that get an element: those with at least one tracked line. */
  function EmittedMethods(methods: Methods): seq<(string, Method)>
  {
    Seqs.Filter((km: (string, Method)) => |km.1.lines| > 0, methods)
  }

  function MakeMethods(collaborators: Collaborators, methods: seq<(string, Method)>): (r: seq<MethodElement>)
    ensures |r| == |methods|
    ensures forall i :: 0 <= i < |methods| ==> r[i] == MakeMethod(collaborators, methods[i].0, methods[i].1)
  {
    seq(|methods|, i requires 0 <= i < |methods| => MakeMethod(collaborators, methods[i].0, methods[i].1))
  }

  /** The line elements of the methods, method after method. */
  function ConcatLines(methods: seq<MethodElement>): seq<LineElement>
    decreases |methods|
  {
    if |methods| == 0 then [] else methods[0].lines + ConcatLines(methods[1..])
  }

  /** The `filename` attribute of a class. */
  function ClassFileName(collaborators: Collaborators, parameters: Parameters,
                         basePaths: seq<string>, document: string): (f: string)
    ensures parameters.deterministicReport ==> f == collaborators.resolveDeterministicPath(document)
    ensures !parameters.deterministicReport && parameters.useSourceLink ==> f == document
    ensures !parameters.deterministicReport ==>
      f == document || exists i :: 0 <= i < |basePaths| && basePaths[i] + f == document
    ensures !parameters.deterministicReport ==>
      f == BasePaths.RelativePathFromBase(basePaths, document, parameters.useSourceLink)
  {
    if !parameters.deterministicReport then
      BasePaths.RelativePathFromBase(basePaths, document, parameters.useSourceLink)
    else
      collaborators.resolveDeterministicPath(document)
  }

  /** The `class` element: methods without lines are skipped, and the class's
      own `lines` block repeats the line elements of the emitted methods. */
  function MakeClass(collaborators: Collaborators, parameters: Parameters, basePaths: seq<string>,
                     document: string, name: string, methods: Methods): (c: ClassElement)
    ensures c.name == name
    ensures c.filename == ClassFileName(collaborators, parameters, basePaths, document)
    ensures c.lineCoverage == LineCoverageOf(MethodsOfClass(methods))
    ensures c.branchCoverage == BranchCoverageOf(MethodsOfClass(methods))
    ensures |c.methods| == |EmittedMethods(methods)|
    ensures forall i :: 0 <= i < |c.methods| ==> |c.methods[i].lines| > 0
    ensures forall i :: 0 <= i < |c.methods| ==>
      c.methods[i] == MakeMethod(collaborators, EmittedMethods(methods)[i].0, EmittedMethods(methods)[i].1)
    ensures c.lines == ConcatLines(c.methods)
  {
    var emitted := EmittedMethods(methods);
    var elements := MakeMethods(collaborators, emitted);
    ClassElement(name, ClassFileName(collaborators, parameters, basePaths, document),
                 LineCoverageOf(MethodsOfClass(methods)), BranchCoverageOf(MethodsOfClass(methods)),
                 collaborators.classComplexity(methods), elements, ConcatLines(elements))
  }

  /** The classes of one document, in order. */
  function MakeClasses(collaborators: Collaborators, parameters: Parameters, basePaths: seq<string>,
                       document: string, classes: Classes): (r: seq<ClassElement>)
    ensures |r| == |classes|
    ensures forall i :: 0 <= i < |classes| ==>
      (r[i].name == classes[i].0 && r[i].filename == ClassFileName(collaborators, parameters, basePaths, document))
    ensures forall i :: 0 <= i < |classes| ==>
      r[i] == MakeClass(collaborators, parameters, basePaths, document, classes[i].0, classes[i].1)
  {
    seq(|classes|, i requires 0 <= i < |classes| =>
      MakeClass(collaborators, parameters, basePaths, document, classes[i].0, classes[i].1))
  }

  /** A class to report: its document, its name and its methods. */
  type ClassEntry = (string, string, Methods)

  /** The classes of one document, each paired with the document. */
  function DocumentClassEntries(document: string, classes: Classes): (r: seq<ClassEntry>)
    ensures |r| == |classes|
    ensures forall i :: 0 <= i < |classes| ==> r[i] == (document, classes[i].0, classes[i].1)
  {
    seq(|classes|, i requires 0 <= i < |classes| => (document, classes[i].0, classes[i].1))
  }

  /** The class entries of each document, in document order. */
  function DocumentEntryLists(documents: Documents): (r: seq<seq<ClassEntry>>)
    ensures |r| == |documents|
    ensures forall j :: 0 <= j < |documents| ==> r[j] == DocumentClassEntries(documents[j].0, documents[j].1)
  {
    seq(|documents|, j requires 0 <= j < |documents| => DocumentClassEntries(documents[j].0, documents[j].1))
  }

  /** The classes of every document of a module, document after document: each
      class of each document once, and nothing else. */
  function ModuleClassEntries(documents: Documents): (r: seq<ClassEntry>)
    ensures forall e :: e in r ==> exists j, k :: (0 <= j < |documents| && 0 <= k < |documents[j].1| &&
      e == (documents[j].0, documents[j].1[k].0, documents[j].1[k].1))
    ensures forall j, k :: 0 <= j < |documents| && 0 <= k < |documents[j].1| ==>
      (documents[j].0, documents[j].1[k].0, documents[j].1[k].1) in r
    ensures r == Seqs.Flatten(DocumentEntryLists(documents))
    decreases |documents|
  {
    if |documents| == 0 then []
    else
      var first := DocumentClassEntries(documents[0].0, documents[0].1);
      var rest := ModuleClassEntries(documents[1..]);
      assert forall j :: 1 <= j < |documents| ==> documents[j] == documents[1..][j - 1];
      assert forall k :: 0 <= k < |documents[0].1| ==> (documents[0].0, documents[0].1[k].0, documents[0].1[k].1) == first[k];
      assert DocumentEntryLists(documents)[1..] == DocumentEntryLists(documents[1..]);
      first + rest
  }

  /** The class element of a class entry. */
  function ClassMaker(collaborators: Collaborators, parameters: Parameters, basePaths: seq<string>): ClassEntry -> ClassElement
  {
    (e: ClassEntry) => MakeClass(collaborators, parameters, basePaths, e.0, e.1, e.2)
  }

  /** The classes of every document of a module, document after document: the
      element of each class entry, and the filename of one of the documents. */
  function MakeModuleClasses(collaborators: Collaborators, parameters: Parameters, basePaths: seq<string>,
                             documents: Documents): (r: seq<ClassElement>)
    ensures Seqs.IsMapOf(ClassMaker(collaborators, parameters, basePaths), r, ModuleClassEntries(documents))
    ensures forall c :: c in r ==> exists j ::
      (0 <= j < |documents| && c.filename == ClassFileName(collaborators, parameters, basePaths, documents[j].0))
  {
    var entries := ModuleClassEntries(documents);
    var r := seq(|entries|, i requires 0 <= i < |entries| =>
      MakeClass(collaborators, parameters, basePaths, entries[i].0, entries[i].1, entries[i].2));
    ClassFileNamesOfDocuments(collaborators, parameters, basePaths, documents, r);
    r
  }

  /** A class element whose filename is that of one of the given documents. */
  predicate NamedAfterADocument(collaborators: Collaborators, parameters: Parameters, basePaths: seq<string>,
                                documents: Documents, c: ClassElement)
  {
    exists j :: 0 <= j < |documents| && c.filename == ClassFileName(collaborators, parameters, basePaths, documents[j].0)
  }

  /** Each class element of a module's class entries is named after one of its documents. */
  lemma ClassFileNamesOfDocuments(collaborators: Collaborators, parameters: Parameters, basePaths: seq<string>,
                                  documents: Documents, r: seq<ClassElement>)
    requires Seqs.IsMapOf(ClassMaker(collaborators, parameters, basePaths), r, ModuleClassEntries(documents))
    ensures forall c :: c in r ==> NamedAfterADocument(collaborators, parameters, basePaths, documents, c)
  {
    forall i | 0 <= i < |r|
      ensures NamedAfterADocument(collaborators, parameters, basePaths, documents, r[i])
    {
      ClassFileNameOfEntry(collaborators, parameters, basePaths, documents, r, i);
    }
  }

  /** The class element at one position is named after the document of its entry. */
  lemma ClassFileNameOfEntry(collaborators: Collaborators, parameters: Parameters, basePaths: seq<string>,
                             documents: Documents, r: seq<ClassElement>, i: int)
    requires Seqs.IsMapOf(ClassMaker(collaborators, parameters, basePaths), r, ModuleClassEntries(documents))
    requires 0 <= i < |r|
    ensures NamedAfterADocument(collaborators, parameters, basePaths, documents, r[i])
  {
    var entries := ModuleClassEntries(documents);
    assert entries[i] in entries;
    var j, k :| 0 <= j < |documents| && 0 <= k < |documents[j].1| &&
      entries[i] == (documents[j].0, documents[j].1[k].0, documents[j].1[k].1);
  }

  /** The `package` element of a module: one class element per class of each
      of its documents, in document order. */
  function MakePackage(collaborators: Collaborators, parameters: Parameters, basePaths: seq<string>,
                       key: string, documents: Documents): (p: PackageElement)
    ensures p.name == collaborators.fileNameWithoutExtension(key)
    ensures p.lineCoverage == LineCoverageOf(MethodsOfModule(documents))
    ensures p.branchCoverage == BranchCoverageOf(MethodsOfModule(documents))
    ensures Seqs.IsMapOf(ClassMaker(collaborators, parameters, basePaths), p.classes, ModuleClassEntries(documents))
    ensures forall c :: c in p.classes ==> exists j ::
      (0 <= j < |documents| && c.filename == ClassFileName(collaborators, parameters, basePaths, documents[j].0))
  {
    PackageElement(collaborators.fileNameWithoutExtension(key),
                   LineCoverageOf(MethodsOfModule(documents)), BranchCoverageOf(MethodsOfModule(documents)),
                   collaborators.moduleComplexity(documents),
                   MakeModuleClasses(collaborators, parameters, basePaths, documents))
  }

  function MakePackages(collaborators: Collaborators, parameters: Parameters, basePaths: seq<string>,
                        modules: Modules): (r: seq<PackageElement>)
    ensures |r| == |modules|
    ensures forall i :: 0 <= i < |modules| ==> r[i] == MakePackage(collaborators, parameters, basePaths, modules[i].0, modules[i].1)
    decreases |modules|
  {
    if |modules| == 0 then []
    else [MakePackage(collaborators, parameters, basePaths, modules[0].0, modules[0].1)]
           + MakePackages(collaborators, parameters, basePaths, modules[1..])
  }

  /** The base paths the report works with: none in deterministic mode. */
  function ReportBasePaths(result: CoverageResult, collaborators: Collaborators): (r: seq<string>)
    ensures result.parameters.deterministicReport ==> r == []
    ensures !result.parameters.deterministicReport && result.parameters.useSourceLink ==> r == [""]
    ensures !result.parameters.deterministicReport ==>
      r == BasePaths.GetBasePaths(collaborators.directoryRoot, result.modules, result.parameters.useSourceLink)
  {
    if result.parameters.deterministicReport then []
    else BasePaths.GetBasePaths(collaborators.directoryRoot, result.modules, result.parameters.useSourceLink)
  }

  /** `CoberturaReporter.Report`, as a tree. */
  function Report(result: CoverageResult, collaborators: Collaborators): (r: CoverageElement)
    ensures r.version == "1.9"
    ensures r.sources == ReportBasePaths(result, collaborators)
    ensures |r.packages| == |result.modules|
    ensures forall i :: 0 <= i < |result.modules| ==>
      r.packages[i].name == collaborators.fileNameWithoutExtension(result.modules[i].0)
    ensures forall i :: 0 <= i < |result.modules| ==>
      r.packages[i] == MakePackage(collaborators, result.parameters, ReportBasePaths(result, collaborators),
                                   result.modules[i].0, result.modules[i].1)
    ensures r.linesCovered == r.lineCoverage.covered && r.linesValid == r.lineCoverage.total
    ensures r.branchesCovered == r.branchCoverage.covered && r.branchesValid == r.branchCoverage.total
    ensures r.lineCoverage == LineCoverage(AllLines(MethodsOfModules(result.modules)))
    ensures r.branchCoverage == BranchCoverage(AllBranches(MethodsOfModules(result.modules)))
  {
    var all := MethodsOfModules(result.modules);
    var lineCoverage := LineCoverageOf(all);
    var branchCoverage := BranchCoverageOf(all);
    ScopeCoverageIsPooled(all);
    var basePaths := ReportBasePaths(result, collaborators);
    CoverageElement(lineCoverage, branchCoverage, Version, basePaths,
                    MakePackages(collaborators, result.parameters, basePaths, result.modules),
                    lineCoverage.covered, lineCoverage.total, branchCoverage.covered, branchCoverage.total)
  }

  // ---------------------------------------------------------------------------
  // Properties of the report

  /** The methods that get an element are exactly those with tracked lines, in order. */
  lemma EmittedMethodsAreThoseWithLines(methods: Methods)
    ensures forall km :: km in EmittedMethods(methods) <==> km in methods && |km.1.lines| > 0
    ensures (forall i :: 0 <= i < |methods| ==> |methods[i].1.lines| > 0) ==> EmittedMethods(methods) == methods
  {
    if forall i :: 0 <= i < |methods| ==> |methods[i].1.lines| > 0 {
      Seqs.FilterAll((km: (string, Method)) => |km.1.lines| > 0, methods);
    }
  }

  /** Two records of one line at different offsets make two jump conditions, in record order. */
  lemma TwoOffsetsTwoConditions(b1: BranchInfo, b2: BranchInfo)
    requires b1.offset != b2.offset
    ensures |Conditions([b1, b2])| == 2
    ensures Conditions([b1, b2])[0].number == b1.offset && Conditions([b1, b2])[1].number == b2.offset
    ensures Conditions([b1, b2])[0].conditionType == Jump && Conditions([b1, b2])[1].conditionType == Jump
  {
    var bs := [b1, b2];
    assert OffsetsOf(bs) == [b1.offset, b2.offset];
    Seqs.DistinctOfNoDuplicates(OffsetsOf(bs));
  }

  /** Three or more records sharing one offset make a single switch condition
      whose coverage is that of all the records. */
  lemma SharedOffsetIsSwitch(bs: seq<BranchInfo>, offset: int)
    requires |bs| >= 3
    requires forall i :: 0 <= i < |bs| ==> bs[i].offset == offset
    ensures |Conditions(bs)| == 1
    ensures Conditions(bs)[0].number == offset
    ensures Conditions(bs)[0].conditionType == Switch
    ensures Conditions(bs)[0].coverage == BranchCoverage(bs)
  {
    var cs := Conditions(bs);
    Seqs.DistinctOfConstant(OffsetsOf(bs), offset);
    Seqs.FilterAll((b: BranchInfo) => b.offset == offset, bs);
    assert OffsetGroup(bs, offset) == bs;
    assert cs == Conditions(bs);
  }

  /** In deterministic mode the report lists no sources and names every class
      file through the translator. */
  lemma DeterministicReport(result: CoverageResult, collaborators: Collaborators)
    requires result.parameters.deterministicReport
    ensures Report(result, collaborators).sources == []
    ensures forall i, c :: 0 <= i < |result.modules| && c in Report(result, collaborators).packages[i].classes ==>
      exists j :: (0 <= j < |result.modules[i].1| &&
                   c.filename == collaborators.resolveDeterministicPath(result.modules[i].1[j].0))
  {
  }

  /** With source link the only source is "" and every class file is named by
      its document path unchanged. */
  lemma SourceLinkReport(result: CoverageResult, collaborators: Collaborators)
    requires !result.parameters.deterministicReport && result.parameters.useSourceLink
    ensures Report(result, collaborators).sources == [""]
    ensures forall i, c :: 0 <= i < |result.modules| && c in Report(result, collaborators).packages[i].classes ==>
      exists j :: 0 <= j < |result.modules[i].1| && c.filename == result.modules[i].1[j].0
  {
  }
}
