/** The TeamCity reporter: six `buildStatisticValue` service messages with the
    whole-result line, branch and method counts. */
module TeamCity {
  import Strings
  import opened Wrappers
  import opened Coverage

  /** The failure `Report` raises instead of producing output. */
  datatype Error = NotSupported(message: string)

  /** The statistic keys, in the order the messages are written. */
  const Keys: seq<string> := [
    "CodeCoverageAbsLCovered", "CodeCoverageAbsLTotal",
    "CodeCoverageAbsBCovered", "CodeCoverageAbsBTotal",
    "CodeCoverageAbsMCovered", "CodeCoverageAbsMTotal"]

  const MessagePrefix: string := "##teamcity[buildStatisticValue key='"
  const ValueInfix: string := "' value='"
  const MessageSuffix: string := "']"

  /** One service message. A whole number under the "0.##" format is its plain
      decimal digits. A quote-free key reads back with its value, and a
      newline-free key gives a single line. */
  function ServiceMessage(key: string, value: nat): (r: string)
    ensures '\'' !in key ==> ParseServiceMessage(r) == Some((key, value))
    ensures '\n' !in key ==> '\n' !in r
  {
    MessageTextRoundTrip(key, value);
    MessageTextHasNoNewline(key, value);
    MessagePrefix + key + ValueInfix + Strings.DecimalString(value) + MessageSuffix
  }

  /** The six reported counts over the whole result, in key order. */
  function Values(modules: Modules): (v: seq<nat>)
    ensures |v| == 6
  {
    var all := MethodsOfModules(modules);
    var lines := LineCoverageOf(all);
    var branches := BranchCoverageOf(all);
    var methods := MethodCoverageOf(all);
    [lines.covered, lines.total, branches.covered, branches.total, methods.covered, methods.total]
  }

  /** The lines of the report, without their line terminators. */
  function MessageLines(modules: Modules): (ls: seq<string>)
    ensures |ls| == 6
  {
    Messages(Values(modules))
  }

  /** The messages for six counts, in key order. */
  function Messages(v: seq<nat>): (ls: seq<string>)
    requires |v| == 6
    ensures |ls| == 6
  {
    seq(6, k requires 0 <= k < 6 => ServiceMessage(Keys[k], v[k]))
  }

  /** What a sequence of `AppendLine` calls builds: each line followed by a newline. */
  function AppendLines(ls: seq<string>): string
    decreases |ls|
  {
    if |ls| == 0 then "" else ls[0] + "\n" + AppendLines(ls[1..])
  }

  /** `TeamCityReporter.Report`: deterministic mode is refused, otherwise the six messages. */
  function Report(result: CoverageResult): (r: Result<string, Error>)
    ensures r.Failure? <==> result.parameters.deterministicReport
    ensures r.Success? ==> |r.value| > 0 && r.value[|r.value| - 1] == '\n'
  {
    if result.parameters.deterministicReport then
      Failure(NotSupported("Deterministic report not supported by teamcity reporter"))
    else
      var out := AppendLines(MessageLines(result.modules));
      assert out[|out| - 1] == '\n' by { ReportEndsWithNewline(MessageLines(result.modules)); }
      Success(out)
  }

  lemma {:induction false} ReportEndsWithNewline(ls: seq<string>)
    requires |ls| > 0
    ensures |AppendLines(ls)| > 0 && AppendLines(ls)[|AppendLines(ls)| - 1] == '\n'
    decreases |ls|
  {
    if |ls| > 1 {
      ReportEndsWithNewline(ls[1..]);
    }
  }

  // ---------------------------------------------------------------------------
  // Reading the output back

  /** Reads one service message back as its key and value; `None` for anything else. */
  function ParseServiceMessage(line: string): Option<(string, nat)>
  {
    if !(MessagePrefix <= line) then None
    else
      var rest := line[|MessagePrefix|..];
      if '\'' !in rest then None
      else
        var i := Strings.IndexOf(rest, '\'');
        match ParseValue(rest[i..])
        case None => None
        case Some(n) => Some((rest[..i], n))
  }

  /** Reads the part of a message after its key: `' value='`, digits and `']`. */
  function ParseValue(tail: string): Option<nat>
  {
    if !(ValueInfix <= tail) then None
    else
      var v := tail[|ValueInfix|..];
      if |v| < |MessageSuffix| || v[|v| - |MessageSuffix|..] != MessageSuffix then None
      else
        var digits := v[..|v| - |MessageSuffix|];
        if |digits| == 0 || !Strings.IsDigits(digits) then None
        else Some(Strings.ParseDecimal(digits))
  }

  /** A message text reads back as the key and value it was written with. */
  lemma MessageTextRoundTrip(key: string, value: nat)
    ensures '\'' !in key ==>
      ParseServiceMessage(MessagePrefix + key + ValueInfix + Strings.DecimalString(value) + MessageSuffix)
        == Some((key, value))
  {
    if '\'' !in key {
      var line := MessagePrefix + key + ValueInfix + Strings.DecimalString(value) + MessageSuffix;
      var tail := ValueInfix + Strings.DecimalString(value) + MessageSuffix;
      var rest := key + tail;
      assert line == MessagePrefix + rest;
      assert line[|MessagePrefix|..] == rest;
      assert rest[|key|] == '\'';
      assert rest[..|key|] == key;
      Strings.IndexOfUnique(rest, '\'', |key|);
      assert rest[|key|..] == tail;
      ValueRoundTrip(value);
    }
  }

  /** The value part of a message reads back as the value. */
  lemma ValueRoundTrip(value: nat)
    ensures ParseValue(ValueInfix + Strings.DecimalString(value) + MessageSuffix) == Some(value)
  {
    var digits := Strings.DecimalString(value);
    var tail := ValueInfix + digits + MessageSuffix;
    var v := tail[|ValueInfix|..];
    assert v == digits + MessageSuffix;
    assert v[..|v| - |MessageSuffix|] == digits;
    assert v[|v| - |MessageSuffix|..] == MessageSuffix;
    Strings.ParseDecimalString(value);
  }

  /** The report text joins the message lines with newlines and ends with one. */
  lemma {:induction false} AppendLinesIsJoin(ls: seq<string>)
    ensures AppendLines(ls) == Strings.Join(ls + [""], '\n')
    decreases |ls|
  {
    if |ls| > 0 {
      AppendLinesIsJoin(ls[1..]);
      assert (ls + [""])[1..] == ls[1..] + [""];
    }
  }

  lemma KeysAreQuoteAndNewlineFree()
    ensures forall k :: 0 <= k < 6 ==> '\'' !in Keys[k] && '\n' !in Keys[k]
  {
  }

  /** Each message line is free of newlines and reads back as its key and count. */
  lemma MessagesReadBack(v: seq<nat>)
    requires |v| == 6
    ensures forall k :: 0 <= k < 6 ==> '\n' !in Messages(v)[k]
    ensures forall k :: 0 <= k < 6 ==> ParseServiceMessage(Messages(v)[k]) == Some((Keys[k], v[k]))
  {
    KeysAreQuoteAndNewlineFree();
    forall k | 0 <= k < 6
      ensures '\n' !in Messages(v)[k]
      ensures ParseServiceMessage(Messages(v)[k]) == Some((Keys[k], v[k]))
    {
      assert Messages(v)[k] == ServiceMessage(Keys[k], v[k]);
    }
  }

  /** A message text holds no newline when its key holds none. */
  lemma MessageTextHasNoNewline(key: string, value: nat)
    ensures '\n' !in key ==> '\n' !in MessagePrefix + key + ValueInfix + Strings.DecimalString(value) + MessageSuffix
  {
    var digits := Strings.DecimalString(value);
    assert '\n' !in MessagePrefix && '\n' !in ValueInfix && '\n' !in MessageSuffix;
  }

  /** Split on newlines, a successful report is the six messages followed by an
      empty remainder, and message `k` reads back as key `k` with the `k`-th
      whole-result count. */
  lemma ReportLines(result: CoverageResult)
    requires !result.parameters.deterministicReport
    ensures Report(result).Success?
    ensures Strings.Split(Report(result).value, '\n') == MessageLines(result.modules) + [""]
    ensures forall k :: 0 <= k < 6 ==>
      ParseServiceMessage(Strings.Split(Report(result).value, '\n')[k]) == Some((Keys[k], Values(result.modules)[k]))
  {
    var v := Values(result.modules);
    AppendLinesIsJoin(Messages(v));
    SplitOfMessages(v);
    MessagesReadBack(v);
    assert forall k :: 0 <= k < 6 ==> (Messages(v) + [""])[k] == Messages(v)[k];
  }

  /** The newline-joined messages, with a final terminator, split back into the messages and "". */
  lemma SplitOfMessages(v: seq<nat>)
    requires |v| == 6
    ensures Strings.Split(Strings.Join(Messages(v) + [""], '\n'), '\n') == Messages(v) + [""]
  {
    var ls := Messages(v);
    var fs := ls + [""];
    MessagesReadBack(v);
    assert forall i :: 0 <= i < |fs| ==> '\n' !in fs[i] by {
      forall i | 0 <= i < |fs| ensures '\n' !in fs[i] {
        if i < 6 { assert fs[i] == ls[i]; }
      }
    }
    Strings.SplitJoin(fs, '\n');
  }

  /** With no modules every count is zero, so every message carries value 0. */
  lemma EmptyResultReportsZeros()
    ensures Values([]) == [0, 0, 0, 0, 0, 0]
  {
  }
}
