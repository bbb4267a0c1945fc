/** Reporter metadata: how each output format declares its output kind and
    file extension, and selection of a reporter by its format name. */
module Reporters {
  import opened Wrappers

  /** Whether a reporter's text goes to a file or to the console. */
  datatype OutputType = File | Console

  /** The declared metadata of a reporter; `extension` is `None` where the reporter declares none. */
  datatype Reporter = Reporter(format: string, outputType: OutputType, extension: Option<string>)

  const Cobertura: Reporter := Reporter("cobertura", File, Some("cobertura.xml"))
  const TeamCity: Reporter := Reporter("teamcity", Console, None)
  /** The lcov reporter's metadata as the output-file name rows use it; its report body is not modelled. */
  const Lcov: Reporter := Reporter("lcov", File, Some("info"))

  const Known: seq<Reporter> := [Cobertura, TeamCity, Lcov]

  /** The first known reporter with the given format name. */
  function ReporterFor(format: string): (r: Option<Reporter>)
    ensures r.Some? <==> exists i :: 0 <= i < |Known| && Known[i].format == format
    ensures r.Some? ==> r.value in Known && r.value.format == format
  {
    FirstWithFormat(Known, format)
  }

  function FirstWithFormat(reporters: seq<Reporter>, format: string): (r: Option<Reporter>)
    ensures r.Some? <==> exists i :: 0 <= i < |reporters| && reporters[i].format == format
    ensures r.Some? ==> r.value in reporters && r.value.format == format
    decreases |reporters|
  {
    if |reporters| == 0 then None
    else if reporters[0].format == format then Some(reporters[0])
    else
      var r := FirstWithFormat(reporters[1..], format);
      assert forall i :: 0 < i < |reporters| ==> reporters[i] == reporters[1..][i - 1];
      r
  }

  /** The known format names are distinct, so each reporter is found by its own name. */
  lemma ReporterForKnown()
    ensures forall i :: 0 <= i < |Known| ==> ReporterFor(Known[i].format) == Some(Known[i])
  {
    assert Cobertura.format[0] != TeamCity.format[0] && Cobertura.format[0] != Lcov.format[0];
    assert TeamCity.format[0] != Lcov.format[0];
    assert Known[1..] == [TeamCity, Lcov] && Known[1..][1..] == [Lcov];
    assert FirstWithFormat([Lcov], Lcov.format) == Some(Lcov);
    assert FirstWithFormat([TeamCity, Lcov], Lcov.format) == Some(Lcov);
    assert FirstWithFormat([TeamCity, Lcov], TeamCity.format) == Some(TeamCity);
  }

  /** File reporters declare an extension and the console reporter declares none. */
  lemma FileReportersHaveExtensions()
    ensures forall i :: 0 <= i < |Known| ==> (Known[i].outputType == File <==> Known[i].extension.Some?)
  {
  }
}
