/** The output-file name of a file report: the target framework (TFM) of a
    multi-targeted build goes before the extension, and the reporter's declared
    extension is used where the output names none. */
module ReportWriter {
  import Strings
  import opened Wrappers

  const DefaultStem: string := "coverage"

  /** The directory part of an output path, through its last separator ("" when it has none). */
  function DirectoryPart(path: string): (d: string)
    ensures d <= path
    ensures Strings.PathSeparator in path ==> |d| > 0 && d[|d| - 1] == Strings.PathSeparator
    ensures Strings.PathSeparator !in path[|d|..]
  {
    if Strings.PathSeparator in path then path[..Strings.LastIndexOf(path, Strings.PathSeparator) + 1] else ""
  }

  /** The file-name part: what follows the directory part ("" for a directory). */
  function FileName(path: string): (f: string)
    ensures DirectoryPart(path) + f == path
    ensures Strings.PathSeparator !in f
  {
    path[|DirectoryPart(path)|..]
  }

  /** A name has an extension when it holds a '.' that is not its last character. */
  predicate HasExtension(name: string)
  {
    '.' in name && Strings.LastIndexOf(name, '.') < |name| - 1
  }

  /** The extension of a name, its dot included: the text from its last '.'. */
  function Extension(name: string): (e: string)
    requires HasExtension(name)
    ensures |e| >= 2 && e[0] == '.' && '.' !in e[1..]
  {
    name[Strings.LastIndexOf(name, '.')..]
  }

  /** The name without its extension: the text before its last '.'. */
  function Stem(name: string): (s: string)
    requires HasExtension(name)
    ensures s + Extension(name) == name
  {
    name[..Strings.LastIndexOf(name, '.')]
  }

  /** A null or empty TFM means a single-target build. */
  predicate NoTfm(tfm: Option<string>)
  {
    tfm == None || tfm == Some("")
  }

  /** A TFM as string interpolation renders it (null renders as ""). */
  function TfmText(tfm: Option<string>): string
  {
    if tfm.Some? then tfm.value else ""
  }

  /** "." between the parts of a name when there is a TFM to separate, else nothing. */
  function TfmSeparator(tfm: Option<string>): string
  {
    if NoTfm(tfm) then "" else "."
  }

  /** The new file name for the file-name part `name` of the output: a name
      with an extension keeps it (and is kept whole without a TFM); any other
      name ends with the reporter's extension. */
  function NewName(tfm: Option<string>, name: string, reporterExtension: string): (r: string)
    ensures HasExtension(name) ==> HasExtension(r) && Extension(r) == Extension(name)
    ensures HasExtension(name) && NoTfm(tfm) ==> r == name
    ensures !HasExtension(name) ==>
      |r| > |reporterExtension| && r[|r| - |reporterExtension| - 1..] == "." + reporterExtension
  {
    if name == "" then
      var stem := DefaultStem + "." + TfmText(tfm) + TfmSeparator(tfm);
      assert stem + reporterExtension == stem[..|stem| - 1] + ("." + reporterExtension);
      stem + reporterExtension
    else if HasExtension(name) then
      var stem := Stem(name) + TfmSeparator(tfm) + TfmText(tfm);
      ExtensionOf(stem, Extension(name));
      assert NoTfm(tfm) ==> stem == Stem(name);
      stem + Extension(name)
    else
      var stem := name + TfmSeparator(tfm) + TfmText(tfm);
      assert stem + "." + reporterExtension == stem + ("." + reporterExtension);
      stem + "." + reporterExtension
  }

  /** The path of the report file (relative to the working directory when
      `output` is relative): the output's directory part followed by the new name. */
  function OutputFileName(tfm: Option<string>, output: string, reporterExtension: string): (r: string)
    ensures DirectoryPart(output) <= r
  {
    DirectoryPart(output) + NewName(tfm, FileName(output), reporterExtension)
  }

  /** What a TFM adds to a name: nothing without one, `.<tfm>` with one. */
  function Qualifier(tfm: Option<string>): (q: string)
    ensures NoTfm(tfm) ==> q == ""
    ensures !NoTfm(tfm) ==> q == "." + tfm.value
  {
    if NoTfm(tfm) then "" else "." + tfm.value
  }

  // ---------------------------------------------------------------------------
  // Properties

  /** Each of the three interpolations inserts the qualifier right after the base
      name and before the extension. */
  lemma NewNameQualified(tfm: Option<string>, name: string, reporterExtension: string)
    ensures name == "" ==>
      NewName(tfm, name, reporterExtension) == DefaultStem + Qualifier(tfm) + "." + reporterExtension
    ensures name != "" && HasExtension(name) ==>
      NewName(tfm, name, reporterExtension) == Stem(name) + Qualifier(tfm) + Extension(name)
    ensures name != "" && !HasExtension(name) ==>
      NewName(tfm, name, reporterExtension) == name + Qualifier(tfm) + "." + reporterExtension
  {
    var t := TfmText(tfm);
    var e := reporterExtension;
    if NoTfm(tfm) {
      assert t == "" && TfmSeparator(tfm) == "";
      if name == "" {
        assert DefaultStem + "." + t + "" + e == DefaultStem + "" + "." + e;
      } else if HasExtension(name) {
        assert Stem(name) + "" + t + Extension(name) == Stem(name) + "" + Extension(name);
      } else {
        assert name + "" + t + "." + e == name + "" + "." + e;
      }
    } else {
      assert t == tfm.value && TfmSeparator(tfm) == ".";
      if name == "" {
        assert DefaultStem + "." + t + "." + e == DefaultStem + ("." + t) + "." + e;
      } else if HasExtension(name) {
        assert Stem(name) + "." + t + Extension(name) == Stem(name) + ("." + t) + Extension(name);
      } else {
        assert name + "." + t + "." + e == name + ("." + t) + "." + e;
      }
    }
  }

  /** The directory of the output path is kept, and the new name is its file-name part. */
  lemma DirectoryIsKept(tfm: Option<string>, output: string, reporterExtension: string)
    requires Strings.PathSeparator !in TfmText(tfm) && Strings.PathSeparator !in reporterExtension
    ensures DirectoryPart(OutputFileName(tfm, output, reporterExtension)) == DirectoryPart(output)
    ensures FileName(OutputFileName(tfm, output, reporterExtension)) == NewName(tfm, FileName(output), reporterExtension)
  {
    NewNameIsPlain(tfm, FileName(output), reporterExtension);
    PartsOf(DirectoryPart(output), NewName(tfm, FileName(output), reporterExtension));
  }

  /** The new name of a plain file name is a plain file name, when neither the
      TFM nor the reporter extension holds a separator. */
  lemma NewNameIsPlain(tfm: Option<string>, name: string, reporterExtension: string)
    requires Strings.PathSeparator !in TfmText(tfm) && Strings.PathSeparator !in reporterExtension
    requires Strings.PathSeparator !in name
    ensures Strings.PathSeparator !in NewName(tfm, name, reporterExtension)
  {
    var f := NewName(tfm, name, reporterExtension);
    NewNameQualified(tfm, name, reporterExtension);
    var q := Qualifier(tfm);
    assert Strings.PathSeparator !in q;
    if name == "" {
      assert Strings.PathSeparator !in DefaultStem;
      assert f == DefaultStem + q + "." + reporterExtension;
    } else if HasExtension(name) {
      assert Stem(name) + Extension(name) == name;
      assert Strings.PathSeparator !in Stem(name) && Strings.PathSeparator !in Extension(name);
      assert f == Stem(name) + q + Extension(name);
    } else {
      assert f == name + q + "." + reporterExtension;
    }
  }

  /** A directory part followed by a plain file name splits back into the two. */
  lemma PartsOf(d: string, f: string)
    requires d == "" || d[|d| - 1] == Strings.PathSeparator
    requires Strings.PathSeparator !in f
    ensures DirectoryPart(d + f) == d && FileName(d + f) == f
  {
    var p := d + f;
    assert p[..|d|] == d && p[|d|..] == f;
    if d != "" {
      Strings.LastIndexOfUnique(p, Strings.PathSeparator, |d| - 1);
    } else {
      assert p == f;
    }
  }

  /** Without a TFM, an output that names a file with an extension is used as it is. */
  lemma NoTfmKeepsNamedOutput(tfm: Option<string>, output: string, reporterExtension: string)
    requires NoTfm(tfm)
    requires HasExtension(FileName(output))
    ensures OutputFileName(tfm, output, reporterExtension) == output
  {
    NoTfmKeepsNamedFile(tfm, FileName(output), reporterExtension);
  }

  lemma NoTfmKeepsNamedFile(tfm: Option<string>, name: string, reporterExtension: string)
    requires NoTfm(tfm)
    requires HasExtension(name)
    ensures NewName(tfm, name, reporterExtension) == name
  {
    NewNameQualified(tfm, name, reporterExtension);
    assert Stem(name) + "" + Extension(name) == Stem(name) + Extension(name);
  }

  /** Without a TFM, a directory output gets `coverage.` and the reporter extension. */
  lemma NoTfmDirectoryOutput(tfm: Option<string>, output: string, reporterExtension: string)
    requires NoTfm(tfm)
    requires FileName(output) == ""
    ensures OutputFileName(tfm, output, reporterExtension) == output + "coverage." + reporterExtension
  {
    NewNameQualified(tfm, "", reporterExtension);
    assert DirectoryPart(output) == output;
    assert DefaultStem + "" + "." + reporterExtension == "coverage." + reporterExtension;
    assert output + ("coverage." + reporterExtension) == output + "coverage." + reporterExtension;
  }

  /** Without a TFM, an extensionless output gets "." and the reporter extension appended. */
  lemma NoTfmExtensionlessOutput(tfm: Option<string>, output: string, reporterExtension: string)
    requires NoTfm(tfm)
    requires FileName(output) != "" && !HasExtension(FileName(output))
    ensures OutputFileName(tfm, output, reporterExtension) == output + "." + reporterExtension
  {
    var d := DirectoryPart(output);
    var name := FileName(output);
    NewNameQualified(tfm, name, reporterExtension);
    assert NewName(tfm, name, reporterExtension) == name + "" + "." + reporterExtension;
    assert d + (name + "" + "." + reporterExtension) == (d + name) + "." + reporterExtension;
  }

  /** With a TFM, a directory or extensionless output gets `.<tfm>.<reporter extension>`
      after its base name: the TFM goes before the whole reporter extension. */
  lemma TfmBeforeReporterExtension(tfm: string, output: string, reporterExtension: string)
    requires tfm != ""
    requires FileName(output) == "" || !HasExtension(FileName(output))
    ensures var base := if FileName(output) == "" then output + DefaultStem else output;
      OutputFileName(Some(tfm), output, reporterExtension) == base + "." + tfm + "." + reporterExtension
  {
    var d := DirectoryPart(output);
    var name := FileName(output);
    var base := if name == "" then DefaultStem else name;
    assert NewName(Some(tfm), name, reporterExtension) == base + "." + tfm + "." + reporterExtension;
    Regroup(d, base, tfm, reporterExtension);
  }

  /** With a TFM and an output naming its own extension, the TFM is inserted
      before the last extension only. */
  lemma TfmBeforeOwnExtension(tfm: string, output: string, reporterExtension: string)
    requires tfm != ""
    requires HasExtension(FileName(output))
    ensures var name := FileName(output);
      OutputFileName(Some(tfm), output, reporterExtension) == DirectoryPart(output) + (Stem(name) + "." + tfm + Extension(name))
  {
    TfmBeforeOwnExtensionOfName(tfm, FileName(output), reporterExtension);
  }

  /** The name with the TFM inserted keeps the output's extension, and its stem
      is the output's stem followed by `.<tfm>`. */
  lemma TfmBeforeOwnExtensionOfName(tfm: string, name: string, reporterExtension: string)
    requires tfm != ""
    requires HasExtension(name)
    ensures NewName(Some(tfm), name, reporterExtension) == (Stem(name) + "." + tfm) + Extension(name)
    ensures var r := NewName(Some(tfm), name, reporterExtension);
      HasExtension(r) && Extension(r) == Extension(name) && Stem(r) == Stem(name) + "." + tfm
  {
    NewNameQualified(Some(tfm), name, reporterExtension);
    assert Stem(name) + ("." + tfm) + Extension(name) == (Stem(name) + "." + tfm) + Extension(name);
    ExtensionOf(Stem(name) + "." + tfm, Extension(name));
  }

  /** A dot-led, dot-free suffix is the extension of whatever it ends. */
  lemma ExtensionOf(stem: string, e: string)
    requires |e| >= 2 && e[0] == '.' && '.' !in e[1..]
    ensures HasExtension(stem + e)
    ensures Extension(stem + e) == e && Stem(stem + e) == stem
  {
    var s := stem + e;
    assert s[|stem|] == '.';
    assert s[|stem| + 1..] == e[1..];
    Strings.LastIndexOfUnique(s, '.', |stem|);
  }

  // ---------------------------------------------------------------------------
  // The ten data rows of the output-name test

  // Each row holds for any output directory `d`; the test rows use "/folder/reportFolder/".

  lemma RowEmptyTfmDirectory(d: string)
    requires |d| > 0 && d[|d| - 1] == Strings.PathSeparator
    ensures OutputFileName(Some(""), d, "info") == d + "coverage.info"
  {
    RowDirectory(d);
    NoTfmDirectoryOutput(Some(""), d, "info");
  }

  lemma RowNoTfmDirectory(d: string)
    requires |d| > 0 && d[|d| - 1] == Strings.PathSeparator
    ensures OutputFileName(None, d, "cobertura.xml") == d + "coverage.cobertura.xml"
  {
    RowDirectory(d);
    NoTfmDirectoryOutput(None, d, "cobertura.xml");
  }

  lemma RowNoTfmExtension(d: string)
    requires |d| > 0 && d[|d| - 1] == Strings.PathSeparator
    ensures OutputFileName(None, d + "file.ext", "cobertura.xml") == d + "file.ext"
  {
    RowFile(d, "file.ext", 4);
    NoTfmKeepsNamedOutput(None, d + "file.ext", "cobertura.xml");
  }

  lemma RowNoTfmTwoExtensions(d: string)
    requires |d| > 0 && d[|d| - 1] == Strings.PathSeparator
    ensures OutputFileName(None, d + "file.ext1.ext2", "cobertura.xml") == d + "file.ext1.ext2"
  {
    RowFile(d, "file.ext1.ext2", 9);
    NoTfmKeepsNamedOutput(None, d + "file.ext1.ext2", "cobertura.xml");
  }

  lemma RowNoTfmPlainFile(d: string)
    requires |d| > 0 && d[|d| - 1] == Strings.PathSeparator
    ensures OutputFileName(None, d + "file", "cobertura.xml") == d + "file.cobertura.xml"
  {
    RowPlainFile(d, "file");
    NoTfmExtensionlessOutput(None, d + "file", "cobertura.xml");
  }

  lemma RowTfmDirectoryLcov(d: string)
    requires |d| > 0 && d[|d| - 1] == Strings.PathSeparator
    ensures OutputFileName(Some("netcoreapp2.2"), d, "info") == d + "coverage.netcoreapp2.2.info"
  {
    RowDirectory(d);
    TfmBeforeReporterExtension("netcoreapp2.2", d, "info");
    Regroup(d, DefaultStem, "netcoreapp2.2", "info");
    LcovRowName();
  }

  lemma RowTfmDirectoryCobertura(d: string)
    requires |d| > 0 && d[|d| - 1] == Strings.PathSeparator
    ensures OutputFileName(Some("netcoreapp2.2"), d, "cobertura.xml") == d + "coverage.netcoreapp2.2.cobertura.xml"
  {
    RowDirectory(d);
    TfmBeforeReporterExtension("netcoreapp2.2", d, "cobertura.xml");
    Regroup(d, DefaultStem, "netcoreapp2.2", "cobertura.xml");
    CoberturaRowName();
  }

  lemma RowTfmExtension(d: string)
    requires |d| > 0 && d[|d| - 1] == Strings.PathSeparator
    ensures OutputFileName(Some("net472"), d + "file.ext", "cobertura.xml") == d + "file.net472.ext"
  {
    RowFile(d, "file.ext", 4);
    TfmBeforeOwnExtension("net472", d + "file.ext", "cobertura.xml");
    ExtensionRowPieces();
  }

  lemma RowTfmTwoExtensions(d: string)
    requires |d| > 0 && d[|d| - 1] == Strings.PathSeparator
    ensures OutputFileName(Some("net472"), d + "file.ext1.ext2", "cobertura.xml") == d + "file.ext1.net472.ext2"
  {
    RowFile(d, "file.ext1.ext2", 9);
    TfmBeforeOwnExtension("net472", d + "file.ext1.ext2", "cobertura.xml");
    ExtensionRowPieces();
  }

  lemma RowTfmPlainFile(d: string)
    requires |d| > 0 && d[|d| - 1] == Strings.PathSeparator
    ensures OutputFileName(Some("netcoreapp2.2"), d + "file", "cobertura.xml") == d + "file.netcoreapp2.2.cobertura.xml"
  {
    RowPlainFile(d, "file");
    TfmBeforeReporterExtension("netcoreapp2.2", d + "file", "cobertura.xml");
    Regroup(d, "file", "netcoreapp2.2", "cobertura.xml");
    PlainFileRowName();
  }

  /** `d + b + "." + t + "." + e` is `d` followed by the rest as one string. */
  lemma Regroup(d: string, b: string, t: string, e: string)
    ensures d + b + "." + t + "." + e == d + (b + "." + t + "." + e)
  {
  }

  lemma LcovRowName()
    ensures DefaultStem + "." + "netcoreapp2.2" + "." + "info" == "coverage.netcoreapp2.2.info"
  {
  }

  lemma CoberturaRowName()
    ensures DefaultStem + "." + "netcoreapp2.2" + "." + "cobertura.xml" == "coverage.netcoreapp2.2.cobertura.xml"
  {
  }

  lemma PlainFileRowName()
    ensures "file" + "." + "netcoreapp2.2" + "." + "cobertura.xml" == "file.netcoreapp2.2.cobertura.xml"
  {
  }

  lemma ExtensionRowPieces()
    ensures "file.ext"[..4] == "file" && "file.ext"[4..] == ".ext"
    ensures "file.ext1.ext2"[..9] == "file.ext1" && "file.ext1.ext2"[9..] == ".ext2"
    ensures "file" + "." + "net472" + ".ext" == "file.net472.ext"
    ensures "file.ext1" + "." + "net472" + ".ext2" == "file.ext1.net472.ext2"
  {
  }

  lemma RowDirectory(d: string)
    requires |d| > 0 && d[|d| - 1] == Strings.PathSeparator
    ensures FileName(d) == ""
  {
    PartsOf(d, "");
    assert d + "" == d;
  }

  /** A file name with its last '.' at `dot` has an extension split there. */
  lemma RowFile(d: string, name: string, dot: nat)
    requires |d| > 0 && d[|d| - 1] == Strings.PathSeparator && Strings.PathSeparator !in name
    requires dot + 1 < |name| && name[dot] == '.' && '.' !in name[dot + 1..]
    ensures DirectoryPart(d + name) == d && FileName(d + name) == name
    ensures HasExtension(name) && Extension(name) == name[dot..] && Stem(name) == name[..dot]
  {
    PartsOf(d, name);
    ExtensionAt(name, dot);
  }

  /** The extension of a name whose last '.' is at `dot` starts there. */
  lemma ExtensionAt(name: string, dot: nat)
    requires dot + 1 < |name| && name[dot] == '.' && '.' !in name[dot + 1..]
    ensures HasExtension(name) && Extension(name) == name[dot..] && Stem(name) == name[..dot]
  {
    Strings.LastIndexOfUnique(name, '.', dot);
  }

  lemma RowPlainFile(d: string, name: string)
    requires |d| > 0 && d[|d| - 1] == Strings.PathSeparator && Strings.PathSeparator !in name
    requires name != "" && '.' !in name
    ensures FileName(d + name) == name && !HasExtension(name)
  {
    PartsOf(d, name);
    assert (d + name)[|d|..] == name;
  }
}
