/**
 The received and approved file names of a case:
 "{docsPath}/{testName}_received.{ext}" and "{docsPath}/{testName}_approved.{ext}".
 The test name is used verbatim: no character of it is replaced or escaped.
 */
module Paths {
  import opened Options
  import opened Doc

  datatype FileKind = Received | Approved

  function Marker(kind: FileKind): string
  {
    match kind
    case Received => "_received."
    case Approved => "_approved."
  }

  function Filename(docsPath: string, testName: string, kind: FileKind, ext: string): string
  {
    docsPath + "/" + testName + Marker(kind) + ext
  }

  function ReceivedFilename(d: DocAsTest): string
  {
    Filename(d.docsPath, d.testName, Received, d.docsExtension)
  }

  function ApprovedFilename(d: DocAsTest): string
  {
    Filename(d.docsPath, d.testName, Approved, d.docsExtension)
  }

  /** Recovers the test name and the kind from a file name built under the
      given directory and extension; `None` for any other string. */
  function ParseFilename(docsPath: string, ext: string, p: string): (r: Option<(string, FileKind)>)
    ensures r.Some? ==> p == Filename(docsPath, r.value.0, r.value.1, ext)
  {
    var fixed := |docsPath| + 1 + |Marker(Received)| + |ext|;
    if |p| < fixed || p[..|docsPath| + 1] != docsPath + "/" then None
    else
      var tail := p[|p| - |Marker(Received)| - |ext|..];
      var testName := p[|docsPath| + 1..|p| - |Marker(Received)| - |ext|];
      if tail == Marker(Received) + ext then
        assert p == p[..|docsPath| + 1] + testName + tail;
        Some((testName, Received))
      else if tail == Marker(Approved) + ext then
        assert p == p[..|docsPath| + 1] + testName + tail;
        Some((testName, Approved))
      else None
  }

  /** Parsing a built file name gives back the test name and kind it was built from. */
  lemma ParseFilenameRoundTrip(docsPath: string, testName: string, kind: FileKind, ext: string)
    ensures ParseFilename(docsPath, ext, Filename(docsPath, testName, kind, ext)) == Some((testName, kind))
  {
    var p := Filename(docsPath, testName, kind, ext);
    var n := |docsPath| + 1 + |testName|;
    assert p[..|docsPath| + 1] == docsPath + "/";
    assert p[n..] == Marker(kind) + ext;
    assert p[|docsPath| + 1..n] == testName;
    assert Marker(Received)[1] != Marker(Approved)[1];
    assert (Marker(Received) + ext)[1] != (Marker(Approved) + ext)[1];
  }

  /** Within one directory and extension, a file name determines the test
      name and the kind: distinct test names never yield the same path string. */
  lemma FilenameInjective(docsPath: string, ext: string, t1: string, k1: FileKind, t2: string, k2: FileKind)
    ensures Filename(docsPath, t1, k1, ext) == Filename(docsPath, t2, k2, ext) <==> t1 == t2 && k1 == k2
  {
    ParseFilenameRoundTrip(docsPath, t1, k1, ext);
    ParseFilenameRoundTrip(docsPath, t2, k2, ext);
  }

  /** A case's received and approved paths are never the same string. */
  lemma ReceivedIsNotApproved(d: DocAsTest)
    ensures ReceivedFilename(d) != ApprovedFilename(d)
  {
    FilenameInjective(d.docsPath, d.docsExtension, d.testName, Received, d.testName, Approved);
  }

  /** The file names of a fresh case whose test name carries the attribute
      macro's "module::function" form: the separator stays as written. */
  lemma ExampleFilenames()
    ensures ReceivedFilename(New("Title", "tests::t")) == "./docs/tests::t_received.adoc"
    ensures ApprovedFilename(New("Title", "tests::t")) == "./docs/tests::t_approved.adoc"
  {
  }
}
