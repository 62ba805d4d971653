/**
 The approval case, `DocAsTest`: a title, a test name, the text written so far
 and the two fixed settings that place its files on disk.
 */
module Doc {
  import opened Trim

  datatype DocAsTest = DocAsTest(
    name: string,
    testName: string,
    content: string,
    docsPath: string,
    docsExtension: string
  )

  const DefaultDocsPath: string := "./docs"
  const DefaultDocsExtension: string := "adoc"

  /** A fresh case: nothing written yet, files under "./docs" with extension "adoc". */
  function New(name: string, testName: string): (d: DocAsTest)
    ensures d.name == name && d.testName == testName
    ensures d.content == ""
    ensures d.docsPath == "./docs" && d.docsExtension == "adoc"
  {
    DocAsTest(name, testName, "", DefaultDocsPath, DefaultDocsExtension)
  }

  /** Appends a fragment verbatim; nothing but the body changes. */
  function Write(d: DocAsTest, fragment: string): (d': DocAsTest)
    ensures d'.content == d.content + fragment
    ensures d'.name == d.name && d'.testName == d.testName
    ensures d'.docsPath == d.docsPath && d'.docsExtension == d.docsExtension
  {
    d.(content := d.content + fragment)
  }

  /** Calls `Write` once per fragment, in order. */
  function WriteAll(d: DocAsTest, fragments: seq<string>): DocAsTest
    decreases |fragments|
  {
    if |fragments| == 0 then d else WriteAll(Write(d, fragments[0]), fragments[1..])
  }

  /** The fragments joined with no separator. */
  function Concat(fragments: seq<string>): string
    decreases |fragments|
  {
    if |fragments| == 0 then "" else fragments[0] + Concat(fragments[1..])
  }

  /** A sequence of writes appends the fragments in call order, with nothing
      inserted between them, and leaves every other field alone. */
  lemma {:induction false} WriteAllAppends(d: DocAsTest, fragments: seq<string>)
    ensures WriteAll(d, fragments) == d.(content := d.content + Concat(fragments))
    decreases |fragments|
  {
    if |fragments| > 0 {
      WriteAllAppends(Write(d, fragments[0]), fragments[1..]);
      assert d.content + fragments[0] + Concat(fragments[1..])
          == d.content + (fragments[0] + Concat(fragments[1..]));
    }
  }

  /** The rendered document: a header line "= name", a blank line, then the
      body exactly as written. */
  function Content(d: DocAsTest): (r: string)
    ensures |r| == |d.name| + |d.content| + 4
    ensures r[..2] == "= "
    ensures r[2..|d.name| + 2] == d.name
    ensures r[|d.name| + 2..|d.name| + 4] == "\n\n"
    ensures r[|d.name| + 4..] == d.content
  {
    "= " + d.name + "\n\n" + d.content
  }

  /** The rendered document never trims to "": it starts with '='. */
  lemma ContentNeverTrimsEmpty(d: DocAsTest)
    ensures TrimEndNewlines(Content(d)) != ""
  {
    assert Content(d)[0] == "= "[0] == '=';
  }

  /** Rendering after a write is rendering before it followed by the fragment. */
  lemma ContentAfterWrite(d: DocAsTest, fragment: string)
    ensures Content(Write(d, fragment)) == Content(d) + fragment
  {
  }

  /** A case built by `New` and a sequence of writes renders as its title
      header followed by the concatenated fragments. */
  lemma ContentOfNewCase(name: string, testName: string, fragments: seq<string>)
    ensures Content(WriteAll(New(name, testName), fragments)) == "= " + name + "\n\n" + Concat(fragments)
  {
    WriteAllAppends(New(name, testName), fragments);
    assert "" + Concat(fragments) == Concat(fragments);
  }

  /** The case written by the crate's own test, three one-letter writes. */
  lemma ExampleThreeWrites()
    ensures Content(WriteAll(New("Using DocAsTest", "my_test_approvals_with_doc_as_test"), ["x", "y", "z"]))
         == "= Using DocAsTest\n\nxyz"
  {
  }
}
