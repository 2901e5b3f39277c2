/** The structure scripts/convert2json.py produces: sections of test cases. */
module Documents {

  /** One comparison: two versions, each with its flag string, and the expected
      relation between them (one of `<`, `>`, `=`). */
  datatype TestCase = TestCase(
    leftVersion: string,
    leftFlags: string,
    expectedResult: char,
    rightFlags: string,
    rightVersion: string)

  /** A named group of test cases, in the order their lines appear. */
  datatype Section = Section(name: string, testcases: seq<TestCase>)

  /** The sections, in the order they were created. */
  type Document = seq<Section>

  /** The names of the sections, in order. */
  function Names(doc: Document): (r: seq<string>)
    ensures |r| == |doc|
    ensures forall i :: 0 <= i < |doc| ==> r[i] == doc[i].name
  {
    if |doc| == 0 then [] else Names(doc[..|doc| - 1]) + [doc[|doc| - 1].name]
  }

  /** Every test case of the document, section after section. */
  function AllCases(doc: Document): seq<TestCase>
  {
    if |doc| == 0 then [] else AllCases(doc[..|doc| - 1]) + doc[|doc| - 1].testcases
  }

  /** The test case count summed over the sections. */
  function TotalCases(doc: Document): nat
  {
    if |doc| == 0 then 0 else TotalCases(doc[..|doc| - 1]) + |doc[|doc| - 1].testcases|
  }

  lemma {:induction false} TotalIsAllCases(doc: Document)
    ensures TotalCases(doc) == |AllCases(doc)|
  {
    if |doc| > 0 {
      TotalIsAllCases(doc[..|doc| - 1]);
    }
  }

  /** Appending a section appends its name. */
  lemma NamesSnoc(doc: Document, s: Section)
    ensures Names(doc + [s]) == Names(doc) + [s.name]
  {
    assert (doc + [s])[..|doc|] == doc;
  }

  /** Appending a section appends its test cases. */
  lemma CasesSnoc(doc: Document, s: Section)
    ensures AllCases(doc + [s]) == AllCases(doc) + s.testcases
  {
    assert (doc + [s])[..|doc|] == doc;
  }
}
