/** The section-building loop of scripts/convert2json.py. A header opens a new section
    unless it repeats the current one; a test case goes into the current (last)
    section; comments and blank lines are skipped; anything else aborts the build. */
module Builder {
  import opened Results
  import opened Text
  import opened Documents
  import opened Patterns

  const MsgOutside := "test case outside of section"

  function MsgUnexpected(line: string): string
  {
    "unexpected input at line " + line
  }

  /** `doc` with `tc` added to the end of its last section. */
  function AddToLast(doc: Document, tc: TestCase): Document
    requires |doc| > 0
  {
    doc[..|doc| - 1] + [Section(doc[|doc| - 1].name, doc[|doc| - 1].testcases + [tc])]
  }

  /** One iteration of the loop: the document after `line`, or the error it raises.
      The current section is always the last one of the document. */
  function Step(doc: Document, line: string): Result<Document, string>
  {
    match HeaderName(line)
    case Some(name) =>
      if |doc| == 0 || doc[|doc| - 1].name != name then Ok(doc + [Section(name, [])]) else Ok(doc)
    case None =>
      match MatchTestCase(line)
      case Some(tc) =>
        if |doc| == 0 then Err(MsgOutside) else Ok(AddToLast(doc, tc))
      case None =>
        if |line| > 0 && line[0] != '#' then Err(MsgUnexpected(line)) else Ok(doc)
  }

  /** The loop over `lines` started from `doc`; the first error aborts it. */
  function BuildFrom(doc: Document, lines: seq<string>): Result<Document, string>
  {
    if |lines| == 0 then Ok(doc)
    else
      match BuildFrom(doc, lines[..|lines| - 1])
      case Err(e) => Err(e)
      case Ok(d) => Step(d, lines[|lines| - 1])
  }

  /** The builder on a whole document. */
  function Build(lines: seq<string>): Result<Document, string>
  {
    BuildFrom([], lines)
  }

  // ---------------------------------------------------------------------------
  // Reference definitions

  /** `line` opens or repeats a section. */
  predicate IsHeaderLine(line: string)
  {
    HeaderName(line).Some?
  }

  /** `line` matches the test case pattern (and, checked first, not the header one). */
  predicate IsCaseLine(line: string)
  {
    HeaderName(line).None? && MatchTestCase(line).Some?
  }

  /** `s` with every run of equal neighbours collapsed to one element. */
  function Collapse<T(==)>(s: seq<T>): (r: seq<T>)
    ensures |r| <= |s| && (|r| == 0 <==> |s| == 0)
    ensures |s| > 0 ==> r[0] == s[0] && r[|r| - 1] == s[|s| - 1]
  {
    if |s| <= 1 then s
    else if s[0] == s[1] then Collapse(s[1..])
    else [s[0]] + Collapse(s[1..])
  }

  /** No two neighbours of a collapsed sequence are equal. */
  lemma {:induction false} CollapseNoRepeats<T>(s: seq<T>)
    ensures forall i, j :: 0 <= i && j == i + 1 < |Collapse(s)| ==> Collapse(s)[i] != Collapse(s)[j]
  {
    if |s| > 1 {
      CollapseNoRepeats(s[1..]);
      if s[0] != s[1] {
        var t := Collapse(s[1..]);
        var r := Collapse(s);
        assert r == [s[0]] + t;
        forall i, j | 0 <= i && j == i + 1 < |r|
          ensures r[i] != r[j]
        {
          if i == 0 {
            assert r[j] == t[0] == s[1];
          } else {
            assert r[i] == t[i - 1] && r[j] == t[j - 1];
          }
        }
      }
    }
  }

  /** The name a line contributes: one if it is a header line, none otherwise. */
  function HeaderOf(line: string): seq<string>
  {
    match HeaderName(line) case Some(n) => [n] case None => []
  }

  /** The test case a line contributes: one if it is a test case line, none otherwise. */
  function CaseOf(line: string): seq<TestCase>
  {
    if IsCaseLine(line) then [MatchTestCase(line).value] else []
  }

  /** The names of the header lines, in order. */
  function HeaderNames(lines: seq<string>): seq<string>
  {
    if |lines| == 0 then []
    else
      HeaderNames(lines[..|lines| - 1])
        + HeaderOf(lines[|lines| - 1])
  }

  /** The test cases read from the test case lines, in order. */
  function CasesOf(lines: seq<string>): seq<TestCase>
  {
    if |lines| == 0 then []
    else
      CasesOf(lines[..|lines| - 1]) + CaseOf(lines[|lines| - 1])
  }

  /** Every test case of the document fits the pattern's character classes. */
  ghost predicate AllFit(doc: Document)
  {
    forall tc :: tc in AllCases(doc) ==> Fits(tc)
  }

  /** Neighbouring sections have different names. */
  ghost predicate NoRepeatedNeighbours(doc: Document)
  {
    forall i, j :: 0 <= i && j == i + 1 < |doc| ==> doc[i].name != doc[j].name
  }

  // ---------------------------------------------------------------------------
  // Properties

  /** Collapsing after appending `x` drops `x` exactly when it repeats the last element. */
  lemma {:induction false} CollapseSnoc<T>(s: seq<T>, x: T)
    ensures Collapse(s + [x]) == if |s| > 0 && s[|s| - 1] == x then Collapse(s) else Collapse(s) + [x]
  {
    if |s| == 1 {
      assert s + [x] == [s[0], x];
    } else if |s| > 1 {
      var t := s + [x];
      assert t[1..] == s[1..] + [x];
      assert t[0] == s[0] && t[1] == s[1];
      CollapseSnoc(s[1..], x);
    }
  }

  lemma BuildSnoc(p: seq<string>, l: string)
    ensures Build(p + [l]) == match Build(p) case Err(e) => Err(e) case Ok(d) => Step(d, l)
  {
    assert (p + [l])[..|p|] == p;
  }
  lemma HeaderNamesSnoc(p: seq<string>, l: string)
    ensures HeaderNames(p + [l]) ==
              HeaderNames(p) + HeaderOf(l)
    ensures CasesOf(p + [l]) == CasesOf(p) + CaseOf(l)
  {
    assert (p + [l])[..|p|] == p;
  }

  lemma AddToLastFacts(doc: Document, tc: TestCase)
    requires |doc| > 0
    ensures Names(AddToLast(doc, tc)) == Names(doc)
    ensures AllCases(AddToLast(doc, tc)) == AllCases(doc) + [tc]
  {
    AddToLastNames(doc, tc);
    AddToLastCases(doc, tc);
  }

  lemma AddToLastNames(doc: Document, tc: TestCase)
    requires |doc| > 0
    ensures Names(AddToLast(doc, tc)) == Names(doc)
  {
    var last := doc[|doc| - 1];
    NamesSnoc(doc[..|doc| - 1], Section(last.name, last.testcases + [tc]));
  }

  lemma AddToLastCases(doc: Document, tc: TestCase)
    requires |doc| > 0
    ensures AllCases(AddToLast(doc, tc)) == AllCases(doc) + [tc]
  {
    var init := doc[..|doc| - 1];
    var last := doc[|doc| - 1];
    CasesSnoc(init, Section(last.name, last.testcases + [tc]));
    AppendAssoc(AllCases(init), last.testcases, [tc]);
  }

  lemma AppendSectionFacts(doc: Document, name: string)
    ensures Names(doc + [Section(name, [])]) == Names(doc) + [name]
    ensures AllCases(doc + [Section(name, [])]) == AllCases(doc)
  {
    NamesSnoc(doc, Section(name, []));
    CasesSnoc(doc, Section(name, []));
    assert AllCases(doc) + [] == AllCases(doc);
  }

  /** One step keeps the document in agreement with the reference definitions. */
  lemma StepReference(d: Document, l: string, hn: seq<string>, cs: seq<TestCase>)
    requires Names(d) == Collapse(hn) && AllCases(d) == cs
    requires Step(d, l).Ok?
    ensures Names(Step(d, l).value) ==
              Collapse(hn + HeaderOf(l))
    ensures AllCases(Step(d, l).value) ==
              cs + CaseOf(l)
  {
    if HeaderName(l).Some? {
      var n := HeaderName(l).value;
      assert HeaderOf(l) == [n] && CaseOf(l) == [];
      HeaderStepReference(d, n, hn);
      assert cs + [] == cs;
    } else if IsCaseLine(l) {
      assert HeaderOf(l) == [];
      assert hn + [] == hn;
      CaseStepReference(d, l);
    } else {
      assert HeaderOf(l) == [] && CaseOf(l) == [];
      assert hn + [] == hn && cs + [] == cs;
      assert Step(d, l) == Ok(d);
    }
  }

  lemma CaseStepReference(d: Document, l: string)
    requires IsCaseLine(l) && Step(d, l).Ok?
    ensures Names(Step(d, l).value) == Names(d)
    ensures AllCases(Step(d, l).value) == AllCases(d) + [MatchTestCase(l).value]
  {
    assert Step(d, l) == Ok(AddToLast(d, MatchTestCase(l).value));
    AddToLastFacts(d, MatchTestCase(l).value);
  }

  lemma HeaderStepReference(d: Document, n: string, hn: seq<string>)
    requires Names(d) == Collapse(hn)
    ensures var d' := if |d| == 0 || d[|d| - 1].name != n then d + [Section(n, [])] else d;
            Names(d') == Collapse(hn + [n]) && AllCases(d') == AllCases(d)
  {
    CollapseSnoc(hn, n);
    if |d| == 0 || d[|d| - 1].name != n {
      AppendSectionFacts(d, n);
    }
  }

  /** Every test case read from the lines fits the pattern's classes. */
  lemma {:induction false} CasesOfFit(lines: seq<string>)
    ensures forall tc :: tc in CasesOf(lines) ==> Fits(tc)
  {
    if |lines| > 0 {
      CasesOfFit(lines[..|lines| - 1]);
    }
  }

  /** On success the section names are the header names with consecutive repeats merged,
      the test cases (section after section) are those of the test case lines in line
      order, and every test case fits the pattern's classes. */
  lemma {:induction false} BuildReference(lines: seq<string>)
    ensures Build(lines).Ok? ==>
              && Names(Build(lines).value) == Collapse(HeaderNames(lines))
              && AllCases(Build(lines).value) == CasesOf(lines)
              && AllFit(Build(lines).value)
  {
    if |lines| > 0 {
      var p := lines[..|lines| - 1];
      var l := lines[|lines| - 1];
      assert lines == p + [l];
      BuildReference(p);
      BuildSnoc(p, l);
      HeaderNamesSnoc(p, l);
      if Build(p).Ok? && Build(lines).Ok? {
        StepReference(Build(p).value, l, HeaderNames(p), CasesOf(p));
      }
    }
    CasesOfFit(lines);
  }

  /** On success, the total number of test cases is the number of test case lines, and
      no two neighbouring sections share a name (only consecutive repeats merge). */
  lemma BuildCounts(lines: seq<string>)
    requires Build(lines).Ok?
    ensures TotalCases(Build(lines).value) == |CasesOf(lines)|
    ensures NoRepeatedNeighbours(Build(lines).value)
  {
    var doc := Build(lines).value;
    BuildReference(lines);
    TotalIsAllCases(doc);
    CollapseNoRepeats(HeaderNames(lines));
    assert forall i :: 0 <= i < |doc| ==> Names(doc)[i] == doc[i].name;
  }
  /** A line the builder does not abort on, given a current section. */
  predicate Recognized(line: string)
  {
    IsHeaderLine(line) || MatchTestCase(line).Some? || IsSkipped(line)
  }

  /** Some line before index `i` is a header. */
  ghost predicate HeaderBefore(lines: seq<string>, i: int)
  {
    exists j :: 0 <= j < i && j < |lines| && IsHeaderLine(lines[j])
  }

  /** Every line is recognised and every test case line has a header somewhere before it. */
  ghost predicate Acceptable(lines: seq<string>)
  {
    && (forall i :: 0 <= i < |lines| ==> Recognized(lines[i]))
    && (forall i :: 0 <= i < |lines| && IsCaseLine(lines[i]) ==> HeaderBefore(lines, i))
  }

  lemma HeaderBeforeSnoc(p: seq<string>, l: string, i: int)
    requires 0 <= i <= |p|
    ensures HeaderBefore(p + [l], i) == HeaderBefore(p, i)
  {
    if HeaderBefore(p + [l], i) {
      var j :| 0 <= j < i && j < |p + [l]| && IsHeaderLine((p + [l])[j]);
      assert (p + [l])[j] == p[j];
    }
    if HeaderBefore(p, i) {
      var j :| 0 <= j < i && j < |p| && IsHeaderLine(p[j]);
      assert (p + [l])[j] == p[j];
    }
  }

  lemma AcceptableSnoc(p: seq<string>, l: string)
    ensures Acceptable(p + [l]) <==>
              Acceptable(p) && Recognized(l) && (IsCaseLine(l) ==> HeaderBefore(p, |p|))
  {
    var lines := p + [l];
    forall i | 0 <= i <= |p|
      ensures HeaderBefore(lines, i) == HeaderBefore(p, i)
    {
      HeaderBeforeSnoc(p, l, i);
    }
    assert forall i :: 0 <= i < |p| ==> lines[i] == p[i];
    assert lines[|p|] == l;
  }

  lemma {:induction false} HeaderNamesNonEmpty(lines: seq<string>)
    ensures |HeaderNames(lines)| > 0 <==> HeaderBefore(lines, |lines|)
  {
    if |lines| > 0 {
      var p := lines[..|lines| - 1];
      var l := lines[|lines| - 1];
      assert lines == p + [l];
      HeaderNamesNonEmpty(p);
      HeaderBeforeSnoc(p, l, |p|);
      if IsHeaderLine(l) {
        assert lines[|p|] == l;
      }
    }
  }

  /** After a successful prefix there is a current section exactly when a header was seen. */
  lemma SectionIffHeader(lines: seq<string>)
    requires Build(lines).Ok?
    ensures |Build(lines).value| > 0 <==> HeaderBefore(lines, |lines|)
  {
    BuildReference(lines);
    HeaderNamesNonEmpty(lines);
  }

  /** The builder succeeds exactly when every line is a header, a test case, blank or a
      comment, and every test case line comes after some header. */
  lemma {:induction false} BuildOkIff(lines: seq<string>)
    ensures Build(lines).Ok? <==> Acceptable(lines)
  {
    if |lines| > 0 {
      var p := lines[..|lines| - 1];
      var l := lines[|lines| - 1];
      assert lines == p + [l];
      BuildOkIff(p);
      BuildSnoc(p, l);
      AcceptableSnoc(p, l);
      if Build(p).Ok? {
        SectionIffHeader(p);
      }
    }
  }

  /** A failed prefix fails the whole document with the same error: no partial result. */
  lemma {:induction false} BuildErrPersists(p: seq<string>, q: seq<string>)
    requires Build(p).Err?
    ensures Build(p + q) == Build(p)
  {
    if |q| > 0 {
      var q' := q[..|q| - 1];
      BuildErrPersists(p, q');
      assert p + q == (p + q') + [q[|q| - 1]];
      BuildSnoc(p + q', q[|q| - 1]);
    } else {
      assert p + q == p;
    }
  }

  /** A test case line with no header anywhere before it aborts the build, with the
      outside-of-section error when nothing earlier failed. */
  lemma OutsideSection(lines: seq<string>, i: int)
    requires 0 <= i < |lines| && IsCaseLine(lines[i]) && !HeaderBefore(lines, i)
    ensures Build(lines).Err?
    ensures Build(lines[..i]).Ok? ==> Build(lines) == Err(MsgOutside)
  {
    var p := lines[..i];
    assert lines[..i + 1] == p + [lines[i]];
    assert lines == lines[..i + 1] + lines[i + 1..];
    BuildSnoc(p, lines[i]);
    if Build(p).Ok? {
      forall j | 0 <= j < i
        ensures !IsHeaderLine(p[j])
      {
        assert p[j] == lines[j];
      }
      SectionIffHeader(p);
      BuildErrPersists(lines[..i + 1], lines[i + 1..]);
    } else {
      BuildErrPersists(p, [lines[i]]);
      BuildErrPersists(lines[..i + 1], lines[i + 1..]);
    }
  }

  /** No test case line can be mistaken for a blank or comment line, nor a header line. */
  lemma SkipLineMatchesNothing(line: string)
    requires IsSkipped(line)
    ensures HeaderName(line).None? && MatchTestCase(line).None?
  {
    if MatchTestCase(line).Some? {
      ParsesBounds(line, MatchTestCase(line).value);
    }
  }

  /** Blank and comment lines leave the build unchanged. */
  lemma SkipLineNoEffect(p: seq<string>, l: string)
    requires IsSkipped(l)
    ensures Build(p + [l]) == Build(p)
  {
    BuildSnoc(p, l);
    SkipLineMatchesNothing(l);
  }

  /** Any other line matching neither pattern aborts the build, naming the line. */
  lemma UnexpectedLine(p: seq<string>, l: string)
    requires Build(p).Ok? && !Recognized(l)
    ensures Build(p + [l]) == Err(MsgUnexpected(l))
  {
    BuildSnoc(p, l);
  }

  /** `d2` grows `d1`: earlier sections are untouched, the last one keeps its name and
      only gains test cases at its end, and new sections come after it. */
  ghost predicate Extends(d1: Document, d2: Document)
  {
    && |d1| <= |d2|
    && (forall i :: 0 <= i < |d1| - 1 ==> d2[i] == d1[i])
    && (|d1| > 0 ==> d2[|d1| - 1].name == d1[|d1| - 1].name
                     && d1[|d1| - 1].testcases <= d2[|d1| - 1].testcases)
  }

  lemma ExtendsTransitive(d1: Document, d2: Document, d3: Document)
    requires Extends(d1, d2) && Extends(d2, d3)
    ensures Extends(d1, d3)
  {
    if |d1| > 0 && |d1| < |d2| {
      assert d2[|d1| - 1] == d1[|d1| - 1] || d3[|d1| - 1] == d2[|d1| - 1];
    }
  }

  lemma StepExtends(d: Document, l: string)
    requires Step(d, l).Ok?
    ensures Extends(d, Step(d, l).value)
  {
  }

  /** Later lines only extend the document built so far. */
  lemma {:induction false} BuildExtends(p: seq<string>, q: seq<string>)
    requires Build(p).Ok? && Build(p + q).Ok?
    ensures Extends(Build(p).value, Build(p + q).value)
  {
    if |q| == 0 {
      assert p + q == p;
    } else {
      var q' := q[..|q| - 1];
      assert p + q == (p + q') + [q[|q| - 1]];
      BuildSnoc(p + q', q[|q| - 1]);
      BuildExtends(p, q');
      StepExtends(Build(p + q').value, q[|q| - 1]);
      ExtendsTransitive(Build(p).value, Build(p + q').value, Build(p + q).value);
    }
  }
  // ---------------------------------------------------------------------------
  // Writing a document back out as lines

  /** The lines of the test cases, one each. */
  function RenderAll(tcs: seq<TestCase>): (r: seq<string>)
    ensures |r| == |tcs|
  {
    if |tcs| == 0 then [] else RenderAll(tcs[..|tcs| - 1]) + [Render(tcs[|tcs| - 1])]
  }

  /** A section written as its header followed by its test case lines. */
  function SectionLines(s: Section): seq<string>
  {
    [Bracket(s.name)] + RenderAll(s.testcases)
  }

  /** A document written out section after section. */
  function Unparse(doc: Document): seq<string>
  {
    if |doc| == 0 then [] else Unparse(doc[..|doc| - 1]) + SectionLines(doc[|doc| - 1])
  }

  /** The test case survives being written and read back. */
  ghost predicate CaseWritable(tc: TestCase)
  {
    Fits(tc) && '"' !in tc.rightVersion
  }

  /** A document the builder can read back from its written form: names without newlines,
      no two neighbouring sections with the same name, and writable test cases. */
  ghost predicate Writable(doc: Document)
  {
    && NoRepeatedNeighbours(doc)
    && (forall i :: 0 <= i < |doc| ==> NoNewline(doc[i].name))
    && (forall i, j :: 0 <= i < |doc| && 0 <= j < |doc[i].testcases| ==> CaseWritable(doc[i].testcases[j]))
  }

  lemma {:induction false} BuildFromAppend(d: Document, a: seq<string>, b: seq<string>)
    ensures BuildFrom(d, a + b) ==
              match BuildFrom(d, a) case Err(e) => Err(e) case Ok(d') => BuildFrom(d', b)
  {
    if |b| == 0 {
      assert a + b == a;
    } else {
      var b' := b[..|b| - 1];
      assert (a + b)[..|a + b| - 1] == a + b';
      BuildFromAppend(d, a, b');
    }
  }

  /** A written test case line is read back into the current section. */
  lemma StepOnRendered(d: Document, tc: TestCase)
    requires |d| > 0 && CaseWritable(tc)
    ensures Step(d, Render(tc)) == Ok(AddToLast(d, tc))
  {
    RoundTrip(tc);
    RenderSplits(tc);
    assert HeaderName(Render(tc)).None?;
  }

  /** Test case lines after a header add exactly those test cases to the current section. */
  lemma {:induction false} CasesRoundTrip(d: Document, tcs: seq<TestCase>)
    requires |d| > 0
    requires forall j :: 0 <= j < |tcs| ==> CaseWritable(tcs[j])
    ensures BuildFrom(d, RenderAll(tcs)) ==
              Ok(d[..|d| - 1] + [Section(d[|d| - 1].name, d[|d| - 1].testcases + tcs)])
  {
    if |tcs| == 0 {
      NoCasesRoundTrip(d, tcs);
    } else {
      var init := tcs[..|tcs| - 1];
      WritablePrefix(tcs, init);
      var tc := tcs[|tcs| - 1];
      CasesRoundTrip(d, init);
      SplitLast(tcs);
      OneMoreCase(d, init, tc, tcs);
    }
  }

  /** No test case lines leave the document as it is. */
  lemma NoCasesRoundTrip(d: Document, tcs: seq<TestCase>)
    requires |d| > 0 && |tcs| == 0
    ensures BuildFrom(d, RenderAll(tcs)) ==
              Ok(d[..|d| - 1] + [Section(d[|d| - 1].name, d[|d| - 1].testcases + tcs)])
  {
    var last := d[|d| - 1];
    assert last.testcases + tcs == last.testcases;
    assert d[..|d| - 1] + [last] == d;
  }

  /** Every test case of a writable sequence but the last is writable. */
  lemma WritablePrefix(tcs: seq<TestCase>, init: seq<TestCase>)
    requires |tcs| > 0 && init == tcs[..|tcs| - 1]
    requires forall j :: 0 <= j < |tcs| ==> CaseWritable(tcs[j])
    ensures forall j :: 0 <= j < |init| ==> CaseWritable(init[j])
  {
    forall j | 0 <= j < |init| ensures CaseWritable(init[j]) {
      assert init[j] == tcs[j];
    }
  }

  /** Once the lines of `init` have grown the current section by `init`, the line of one
      more writable test case grows it by `tcs`, which is `init + [tc]`. */
  lemma OneMoreCase(d: Document, init: seq<TestCase>, tc: TestCase, tcs: seq<TestCase>)
    requires |d| > 0 && CaseWritable(tc) && tcs == init + [tc]
    requires BuildFrom(d, RenderAll(init)) ==
               Ok(d[..|d| - 1] + [Section(d[|d| - 1].name, d[|d| - 1].testcases + init)])
    ensures BuildFrom(d, RenderAll(tcs)) ==
              Ok(d[..|d| - 1] + [Section(d[|d| - 1].name, d[|d| - 1].testcases + tcs)])
  {
    var last := d[|d| - 1];
    var dk := d[..|d| - 1] + [Section(last.name, last.testcases + init)];
    NextCaseLine(d, init, tc, dk);
    AddToGrown(d, init, tc);
  }

  /** The line of a writable test case, read after lines that built `dk`, adds the test
      case to the last section of `dk`. */
  lemma NextCaseLine(d: Document, init: seq<TestCase>, tc: TestCase, dk: Document)
    requires |dk| > 0 && CaseWritable(tc)
    requires BuildFrom(d, RenderAll(init)) == Ok(dk)
    ensures BuildFrom(d, RenderAll(init + [tc])) == Ok(AddToLast(dk, tc))
  {
    NextRenderedLine(d, init, tc, dk);
    StepOnRendered(dk, tc);
  }

  /** Adding one more test case to a section already grown by `init` grows it by `init + [tc]`. */
  lemma AddToGrown(d: Document, init: seq<TestCase>, tc: TestCase)
    requires |d| > 0
    ensures var dk := d[..|d| - 1] + [Section(d[|d| - 1].name, d[|d| - 1].testcases + init)];
            AddToLast(dk, tc) ==
              d[..|d| - 1] + [Section(d[|d| - 1].name, d[|d| - 1].testcases + (init + [tc]))]
  {
    var last := d[|d| - 1];
    var dk := d[..|d| - 1] + [Section(last.name, last.testcases + init)];
    assert dk[..|dk| - 1] == d[..|d| - 1];
    assert dk[|dk| - 1] == Section(last.name, last.testcases + init);
    AppendAssoc(last.testcases, init, [tc]);
  }

  /** One more written test case line is one more step of the loop. */
  lemma NextRenderedLine(d: Document, init: seq<TestCase>, tc: TestCase, dk: Document)
    requires BuildFrom(d, RenderAll(init)) == Ok(dk)
    ensures BuildFrom(d, RenderAll(init + [tc])) == Step(dk, Render(tc))
  {
    var lines := RenderAll(init + [tc]);
    assert (init + [tc])[..|init|] == init;
    assert lines == RenderAll(init) + [Render(tc)];
    BuildFromAppend(d, RenderAll(init), [Render(tc)]);
    assert [Render(tc)][..0] == [];
  }

  /** A section whose name differs from the current one is rebuilt from its lines. */
  lemma SectionRoundTrip(d: Document, s: Section)
    requires |d| == 0 || d[|d| - 1].name != s.name
    requires NoNewline(s.name)
    requires forall j :: 0 <= j < |s.testcases| ==> CaseWritable(s.testcases[j])
    ensures BuildFrom(d, SectionLines(s)) == Ok(d + [s])
  {
    var withHeader := d + [Section(s.name, [])];
    BuildFromAppend(d, [Bracket(s.name)], RenderAll(s.testcases));
    assert [Bracket(s.name)][..0] == [];
    HeaderRoundTrip(s.name);
    assert BuildFrom(d, [Bracket(s.name)]) == Ok(withHeader);
    CasesRoundTrip(withHeader, s.testcases);
    assert withHeader[..|withHeader| - 1] == d;
    assert [] + s.testcases == s.testcases;
  }

  /** Round trip for whole documents: a writable document is rebuilt exactly from its lines. */
  lemma {:induction false} UnparseRoundTrip(doc: Document)
    requires Writable(doc)
    ensures Build(Unparse(doc)) == Ok(doc)
  {
    if |doc| > 0 {
      var init := doc[..|doc| - 1];
      var s := doc[|doc| - 1];
      assert Writable(init) by {
        assert forall i :: 0 <= i < |init| ==> init[i] == doc[i];
      }
      UnparseRoundTrip(init);
      BuildFromAppend([], Unparse(init), SectionLines(s));
      if |init| > 0 {
        assert init[|init| - 1] == doc[|doc| - 2];
      }
      SectionRoundTrip(init, s);
      SplitLast(doc);
    }
  }
}
