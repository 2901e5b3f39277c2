/** Where the validator and the builder disagree on the same document: the validator is
    stricter on flags and repeated names, the builder on test cases outside a section,
    and the two grammars split a line differently around spaces and lone quotes. */
module Contrast {
  import opened Results
  import opened Text
  import opened Documents
  import opened Patterns
  import Validator
  import Builder

  /** A written test case line is at least as long as `"" < ""`. */
  lemma RenderLength(tc: TestCase)
    ensures |Render(tc)| >= 7
  {
  }

  /** `[a]` repeated on the next line: the validator rejects line 2 as a duplicate. */
  lemma RepeatedHeaderValidate()
    ensures Validator.Validate([Bracket("a"), Bracket("a"), "\"1\" < \"2\""]) ==
              Fail(Validator.Violation(2, "duplicate section name a"))
  {
    var h := Bracket("a");
    assert [h, h, "\"1\" < \"2\""] == [h, h] + ["\"1\" < \"2\""];
    RepeatedHeaderRejected("a", ["\"1\" < \"2\""]);
    assert Validator.MsgDuplicate("a") == "duplicate section name a";
  }

  /** A header written twice in a row is a duplicate at line 2, whatever lines follow. */
  lemma RepeatedHeaderRejected(name: string, rest: seq<string>)
    ensures Validator.Validate([Bracket(name), Bracket(name)] + rest) ==
              Fail(Validator.Violation(2, Validator.MsgDuplicate(name)))
  {
    var h := Bracket(name);
    ScanHeader([], {}, name);
    assert [] + [h] == [h] && {} + {name} == {name};
    ScanHeader([h], {name}, name);
    assert [h] + [h] == [h, h];
    Validator.ScanStops([h, h], rest);
  }

  /** A header line after a scanned prefix adds its name, or is a duplicate. */
  lemma ScanHeader(p: seq<string>, known: set<string>, name: string)
    requires Validator.Scan(p) == Ok(known)
    ensures Validator.Scan(p + [Bracket(name)]) ==
              if name in known then Err(Validator.Violation(|p| + 1, Validator.MsgDuplicate(name)))
              else Ok(known + {name})
  {
    Validator.ScanSnoc(p, Bracket(name));
    HeaderCheck(known, name);
  }

  /** The validator's verdict on a header line given the names seen so far. */
  lemma HeaderCheck(known: set<string>, name: string)
    ensures Validator.CheckLine(Bracket(name), known) ==
              if name in known then Err(Validator.MsgDuplicate(name)) else Ok(known + {name})
  {
    var h := Bracket(name);
    assert Validator.IsClosedHeader(h);
    assert h[1..|h| - 1] == name;
  }

  /** The builder merges the repeated `[a]` into one section. */
  lemma RepeatedHeaderBuild()
    ensures Builder.Build(["[a]", "[a]", "\"1\" < \"2\""]) ==
              Ok([Section("a", [TestCase("1", "", '<', "", "2")])])
  {
    var tc := TestCase("1", "", '<', "", "2");
    assert "\"1\" < \"2\"" == Render(tc);
    assert Builder.CaseWritable(tc);
    assert "[a]" == Bracket("a");
    RepeatedHeaderMerges("a", tc);
  }

  /** A header written twice and then a test case line build a single section. */
  lemma RepeatedHeaderMerges(name: string, tc: TestCase)
    requires NoNewline(name) && Builder.CaseWritable(tc)
    ensures Builder.Build([Bracket(name), Bracket(name), Render(tc)]) == Ok([Section(name, [tc])])
  {
    var h := Bracket(name);
    var d := [Section(name, [])];
    HeaderRoundTrip(name);
    assert Builder.Build([h]) == Ok(d) by {
      assert [h] == [] + [h];
      Builder.BuildSnoc([], h);
      assert Builder.Build([]) == Ok([]);
      assert [] + [Section(name, [])] == d;
    }
    assert Builder.Build([h, h]) == Ok(d) by {
      assert [h, h] == [h] + [h];
      Builder.BuildSnoc([h], h);
    }
    Builder.StepOnRendered(d, tc);
    assert Builder.AddToLast(d, tc) == [Section(name, [tc])] by {
      assert d[..0] == [];
      assert [] + [tc] == [tc];
      assert [] + [Section(name, [tc])] == [Section(name, [tc])];
    }
    assert [h, h, Render(tc)] == [h, h] + [Render(tc)];
    Builder.BuildSnoc([h, h], Render(tc));
  }

  /** A document of a header and one more line is judged by that line alone. */
  lemma ValidateAfterHeader(name: string, line: string)
    ensures Validator.Validate([Bracket(name), line]) ==
              match Validator.CheckLine(line, {name})
              case Ok(_) => Pass
              case Err(m) => Fail(Validator.Violation(2, m))
  {
    var h := Bracket(name);
    assert h[1..|h| - 1] == name;
    assert [h] == [] + [h];
    assert [h, line] == [h] + [line];
    Validator.ScanSnoc([], h);
    Validator.ScanSnoc([h], line);
  }

  /** A header followed by a line the validator rejects fails at line 2. */
  lemma ValidateFailsAfterHeader(name: string, line: string, m: string)
    requires Validator.CheckLine(line, {name}) == Err(m)
    ensures Validator.Validate([Bracket(name), line]) == Fail(Validator.Violation(2, m))
  {
    ValidateAfterHeader(name, line);
  }

  /** A header followed by a line the validator accepts passes. */
  lemma ValidatePassesAfterHeader(name: string, line: string)
    requires Validator.CheckLine(line, {name}).Ok?
    ensures Validator.Validate([Bracket(name), line]) == Pass
  {
    ValidateAfterHeader(name, line);
  }

  /** A header followed by one written test case builds one section holding it. */
  lemma BuildOneSection(name: string, tc: TestCase)
    requires NoNewline(name) && Builder.CaseWritable(tc)
    ensures Builder.Build([Bracket(name), Render(tc)]) == Ok([Section(name, [tc])])
  {
    var doc := [Section(name, [tc])];
    assert doc[..0] == [];
    assert [tc][..0] == [];
    assert Builder.RenderAll([tc]) == [Render(tc)];
    assert Builder.Unparse(doc) == [Bracket(name), Render(tc)];
    Builder.UnparseRoundTrip(doc);
  }

  /** After `[a]` alone the builder holds one empty section. */
  lemma BuildHeaderA()
    ensures Builder.Build(["[a]"]) == Ok([Section("a", [])])
  {
    assert Builder.Build([]) == Ok([]);
    BuildNewSection([], [], "a");
    assert "[a]" == Bracket("a");
    assert [] + [Bracket("a")] == ["[a]"];
    assert [] + [Section("a", [])] == [Section("a", [])];
  }

  /** `[a]`, `[b]`, `[a]`: only consecutive repeats merge, so the builder makes three sections. */
  lemma NonConsecutiveRepeatBuild()
    ensures Builder.Build([Bracket("a"), Bracket("b"), Bracket("a")]) ==
              Ok([Section("a", []), Section("b", []), Section("a", [])])
  {
    SeparatedRepeatBuilds("a", "b");
  }

  /** A header repeated after a different one opens a second section of that name. */
  lemma SeparatedRepeatBuilds(a: string, b: string)
    requires a != b && NoNewline(a) && NoNewline(b)
    ensures Builder.Build([Bracket(a), Bracket(b), Bracket(a)]) ==
              Ok([Section(a, []), Section(b, []), Section(a, [])])
  {
    var d1 := [Section(a, [])];
    var d2 := d1 + [Section(b, [])];
    assert Builder.Build([]) == Ok([]);
    BuildNewSection([], [], a);
    assert [] + [Bracket(a)] == [Bracket(a)] && [] + [Section(a, [])] == d1;
    BuildNewSection([Bracket(a)], d1, b);
    assert [Bracket(a)] + [Bracket(b)] == [Bracket(a), Bracket(b)];
    assert d2[|d2| - 1].name == b;
    BuildNewSection([Bracket(a), Bracket(b)], d2, a);
    assert [Bracket(a), Bracket(b)] + [Bracket(a)] == [Bracket(a), Bracket(b), Bracket(a)];
    assert d2 + [Section(a, [])] == [Section(a, []), Section(b, []), Section(a, [])];
  }

  /** After lines that built `d`, a header whose name differs from the current section's
      opens a new empty section. */
  lemma BuildNewSection(p: seq<string>, d: Document, n: string)
    requires Builder.Build(p) == Ok(d)
    requires NoNewline(n) && (|d| == 0 || d[|d| - 1].name != n)
    ensures Builder.Build(p + [Bracket(n)]) == Ok(d + [Section(n, [])])
  {
    Builder.BuildSnoc(p, Bracket(n));
    HeaderRoundTrip(n);
  }

  /** The validator rejects the second `[a]` even though `[b]` lies between. */
  lemma NonConsecutiveRepeatValidate()
    ensures Validator.Validate([Bracket("a"), Bracket("b"), Bracket("a")]) ==
              Fail(Validator.Violation(3, "duplicate section name a"))
  {
    SeparatedRepeatRejected("a", "b");
    assert Validator.MsgDuplicate("a") == "duplicate section name a";
  }

  /** A header repeated after a different one is still a duplicate, at line 3. */
  lemma SeparatedRepeatRejected(a: string, b: string)
    requires a != b
    ensures Validator.Validate([Bracket(a), Bracket(b), Bracket(a)]) ==
              Fail(Validator.Violation(3, Validator.MsgDuplicate(a)))
  {
    var ha := Bracket(a);
    var hb := Bracket(b);
    ScanHeader([], {}, a);
    assert [] + [ha] == [ha] && {} + {a} == {a};
    ScanHeader([ha], {a}, b);
    assert [ha] + [hb] == [ha, hb];
    ScanHeader([ha, hb], {a} + {b}, a);
    assert [ha, hb] + [ha] == [ha, hb, ha];
  }

  /** The validator's verdict on `"1" < "2"`: well formed. */
  lemma PlainLineVerdict()
    ensures Validator.TestCaseError("\"1\" < \"2\"") == None
  {
    assert "\"1\" < \"2\"" == Validator.TestCaseLine("\"1\"", "<", "\"2\"");
    assert Validator.SpaceFree("\"1\"") && Validator.SpaceFree("<") && Validator.SpaceFree("\"2\"");
    assert Validator.IsQuoted("\"1\"") && Validator.IsQuoted("\"2\"");
    assert CountIn("<", RelationChars) == 1;
    assert Validator.FlagsAllowed("<");
    Validator.TestCaseVerdict("\"1\"", "<", "\"2\"");
  }

  /** The validator's verdict on `"1" x< "2"`: the flag `x` is not allowed. */
  lemma UnknownFlagLineCheck()
    ensures Validator.CheckLine("\"1\" x< \"2\"", {"a"}) == Err(Validator.MsgFlag)
  {
    UnknownFlagLineVerdict();
  }

  lemma UnknownFlagLineVerdict()
    ensures Validator.TestCaseError("\"1\" x< \"2\"") == Some(Validator.MsgFlag)
  {
    assert "\"1\" x< \"2\"" == Validator.TestCaseLine("\"1\"", "x<", "\"2\"");
    assert Validator.SpaceFree("\"1\"") && Validator.SpaceFree("x<") && Validator.SpaceFree("\"2\"");
    assert Validator.IsQuoted("\"1\"") && Validator.IsQuoted("\"2\"");
    assert CountIn("x<", RelationChars) == 1;
    assert !Validator.FlagsAllowed("x<") by {
      assert "x<"[0] == 'x';
    }
    Validator.TestCaseVerdict("\"1\"", "x<", "\"2\"");
  }

  /** The validator's verdict on `" < "`: a lone `"` counts as quoted. */
  lemma LoneQuotesLineCheck()
    ensures Validator.CheckLine("\" < \"", {"a"}) == Ok({"a"})
  {
    LoneQuotesLineVerdict();
  }

  lemma LoneQuotesLineVerdict()
    ensures Validator.TestCaseError("\" < \"") == None
  {
    assert "\" < \"" == Validator.TestCaseLine("\"", "<", "\"");
    assert Validator.SpaceFree("\"") && Validator.SpaceFree("<");
    assert Validator.IsQuoted("\"");
    assert CountIn("<", RelationChars) == 1;
    assert Validator.FlagsAllowed("<");
    Validator.TestCaseVerdict("\"", "<", "\"");
  }

  /** The validator's verdict on `"1 0" < "2"`: three spaces, so not three components. */
  lemma SpacedLineCheck()
    ensures Validator.CheckLine("\"1 0\" < \"2\"", {"a"}) == Err(Validator.MsgFormat)
  {
    SpacedLineVerdict();
  }

  lemma SpacedLineVerdict()
    ensures Validator.TestCaseError("\"1 0\" < \"2\"") == Some(Validator.MsgFormat)
  {
    assert "\"1 0\" < \"2\"" == Validator.TestCaseLine("\"1", "0\"", "<") + " " + "\"2\"";
    assert Validator.SpaceFree("\"1") && Validator.SpaceFree("0\"") && Validator.SpaceFree("<");
    assert Validator.SpaceFree("\"2\"");
    FourComponents("\"1", "0\"", "<", "\"2\"");
  }

  /** Four space-free components joined by single spaces hold three spaces. */
  lemma FourComponents(a: string, b: string, c: string, d: string)
    requires Validator.SpaceFree(a) && Validator.SpaceFree(b)
    requires Validator.SpaceFree(c) && Validator.SpaceFree(d)
    ensures CountIn(Validator.TestCaseLine(a, b, c) + " " + d, {' '}) == 3
  {
    var t := Validator.TestCaseLine(a, b, c);
    assert CountIn(t, {' '}) == 2 by {
      Validator.SplitTestCaseLine(a, b, c);
    }
    assert t + " " + d == t + (" " + d);
    CountInConcat(t, " " + d, {' '});
    CountInConcat(" ", d, {' '});
    assert CountIn(" ", {' '}) == 1;
  }

  lemma PlainLineCheck()
    ensures Validator.CheckLine("\"1\" < \"2\"", {}) == Ok({})
  {
    PlainLineVerdict();
  }

  /** A test case with no section passes the validator: it never asks for a header. */
  lemma OrphanTestCaseValidate()
    ensures Validator.Validate(["\"1\" < \"2\""]) == Pass
  {
    var t := "\"1\" < \"2\"";
    PlainLineCheck();
    assert [t] == [] + [t];
    Validator.ScanSnoc([], t);
  }

  /** The builder refuses a test case before any header. */
  lemma OrphanTestCaseBuild()
    ensures Builder.Build(["\"1\" < \"2\""]) == Err(Builder.MsgOutside)
  {
    var t := "\"1\" < \"2\"";
    var tc := TestCase("1", "", '<', "", "2");
    assert MatchTestCase(t) == Some(tc) by {
      assert t == Render(tc);
      assert Fits(tc);
      RoundTrip(tc);
    }
    assert HeaderName(t).None?;
    assert [t] == [] + [t];
    Builder.BuildSnoc([], t);
    assert Builder.Build([]) == Ok([]);
  }

  /** A flag outside `palu` draws the verbatim, uninterpolated flag message. */
  lemma UnknownFlagValidate()
    ensures Validator.Validate([Bracket("a"), "\"1\" x< \"2\""]) ==
              Fail(Validator.Violation(2, Validator.MsgFlag))
  {
    var t := "\"1\" x< \"2\"";
    UnknownFlagLineCheck();
    ValidateFailsAfterHeader("a", t, Validator.MsgFlag);
  }

  /** The builder takes any letters as flags. */
  lemma UnknownFlagBuild()
    ensures Builder.Build(["[a]", "\"1\" x< \"2\""]) ==
              Ok([Section("a", [TestCase("1", "x", '<', "", "2")])])
  {
    var tc := TestCase("1", "x", '<', "", "2");
    assert "\"1\" x< \"2\"" == Render(tc);
    assert Builder.CaseWritable(tc);
    assert "[a]" == Bracket("a");
    BuildOneSection("a", tc);
  }

  /** A lone `"` counts as quoted, so the validator accepts `" < "`. */
  lemma LoneQuotesValidate()
    ensures Validator.Validate([Bracket("a"), "\" < \""]) == Pass
  {
    LoneQuotesLineCheck();
    ValidatePassesAfterHeader("a", "\" < \"");
  }

  /** The builder's pattern needs two quotes around each version and aborts on `" < "`. */
  lemma LoneQuotesBuild()
    ensures Builder.Build(["[a]", "\" < \""]) == Err("unexpected input at line \" < \"")
  {
    var t := "\" < \"";
    assert MatchTestCase(t).None? by {
      if MatchTestCase(t).Some? {
        RenderLength(MatchTestCase(t).value);
      }
    }
    assert HeaderName(t).None?;
    assert !Builder.Recognized(t);
    BuildHeaderA();
    assert ["[a]", t] == ["[a]"] + [t];
    Builder.UnexpectedLine(["[a]"], t);
    assert Builder.MsgUnexpected(t) == "unexpected input at line \" < \"";
  }

  /** A space inside a version gives the validator four components. */
  lemma SpacedVersionValidate()
    ensures Validator.Validate([Bracket("a"), "\"1 0\" < \"2\""]) ==
              Fail(Validator.Violation(2, "expected test case in <version1> <operator> <version2> format"))
  {
    var t := "\"1 0\" < \"2\"";
    SpacedLineCheck();
    ValidateFailsAfterHeader("a", t, Validator.MsgFormat);
  }

  /** The builder's greedy group takes the space into the left version. */
  lemma SpacedVersionBuild()
    ensures Builder.Build(["[a]", "\"1 0\" < \"2\""]) ==
              Ok([Section("a", [TestCase("1 0", "", '<', "", "2")])])
  {
    var tc := TestCase("1 0", "", '<', "", "2");
    assert "\"1 0\" < \"2\"" == Render(tc);
    assert Builder.CaseWritable(tc);
    assert "[a]" == Bracket("a");
    BuildOneSection("a", tc);
  }

  /** `[basic]` then `"1.0" =p "1.0"`: the validator accepts it. */
  lemma BasicSectionValidate()
    ensures Validator.Validate([Bracket("basic"), "\"1.0\" =p \"1.0\""]) == Pass
  {
    BasicLineCheck();
    ValidatePassesAfterHeader("basic", "\"1.0\" =p \"1.0\"");
  }

  /** The builder reads the same document as one section holding one test case with an
      empty left flag string and right flag `p`. */
  lemma BasicSectionBuild()
    ensures Builder.Build([Bracket("basic"), "\"1.0\" =p \"1.0\""]) ==
              Ok([Section("basic", [TestCase("1.0", "", '=', "p", "1.0")])])
  {
    var tc := TestCase("1.0", "", '=', "p", "1.0");
    assert "\"1.0\" =p \"1.0\"" == Render(tc);
    assert Builder.CaseWritable(tc);
    BuildOneSection("basic", tc);
  }

  lemma BasicLineCheck()
    ensures Validator.CheckLine("\"1.0\" =p \"1.0\"", {"basic"}) == Ok({"basic"})
  {
    BasicLineVerdict();
  }

  /** The validator's verdict on `"1.0" =p "1.0"`: well formed. */
  lemma BasicLineVerdict()
    ensures Validator.TestCaseError("\"1.0\" =p \"1.0\"") == None
  {
    assert "\"1.0\" =p \"1.0\"" == Validator.TestCaseLine("\"1.0\"", "=p", "\"1.0\"");
    assert Validator.SpaceFree("\"1.0\"") && Validator.SpaceFree("=p");
    assert Validator.IsQuoted("\"1.0\"");
    assert CountIn("=p", RelationChars) == 1;
    assert Validator.FlagsAllowed("=p");
    Validator.TestCaseVerdict("\"1.0\"", "=p", "\"1.0\"");
  }
}
