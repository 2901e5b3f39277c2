/** The two line patterns of scripts/convert2json.py, hand-coded:
      header     `\[(.*)\]`
      test case  `"(.*)" ([a-zA-Z]*)([<>=])([a-zA-Z]*) "(.*)"`
    both matched against the whole line. The regex `.` is any character but a newline. */
module Patterns {
  import opened Results
  import opened Text
  import opened Documents

  predicate IsLetter(c: char)
  {
    'a' <= c <= 'z' || 'A' <= c <= 'Z'
  }

  /** `s` is in `[a-zA-Z]*`. */
  predicate Letters(s: string)
  {
    forall i :: 0 <= i < |s| ==> IsLetter(s[i])
  }

  /** `s` is in `.*`: it holds no newline. */
  predicate NoNewline(s: string)
  {
    forall i :: 0 <= i < |s| ==> s[i] != '\n'
  }

  function Bracket(name: string): string
  {
    "[" + name + "]"
  }

  /** The header pattern: the name between the brackets, if the line is one. */
  function HeaderName(line: string): (r: Option<string>)
    ensures r.Some? ==> line == Bracket(r.value) && NoNewline(r.value)
  {
    if |line| >= 2 && line[0] == '[' && line[|line| - 1] == ']' && NoNewline(line[1..|line| - 1]) then
      assert line == Bracket(line[1..|line| - 1]);
      Some(line[1..|line| - 1])
    else
      None
  }

  /** Every newline-free name is recognised again from its header line. */
  lemma HeaderRoundTrip(name: string)
    requires NoNewline(name)
    ensures HeaderName(Bracket(name)) == Some(name)
  {
    assert Bracket(name)[1..|Bracket(name)| - 1] == name;
  }

  /** A line is a header exactly when it is some newline-free name in brackets. */
  lemma HeaderNameIff(line: string)
    ensures HeaderName(line).Some? <==> exists n :: NoNewline(n) && line == Bracket(n)
  {
    if exists n :: NoNewline(n) && line == Bracket(n) {
      var n :| NoNewline(n) && line == Bracket(n);
      HeaderRoundTrip(n);
    }
  }

  /** Groups 2 to 5 of a test case line: what follows the left version. */
  datatype Tail = Tail(leftFlags: string, relation: char, rightFlags: string, rightVersion: string)

  /** The text a tail stands for: `" f1` relation `f2 "v2"`. */
  function TailText(t: Tail): string
  {
    "\" " + t.leftFlags + [t.relation] + t.rightFlags + " \"" + t.rightVersion + "\""
  }

  /** The groups satisfy their character classes. */
  predicate TailFits(t: Tail)
  {
    Letters(t.leftFlags) && IsRelation(t.relation) && Letters(t.rightFlags) && NoNewline(t.rightVersion)
  }

  /** Length of the longest prefix of letters, the greedy `[a-zA-Z]*`. */
  function LetterRun(s: string): nat
  {
    if |s| == 0 || !IsLetter(s[0]) then 0 else 1 + LetterRun(s[1..])
  }

  /** The run is a prefix of letters that cannot be extended. */
  lemma {:induction false} LetterRunMaximal(s: string)
    ensures LetterRun(s) <= |s| && Letters(s[..LetterRun(s)])
    ensures LetterRun(s) < |s| ==> !IsLetter(s[LetterRun(s)])
  {
    if |s| > 0 && IsLetter(s[0]) {
      LetterRunMaximal(s[1..]);
      var n := LetterRun(s);
      assert forall i :: 1 <= i < n ==> s[..n][i] == s[1..][..n - 1][i - 1];
    }
  }

  /** A run of letters ends exactly where a non-letter starts. */
  lemma LetterRunStops(f: string, rest: string)
    requires Letters(f) && (|rest| == 0 || !IsLetter(rest[0]))
    ensures LetterRun(f + rest) == |f|
  {
    var s := f + rest;
    LetterRunMaximal(s);
    var n := LetterRun(s);
    assert forall i :: 0 <= i < |f| ==> s[i] == f[i];
    assert |rest| > 0 ==> s[|f|] == rest[0];
  }

  /** `s` cut at the group boundaries `2 <= p < q` of a tail, rebuilt piece by piece. */
  lemma TailPieces(s: string, p: nat, q: nat)
    requires 2 <= p < q && q + 2 < |s|
    ensures s == s[..2] + s[2..p] + [s[p]] + s[p + 1..q] + s[q..q + 2] + s[q + 2..|s| - 1] + [s[|s| - 1]]
  {
    assert s[..p] == s[..2] + s[2..p];
    assert s[..p + 1] == s[..p] + [s[p]];
    assert s[..q] == s[..p + 1] + s[p + 1..q];
    assert s[..q + 2] == s[..q] + s[q..q + 2];
    assert s[..|s| - 1] == s[..q + 2] + s[q + 2..|s| - 1];
    assert s == s[..|s| - 1] + [s[|s| - 1]];
  }

  /** `s` is the text of the tail cut out of it at `p` and `q`, given its four delimiters. */
  lemma TailFromPieces(s: string, p: nat, q: nat)
    requires 2 <= p < q && q + 2 < |s|
    requires s[0] == '"' && s[1] == ' ' && s[q] == ' ' && s[q + 1] == '"' && s[|s| - 1] == '"'
    ensures s == TailText(Tail(s[2..p], s[p], s[p + 1..q], s[q + 2..|s| - 1]))
  {
    TailPieces(s, p, q);
    assert s[..2] == "\" " && s[q..q + 2] == " \"" && [s[|s| - 1]] == "\"";
  }

  /** Matches the tail of a test case line, given the position right after group 1:
      `" ` then the greedy left flags. */
  function MatchTail(s: string): Option<Tail>
  {
    if |s| < 2 || s[0] != '"' || s[1] != ' ' then None
    else MatchFromRelation(s, 2 + LetterRun(s[2..]))
  }

  /** The rest of the tail once the left flags end at `p`: the relation, then the greedy
      right flags. */
  function MatchFromRelation(s: string, p: nat): Option<Tail>
    requires 2 <= p
  {
    if p >= |s| || !IsRelation(s[p]) then None
    else MatchRightVersion(s, p, p + 1 + LetterRun(s[p + 1..]))
  }

  /** The rest of the tail once the right flags end at `q`: ` "`, the right version, `"`
      at the very end of the line. */
  function MatchRightVersion(s: string, p: nat, q: nat): Option<Tail>
    requires 2 <= p < q
  {
    if q + 2 >= |s| || s[q] != ' ' || s[q + 1] != '"' || s[|s| - 1] != '"'
       || !NoNewline(s[q + 2..|s| - 1]) then None
    else Some(Tail(s[2..p], s[p], s[p + 1..q], s[q + 2..|s| - 1]))
  }

  /** Whatever the tail matcher returns fits the classes and spells out `s`. */
  lemma MatchTailSound(s: string)
    ensures MatchTail(s).Some? ==> TailFits(MatchTail(s).value) && s == TailText(MatchTail(s).value)
  {
    if |s| >= 2 && s[0] == '"' && s[1] == ' ' {
      var p := 2 + LetterRun(s[2..]);
      if p < |s| && IsRelation(s[p]) {
        var q := p + 1 + LetterRun(s[p + 1..]);
        if q + 2 < |s| && s[q] == ' ' && s[q + 1] == '"' && s[|s| - 1] == '"' && NoNewline(s[q + 2..|s| - 1]) {
          MatchTailAt(s, p, q);
          TailAtSound(s, p, q);
        }
      }
    }
  }

  /** The groups cut out at the ends of the greedy flag runs fit their classes and
      spell out `s`. */
  lemma TailAtSound(s: string, p: nat, q: nat)
    requires 2 <= p < q && q + 2 < |s|
    requires s[0] == '"' && s[1] == ' ' && s[q] == ' ' && s[q + 1] == '"' && s[|s| - 1] == '"'
    requires p == 2 + LetterRun(s[2..]) && IsRelation(s[p])
    requires q == p + 1 + LetterRun(s[p + 1..]) && NoNewline(s[q + 2..|s| - 1])
    ensures TailFits(Tail(s[2..p], s[p], s[p + 1..q], s[q + 2..|s| - 1]))
    ensures s == TailText(Tail(s[2..p], s[p], s[p + 1..q], s[q + 2..|s| - 1]))
  {
    LetterRunMaximal(s[2..]);
    LetterRunMaximal(s[p + 1..]);
    assert s[2..][..p - 2] == s[2..p];
    assert s[p + 1..][..q - p - 1] == s[p + 1..q];
    TailFromPieces(s, p, q);
  }

  /** Every tail whose groups fit their classes is matched back to itself. */
  lemma MatchTailComplete(t: Tail)
    requires TailFits(t)
    ensures MatchTail(TailText(t)) == Some(t)
  {
    var s := TailText(t);
    var p := 2 + |t.leftFlags|;
    var q := p + 1 + |t.rightFlags|;
    MatchTailPremises(t);
    TailFromSlices(t);
    MatchTailYields(s, p, q, t);
  }

  /** The text of a fitting tail has its delimiters, relation and greedy flag runs where
      the tail matcher looks for them. */
  lemma MatchTailPremises(t: Tail)
    requires TailFits(t)
    ensures var s := TailText(t);
            var p := 2 + |t.leftFlags|;
            var q := p + 1 + |t.rightFlags|;
            && 2 <= p < q && q + 2 < |s|
            && s[0] == '"' && s[1] == ' ' && s[q] == ' ' && s[q + 1] == '"' && s[|s| - 1] == '"'
            && p == 2 + LetterRun(s[2..]) && IsRelation(s[p])
            && q == p + 1 + LetterRun(s[p + 1..]) && NoNewline(s[q + 2..|s| - 1])
  {
    TailSlices(t);
    LeftFlagsRun(t);
    RightFlagsRun(t);
  }

  lemma TailFromSlices(t: Tail)
    ensures var s := TailText(t);
            var p := 2 + |t.leftFlags|;
            var q := p + 1 + |t.rightFlags|;
            q + 2 < |s| && t == Tail(s[2..p], s[p], s[p + 1..q], s[q + 2..|s| - 1])
  {
    TailSlices(t);
  }

  /** The tail matcher succeeds once the greedy flag runs end at `p` and `q` and the
      delimiters are in place. */
  lemma MatchTailAt(s: string, p: nat, q: nat)
    requires 2 <= p < q && q + 2 < |s|
    requires s[0] == '"' && s[1] == ' ' && s[q] == ' ' && s[q + 1] == '"' && s[|s| - 1] == '"'
    requires p == 2 + LetterRun(s[2..]) && IsRelation(s[p])
    requires q == p + 1 + LetterRun(s[p + 1..]) && NoNewline(s[q + 2..|s| - 1])
    ensures MatchTail(s) == Some(Tail(s[2..p], s[p], s[p + 1..q], s[q + 2..|s| - 1]))
  {
    assert MatchRightVersion(s, p, q) == Some(Tail(s[2..p], s[p], s[p + 1..q], s[q + 2..|s| - 1]));
    assert MatchFromRelation(s, p) == MatchRightVersion(s, p, q);
  }

  /** The tail matcher yields `t` when `t` is the tail cut out at `p` and `q`. */
  lemma MatchTailYields(s: string, p: nat, q: nat, t: Tail)
    requires 2 <= p < q && q + 2 < |s|
    requires s[0] == '"' && s[1] == ' ' && s[q] == ' ' && s[q + 1] == '"' && s[|s| - 1] == '"'
    requires p == 2 + LetterRun(s[2..]) && IsRelation(s[p])
    requires q == p + 1 + LetterRun(s[p + 1..]) && NoNewline(s[q + 2..|s| - 1])
    requires t == Tail(s[2..p], s[p], s[p + 1..q], s[q + 2..|s| - 1])
    ensures MatchTail(s) == Some(t)
  {
    MatchTailAt(s, p, q);
  }

  /** The greedy left flags group stops at the relation. */
  lemma LeftFlagsRun(t: Tail)
    requires TailFits(t)
    ensures LetterRun(TailText(t)[2..]) == |t.leftFlags|
  {
    var s := TailText(t);
    var p := 2 + |t.leftFlags|;
    TailSlices(t);
    assert s[2..] == t.leftFlags + s[p..];
    LetterRunStops(t.leftFlags, s[p..]);
  }

  /** The greedy right flags group stops at the space before the right version. */
  lemma RightFlagsRun(t: Tail)
    requires TailFits(t)
    ensures LetterRun(TailText(t)[3 + |t.leftFlags|..]) == |t.rightFlags|
  {
    var s := TailText(t);
    var p := 2 + |t.leftFlags|;
    var q := p + 1 + |t.rightFlags|;
    TailSlices(t);
    assert s[p + 1..] == t.rightFlags + s[q..];
    LetterRunStops(t.rightFlags, s[q..]);
  }

  /** Where the groups and delimiters of a tail sit in its text. */
  lemma TailSlices(t: Tail)
    ensures var s := TailText(t);
            var p := 2 + |t.leftFlags|;
            var q := p + 1 + |t.rightFlags|;
            && q + 2 < |s| && s[0] == '"' && s[1] == ' '
            && s[2..p] == t.leftFlags && s[p] == t.relation && s[p + 1..q] == t.rightFlags
            && s[q] == ' ' && s[q + 1] == '"'
            && s[q + 2..|s| - 1] == t.rightVersion && s[|s| - 1] == '"'
  {
    var s := TailText(t);
    var a1 := "\" " + t.leftFlags;
    var a2 := a1 + [t.relation];
    var a3 := a2 + t.rightFlags;
    var a4 := a3 + " \"";
    var a5 := a4 + t.rightVersion;
    assert s == a5 + "\"";
    var p := |a1|;
    var q := |a3|;
    assert s[..|s| - 1] == a5;
    assert s[..q + 2] == a4 by { assert a5[..q + 2] == a4; }
    assert s[..q] == a3 by { assert a4[..q] == a3; }
    assert s[..p + 1] == a2 by { assert a3[..p + 1] == a2; }
    assert s[..p] == a1 by { assert a2[..p] == a1; }
    assert s[2..p] == t.leftFlags by { assert s[2..p] == s[..p][2..]; }
    assert s[p] == t.relation by { assert s[p] == s[..p + 1][p]; }
    assert s[p + 1..q] == t.rightFlags by { assert s[p + 1..q] == s[..q][p + 1..]; }
    assert s[q..q + 2] == " \"" by { assert s[q..q + 2] == s[..q + 2][q..]; }
    assert s[q + 2..|s| - 1] == t.rightVersion by { assert s[q + 2..|s| - 1] == s[..|s| - 1][q + 2..]; }
  }

  /** The line a test case is written as: `"v1" f1 r f2 "v2"` with no spaces inside the operator. */
  function Render(tc: TestCase): string
  {
    "\"" + tc.leftVersion + "\" " + tc.leftFlags + [tc.expectedResult] + tc.rightFlags
      + " \"" + tc.rightVersion + "\""
  }

  function TailOf(tc: TestCase): Tail
  {
    Tail(tc.leftFlags, tc.expectedResult, tc.rightFlags, tc.rightVersion)
  }

  lemma RenderSplits(tc: TestCase)
    ensures Render(tc) == "\"" + tc.leftVersion + TailText(TailOf(tc))
  {
  }

  /** The five groups satisfy their character classes. */
  predicate Fits(tc: TestCase)
  {
    NoNewline(tc.leftVersion) && TailFits(TailOf(tc))
  }

  /** The test case pattern matches `line` with groups `tc` (for some choice of group 1). */
  predicate Parses(line: string, tc: TestCase)
  {
    Fits(tc) && line == Render(tc)
  }

  /** The match whose group 1 has length `k`, if there is one. */
  function GroupsAt(line: string, k: nat): (r: Option<TestCase>)
    requires |line| >= 1 && line[0] == '"' && k < |line|
    ensures r.Some? ==> Parses(line, r.value) && |r.value.leftVersion| == k
  {
    if !NoNewline(line[1..1 + k]) then None
    else
      match MatchTail(line[1 + k..])
      case None => None
      case Some(t) =>
        GroupsFromTail(line, k, t);
        Some(TestCase(line[1..1 + k], t.leftFlags, t.relation, t.rightFlags, t.rightVersion))
  }

  /** Group 1 of length `k` and a matched tail make a reading of the line. */
  lemma GroupsFromTail(line: string, k: nat, t: Tail)
    requires |line| >= 1 && line[0] == '"' && k < |line|
    requires NoNewline(line[1..1 + k]) && MatchTail(line[1 + k..]) == Some(t)
    ensures Parses(line, TestCase(line[1..1 + k], t.leftFlags, t.relation, t.rightFlags, t.rightVersion))
  {
    MatchTailSound(line[1 + k..]);
    var tc := TestCase(line[1..1 + k], t.leftFlags, t.relation, t.rightFlags, t.rightVersion);
    assert TailOf(tc) == t;
    QuoteThenRest(line, k);
    RenderSplits(tc);
  }

  lemma QuoteThenRest(line: string, k: nat)
    requires |line| >= 1 && line[0] == '"' && k < |line|
    ensures line == "\"" + line[1..1 + k] + line[1 + k..]
  {
    assert line == line[..1] + line[1..1 + k] + line[1 + k..];
  }

  /** Group 1 determines the other four groups. */
  lemma GroupsAtComplete(line: string, tc: TestCase)
    requires Parses(line, tc)
    ensures GroupsAt(line, |tc.leftVersion|) == Some(tc)
  {
    RenderSplits(tc);
    var k := |tc.leftVersion|;
    assert line[1..1 + k] == tc.leftVersion;
    assert line[1 + k..] == TailText(TailOf(tc));
    MatchTailComplete(TailOf(tc));
  }

  /** Backtracking of the greedy `"(.*)"`: group 1 lengths from `k` down to 0. */
  function Search(line: string, k: int): (r: Option<TestCase>)
    requires |line| >= 1 && line[0] == '"' && k < |line|
    ensures r.Some? ==> Parses(line, r.value) && |r.value.leftVersion| <= k
    decreases k + 1
  {
    if k < 0 then None
    else
      match GroupsAt(line, k)
      case Some(tc) => Some(tc)
      case None => Search(line, k - 1)
  }

  /** The test case pattern, matched against the whole line. */
  function MatchTestCase(line: string): (r: Option<TestCase>)
    ensures r.Some? ==> Parses(line, r.value)
  {
    if |line| == 0 || line[0] != '"' then None else Search(line, |line| - 1)
  }
  /** Two matches with group 1 of the same length are the same match. */
  lemma Determined(line: string, a: TestCase, b: TestCase)
    requires Parses(line, a) && Parses(line, b)
    requires |a.leftVersion| == |b.leftVersion|
    ensures a == b
  {
    GroupsAtComplete(line, a);
    GroupsAtComplete(line, b);
  }

  /** The backtracking search from `k` down finds a match at least as long as any match
      whose group 1 is no longer than `k`. */
  lemma {:induction false} SearchFinds(line: string, k: int, tc: TestCase)
    requires |line| >= 1 && line[0] == '"' && k < |line|
    requires Parses(line, tc) && |tc.leftVersion| <= k
    ensures Search(line, k).Some?
    ensures |tc.leftVersion| <= |Search(line, k).value.leftVersion|
    decreases k + 1
  {
    if GroupsAt(line, k).None? {
      if k == |tc.leftVersion| {
        GroupsAtComplete(line, tc);
      }
      SearchFinds(line, k - 1, tc);
    }
  }

  /** Every reading of a line starts with a quote and leaves room after group 1. */
  lemma ParsesBounds(line: string, tc: TestCase)
    requires Parses(line, tc)
    ensures |line| >= 1 && line[0] == '"' && |tc.leftVersion| < |line|
  {
    RenderSplits(tc);
  }

  /** No reading of a line has a longer group 1 than the match. */
  lemma MatchIsMaximal(line: string, other: TestCase)
    requires Parses(line, other)
    ensures MatchTestCase(line).Some?
    ensures |other.leftVersion| <= |MatchTestCase(line).value.leftVersion|
  {
    ParsesBounds(line, other);
    SearchFinds(line, |line| - 1, other);
    MatchIsSearch(line);
  }

  lemma MatchIsSearch(line: string)
    requires |line| >= 1 && line[0] == '"'
    ensures MatchTestCase(line) == Search(line, |line| - 1)
  {
  }

  /** Greedy `"(.*)"`: the pattern matches `line` with groups `tc` exactly when some
      reading of the line gives `tc` and no reading has a longer group 1. */
  lemma MatchIsLongest(line: string, tc: TestCase)
    ensures MatchTestCase(line) == Some(tc) <==>
              Parses(line, tc) && forall other :: Parses(line, other) ==>
                                                  |other.leftVersion| <= |tc.leftVersion|
  {
    if MatchTestCase(line) == Some(tc) {
      forall other | Parses(line, other)
        ensures |other.leftVersion| <= |tc.leftVersion|
      {
        MatchIsMaximal(line, other);
      }
    } else if Parses(line, tc) {
      MatchIsMaximal(line, tc);
      var r := MatchTestCase(line).value;
      assert Parses(line, r);
      if |r.leftVersion| == |tc.leftVersion| {
        Determined(line, r, tc);
      }
    }
  }

  function Quotes(s: string): nat
  {
    CountIn(s, {'"'})
  }

  lemma LettersHaveNoQuotes(s: string)
    requires Letters(s)
    ensures Quotes(s) == 0
  {
    CountInZero(s, {'"'});
  }

  /** A tail holds its three delimiting quotes plus those of its groups. */
  lemma TailQuotes(t: Tail)
    ensures Quotes(TailText(t)) ==
              3 + Quotes(t.leftFlags) + Quotes([t.relation]) + Quotes(t.rightFlags) + Quotes(t.rightVersion)
  {
    var a1 := "\" " + t.leftFlags;
    var a2 := a1 + [t.relation];
    var a3 := a2 + t.rightFlags;
    var a4 := a3 + " \"";
    var a5 := a4 + t.rightVersion;
    CountInConcat("\" ", t.leftFlags, {'"'});
    CountInConcat(a1, [t.relation], {'"'});
    CountInConcat(a2, t.rightFlags, {'"'});
    CountInConcat(a3, " \"", {'"'});
    CountInConcat(a4, t.rightVersion, {'"'});
    CountInConcat(a5, "\"", {'"'});
  }

  /** Round trip: a test case whose groups fit their classes and whose right version holds
      no `"` is read back from its line unchanged. The left version may hold quotes and
      spaces; flags may be any letters. */
  lemma RoundTrip(tc: TestCase)
    requires Fits(tc) && '"' !in tc.rightVersion
    ensures MatchTestCase(Render(tc)) == Some(tc)
  {
    var line := Render(tc);
    var t := TailOf(tc);
    var k := |tc.leftVersion|;
    RenderSplits(tc);
    assert line[1 + k..] == TailText(t);
    LettersHaveNoQuotes(t.leftFlags);
    LettersHaveNoQuotes(t.rightFlags);
    CountInZero(t.rightVersion, {'"'});
    CountInZero([t.relation], {'"'});
    TailQuotes(t);
    assert Quotes(TailText(t)[1..]) == 2 by {
      assert TailText(t) == [TailText(t)[0]] + TailText(t)[1..];
      CountInConcat([TailText(t)[0]], TailText(t)[1..], {'"'});
    }
    forall other | Parses(line, other)
      ensures |other.leftVersion| <= k
    {
      var k' := |other.leftVersion|;
      RenderSplits(other);
      assert line[1 + k'..] == TailText(TailOf(other));
      TailQuotes(TailOf(other));
      if k' > k {
        assert line[1 + k'..] == TailText(t)[1..][k' - k - 1..];
        CountInSuffix(TailText(t)[1..], k' - k - 1, {'"'});
      }
    }
    MatchIsLongest(line, tc);
  }

  /** Without the quote-free right version the round trip fails: in `"1" < "2" < "3"`
      the greedy group 1 takes `1" < "2`. */
  lemma RoundTripNeedsQuoteFreeRightVersion()
    ensures var tc := TestCase("1", "", '<', "", "2\" < \"3");
            Fits(tc) && MatchTestCase(Render(tc)) != Some(tc)
  {
    QuotedRightVersionMisread("1", "2", "3");
    assert "2" + "\" < \"" + "3" == "2\" < \"3";
  }

  /** Whenever the right version itself reads `b" < "c`, the greedy group 1 swallows
      `" < "b` and the line is read back as a different test case. */
  lemma QuotedRightVersionMisread(a: string, b: string, c: string)
    requires NoNewline(a) && NoNewline(b) && NoNewline(c)
    ensures var tc := TestCase(a, "", '<', "", b + "\" < \"" + c);
            Fits(tc) && MatchTestCase(Render(tc)) != Some(tc)
  {
    var tc := TestCase(a, "", '<', "", b + "\" < \"" + c);
    var longer := TestCase(a + "\" < \"" + b, "", '<', "", c);
    NoNewlineJoin(b, "\" < \"", c);
    NoNewlineJoin(a, "\" < \"", b);
    assert Render(tc) == Render(longer);
    GreedyOvertakes(tc, longer);
  }

  lemma NoNewlineJoin(x: string, y: string, z: string)
    requires NoNewline(x) && NoNewline(y) && NoNewline(z)
    ensures NoNewline(x + y + z)
  {
  }

  /** A reading with a longer group 1 rules out the shorter one. */
  lemma GreedyOvertakes(tc: TestCase, longer: TestCase)
    requires Parses(Render(tc), longer) && |tc.leftVersion| < |longer.leftVersion|
    ensures MatchTestCase(Render(tc)) != Some(tc)
  {
    MatchIsLongest(Render(tc), tc);
  }
}
