/** The line-by-line validator of scripts/check.py: a pass/fail gate that stops at
    the first violation and reports its 1-based line number and message. */
module Validator {
  import opened Results
  import opened Text

  /** The flag letters a test case may carry (`ALLOWED_FLAGS`). */
  const AllowedFlags: set<char> := {'p', 'a', 'l', 'u'}

  const MsgNotClosed := "section name not closed"
  const MsgFormat := "expected test case in <version1> <operator> <version2> format"
  const MsgNotQuoted := "version string not quoted"
  const MsgRelation := "invalid comparison relation"
  /** The flag message is kept verbatim: the source never interpolates `{flag}`. */
  const MsgFlag := "invalid comparison flag \"{flag}\""

  function MsgDuplicate(name: string): string
  {
    "duplicate section name " + name
  }

  /** A violation: the 1-based line number and the message reported for it. */
  datatype Violation = Violation(lineno: nat, message: string)

  /** `v` wrapped in double quotes. */
  function Quote(v: string): string
  {
    "\"" + v + "\""
  }

  /** A component starts and ends with a double quote; a lone `"` counts as quoted. */
  function IsQuoted(s: string): (b: bool)
    ensures b <==> s == "\"" || exists v :: s == Quote(v)
  {
    if |s| >= 1 && s[0] == '"' && s[|s| - 1] == '"' then
      if |s| >= 2 then
        assert s == Quote(s[1..|s| - 1]);
        true
      else
        true
    else
      assert forall v :: Quote(v)[0] == '"' && Quote(v)[|Quote(v)| - 1] == '"';
      false
  }

  /** A header line that is closed: it starts with `[` and ends with `]`. */
  predicate IsClosedHeader(line: string)
  {
    |line| >= 2 && line[0] == '[' && line[|line| - 1] == ']'
  }

  /** The section name of a closed header, `line[1:-1]`. */
  function HeaderText(line: string): string
    requires IsClosedHeader(line)
  {
    line[1..|line| - 1]
  }

  /** The three space-separated components of a test case line. */
  function TestCaseLine(v1: string, op: string, v2: string): string
  {
    v1 + " " + op + " " + v2
  }

  /** No character of `s` is a space. */
  predicate SpaceFree(s: string)
  {
    CountIn(s, {' '}) == 0
  }

  /** Every character of `flags` is an allowed flag. */
  predicate AllFlags(flags: string)
  {
    forall i :: 0 <= i < |flags| ==> flags[i] in AllowedFlags
  }

  /** Every character of the operator other than its relation characters is an allowed flag. */
  predicate FlagsAllowed(op: string)
  {
    forall i :: 0 <= i < |op| ==> op[i] in RelationChars || op[i] in AllowedFlags
  }

  /** The checks of a test case line, in the order the source applies them. The
      format error is reported exactly when the line does not hold two spaces. */
  function TestCaseError(line: string): (r: Option<string>)
    ensures r == Some(MsgFormat) <==> CountIn(line, {' '}) != 2
  {
    var comps := SplitOn(line, {' '});
    if |comps| != 3 then Some(MsgFormat)
    else if !IsQuoted(comps[0]) || !IsQuoted(comps[2]) then Some(MsgNotQuoted)
    else
      var opComps := SplitOn(comps[1], RelationChars);
      if |opComps| != 2 then Some(MsgRelation)
      else
        var flags := Concat(opComps);
        if AllFlags(flags) then None
        else Some(MsgFlag)
  }

  /** The verdict on one line given the names of the headers seen before it:
      the names seen after it, or the message of its violation. A line that passes adds
      its header name, if it has one, and nothing else; comments and blank lines never
      fail. */
  function CheckLine(line: string, known: set<string>): (r: Result<set<string>, string>)
    ensures r.Ok? ==> r.value == known + (if IsClosedHeader(line) then {HeaderText(line)} else {})
    ensures r.Err? ==> !IsSkipped(line)
    ensures IsSkipped(line) ==> r == Ok(known)
    ensures !IsSkipped(line) && line[0] == '[' && line[|line| - 1] != ']' ==> r == Err(MsgNotClosed)
    ensures IsClosedHeader(line) ==>
              r == if HeaderText(line) in known then Err(MsgDuplicate(HeaderText(line)))
                   else Ok(known + {HeaderText(line)})
    ensures !IsSkipped(line) && line[0] != '[' ==>
              r == match TestCaseError(line) case Some(m) => Err(m) case None => Ok(known)
  {
    if |line| > 0 && line[0] == '#' then Ok(known)
    else if |line| == 0 then Ok(known)
    else if line[0] == '[' then
      if line[|line| - 1] != ']' then Err(MsgNotClosed)
      else
        var name := line[1..|line| - 1];
        if name in known then Err(MsgDuplicate(name)) else Ok(known + {name})
    else
      match TestCaseError(line)
      case Some(m) => Err(m)
      case None => Ok(known)
  }

  /** The validation loop with its accumulator of seen section names: the names of
      every header on success, the first violation otherwise. */
  function Scan(lines: seq<string>): Result<set<string>, Violation>
  {
    if |lines| == 0 then Ok({})
    else
      match Scan(lines[..|lines| - 1])
      case Err(v) => Err(v)
      case Ok(known) =>
        match CheckLine(lines[|lines| - 1], known)
        case Ok(known') => Ok(known')
        case Err(m) => Err(Violation(|lines|, m))
  }

  /** The validator's verdict on a whole document. */
  function Validate(lines: seq<string>): (r: Outcome<Violation>)
    ensures r.Fail? ==> 1 <= r.error.lineno <= |lines|
  {
    ScanBounds(lines);
    match Scan(lines)
    case Ok(_) => Pass
    case Err(v) => Fail(v)
  }

  lemma {:induction false} ScanBounds(lines: seq<string>)
    ensures Scan(lines).Err? ==> 1 <= Scan(lines).error.lineno <= |lines|
  {
    if |lines| > 0 {
      ScanBounds(lines[..|lines| - 1]);
    }
  }
  /** The names of every closed header among `lines`: what the accumulator should hold. */
  ghost function KnownNames(lines: seq<string>): set<string>
  {
    set i | 0 <= i < |lines| && IsClosedHeader(lines[i]) :: HeaderText(lines[i])
  }

  lemma KnownNamesSnoc(lines: seq<string>, l: string)
    ensures KnownNames(lines + [l]) ==
              KnownNames(lines) + (if IsClosedHeader(l) then {HeaderText(l)} else {})
  {
    var s := lines + [l];
    var rhs := KnownNames(lines) + (if IsClosedHeader(l) then {HeaderText(l)} else {});
    forall x
      ensures x in KnownNames(s) <==> x in rhs
    {
      if x in KnownNames(s) {
        var i :| 0 <= i < |s| && IsClosedHeader(s[i]) && HeaderText(s[i]) == x;
        if i < |lines| {
          assert s[i] == lines[i];
        }
      }
      if x in KnownNames(lines) {
        var i :| 0 <= i < |lines| && IsClosedHeader(lines[i]) && HeaderText(lines[i]) == x;
        assert s[i] == lines[i];
      }
      if IsClosedHeader(l) && x == HeaderText(l) {
        assert s[|lines|] == l;
      }
    }
  }

  /** Line `j` passes its checks, given the headers before it. */
  ghost predicate Accepted(lines: seq<string>, j: int)
    requires 0 <= j < |lines|
  {
    CheckLine(lines[j], KnownNames(lines[..j])).Ok?
  }

  /** `v` is the first violation of `lines`: its line fails with its message and
      every earlier line passes. */
  ghost predicate FirstViolation(lines: seq<string>, v: Violation)
  {
    && 1 <= v.lineno <= |lines|
    && CheckLine(lines[v.lineno - 1], KnownNames(lines[..v.lineno - 1])) == Err(v.message)
    && forall j :: 0 <= j < v.lineno - 1 ==> Accepted(lines, j)
  }

  lemma AcceptedPrefix(p: seq<string>, l: string, j: int)
    requires 0 <= j < |p|
    ensures Accepted(p + [l], j) == Accepted(p, j)
  {
    assert (p + [l])[..j] == p[..j];
    assert (p + [l])[j] == p[j];
  }

  lemma AcceptedTake(lines: seq<string>, k: int, j: int)
    requires 0 <= j < k <= |lines|
    ensures Accepted(lines[..k], j) == Accepted(lines, j)
  {
    assert lines[..k][..j] == lines[..j];
    assert lines[..k][j] == lines[j];
  }

  /** A first violation of a prefix stays the first violation of any extension. */
  lemma FirstViolationExtends(p: seq<string>, l: string, v: Violation)
    requires FirstViolation(p, v)
    ensures FirstViolation(p + [l], v)
  {
    var lines := p + [l];
    assert lines[..v.lineno - 1] == p[..v.lineno - 1];
    assert lines[v.lineno - 1] == p[v.lineno - 1];
    forall j | 0 <= j < v.lineno - 1
      ensures Accepted(lines, j)
    {
      AcceptedPrefix(p, l, j);
    }
  }

  /** The scan succeeds iff every line passes, it accumulates exactly the header
      names, and when it fails it reports the first violation. */
  lemma {:induction false} ScanSpec(lines: seq<string>)
    ensures Scan(lines).Ok? <==> forall j :: 0 <= j < |lines| ==> Accepted(lines, j)
    ensures Scan(lines).Ok? ==> Scan(lines).value == KnownNames(lines)
    ensures Scan(lines).Err? ==> FirstViolation(lines, Scan(lines).error)
  {
    if |lines| > 0 {
      var p := lines[..|lines| - 1];
      var l := lines[|lines| - 1];
      assert lines == p + [l];
      ScanSpec(p);
      forall j | 0 <= j < |p|
        ensures Accepted(lines, j) == Accepted(p, j)
      {
        AcceptedPrefix(p, l, j);
      }
      match Scan(p)
      case Err(v) =>
        FirstViolationExtends(p, l, v);
        assert !Accepted(lines, v.lineno - 1);
      case Ok(known) =>
        assert lines[..|p|] == p;
        assert Accepted(lines, |p|) == CheckLine(l, known).Ok?;
        if CheckLine(l, known).Ok? {
          KnownNamesSnoc(p, l);
        }
    }
  }

  /** Fail-fast: the validator reports a violation exactly when it is the first one. */
  lemma ValidateFailIff(lines: seq<string>, v: Violation)
    ensures Validate(lines) == Fail(v) <==> FirstViolation(lines, v)
  {
    ScanSpec(lines);
    if FirstViolation(lines, v) {
      assert !Accepted(lines, v.lineno - 1);
      var w := Scan(lines).error;
      assert FirstViolation(lines, w);
      assert !Accepted(lines, w.lineno - 1);
      assert w.lineno == v.lineno;
    }
  }

  /** The validator passes a document exactly when every line passes its checks. */
  lemma ValidatePassIff(lines: seq<string>)
    ensures Validate(lines) == Pass <==> forall j :: 0 <= j < |lines| ==> Accepted(lines, j)
  {
    ScanSpec(lines);
  }

  /** A violation is never reported on a comment or a blank line. */
  lemma SkippedNeverFail(lines: seq<string>)
    ensures Validate(lines).Fail? ==> !IsSkipped(lines[Validate(lines).error.lineno - 1])
  {
    ScanSpec(lines);
  }

  /** A header that does not end with `]` after lines that all pass is reported as not closed. */
  lemma UnclosedHeader(lines: seq<string>, i: int)
    requires 0 <= i < |lines| && |lines[i]| > 0
    requires lines[i][0] == '[' && lines[i][|lines[i]| - 1] != ']'
    requires forall j :: 0 <= j < i ==> Accepted(lines, j)
    ensures Validate(lines) == Fail(Violation(i + 1, MsgNotClosed))
  {
    assert CheckLine(lines[i], KnownNames(lines[..i])) == Err(MsgNotClosed);
    ValidateFailIff(lines, Violation(i + 1, MsgNotClosed));
  }

  /** A test case line after lines that all pass is judged by its own checks alone: no
      header is needed before it, and the validator stops there on its first failed
      check. */
  lemma TestCaseLineVerdict(lines: seq<string>, i: int)
    requires 0 <= i < |lines| && !IsSkipped(lines[i]) && lines[i][0] != '['
    requires forall j :: 0 <= j < i ==> Accepted(lines, j)
    ensures Validate(lines[..i + 1]) ==
              match TestCaseError(lines[i])
              case Some(m) => Fail(Violation(i + 1, m))
              case None => Pass
  {
    ScanThrough(lines, i);
    assert lines[..i + 1] == lines[..i] + [lines[i]];
    ScanSnoc(lines[..i], lines[i]);
  }

  /** When the first `i` lines all pass, scanning them succeeds with the names of their
      headers. */
  lemma ScanThrough(lines: seq<string>, i: int)
    requires 0 <= i <= |lines|
    requires forall j :: 0 <= j < i ==> Accepted(lines, j)
    ensures Scan(lines[..i]) == Ok(KnownNames(lines[..i]))
  {
    var q := lines[..i];
    forall j | 0 <= j < |q|
      ensures Accepted(q, j)
    {
      AcceptedTake(lines, i, j);
    }
    ScanSpec(q);
  }

  /** A header name repeated on ANY later header, not only the next one, is rejected
      no later than at the repetition, and at the repetition itself with the duplicate
      message. */
  lemma DuplicateAnywhere(lines: seq<string>, i: int, j: int)
    requires 0 <= i < j < |lines|
    requires IsClosedHeader(lines[i]) && IsClosedHeader(lines[j])
    requires HeaderText(lines[i]) == HeaderText(lines[j])
    ensures Validate(lines).Fail?
    ensures Validate(lines).error.lineno <= j + 1
    ensures Validate(lines).error.lineno == j + 1 ==>
              Validate(lines).error.message == MsgDuplicate(HeaderText(lines[j]))
  {
    SeenBefore(lines, i, j);
    assert !Accepted(lines, j);
    ScanSpec(lines);
    FirstViolationAtMost(lines, Scan(lines).error, j);
  }

  /** A first violation comes no later than any failing line, and if it is that line,
      it carries that line's message. */
  lemma FirstViolationAtMost(lines: seq<string>, v: Violation, j: int)
    requires 0 <= j < |lines| && FirstViolation(lines, v) && !Accepted(lines, j)
    ensures v.lineno <= j + 1
    ensures v.lineno == j + 1 ==> CheckLine(lines[j], KnownNames(lines[..j])) == Err(v.message)
  {
  }

  /** The header of line `j` repeats that of the earlier line `i`, so line `j` fails. */
  lemma SeenBefore(lines: seq<string>, i: int, j: int)
    requires 0 <= i < j < |lines|
    requires IsClosedHeader(lines[i]) && IsClosedHeader(lines[j])
    requires HeaderText(lines[i]) == HeaderText(lines[j])
    ensures HeaderText(lines[j]) in KnownNames(lines[..j])
    ensures CheckLine(lines[j], KnownNames(lines[..j])) == Err(MsgDuplicate(HeaderText(lines[j])))
  {
    assert lines[..j][i] == lines[i];
  }

  /** A line with two spaces is its three space-free components joined by spaces. */
  lemma TestCaseShape(line: string)
    requires CountIn(line, {' '}) == 2
    ensures exists v1, op, v2 :: SpaceFree(v1) && SpaceFree(op) && SpaceFree(v2)
                                 && line == TestCaseLine(v1, op, v2)
  {
    var p := SplitOn(line, {' '});
    SplitJoin(line, ' ');
    JoinThree(p, ' ');
    assert line == TestCaseLine(p[0], p[1], p[2]);
    assert SpaceFree(p[0]) && SpaceFree(p[1]) && SpaceFree(p[2]);
  }

  /** Splitting a test case line at spaces recovers its components. */
  lemma SplitTestCaseLine(v1: string, op: string, v2: string)
    requires SpaceFree(v1) && SpaceFree(op) && SpaceFree(v2)
    ensures SplitOn(TestCaseLine(v1, op, v2), {' '}) == [v1, op, v2]
  {
    assert TestCaseLine(v1, op, v2) == v1 + [' '] + (op + [' '] + v2);
    SplitOnAfterPiece(v1, ' ', op + [' '] + v2, {' '});
    SplitOnAfterPiece(op, ' ', v2, {' '});
    SplitOnSingle(v2, {' '});
  }

  /** The joined flag pieces are all allowed exactly when the operator's non-relation characters are. */
  lemma JoinedFlagsAllowed(op: string)
    ensures AllFlags(RemoveAll(op, RelationChars)) <==> FlagsAllowed(op)
  {
    var flags := RemoveAll(op, RelationChars);
    if AllFlags(flags) {
      forall i | 0 <= i < |op|
        ensures op[i] in RelationChars || op[i] in AllowedFlags
      {
        if op[i] !in RelationChars {
          assert op[i] in flags;
        }
      }
    } else {
      var i :| 0 <= i < |flags| && flags[i] !in AllowedFlags;
      assert flags[i] in op && flags[i] !in RelationChars;
      var k :| 0 <= k < |op| && op[k] == flags[i];
      assert !(op[k] in RelationChars || op[k] in AllowedFlags);
      assert !FlagsAllowed(op);
    }
  }

  /** The verdict on a test case line with components `v1`, `op`, `v2`: both versions
      must be quoted, the operator must hold exactly one of `<`, `>`, `=`, and its
      other characters must be flags from `palu`. */
  lemma TestCaseVerdict(v1: string, op: string, v2: string)
    requires SpaceFree(v1) && SpaceFree(op) && SpaceFree(v2)
    ensures TestCaseError(TestCaseLine(v1, op, v2)) ==
              if !IsQuoted(v1) || !IsQuoted(v2) then Some(MsgNotQuoted)
              else if CountIn(op, RelationChars) != 1 then Some(MsgRelation)
              else if !FlagsAllowed(op) then Some(MsgFlag)
              else None
  {
    SplitTestCaseLine(v1, op, v2);
    JoinedFlagsAllowed(op);
  }
  /** The first violation ends the scan: lines after it are never looked at. */
  lemma {:induction false} ScanStops(p: seq<string>, q: seq<string>)
    requires Scan(p).Err?
    ensures Scan(p + q) == Scan(p)
  {
    if |q| > 0 {
      var q' := q[..|q| - 1];
      ScanStops(p, q');
      assert p + q == (p + q') + [q[|q| - 1]];
      ScanSnoc(p + q', q[|q| - 1]);
    } else {
      assert p + q == p;
    }
  }

  /** The validation loop over one more line. */
  lemma ScanSnoc(p: seq<string>, l: string)
    ensures Scan(p + [l]) ==
              match Scan(p)
              case Err(v) => Err(v)
              case Ok(known) =>
                match CheckLine(l, known)
                case Ok(known') => Ok(known')
                case Err(m) => Err(Violation(|p| + 1, m))
  {
    assert (p + [l])[..|p|] == p;
  }
}
