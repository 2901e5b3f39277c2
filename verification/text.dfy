/** String helpers with the meaning of Python's `str.split(sep)`, `re.split(class, s)`
    and `''.join(parts)`, stated over `seq<char>`, and the two line classes both
    scripts share. */
module Text {

  /** A blank line or a comment: both scripts skip it. */
  predicate IsSkipped(line: string)
  {
    |line| == 0 || line[0] == '#'
  }

  /** The relation characters, the class `[<>=]` of both scripts. */
  const RelationChars: set<char> := {'<', '>', '='}

  predicate IsRelation(c: char)
  {
    c in RelationChars
  }

  /** Number of characters of `s` that belong to `cs`. */
  function CountIn(s: string, cs: set<char>): nat
  {
    if |s| == 0 then 0 else (if s[0] in cs then 1 else 0) + CountIn(s[1..], cs)
  }

  /** `s` with every character of `cs` dropped. */
  function RemoveAll(s: string, cs: set<char>): (r: string)
    ensures forall c :: c in r <==> c in s && c !in cs
    ensures |r| + CountIn(s, cs) == |s|
  {
    if |s| == 0 then ""
    else if s[0] in cs then RemoveAll(s[1..], cs)
    else [s[0]] + RemoveAll(s[1..], cs)
  }

  /** The concatenation of `parts`, Python's `''.join(parts)`. */
  function Concat(parts: seq<string>): string
  {
    if |parts| == 0 then "" else parts[0] + Concat(parts[1..])
  }

  /** `parts` glued back together with `sep` between neighbours, Python's `sep.join(parts)`. */
  function Join(parts: seq<string>, sep: char): string
    requires |parts| >= 1
  {
    if |parts| == 1 then parts[0] else parts[0] + [sep] + Join(parts[1..], sep)
  }

  /** Splitting at every character of `cs`, dropping the separators: Python's
      `s.split(' ')` when `cs == {' '}` and `re.split('[<>=]', s)` when
      `cs == {'<', '>', '='}`. There is one more piece than there are separators,
      no piece holds a separator, and the pieces together are `s` without its
      separators. */
  function SplitOn(s: string, cs: set<char>): (parts: seq<string>)
    ensures |parts| == CountIn(s, cs) + 1
    ensures forall i :: 0 <= i < |parts| ==> CountIn(parts[i], cs) == 0
    ensures Concat(parts) == RemoveAll(s, cs)
  {
    if |s| == 0 then [""]
    else
      var rest := SplitOn(s[1..], cs);
      if s[0] in cs then
        assert ([""] + rest)[1..] == rest;
        [""] + rest
      else
        GlueToFirst(s[0], rest, cs)
  }

  /** `c`, not a separator, stuck to the front of the first piece. */
  function GlueToFirst(c: char, rest: seq<string>, cs: set<char>): (parts: seq<string>)
    requires |rest| >= 1 && c !in cs
    requires forall i :: 0 <= i < |rest| ==> CountIn(rest[i], cs) == 0
    ensures |parts| == |rest|
    ensures forall i :: 0 <= i < |parts| ==> CountIn(parts[i], cs) == 0
    ensures Concat(parts) == [c] + Concat(rest)
  {
    var first := [c] + rest[0];
    assert first[1..] == rest[0];
    var parts := [first] + rest[1..];
    assert parts[1..] == rest[1..];
    assert forall i :: 1 <= i < |parts| ==> parts[i] == rest[i];
    parts
  }

  lemma {:induction false} CountInConcat(a: string, b: string, cs: set<char>)
    ensures CountIn(a + b, cs) == CountIn(a, cs) + CountIn(b, cs)
  {
    if |a| == 0 {
      assert a + b == b;
    } else {
      assert (a + b)[1..] == a[1..] + b;
      CountInConcat(a[1..], b, cs);
    }
  }

  /** A suffix has no more separators than the whole string. */
  lemma CountInSuffix(s: string, i: nat, cs: set<char>)
    requires i <= |s|
    ensures CountIn(s[i..], cs) <= CountIn(s, cs)
  {
    assert s == s[..i] + s[i..];
    CountInConcat(s[..i], s[i..], cs);
  }

  /** A string counts no separator exactly when none of its characters is one. */
  lemma {:induction false} CountInZero(s: string, cs: set<char>)
    ensures CountIn(s, cs) == 0 <==> forall i :: 0 <= i < |s| ==> s[i] !in cs
  {
    if |s| > 0 {
      CountInZero(s[1..], cs);
      assert forall i :: 1 <= i < |s| ==> s[i] == s[1..][i - 1];
    }
  }

  /** Splitting the separator-free `a`, a separator and `b` yields `a` followed by the pieces of `b`. */
  lemma {:induction false} SplitOnAfterPiece(a: string, c: char, b: string, cs: set<char>)
    requires CountIn(a, cs) == 0 && c in cs
    ensures SplitOn(a + [c] + b, cs) == [a] + SplitOn(b, cs)
  {
    var s := a + [c] + b;
    if |a| == 0 {
      assert s == [c] + b;
      assert s[1..] == b;
    } else {
      assert s[1..] == a[1..] + [c] + b;
      assert a[0] !in cs;
      SplitOnAfterPiece(a[1..], c, b, cs);
      var rest := [a[1..]] + SplitOn(b, cs);
      assert SplitOn(s, cs) == GlueToFirst(a[0], rest, cs);
      assert [a[0]] + a[1..] == a;
    }
  }

  /** A separator-free string is its own single piece. */
  lemma {:induction false} SplitOnSingle(a: string, cs: set<char>)
    requires CountIn(a, cs) == 0
    ensures SplitOn(a, cs) == [a]
  {
    if |a| > 0 {
      assert a[0] !in cs && CountIn(a[1..], cs) == 0;
      SplitOnSingle(a[1..], cs);
      assert [a[0]] + a[1..] == a;
    }
  }

  lemma JoinThree(parts: seq<string>, sep: char)
    requires |parts| == 3
    ensures Join(parts, sep) == parts[0] + [sep] + parts[1] + [sep] + parts[2]
  {
    var rest := parts[1..];
    assert rest[1..] == [parts[2]];
    assert Join(rest, sep) == parts[1] + [sep] + parts[2];
    AppendAssoc(parts[0] + [sep], parts[1] + [sep], parts[2]);
    AppendAssoc(parts[0] + [sep], parts[1], [sep]);
  }

  /** A non-empty sequence is its prefix followed by its last element. */
  lemma SplitLast<T>(s: seq<T>)
    requires |s| > 0
    ensures s[..|s| - 1] + [s[|s| - 1]] == s
  {
  }

  lemma AppendAssoc<T>(a: seq<T>, b: seq<T>, c: seq<T>)
    ensures a + (b + c) == (a + b) + c
  {
  }

  /** Splitting at a single character and joining with it gives back the string. */
  lemma {:induction false} SplitJoin(s: string, c: char)
    ensures Join(SplitOn(s, {c}), c) == s
  {
    if |s| > 0 {
      SplitJoin(s[1..], c);
      var rest := SplitOn(s[1..], {c});
      if s[0] == c {
        var parts := [""] + rest;
        assert SplitOn(s, {c}) == parts;
        assert parts[1..] == rest;
        assert Join(parts, c) == "" + [c] + Join(rest, c);
        assert s == "" + [c] + s[1..];
      } else {
        JoinGlue(s[0], rest, c);
        assert s == [s[0]] + s[1..];
      }
    }
  }

  lemma JoinGlue(x: char, rest: seq<string>, c: char)
    requires |rest| >= 1 && x != c
    requires forall i :: 0 <= i < |rest| ==> CountIn(rest[i], {c}) == 0
    ensures Join(GlueToFirst(x, rest, {c}), c) == [x] + Join(rest, c)
  {
    var parts := GlueToFirst(x, rest, {c});
    assert parts[0] == [x] + rest[0];
    if |rest| > 1 {
      assert parts[1..] == rest[1..];
    }
  }
}
