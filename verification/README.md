# Version comparison test-suite tools, modelled in Dafny

The repository keeps its version comparison test cases in one plain text file. A line
is one of four things:

- a section header `[name]`;
- a test case `"v1" f1<f2 "v2"`, where `<` may be any of `<`, `>`, `=` and the flags
  `f1`, `f2` are letter strings;
- a comment starting with `#`;
- a blank line.

Two scripts read that file, and this project models the core of both.

- **The validator** (scripts/check.py) is module `Validator`. It checks the file line
  by line and stops at the first violation. It reports the violation's 1-based line
  number and message. The checks are:
  - a header must be closed;
  - a header name may appear only once in the whole file;
  - a test case line must split at single spaces into exactly three components;
  - both versions must be quoted;
  - the operator must hold exactly one of `<`, `>`, `=`;
  - every other operator character must be a flag from `palu`.

  The whole run is `Validator.Validate(lines)`, which returns `Pass` or
  `Fail(Violation(lineno, message))`.
- **The builder** (scripts/convert2json.py) is module `Builder`. It turns the file into
  a document of sections holding test cases. `Builder.Build(lines)` returns
  `Ok(document)` or `Err(message)`.
  - A header opens a new section unless it repeats the name of the current one.
  - A test case line goes into the current section.
  - Comments and blank lines are skipped.
  - Any other line aborts the build, and so does a test case line before any header.
  - The two line patterns, `\[(.*)\]` and
    `"(.*)" ([a-zA-Z]*)([<>=])([a-zA-Z]*) "(.*)"`, are matched against the whole line.
    Module `Patterns` hand-codes them. The greedy `"(.*)"` is modelled as a search
    that backtracks from the longest group 1 down. Regex `.` is any character except a
    newline.

The two tools do not agree. Module `Contrast` proves the disagreements on concrete
documents:

| document | validator | builder |
|---|---|---|
| a header repeated on the next line | rejects it as a duplicate | merges it into one section |
| a header repeated after another header | rejects it | makes a new section |
| a test case before any header | accepts it | aborts |
| an unknown flag | rejects it | accepts any letters |
| a lone `"` as a version | counts it as quoted | does not match the line |
| a space inside the left version | sees four components | takes the space into the left version |

Supporting modules:

- `Results`: the `Option`, `Result` and `Outcome` types.
- `Text`: Python's `str.split`, `re.split` and `join` over `seq<char>`.
- `Documents`: the `TestCase`, `Section` and `Document` types of the builder's output.

Each operation has a partner it is proved against:

- The validator's loop is proved against a declarative statement of its result:
  - the set of header names;
  - "every line passes, given the headers before it";
  - "the first line that fails".
- The builder is proved against reference definitions: the header names with
  consecutive repeats collapsed, and the test cases in line order. It is also proved
  against its inverse `Builder.Unparse`, which writes a document back out as lines.
- The test case matcher is proved against a declarative `Parses` relation plus
  greediness. It is also proved against its inverse `Patterns.Render`.

### Behaviour worth knowing

- **A lone `"` counts as quoted.** `is_quoted` (scripts/check.py:15-16) checks only the
  first and last character, and for `"` they are the same quote (`Validator.IsQuoted`,
  `Contrast.LoneQuotesValidate`).
- **The flag message is never filled in.** Its text is the literal
  `invalid comparison flag "{flag}"`: the string at scripts/check.py:53 has no `f`
  prefix (`Validator.MsgFlag`).
- **The builder accepts any ASCII letters as flags.** Its pattern uses `[a-zA-Z]*`, and
  its `ALLOWED_FLAGS` is unused (`Contrast.UnknownFlagBuild`).
- **`"1" <"2"` is not a test case line for the builder.** The pattern needs a space
  before the second quote, so such a line aborts the build as unexpected input. The
  lemmas on repeated headers use `"1" < "2"`.

## Model

| member | source | states |
|---|---|---|
| Validator.IsQuoted | scripts/check.py:15-16 | A component counts as quoted exactly when it is a lone `"` or some string wrapped in double quotes |
| Validator.TestCaseError | scripts/check.py:41-43 | The format error is reported exactly when the line does not hold exactly two spaces |
| Validator.CheckLine | scripts/check.py:29-53 | A line that passes adds its header name, if it has one, to the seen names and nothing else. Comments and blank lines never fail. A header not ending in `]` is not closed. A closed header is a duplicate iff its name was seen. Any other line gets the test case verdict |
| Validator.Validate | scripts/check.py:28 | Line numbers count from 1: a reported violation names a line of the document, between 1 and the number of lines |
| Validator.ScanSpec | scripts/check.py:26-53 | The loop succeeds iff every line passes given the header names before it. On success its accumulator is exactly the set of names of all closed headers. On failure it reports the first failing line with that line's message |
| Validator.ValidateFailIff | scripts/check.py:10-12 | Fail-fast: the validator reports a violation exactly when it is the first violation of the document |
| Validator.ValidatePassIff | scripts/check.py:28-53 | The validator passes a document exactly when every line passes its checks |
| Validator.SkippedNeverFail | scripts/check.py:29-32 | No violation is ever reported on a comment or a blank line |
| Validator.UnclosedHeader | scripts/check.py:33-35 | A line starting with `[` but not ending with `]`, after lines that all pass, fails at its own line number with the not-closed message |
| Validator.TestCaseLineVerdict | scripts/check.py:40-53 | A line that is not skipped and does not start with `[`, after lines that all pass, decides the document's verdict up to it by its own test case checks alone: no header is needed before it, and the first failed check is reported at its line number |
| Validator.ScanStops | scripts/check.py:10-12 | After the first violation no later line is looked at: appending any lines leaves the scan's verdict unchanged |
| Validator.DuplicateAnywhere | scripts/check.py:36-39 | Two closed headers with the same name anywhere in the file, adjacent or not, make the validator fail no later than the second. If it fails there, the message names the duplicate |
| Validator.TestCaseShape | scripts/check.py:41-43 | A line with exactly two spaces is three space-free components joined by single spaces |
| Validator.SplitTestCaseLine | scripts/check.py:41 | Splitting three space-free components joined by spaces gives back exactly those components |
| Validator.JoinedFlagsAllowed | scripts/check.py:47-53 | The characters left after removing the relation characters are all flags exactly when every non-relation character of the operator is in `palu` |
| Validator.TestCaseVerdict | scripts/check.py:44-53 | For three components, in order: unquoted versions, then an operator without exactly one relation character, then a flag outside `palu`, and otherwise no error |
| Validator.KnownNamesSnoc | scripts/check.py:39 | One more line adds its header name, if it is a closed header, to the names seen and nothing else |
| Validator.FirstViolationExtends | scripts/check.py:10-12 | Once a prefix has its first violation, every longer document has that same first violation |
| Validator.ScanBounds | scripts/check.py:28 | The loop reports line numbers counted from 1 and within the document |
| Text.SplitOn | scripts/check.py:41 | Splitting yields one more piece than there are separators. No piece holds a separator. The pieces concatenated are the string without its separators |
| Text.RemoveAll | scripts/check.py:51 | The result holds exactly the characters of the input that are not separators, and its length is the input length minus the separator count |
| Text.SplitJoin | scripts/check.py:41 | Splitting at a character and joining with it gives back the original string |
| Text.SplitOnAfterPiece | scripts/check.py:41 | A separator-free piece, a separator and a rest split into that piece followed by the pieces of the rest |
| Text.SplitOnSingle | scripts/check.py:47 | A string without separators splits into itself alone |
| Text.CountInZero | scripts/check.py:41 | A string has no separator iff none of its characters is one |
| Documents.TotalIsAllCases | scripts/convert2json.py:32-38 | Summing the section sizes counts every test case of the document |
| Patterns.HeaderName | scripts/convert2json.py:22 | A recognised header line is the bracketed name, and the name holds no newline |
| Patterns.HeaderNameIff | scripts/convert2json.py:22 | A line matches the header pattern exactly when it is some newline-free name between `[` and `]` |
| Patterns.HeaderRoundTrip | scripts/convert2json.py:22 | Every newline-free name is recognised again from its bracketed line |
| Patterns.LetterRunMaximal | scripts/convert2json.py:29 | The greedy `[a-zA-Z]*` takes a prefix of letters that cannot be extended |
| Patterns.LetterRunStops | scripts/convert2json.py:29 | A run of letters followed by a non-letter or the end is taken whole |
| Patterns.MatchTailSound | scripts/convert2json.py:29 | Whatever the matcher reads after group 1 fits the groups' character classes and spells out the rest of the line |
| Patterns.MatchTailComplete | scripts/convert2json.py:29 | Every relation, flags and right version that fit their classes are read back exactly from their text |
| Patterns.GroupsAt | scripts/convert2json.py:29 | A match with group 1 of length `k` is a reading of the line with that group 1 length |
| Patterns.GroupsAtComplete | scripts/convert2json.py:29 | Every reading of the line is found again from the length of its group 1 |
| Patterns.Search | scripts/convert2json.py:29 | The backtracking search only returns readings of the line, with group 1 no longer than where it started |
| Patterns.SearchFinds | scripts/convert2json.py:29 | If some reading has group 1 within the search range, the search succeeds with a group 1 at least as long |
| Patterns.MatchTestCase | scripts/convert2json.py:29 | A match of the test case pattern is always a reading of the whole line |
| Patterns.Determined | scripts/convert2json.py:29 | Two readings with group 1 of the same length are the same five groups |
| Patterns.ParsesBounds | scripts/convert2json.py:29 | Any reading needs the line to start with a quote and leaves room after group 1 |
| Patterns.MatchIsMaximal | scripts/convert2json.py:29 | A line with any reading matches, and no reading has a longer group 1 than the match |
| Patterns.MatchIsLongest | scripts/convert2json.py:29 | Greedy matching: the pattern yields `tc` iff `tc` is a reading of the line and no reading has a longer group 1 |
| Patterns.TailQuotes | scripts/convert2json.py:29 | The text after group 1 holds its three delimiting quotes plus the quotes inside its groups |
| Patterns.RoundTrip | scripts/convert2json.py:29-38 | A test case fitting the classes, with no `"` in its right version, is read back unchanged from its line, even when the left version holds quotes and spaces |
| Patterns.QuotedRightVersionMisread | scripts/convert2json.py:29 | A right version of the form `b" < "c` is misread: the greedy group 1 swallows part of it |
| Patterns.RoundTripNeedsQuoteFreeRightVersion | scripts/convert2json.py:29 | The quote-free right version is necessary for the round trip: `"1" < "2" < "3"` with right version `2" < "3` is not read back as written |
| Patterns.GreedyOvertakes | scripts/convert2json.py:29 | A reading with a longer group 1 rules out the shorter one as the match |
| Builder.Collapse | scripts/convert2json.py:23 | Collapsing consecutive repeats keeps the first and last element, is empty iff the input is, and never lengthens |
| Builder.CollapseNoRepeats | scripts/convert2json.py:23 | After collapsing, no two neighbours are equal |
| Builder.CollapseSnoc | scripts/convert2json.py:23-28 | Appending a name adds a new entry exactly when it differs from the last one |
| Builder.AddToLastFacts | scripts/convert2json.py:32-38 | Adding a test case to the current section keeps every name and appends the test case to the document's test cases |
| Builder.StepReference | scripts/convert2json.py:21-40 | One successful line keeps the document in step with the references: names are the collapsed header names, test cases are those of the test case lines |
| Builder.BuildReference | scripts/convert2json.py:18-40 | On success, the section names are the header names with consecutive repeats merged. The test cases, section after section, are those of the test case lines in line order. Every test case fits the pattern's classes |
| Builder.CasesOfFit | scripts/convert2json.py:29-38 | Every test case read from a line fits the pattern's classes |
| Builder.BuildCounts | scripts/convert2json.py:23-38 | On success the number of test cases equals the number of test case lines, and no two neighbouring sections share a name |
| Builder.HeaderNamesNonEmpty | scripts/convert2json.py:22 | There is a header name exactly when some line is a header |
| Builder.SectionIffHeader | scripts/convert2json.py:19-28 | After a successful prefix there is a current section exactly when a header has been seen |
| Builder.AcceptableSnoc | scripts/convert2json.py:21-40 | One more line keeps the document acceptable iff it is recognised and, if it is a test case, some header came before |
| Builder.BuildOkIff | scripts/convert2json.py:21-40 | The build succeeds exactly when every line is a header, a test case, blank or a comment, and every test case line has a header somewhere before it |
| Builder.BuildErrPersists | scripts/convert2json.py:31 | An error aborts the build: any continuation fails with the same error and there is no partial document |
| Builder.OutsideSection | scripts/convert2json.py:30-31 | A test case line with no header before it aborts the build. If nothing earlier failed, the error is the outside-of-section one |
| Builder.SkipLineMatchesNothing | scripts/convert2json.py:22-39 | Blank and comment lines match neither pattern |
| Builder.SkipLineNoEffect | scripts/convert2json.py:39 | Blank and comment lines leave the build unchanged |
| Builder.UnexpectedLine | scripts/convert2json.py:39-40 | Any other line matching neither pattern aborts the build with a message naming the line |
| Builder.ExtendsTransitive | scripts/convert2json.py:21-38 | Growing a document twice is growing it once |
| Builder.BuildExtends | scripts/convert2json.py:21-38 | Later lines only grow the document. Earlier sections stay untouched. The last one keeps its name and only gains test cases at its end. New sections come after it |
| Builder.BuildFromAppend | scripts/convert2json.py:21 | Running the loop over two blocks of lines is running it over the first, then over the second from there |
| Builder.StepOnRendered | scripts/convert2json.py:29-38 | A written test case line is read back into the current section |
| Builder.CasesRoundTrip | scripts/convert2json.py:29-38 | Written test case lines add exactly those test cases, in order, to the current section |
| Builder.SectionRoundTrip | scripts/convert2json.py:22-38 | A written section whose name differs from the current one is rebuilt as exactly that section |
| Builder.UnparseRoundTrip | scripts/convert2json.py:18-40 | A document with newline-free names, no neighbouring sections of the same name and writable test cases is rebuilt exactly from its lines |
| Contrast.RepeatedHeaderValidate | scripts/check.py:37-38 | `[a]`, `[a]`, `"1" < "2"` fails at line 2 with `duplicate section name a` |
| Contrast.RepeatedHeaderRejected | scripts/check.py:37-38 | Any header written twice in a row is a duplicate at line 2, whatever lines follow |
| Contrast.ScanHeader | scripts/check.py:36-39 | A header line after a scanned prefix is a duplicate at its own line number, or adds its name |
| Contrast.RepeatedHeaderBuild | scripts/convert2json.py:23 | The builder merges `[a]`, `[a]`, `"1" < "2"` into one section `a` holding the test case |
| Contrast.RepeatedHeaderMerges | scripts/convert2json.py:22-38 | Any header written twice in a row, then a test case, builds a single section |
| Contrast.NonConsecutiveRepeatBuild | scripts/convert2json.py:23-28 | `[a]`, `[b]`, `[a]` builds three sections, because only consecutive repeats merge |
| Contrast.SeparatedRepeatBuilds | scripts/convert2json.py:23-28 | Any header repeated after a different one opens a second section of that name, so three sections result |
| Contrast.BuildNewSection | scripts/convert2json.py:23-28 | After any successful prefix, a header whose name differs from the current section's appends a new empty section |
| Contrast.NonConsecutiveRepeatValidate | scripts/check.py:37-38 | `[a]`, `[b]`, `[a]` fails at line 3 as a duplicate |
| Contrast.SeparatedRepeatRejected | scripts/check.py:37-38 | A header repeated after a different one is a duplicate at line 3 |
| Contrast.OrphanTestCaseValidate | scripts/check.py:40-53 | A test case before any header passes the validator |
| Contrast.OrphanTestCaseBuild | scripts/convert2json.py:30-31 | A test case before any header aborts the builder with the outside-of-section error |
| Contrast.UnknownFlagValidate | scripts/check.py:51-53 | Flag `x` fails with the uninterpolated flag message |
| Contrast.UnknownFlagBuild | scripts/convert2json.py:29-38 | The builder takes flag `x` as a left flag |
| Contrast.LoneQuotesValidate | scripts/check.py:44-45 | `" < "` passes the validator, because a lone `"` counts as quoted |
| Contrast.LoneQuotesBuild | scripts/convert2json.py:39-40 | `" < "` aborts the builder as unexpected input |
| Contrast.SpacedVersionValidate | scripts/check.py:41-43 | `"1 0" < "2"` fails with the format message |
| Contrast.SpacedVersionBuild | scripts/convert2json.py:29-38 | `"1 0" < "2"` builds a test case whose left version is `1 0` |
| Contrast.BasicSectionValidate | scripts/check.py:26-53 | `[basic]`, `"1.0" =p "1.0"` passes the validator |
| Contrast.BasicSectionBuild | scripts/convert2json.py:18-40 | The same document builds section `basic` with the test case `1.0`, no left flags, `=`, flag `p`, `1.0` |
| Contrast.ValidateAfterHeader | scripts/check.py:28-53 | A header and one more line are judged by that line alone, given the header's name |
| Contrast.BuildOneSection | scripts/convert2json.py:22-38 | A header then one written test case builds one section holding that test case |

## Left out

- Reading the input is not modelled: `read_input`, the file named in `argv[1]`, or
  standard input. The model takes the lines as `seq<string>`.
- `str.splitlines` is not modelled; the input arrives already split. Python also splits
  at `\r`, `\v`, `\f`, `\x1c`-`\x1e`, `\x85` and the Unicode line and paragraph separators.
- `report_error` is modelled only as its outcome: `Fail(Violation(lineno, message))`.
  The printed `Line N: message` text and the exit status are left out.
- A `RuntimeError` is modelled as `Err(message)`. Tracebacks and the process status
  are left out.
- `json.dumps` is left out: the builder returns the document as a value. JSON
  serialisation, key names and indentation are output formatting.
- The builder's unused `ALLOWED_FLAGS` and its unused 0-based `lineno` are not modelled.
  Neither affects the result.
- General regular expressions are not modelled. Only the two fixed patterns are
  hand-coded.
- Python strings are sequences of code points; the model's `char` is a Dafny character.
  `[a-zA-Z]` is modelled as the ASCII letters.
- Patterns.RoundTrip: requires the right version to hold no `"`. Without that condition
  the round trip is false, as `Patterns.QuotedRightVersionMisread` shows.
- Builder.UnparseRoundTrip: requires a writable document. Names without newlines and no
  neighbouring sections with the same name are needed, because the builder merges
  consecutive repeats.
