# errformat in Dafny

errformat is a Go static analyzer. It checks how `fmt.Errorf` calls format
error variables. An exported package-level error (`var ErrNotFound = ...`) is
part of a package's public contract, so it must be wrapped with `%w`. Every
other error (a local, a parameter, an unexported name) must be formatted with
`%v`. For each call, the analyzer:

- scans the `%w` / `%v` verbs of the format literal;
- picks out the error-typed identifiers among the remaining arguments;
- pairs verbs and variables by position;
- reports every mismatch, with a suggested fix that rewrites the literal.

The model follows errformat.go module by module:

- `Syntax`: the parts of the Go syntax tree the analysis reads. Identifiers carry their resolved object (`ast.Ident.Obj`). `Preorder` is the order in which `ast.Inspect` visits nodes.
- `Strings`: `strings.Index`, and `strings.Replace` with a count of 1.
- `Scanner`: format-literal extraction and the verb scanner.
- `Classifier`: the error-type test and the package-level and exported flags.
- `Compliance`: the expected verb, and which positions disagree.
- `Report`: the diagnostic text and the suggested edit.
- `Linter`:
  - the analysis pass, a class whose diagnostic list only grows;
  - the imperative driver (`Run`, `InspectNode`, `AnalyzeErrorfCall`, `CheckFormatCompliance`, `ReportFormatError`);
  - the functions that state what each step reports.
- `Fixtures`: call sites from the analyzer's test packages, with the reports the model gives for them.

Each method is proved against a specification function:

- the loops of `ParseFormatSpecifiers` and `FindErrorVariables` compute `Specifiers` and `ErrorVariables`;
- `Run` appends exactly `FilesDiagnostics` to the pass.

Lemmas then say what those functions mean:

- the verbs are exactly the verb occurrences of the literal;
- the error variables are exactly the error-typed identifier arguments;
- one diagnostic is reported per mismatching position, in order;
- a fix changes one byte of the literal;
- a call nested anywhere is still analysed.

Some behaviour of errformat.go goes beyond what its own names and comments
suggest. The model follows the code:

- **`isErrorType` accepts more than `error`.** Its comment says it checks for the `error` interface. It also accepts a type printed `interface{}` whose underlying type prints as `interface{error() string}` (errformat.go:196-197).
- **`isPackageLevel` looks at the declaring construct, not the scope.** Its comment says it checks for a package-level declaration. A `var x error` inside a function body resolves to an `*ast.ValueSpec`, and the `ValueSpec` case answers true (errformat.go:211-213). So a capitalised local declared that way is expected to use `%w` (see `Fixtures.ExpectedVerbs`).
- **An identifier without a resolved object still counts as an error variable.** `analyzeErrorVariable` returns early when `ident.Obj` is nil, leaving both flags false (errformat.go:157-160). The identifier stays in the list, and `%v` is expected of it.
- **Each message ends with a suffix naming its purpose.** `reportFormatError` ends the two templates with " for error wrapping" and " for error formatting" (errformat.go:284-290).

## Model

| member | source | states |
|---|---|---|
| Syntax.ArgumentNodesVisited | errformat.go:57-64 | the walk over a call reaches every node of every argument, however deeply nested |
| Linter.NestedErrorfReported | errformat.go:57-81 | an `fmt.Errorf` call nested anywhere in a call's arguments contributes all of its reports, as one block, to the walk over the outer call |
| Linter.NodeReportsInWalk | errformat.go:58-62 | every visited node's reports appear as one contiguous block of the walk's reports |
| Linter.WalkAppend | errformat.go:58-62 | walking two node lists in turn reports what each walk reports, in order |
| Linter.Run | errformat.go:57-64 | run appends to the pass exactly the reports of walking every file in order, and nothing else |
| Linter.InspectAll | errformat.go:59-61 | `ast.Inspect` with a callback that always descends hands every node, in preorder, to inspectNode; the pass gains exactly those nodes' reports |
| Linter.InspectNode | errformat.go:67-81 | always answers "descend"; appends the reports of the node if it is an `fmt.Errorf` call, and nothing otherwise |
| Linter.OnlyErrorfSitesReported | errformat.go:84-96 | only a call whose callee is literally `fmt.Errorf`, with two or more arguments and a double-quoted format literal, is ever reported; each report spans the whole call and has category "errformat" |
| Linter.IsFmtErrorf | errformat.go:84-96 | true only for a selector callee whose receiver is the identifier `fmt` and whose selected name is `Errorf`. Stated by `Linter.OnlyErrorfSitesReported`, which says no other call is ever reported, and `Fixtures.EdgeCasesSilent`, which says `fmt.Sprintf` is not |
| Linter.AnalyzeErrorfCall | errformat.go:99-115 | a call with fewer than two arguments, or whose format argument yields an empty string, adds nothing; otherwise the site's compliance reports are added |
| Linter.OneVariableSite | errformat.go:99-115 | for a literal of plain text plus one verb and one error variable, there is exactly one report if the verb is not the expected one, and none if it is |
| Scanner.ExtractFormatString | errformat.go:118-130 | for a double-quoted STRING literal, the result is the literal minus its two quotes, escapes left as written; for anything else (raw literal, non-literal, malformed) it is "" |
| Classifier.FindErrorVariables | errformat.go:133-147 | the loop returns `ErrorVariables` of the arguments |
| Classifier.ErrorVariablesAreErrorArgs | errformat.go:133-147 | the error variables are exactly the error-typed bare-identifier arguments, analysed, in argument order; other arguments are dropped |
| Classifier.ErrorArgIndices | errformat.go:136-143 | the positions kept are in range, increasing, and each holds an error-typed bare identifier |
| Classifier.ErrorArgIndicesComplete | errformat.go:136-143 | no error-typed bare-identifier argument is left out |
| Classifier.IsErrorType | errformat.go:172-198 | false without type information, without an entry, or with a nil type; true for a type printed "error", or "interface{}" with underlying "interface{error() string}". `Classifier.ErrorVariablesAreErrorArgs` and `Classifier.ErrorArgIndicesComplete` state that exactly the identifiers passing this test become error variables |
| Classifier.IsPackageLevel | errformat.go:201-221 | true exactly for a variable object declared by a `var` general declaration or by a value spec. Stated through `Classifier.AnalyzeErrorVariable` and `Compliance.ExpectedVerbOfIdent`, and pinned by `Fixtures.ExpectedVerbs` |
| Classifier.IsExported | errformat.go:224-226 | true exactly when the name starts with 'A'..'Z'. Stated through `Classifier.AnalyzeErrorVariable` and `Compliance.ExpectedVerbOfIdent` |
| Classifier.AnalyzeErrorVariable | errformat.go:150-169 | keeps the identifier and its position. Package-level holds iff the object is a variable declared by a `var` general declaration or a value spec. Exported holds iff an object exists and the name starts with 'A'..'Z'. A nil object leaves both false |
| Compliance.GetExpectedFormat | errformat.go:270-278 | "%w" for an exported package-level error and "%v" for every other. `Compliance.ExpectedVerbOfIdent` states which identifiers get which verb, and `Compliance.MismatchIndices` that a position is reported exactly when its verb differs |
| Compliance.ExpectedVerbOfIdent | errformat.go:270-278 | the expected verb is "%w" or "%v". It is "%w" exactly for a resolved variable object declared by `var` (general declaration or value spec) whose name starts with an upper-case ASCII letter |
| Compliance.MismatchIndices | errformat.go:238-249 | the reported positions are in range, increasing, and each has a verb other than its variable's expected one |
| Compliance.MismatchIndicesComplete | errformat.go:238-249 | no mismatching position is left out |
| Linter.CheckFormatCompliance | errformat.go:229-250 | scans the verbs, adds nothing when the verb count and the error-variable count differ, and otherwise appends exactly `ComplianceDiagnostics` |
| Linter.ComplianceExact | errformat.go:229-250 | on a count mismatch, no reports; otherwise one report per mismatching position, in increasing order, each for that position's variable, expected verb and actual verb |
| Linter.ReportsFollowMismatches | errformat.go:238-249 | the loop's reports over the first n positions correspond one-to-one with the mismatching positions below n |
| Scanner.ParseFormatSpecifiers | errformat.go:253-267 | the index loop, which skips the verb letter after each match, returns `Specifiers` of the string |
| Scanner.Specifiers | errformat.go:253-267 | every collected verb is "%w" or "%v" |
| Scanner.SpecifiersAreVerbOccurrences | errformat.go:253-267 | the scanner returns as many verbs as there are positions with '%' followed by 'w' or 'v', and the k-th verb is the one at the k-th such position |
| Scanner.VerbPositionsFrom | errformat.go:256-264 | the verb positions are increasing and each holds a verb |
| Scanner.VerbPositionsComplete | errformat.go:256-264 | no verb position is left out |
| Scanner.SpecifiersSkipPlain | errformat.go:256-264 | text without '%' contributes no verb, whatever follows it |
| Scanner.OneVerbAfterText | errformat.go:256-264 | plain text followed by one verb scans to exactly that verb |
| Linter.Pass.Report | errformat.go:292-298 | the diagnostic sink only appends |
| Linter.ReportFormatError | errformat.go:281-299 | appends exactly one diagnostic: the call's span, category "errformat", the message, and the suggested fix |
| Report.FormatErrorMessage | errformat.go:281-290 | the "exported package-level" template for an exported package-level error, the "non-exported" template otherwise, each naming the variable and the verb found. `Fixtures.ExportedErrorWithV`, `Fixtures.LocalErrorWithW` and `Fixtures.ComplexMixedCase` state the full messages of the want lines |
| Report.CreateSuggestedFix | errformat.go:302-322 | no fix for a call without arguments; otherwise one fix titled "Replace <wrong> with <correct>" with one edit over the format argument's span. `Report.DiagnosticShape` states it for a quoted literal |
| Report.ReplaceFormatSpecifier | errformat.go:325-334 | "" for anything but a STRING literal; otherwise the literal's source text with the first occurrence replaced. `Report.FixOnQuotedLiteral` and `Report.VerbFixChangesOneLetter` state what that replacement does |
| Strings.ReplaceFirst | errformat.go:330 | `strings.Replace` with a count of 1: text without an occurrence is unchanged, otherwise only the first occurrence is replaced. `Strings.Index`, `Strings.IndexAbsent` and `Report.VerbFixChangesOneLetter` state this |
| Report.DiagnosticShape | errformat.go:281-322 | for a quoted format literal, the diagnostic spans the call and carries one fix titled "Replace <actual> with <expected>". Its one edit runs from the literal's position to that position plus the literal's length in UTF-8 bytes, and its text is the literal with the first <actual> replaced |
| Syntax.Utf8LenAppend | errformat.go:315-316 | the byte length of a concatenation is the sum of the byte lengths, as Go's `len` on strings |
| Syntax.Utf8LenAscii | errformat.go:315-316 | a string's byte length equals its character count exactly when every character is ASCII |
| Strings.Index | errformat.go:330 | the result is -1 or an occurrence, with no occurrence before it |
| Strings.IndexAbsent | errformat.go:330 | the result is -1 exactly when there is no occurrence at all |
| Strings.IndexSkipPlain | errformat.go:330 | a prefix that does not contain the first character of the searched text shifts the first occurrence by the prefix's length |
| Report.VerbFixChangesOneLetter | errformat.go:325-334 | replacing a verb by a verb keeps the length and changes only the letter of the first occurrence. Every other character, including every other verb, is unchanged; with no occurrence the text is unchanged |
| Report.FixOnQuotedLiteral | errformat.go:325-334 | replacing in the quoted literal gives the content's replacement, requoted: the quotes never take part in a match |
| Report.IndexInQuotes | errformat.go:325-334 | the first verb occurrence in the quoted literal is one past its first occurrence in the content |
| Report.FixTargetsFirstScannedVerb | errformat.go:325-334 | the edit rewrites the first scanned verb equal to the wrong one, which for a later variable is an earlier variable's verb |
| Report.FixAfterPlainText | errformat.go:325-334 | behind text without '%', the fix rewrites the verb right after that text |
| Fixtures.ExportedErrorWithV | testdata/src/testlintdata/exported_errors/exported_errors.go:19 | `"operation failed: %v", ErrNotFound` gets the single "exported package-level error 'ErrNotFound' should use %w instead of %v for error wrapping" report, with a fix giving `"operation failed: %w"` |
| Fixtures.ExportedErrorWithW | testdata/src/testlintdata/exported_errors/exported_errors.go:14 | `"operation failed: %w", ErrNotFound` gets no report |
| Fixtures.LocalErrorWithW | testdata/src/testlintdata/unexported_errors/unexported_errors.go:20 | `"processing failed: %w", err` gets the single "non-exported error 'err' should use %v instead of %w for error formatting" report, with a fix giving `"processing failed: %v"` |
| Fixtures.ExpectedVerbs | testdata/src/testlintdata/unexported_errors/unexported_errors.go:28-30 | `LocalErr` from `:=` gets %v; a value-spec `ErrLocal` gets %w; a parameter or field gets %v; an identifier without an object gets %v |
| Fixtures.ComplexMixedCase | testdata/src/testlintdata/mixed_cases/mixed_cases.go:36 | `"errors: %w, %w, and %w", err1, err2, ErrTimeout` gets exactly the two want-line reports, for err1 and then err2; `ErrTimeout` is not reported. Both fixes give `"errors: %v, %w, and %w"`: the fix offered for err2 rewrites err1's verb |
| Fixtures.NonAsciiLiteralEnd | errformat.go:315-316 | the end of the literal `"ошибка: %v"` lies 18 bytes after its start: a span counts UTF-8 bytes, not characters |
| Fixtures.EscapedPercentCounts | errformat.go:256-264 | "%%v" scans to ["%v"]: a "%%" escape is not recognised |
| Fixtures.EdgeCasesSilent | testdata/src/testlintdata/edge_cases/edge_cases.go:10-28 | `fmt.Sprintf`, a single-argument `fmt.Errorf`, a `%d` format with an integer argument, and a non-literal format are never reported |
| Fixtures.NumberVerbSilent | testdata/src/testlintdata/edge_cases/edge_cases.go:16 | `"error with number: %d", 42` scans to no verb, and the integer literal is not an error variable, so nothing is reported |

## Left out

- The plugin glue of errformat.go:12-54 (`New`, `BuildAnalyzers`, `GetLoadMode`, settings registration) is not modelled. It only wires the analyzer into golangci-lint. The `ErrFormatLinter` receiver holds no state the analysis reads.
- The run function's return values are not modelled. `run` always returns `nil, nil`.
- Parsing and type checking are not part of this model. The model takes their results as given:
  - syntax trees are `Expr` values;
  - `ast.Ident.Obj` is an `Option<Object>`;
  - the type checker's answers are a map from identifier position to the printed type and underlying type. `None` stands for a nil `TypesInfo` or `Types`; a missing key stands for a missing entry or a nil `Type`.
- Node kinds are modelled only as far as the analysis distinguishes them. Nodes other than identifiers, literals, selectors and calls are one `Other` node with children and an extent.
- Positions are plain integers, not `token.Pos` values tied to a file set. `Pos`/`End` follow go/ast for the modelled nodes: the end of an identifier or a literal lies its length in UTF-8 bytes after its start.
- The guard `i >= len(formats)` in checkFormatCompliance (errformat.go:239-241) is not modelled. The counts are already known to be equal there, so it never fires.
- Strings are sequences of characters, not bytes. The scanner only compares against '%', 'w' and 'v', which never occur inside a multi-byte UTF-8 sequence, so scanning characters finds the same verbs as scanning bytes. Escapes in literals are kept as written, as the source keeps them.
- Report.FormatErrorMessage: has no contract of its own. Its two templates are pinned down by `Fixtures.ExportedErrorWithV`, `Fixtures.LocalErrorWithW` and `Fixtures.ComplexMixedCase`, which state the full text of want messages of each kind.
- Sites with two or more error variables are covered by the general lemmas (`Linter.ComplianceExact`, `Report.FixTargetsFirstScannedVerb`). Of the test packages' multi-variable want lines, only mixed_cases.go:36 is stated in full (`Fixtures.ComplexMixedCase`).
- Diagnostics are accumulated in a list. The order in which golangci-lint later sorts or prints them is outside the analyzer.
