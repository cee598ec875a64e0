/** Concrete sites from the analyzer's test packages, with the reports the
    model gives for them. Positions are illustrative byte offsets. */
module Fixtures {
  import opened Syntax
  import opened Strings
  import opened Scanner
  import opened Classifier
  import opened Compliance
  import opened Report
  import opened Linter

  /** fmt.Errorf(args...) with the callee at position 0. */
  function Errorf(args: seq<Expr>): Expr
  {
    Call(Selector(Id(Ident("fmt", 0, None)), Ident("Errorf", 4, None)), 10, args, 100)
  }

  /** fmt.Errorf with a string literal as its format argument. */
  function ErrorfCall(format: string, args: seq<Expr>): Expr
  {
    Errorf([BasicLit(11, STRING, format)] + args)
  }

  /** A package-level `var ErrX = ...` is resolved to its value spec. */
  function PackageVar(name: string, pos: int): Expr
  {
    Id(Ident(name, pos, Some(Object(Var, ValueSpec))))
  }

  /** A local `x := ...` is resolved to its assignment. */
  function LocalVar(name: string, pos: int): Expr
  {
    Id(Ident(name, pos, Some(Object(Var, AssignStmt))))
  }

  function ErrorTypes(ps: set<int>): TypesInfo
  {
    Some(map p | p in ps :: GoType("error", "interface{Error() string}"))
  }

  const Q := "\""

  /** Plain text: no '%', and only ASCII characters. */
  predicate PlainAscii(s: string)
  {
    forall i :: 0 <= i < |s| ==> s[i] != '%' && s[i] as int < 0x80
  }

  /** A site `fmt.Errorf("<text><verb>", arg)` with plain text before the
      verb: nothing when the verb is the expected one, and otherwise one
      diagnostic whose fix puts the expected verb in place of the written
      one. */
  lemma PlainSite(text: string, verb: string, arg: Expr, types: TypesInfo)
    requires PlainAscii(text)
    requires IsVerb(verb) && IsErrorArg(arg, types)
    ensures CallDiagnostics(ErrorfCall(Q + text + verb + Q, [arg]), types)
            == if GetExpectedFormat(AnalyzeErrorVariable(arg.id)) == verb then []
               else [SiteReport(AnalyzeErrorVariable(arg.id), verb, GetExpectedFormat(AnalyzeErrorVariable(arg.id)), text, Q)]
  {
    var call := ErrorfCall(Q + text + verb + Q, [arg]);
    assert call.args == [call.args[0], arg];
    assert verb == ['%', verb[1]] && "%" + [verb[1]] == verb;
    OneVariableSite(call, types, text, verb[1]);
    var ev := AnalyzeErrorVariable(arg.id);
    Utf8LenAscii(Q);
    PlainLiteral(text, verb, GetExpectedFormat(ev), Q);
    SiteFix(text, verb, GetExpectedFormat(ev), Q, [arg]);
    SiteDiagnostic(text, verb, Q, ev, GetExpectedFormat(ev), [arg]);
  }

  /** The report at a site `fmt.Errorf("<text><verb><rest>", ...)`: the
      call's span, the message for the verb found, and one fix whose edit
      spans the literal and puts the expected verb in place of that one. */
  function SiteReport(ev: ErrorInfo, verb: string, expected: string, text: string, rest: string): Diagnostic
  {
    Diagnostic(0, 101, "errformat", FormatErrorMessage(ev, verb), LiteralFix(verb, expected, text, rest))
  }

  /** The fix offered there: one edit spanning the literal, with the
      expected verb in place of the one found. */
  function LiteralFix(verb: string, expected: string, text: string, rest: string): seq<SuggestedFix>
  {
    [SuggestedFix("Replace " + verb + " with " + expected,
                  [TextEdit(11, 11 + |Q + text + verb + rest|, Q + text + expected + rest)])]
  }

  /** Once the fix of such a site is known, the diagnostic reportFormatError
      builds there spans the whole call and carries that fix. */
  lemma SiteDiagnostic(text: string, verb: string, rest: string, ev: ErrorInfo, expected: string, args: seq<Expr>)
    requires CreateSuggestedFix(ErrorfCall(Q + text + verb + rest, args), verb, expected)
             == LiteralFix(verb, expected, text, rest)
    ensures FormatErrorDiagnostic(ev, expected, verb, ErrorfCall(Q + text + verb + rest, args))
            == SiteReport(ev, verb, expected, text, rest)
  {
    var call := ErrorfCall(Q + text + verb + rest, args);
    assert call.fun.Pos() == 0;
  }

  /** The fix createSuggestedFix builds at such a site, when replacing the
      first occurrence rewrites the verb right after the text and the literal
      is as long in bytes as in characters. */
  lemma SiteFix(text: string, verb: string, expected: string, rest: string, args: seq<Expr>)
    requires ReplaceFirst(Q + text + verb + rest, verb, expected) == Q + text + expected + rest
    requires Utf8Len(Q + text + verb + rest) == |Q + text + verb + rest|
    ensures CreateSuggestedFix(ErrorfCall(Q + text + verb + rest, args), verb, expected)
            == LiteralFix(verb, expected, text, rest)
  {
    assert ErrorfCall(Q + text + verb + rest, args).args[0] == BasicLit(11, STRING, Q + text + verb + rest);
  }

  /** Behind plain ASCII text, the first occurrence of a verb is the one
      right after the text; with an ASCII rest, the literal is as long in
      bytes as in characters. */
  lemma PlainLiteral(text: string, verb: string, expected: string, rest: string)
    requires PlainAscii(text) && IsVerb(verb)
    requires Utf8Len(rest) == |rest|
    ensures ReplaceFirst(Q + text + verb + rest, verb, expected) == Q + text + expected + rest
    ensures Utf8Len(Q + text + verb + rest) == |Q + text + verb + rest|
  {
    FixAfterPlainText(Q + text, verb, expected, rest);
    AsciiLiteral(text, verb, rest);
  }

  /** Such a literal is as long in bytes as in characters. */
  lemma AsciiLiteral(text: string, verb: string, rest: string)
    requires PlainAscii(text) && IsVerb(verb) && Utf8Len(rest) == |rest|
    ensures Utf8Len(Q + text + verb + rest) == |Q + text + verb + rest|
  {
    Utf8LenAscii(Q);
    Utf8LenAscii(text);
    Utf8LenAscii(verb);
    Utf8LenAppend(Q, text);
    Utf8LenAppend(Q + text, verb);
    Utf8LenAppend(Q + text + verb, rest);
  }

  /** exported_errors.go, line 19: %v on an exported package-level error is
      reported with the wrapping template, and the fix turns the literal's
      %v into %w. */
  lemma ExportedErrorWithV()
    ensures var value := Q + "operation failed: " + "%v" + Q;
            CallDiagnostics(ErrorfCall(value, [PackageVar("ErrNotFound", 40)]), ErrorTypes({40}))
            == [Diagnostic(0, 101, "errformat",
                           "exported package-level error '" + "ErrNotFound" + "' should use %w instead of "
                           + "%v" + " for error wrapping",
                           [SuggestedFix("Replace " + "%v" + " with " + "%w",
                                         [TextEdit(11, 11 + |value|, Q + "operation failed: " + "%w" + Q)])])]
  {
    var arg := PackageVar("ErrNotFound", 40);
    assert IsErrorArg(arg, ErrorTypes({40}));
    PlainSite("operation failed: ", "%v", arg, ErrorTypes({40}));
    assert GetExpectedFormat(AnalyzeErrorVariable(arg.id)) == "%w";
  }

  /** unexported_errors.go, line 20: %w on a local error is reported with
      the formatting template, and the fix turns the %w into %v. */
  lemma LocalErrorWithW()
    ensures var value := Q + "processing failed: " + "%w" + Q;
            CallDiagnostics(ErrorfCall(value, [LocalVar("err", 40)]), ErrorTypes({40}))
            == [Diagnostic(0, 101, "errformat",
                           "non-exported error '" + "err" + "' should use %v instead of "
                           + "%w" + " for error formatting",
                           [SuggestedFix("Replace " + "%w" + " with " + "%v",
                                         [TextEdit(11, 11 + |value|, Q + "processing failed: " + "%v" + Q)])])]
  {
    var arg := LocalVar("err", 40);
    assert IsErrorArg(arg, ErrorTypes({40}));
    PlainSite("processing failed: ", "%w", arg, ErrorTypes({40}));
    assert GetExpectedFormat(AnalyzeErrorVariable(arg.id)) == "%v";
  }

  /** exported_errors.go, line 14: %w on an exported package-level error is
      the expected verb, and nothing is reported. */
  lemma ExportedErrorWithW()
    ensures CallDiagnostics(ErrorfCall(Q + "operation failed: " + "%w" + Q, [PackageVar("ErrNotFound", 40)]),
                            ErrorTypes({40})) == []
  {
    var arg := PackageVar("ErrNotFound", 40);
    assert IsErrorArg(arg, ErrorTypes({40}));
    PlainSite("operation failed: ", "%w", arg, ErrorTypes({40}));
    assert GetExpectedFormat(AnalyzeErrorVariable(arg.id)) == "%w";
  }

  /** The verb each kind of identifier is entitled to: a capitalised local
      from `:=` (unexported_errors.go, line 28) gets %v; a `var` inside a
      function body is resolved to a value spec and gets %w like a
      package-level one; an identifier without an object gets %v. */
  lemma ExpectedVerbs()
    ensures GetExpectedFormat(AnalyzeErrorVariable(Ident("LocalErr", 0, Some(Object(Var, AssignStmt))))) == "%v"
    ensures GetExpectedFormat(AnalyzeErrorVariable(Ident("ErrLocal", 0, Some(Object(Var, ValueSpec))))) == "%w"
    ensures GetExpectedFormat(AnalyzeErrorVariable(Ident("ErrTimeout", 0, Some(Object(Var, Field))))) == "%v"
    ensures GetExpectedFormat(AnalyzeErrorVariable(Ident("ErrTimeout", 0, None))) == "%v"
  {
  }

  /** mixed_cases.go, line 36: err1 and err2 are reported, in that order,
      and ErrTimeout is not. Both fixes rewrite the first %w of the literal,
      which is err1's: the fix offered for err2 leaves err2's own %w as it
      is. */
  lemma ComplexMixedCase()
    ensures var value := Q + "errors: " + "%w" + (", " + "%w" + ", and " + "%w" + Q);
            var fix := [SuggestedFix("Replace " + "%w" + " with " + "%v",
                                     [TextEdit(11, 11 + |value|,
                                               Q + "errors: " + "%v" + (", " + "%w" + ", and " + "%w" + Q))])];
            CallDiagnostics(ErrorfCall(value, [LocalVar("err1", 60), LocalVar("err2", 66), PackageVar("ErrTimeout", 72)]),
                            ErrorTypes({60, 66, 72}))
            == [Diagnostic(0, 101, "errformat",
                           "non-exported error '" + "err1" + "' should use %v instead of " + "%w" + " for error formatting",
                           fix),
                Diagnostic(0, 101, "errformat",
                           "non-exported error '" + "err2" + "' should use %v instead of " + "%w" + " for error formatting",
                           fix)]
  {
    var text, mid := "errors: ", ", " + "%w" + ", and " + "%w";
    var args := [LocalVar("err1", 60), LocalVar("err2", 66), PackageVar("ErrTimeout", 72)];
    var types := ErrorTypes({60, 66, 72});
    MixedCaseAscii();
    MixedCaseFormat(text, mid);
    var ev0, ev1, ev2 := MixedCaseVariables(args, types);
    FirstTwoOfThreeReported(text, mid, args, types, ev0, ev1, ev2);
  }

  /** A literal with three %w after plain text, whose error variables expect
      %v, %v and %w: the first two are reported, and both fixes rewrite the
      literal's first %w. */
  lemma FirstTwoOfThreeReported(text: string, mid: string, args: seq<Expr>, types: TypesInfo,
                                ev0: ErrorInfo, ev1: ErrorInfo, ev2: ErrorInfo)
    requires PlainAscii(text) && Utf8Len(mid) == |mid|
    requires Specifiers(text + "%w" + mid) == ["%w", "%w", "%w"]
    requires ErrorVariables(args, types) == [ev0, ev1, ev2]
    requires GetExpectedFormat(ev0) == "%v" && GetExpectedFormat(ev1) == "%v" && GetExpectedFormat(ev2) == "%w"
    ensures CallDiagnostics(ErrorfCall(Q + text + "%w" + (mid + Q), args), types)
            == [SiteReport(ev0, "%w", "%v", text, mid + Q), SiteReport(ev1, "%w", "%v", text, mid + Q)]
  {
    ThreeVerbCall(text, mid, args, types, ev0, ev1, ev2);
    ClosingQuoteAscii(mid);
    PlainLiteral(text, "%w", "%v", mid + Q);
    SiteFix(text, "%w", "%v", mid + Q, args);
    SiteDiagnostic(text, "%w", mid + Q, ev0, "%v", args);
    SiteDiagnostic(text, "%w", mid + Q, ev1, "%v", args);
  }

  /** An ASCII text with the closing quote appended is still ASCII. */
  lemma ClosingQuoteAscii(mid: string)
    requires Utf8Len(mid) == |mid|
    ensures Utf8Len(mid + Q) == |mid + Q|
  {
    Utf8LenAscii(Q);
    Utf8LenAppend(mid, Q);
  }

  /** A literal holding three %w whose error variables expect %v, %v and %w
      gets the first two reported, in order. */
  lemma ThreeVerbCall(text: string, mid: string, args: seq<Expr>, types: TypesInfo,
                      ev0: ErrorInfo, ev1: ErrorInfo, ev2: ErrorInfo)
    requires Specifiers(text + "%w" + mid) == ["%w", "%w", "%w"]
    requires ErrorVariables(args, types) == [ev0, ev1, ev2]
    requires GetExpectedFormat(ev0) == "%v" && GetExpectedFormat(ev1) == "%v" && GetExpectedFormat(ev2) == "%w"
    ensures var call := ErrorfCall(Q + text + "%w" + (mid + Q), args);
            CallDiagnostics(call, types)
            == [FormatErrorDiagnostic(ev0, "%v", "%w", call), FormatErrorDiagnostic(ev1, "%v", "%w", call)]
  {
    var content := text + "%w" + mid;
    var call := ErrorfCall(Q + text + "%w" + (mid + Q), args);
    Requote(text, mid);
    assert ExtractFormatString(call.args[0]) == content;
    assert call.args[1..] == args;
    ComplianceUnfold(content, [ev0, ev1, ev2], call, ["%w", "%w", "%w"]);
    MixedCaseReports([ev0, ev1, ev2], call);
  }

  /** The literal of such a site is its format content between quotes. */
  lemma Requote(text: string, mid: string)
    ensures Q + text + "%w" + (mid + Q) == Q + (text + "%w" + mid) + Q
  {
  }

  /** The literal's text before its first verb is plain ASCII, and the text
      after it is ASCII. */
  lemma MixedCaseAscii()
    ensures PlainAscii("errors: ")
    ensures Utf8Len(", " + "%w" + ", and " + "%w") == |", " + "%w" + ", and " + "%w"|
  {
    Utf8LenAscii(", ");
    Utf8LenAscii("%w");
    Utf8LenAscii(", and ");
    Utf8LenAppend(", ", "%w");
    Utf8LenAppend(", " + "%w", ", and ");
    Utf8LenAppend(", " + "%w" + ", and ", "%w");
  }

  /** The format of mixed_cases.go, line 36, holds three %w. */
  lemma MixedCaseFormat(text: string, mid: string)
    requires text == "errors: " && mid == ", " + "%w" + ", and " + "%w"
    ensures Specifiers(text + "%w" + mid) == ["%w", "%w", "%w"]
  {
    PlainThenVerb(text, mid);
    PlainThenVerb(", ", ", and " + "%w");
    PlainThenVerb(", and ", []);
    assert ", " + "%w" + ", and " + "%w" == ", " + "%w" + (", and " + "%w");
    assert ", and " + "%w" == ", and " + "%w" + [];
    assert Specifiers([]) == [];
  }

  /** "%w" after text without a '%': one verb, then whatever u holds. */
  lemma PlainThenVerb(text: string, u: string)
    requires forall i :: 0 <= i < |text| ==> text[i] != '%'
    ensures Specifiers(text + "%w" + u) == ["%w"] + Specifiers(u)
  {
    assert text + "%w" + u == text + (['%', 'w'] + u);
    SpecifiersSkipPlain(text, ['%', 'w'] + u);
    SpecifiersVerbFirst('w', u);
    assert "%" + ['w'] == "%w";
  }

  /** err1 and err2 are local and expect %v; ErrTimeout is package-level and
      exported and expects %w. */
  lemma MixedCaseVariables(args: seq<Expr>, types: TypesInfo) returns (ev0: ErrorInfo, ev1: ErrorInfo, ev2: ErrorInfo)
    requires args == [LocalVar("err1", 60), LocalVar("err2", 66), PackageVar("ErrTimeout", 72)]
    requires types == ErrorTypes({60, 66, 72})
    ensures ErrorVariables(args, types) == [ev0, ev1, ev2]
    ensures ev0 == AnalyzeErrorVariable(args[0].id) && GetExpectedFormat(ev0) == "%v"
    ensures ev1 == AnalyzeErrorVariable(args[1].id) && GetExpectedFormat(ev1) == "%v"
    ensures GetExpectedFormat(ev2) == "%w"
  {
    ev0, ev1, ev2 := AnalyzeErrorVariable(args[0].id), AnalyzeErrorVariable(args[1].id),
                     AnalyzeErrorVariable(args[2].id);
    assert IsErrorArg(args[0], types) && IsErrorArg(args[1], types) && IsErrorArg(args[2], types);
    assert ErrorVariables(args[..1], types) == [ev0] by {
      assert args[..1][..0] == [];
    }
    assert ErrorVariables(args[..2], types) == [ev0, ev1] by {
      assert args[..2][..1] == args[..1];
    }
    assert ErrorVariables(args, types) == [ev0, ev1, ev2] by {
      assert args[..2] == args[..|args| - 1];
    }
  }

  /** Verbs %w, %w, %w against expected %v, %v, %w: the first two positions
      are reported, in order. */
  lemma MixedCaseReports(evs: seq<ErrorInfo>, call: Expr)
    requires call.Call? && |evs| == 3
    requires GetExpectedFormat(evs[0]) == "%v" && GetExpectedFormat(evs[1]) == "%v"
    requires GetExpectedFormat(evs[2]) == "%w"
    ensures ReportsBelow(["%w", "%w", "%w"], evs, Reporter(call), 3)
            == [FormatErrorDiagnostic(evs[0], "%v", "%w", call), FormatErrorDiagnostic(evs[1], "%v", "%w", call)]
  {
    var formats := ["%w", "%w", "%w"];
    ReportsBelowStep(formats, evs, Reporter(call), 0);
    ReportsBelowStep(formats, evs, Reporter(call), 1);
    ReportsBelowStep(formats, evs, Reporter(call), 2);
  }

  /** A literal in Cyrillic: go/ast's End adds the literal's length in bytes,
      18 here, not its 12 characters. */
  lemma NonAsciiLiteralEnd()
    ensures BasicLit(0, STRING, Q + "ошибка" + ": %v" + Q).End() == 18
  {
    assert Utf8Len("ошибка") == 12 by {
      Utf8LenTwoByte("ошибка");
    }
    assert Utf8Len(": %v") == 4 && Utf8Len(Q) == 1 by {
      Utf8LenAscii(": %v");
      Utf8LenAscii(Q);
    }
    QuotedByteLength("ошибка", ": %v");
  }

  /** A quoted literal's byte length is its content's, plus the quotes. */
  lemma QuotedByteLength(a: string, b: string)
    ensures Utf8Len(Q + a + b + Q) == Utf8Len(Q) + Utf8Len(a) + Utf8Len(b) + Utf8Len(Q)
  {
    Utf8LenAppend(Q, a);
    Utf8LenAppend(Q + a, b);
    Utf8LenAppend(Q + a + b, Q);
  }

  /** A literal "%%" is not understood: the second '%' of "%%v" starts a
      verb. */
  lemma EscapedPercentCounts()
    ensures Specifiers("%%v") == ["%v"]
  {
    var s := "%%v";
    assert s[1] == '%' && s[1..] == "%v";
    assert Specifiers(s) == Specifiers("%v");
    SpecifiersVerbFirst('v', []);
    assert ['%', 'v'] + [] == "%v" && "%" + ['v'] == "%v";
    assert Specifiers([]) == [];
  }

  /** edge_cases.go: a call that is not fmt.Errorf, a call with a single
      argument, a format without %w or %v whose argument is not an
      identifier, and a format that is not a literal are all left alone. */
  lemma EdgeCasesSilent(types: TypesInfo)
    ensures NodeDiagnostics(Call(Selector(Id(Ident("fmt", 0, None)), Ident("Sprintf", 4, None)), 11,
                                 [BasicLit(12, STRING, Q + "not an error: %v" + Q),
                                  BasicLit(32, STRING, Q + "something" + Q)], 43), types) == []
    ensures CallDiagnostics(ErrorfCall(Q + "no arguments" + Q, []), types) == []
    ensures CallDiagnostics(ErrorfCall(Q + "error with number: " + "%d" + Q, [BasicLit(40, INT, "42")]), types) == []
    ensures CallDiagnostics(Errorf([Other(11, 25, []), LocalVar("err", 40)]), types) == []
  {
    NumberVerbSilent(types);
  }

  /** edge_cases.go, line 16: "%d" is not a verb the analyzer scans, and the
      integer argument is not an error variable. */
  lemma NumberVerbSilent(types: TypesInfo)
    ensures CallDiagnostics(ErrorfCall(Q + "error with number: " + "%d" + Q, [BasicLit(40, INT, "42")]), types) == []
  {
    var text := "error with number: ";
    var call := ErrorfCall(Q + text + "%d" + Q, [BasicLit(40, INT, "42")]);
    assert ExtractFormatString(call.args[0]) == text + "%d" by {
      assert Q + text + "%d" + Q == Q + (text + "%d") + Q;
    }
    assert ErrorVariables(call.args[1..], types) == [] by {
      assert call.args[1..][..0] == [];
    }
    SpecifiersSkipPlain(text, "%d");
    assert Specifiers("%d") == [];
  }
}
