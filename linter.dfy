/** The analyzer's driver: the pass it reports into, site discovery over
    the syntax tree, and the per-call pipeline (errformat.go, run,
    inspectNode, isFmtErrorf, analyzeErrorfCall, checkFormatCompliance,
    reportFormatError). The ErrFormatLinter receiver carries no state the
    analysis reads, so these are plain methods over the pass. */
module Linter {
  import opened Syntax
  import opened Scanner
  import opened Classifier
  import opened Compliance
  import opened Report

  /** The analysis pass as the core sees it: the files to walk, the type
      checker's answers, and the diagnostics reported so far. */
  class Pass {
    const files: seq<Expr>
    const types: TypesInfo
    var diagnostics: seq<Diagnostic>

    constructor (files: seq<Expr>, types: TypesInfo)
      ensures this.files == files && this.types == types && diagnostics == []
    {
      this.files := files;
      this.types := types;
      diagnostics := [];
    }

    /** pass.Report: the diagnostic sink only accumulates. */
    method Report(d: Diagnostic)
      modifies this
      ensures diagnostics == old(diagnostics) + [d]
    {
      diagnostics := diagnostics + [d];
    }
  }

  /** isFmtErrorf: a purely lexical test on the callee, `fmt.Errorf`. */
  predicate IsFmtErrorf(call: Expr)
    requires call.Call?
  {
    && call.fun.Selector?
    && call.fun.x.Id?
    && call.fun.x.id.name == "fmt"
    && call.fun.sel.name == "Errorf"
  }

  /** The diagnostic reportFormatError builds at this call for an error
      variable, its expected verb and the verb found. */
  function Reporter(call: Expr): (ErrorInfo, string, string) -> Diagnostic
    requires call.Call?
  {
    (errorVar, expected, actual) => FormatErrorDiagnostic(errorVar, expected, actual, call)
  }

  /** What checkFormatCompliance's loop reports for the first n positions,
      each mismatch reported by report. */
  function ReportsBelow(formats: seq<string>, errorVars: seq<ErrorInfo>,
                        report: (ErrorInfo, string, string) -> Diagnostic, n: nat): seq<Diagnostic>
    requires |formats| == |errorVars| && n <= |errorVars|
  {
    if n == 0 then []
    else
      var i := n - 1;
      var expected := GetExpectedFormat(errorVars[i]);
      ReportsBelow(formats, errorVars, report, i)
      + (if expected != formats[i] then [report(errorVars[i], expected, formats[i])] else [])
  }

  lemma ComplianceUnfold(formatString: string, errorVars: seq<ErrorInfo>, call: Expr, formats: seq<string>)
    requires call.Call? && formats == Specifiers(formatString)
    ensures |formats| != |errorVars| ==> ComplianceDiagnostics(formatString, errorVars, call) == []
    ensures |formats| == |errorVars| ==>
              ComplianceDiagnostics(formatString, errorVars, call)
              == ReportsBelow(formats, errorVars, Reporter(call), |errorVars|)
  {
  }

  lemma ReportsBelowStep(formats: seq<string>, errorVars: seq<ErrorInfo>,
                         report: (ErrorInfo, string, string) -> Diagnostic, i: nat)
    requires |formats| == |errorVars| && i < |errorVars|
    ensures var expected := GetExpectedFormat(errorVars[i]);
            ReportsBelow(formats, errorVars, report, i + 1)
            == if expected != formats[i]
               then ReportsBelow(formats, errorVars, report, i) + [report(errorVars[i], expected, formats[i])]
               else ReportsBelow(formats, errorVars, report, i)
  {
    assert ReportsBelow(formats, errorVars, report, i) + [] == ReportsBelow(formats, errorVars, report, i);
  }

  /** What checkFormatCompliance reports for a site: nothing when the verb
      count and the error-variable count differ. */
  function ComplianceDiagnostics(formatString: string, errorVars: seq<ErrorInfo>, call: Expr): seq<Diagnostic>
    requires call.Call?
  {
    var formats := Specifiers(formatString);
    if |formats| != |errorVars| then [] else ReportsBelow(formats, errorVars, Reporter(call), |errorVars|)
  }

  /** What analyzeErrorfCall reports for a call: nothing for fewer than two
      arguments or an empty or unreadable format string. */
  function CallDiagnostics(call: Expr, types: TypesInfo): seq<Diagnostic>
    requires call.Call?
  {
    if |call.args| < 2 then []
    else
      var formatString := ExtractFormatString(call.args[0]);
      if formatString == "" then []
      else ComplianceDiagnostics(formatString, ErrorVariables(call.args[1..], types), call)
  }

  /** What inspectNode reports for one node. */
  function NodeDiagnostics(n: Expr, types: TypesInfo): seq<Diagnostic>
  {
    if n.Call? && IsFmtErrorf(n) then CallDiagnostics(n, types) else []
  }

  /** The reports of a walk that hands each node, in order, to visit. */
  function Walk(ns: seq<Expr>, visit: Expr -> seq<Diagnostic>): seq<Diagnostic>
  {
    if ns == [] then []
    else Walk(ns[..|ns| - 1], visit) + visit(ns[|ns| - 1])
  }

  /** The visit inspectNode performs. */
  function Inspect(types: TypesInfo): Expr -> seq<Diagnostic>
  {
    n => NodeDiagnostics(n, types)
  }

  /** What run reports over the files, each walked in full. */
  function FilesDiagnostics(files: seq<Expr>, types: TypesInfo): seq<Diagnostic>
  {
    if files == [] then []
    else
      FilesDiagnostics(files[..|files| - 1], types)
      + Walk(Preorder(files[|files| - 1]), Inspect(types))
  }

  /** Only an fmt.Errorf call with at least two arguments and a
      double-quoted literal as its format is ever reported, and every report
      on it spans the call and carries the analyzer's category. */
  lemma OnlyErrorfSitesReported(n: Expr, types: TypesInfo)
    ensures NodeDiagnostics(n, types) != [] ==>
              && n.Call? && n.fun.Selector? && n.fun.x.Id?
              && n.fun.x.id.name == "fmt" && n.fun.sel.name == "Errorf"
              && |n.args| >= 2 && IsQuotedString(n.args[0])
    ensures forall d :: d in NodeDiagnostics(n, types) ==>
              d.pos == n.Pos() && d.end == n.End() && d.category == "errformat"
  {
    if n.Call? && IsFmtErrorf(n) && |n.args| >= 2 && ExtractFormatString(n.args[0]) != "" {
      var formatString := ExtractFormatString(n.args[0]);
      var errorVars := ErrorVariables(n.args[1..], types);
      ComplianceExact(formatString, errorVars, n);
      var ds := NodeDiagnostics(n, types);
      forall d | d in ds
        ensures d.pos == n.Pos() && d.end == n.End() && d.category == "errformat"
      {
        var k :| 0 <= k < |ds| && ds[k] == d;
      }
    }
  }

  /** A site yields nothing when its verb count and error-variable count
      differ; otherwise exactly one diagnostic per mismatching position, in
      increasing position order, and none for the positions that match. */
  lemma {:induction false} ComplianceExact(formatString: string, errorVars: seq<ErrorInfo>, call: Expr)
    requires call.Call?
    ensures |Specifiers(formatString)| != |errorVars| ==> ComplianceDiagnostics(formatString, errorVars, call) == []
    ensures |Specifiers(formatString)| == |errorVars| ==>
              var formats := Specifiers(formatString);
              var ix := MismatchIndices(formats, errorVars, |errorVars|);
              var ds := ComplianceDiagnostics(formatString, errorVars, call);
              && |ds| == |ix|
              && forall k :: 0 <= k < |ix| ==>
                   ds[k] == FormatErrorDiagnostic(errorVars[ix[k]], GetExpectedFormat(errorVars[ix[k]]),
                                                  formats[ix[k]], call)
  {
    var formats := Specifiers(formatString);
    if |formats| == |errorVars| {
      ReportsFollowMismatches(formats, errorVars, Reporter(call), |errorVars|);
    }
  }

  /** A site whose format literal is plain text and one verb, with one error
      variable after it, is reported exactly when that verb is not the one
      the variable is entitled to. */
  lemma OneVariableSite(call: Expr, types: TypesInfo, text: string, letter: char)
    requires call.Call? && |call.args| == 2
    requires IsQuotedString(call.args[0]) && call.args[0].value == "\"" + text + ['%', letter] + "\""
    requires forall i :: 0 <= i < |text| ==> text[i] != '%'
    requires letter == 'w' || letter == 'v'
    requires IsErrorArg(call.args[1], types)
    ensures var ev := AnalyzeErrorVariable(call.args[1].id);
            var expected, actual := GetExpectedFormat(ev), "%" + [letter];
            CallDiagnostics(call, types)
            == if expected == actual then [] else [FormatErrorDiagnostic(ev, expected, actual, call)]
  {
    var content := text + ['%', letter];
    assert call.args[0].value == "\"" + content + "\"";
    assert ExtractFormatString(call.args[0]) == content;
    OneVerbAfterText(text, letter);
    var ev := AnalyzeErrorVariable(call.args[1].id);
    assert ErrorVariables(call.args[1..], types) == [ev] by {
      assert call.args[1..][..0] == [];
    }
    assert ReportsBelow(["%" + [letter]], [ev], Reporter(call), 0) == [];
  }

  lemma {:induction false} ReportsFollowMismatches(formats: seq<string>, errorVars: seq<ErrorInfo>,
                                                    report: (ErrorInfo, string, string) -> Diagnostic, n: nat)
    requires |formats| == |errorVars| && n <= |errorVars|
    ensures var ix := MismatchIndices(formats, errorVars, n);
            var ds := ReportsBelow(formats, errorVars, report, n);
            && |ds| == |ix|
            && forall k :: 0 <= k < |ix| ==>
                 ds[k] == report(errorVars[ix[k]], GetExpectedFormat(errorVars[ix[k]]), formats[ix[k]])
  {
    if n > 0 {
      ReportsFollowMismatches(formats, errorVars, report, n - 1);
      var ix, ix' := MismatchIndices(formats, errorVars, n - 1), MismatchIndices(formats, errorVars, n);
      var ds, ds' := ReportsBelow(formats, errorVars, report, n - 1), ReportsBelow(formats, errorVars, report, n);
      forall k | 0 <= k < |ix'|
        ensures ds'[k] == report(errorVars[ix'[k]], GetExpectedFormat(errorVars[ix'[k]]), formats[ix'[k]])
      {
        if k < |ix| {
          assert ds'[k] == ds[k] && ix'[k] == ix[k];
        }
      }
    }
  }

  /** The walk's reports over a concatenation of node lists are the reports
      over each list, in order. */
  lemma {:induction false} WalkAppend(a: seq<Expr>, b: seq<Expr>, visit: Expr -> seq<Diagnostic>)
    ensures Walk(a + b, visit) == Walk(a, visit) + Walk(b, visit)
    decreases |b|
  {
    if b == [] {
      assert a + b == a;
    } else {
      var n := |b| - 1;
      assert (a + b)[..|a + b| - 1] == a + b[..n];
      WalkAppend(a, b[..n], visit);
    }
  }

  lemma AppendAssoc<T>(a: seq<T>, b: seq<T>, c: seq<T>)
    ensures (a + b) + c == a + (b + c)
  {
  }

  lemma InspectStep(ns: seq<Expr>, i: nat, types: TypesInfo)
    requires i < |ns|
    ensures Walk(ns[..i + 1], Inspect(types)) == Walk(ns[..i], Inspect(types)) + NodeDiagnostics(ns[i], types)
  {
    assert ns[..i + 1][..i] == ns[..i];
  }

  lemma FilesStep(files: seq<Expr>, f: nat, types: TypesInfo)
    requires f < |files|
    ensures FilesDiagnostics(files[..f + 1], types)
            == FilesDiagnostics(files[..f], types) + Walk(Preorder(files[f]), Inspect(types))
  {
    assert files[..f + 1][..f] == files[..f];
  }

  lemma WalkSingle(n: Expr, visit: Expr -> seq<Diagnostic>)
    ensures Walk([n], visit) == visit(n)
  {
    assert [n][..0] == [];
  }

  /** Every node of a walk contributes all of its reports, as one
      contiguous block of the walk's reports. */
  lemma NodeReportsInWalk(ns: seq<Expr>, i: nat, visit: Expr -> seq<Diagnostic>)
    requires i < |ns|
    ensures exists pre, post :: Walk(ns, visit) == pre + visit(ns[i]) + post
  {
    var pre, here, post := Walk(ns[..i], visit), visit(ns[i]), Walk(ns[i + 1..], visit);
    SplitAround(ns, i);
    WalkSplit(ns[..i], ns[i], ns[i + 1..], visit);
    AppendAssoc(pre, here, post);
    assert Walk(ns, visit) == pre + here + post;
  }

  lemma SplitAround<T>(s: seq<T>, i: nat)
    requires i < |s|
    ensures s == s[..i] + ([s[i]] + s[i + 1..])
  {
    assert s == s[..i] + s[i..];
    assert s[i..] == [s[i]] + s[i + 1..];
  }

  lemma WalkSplit(before: seq<Expr>, n: Expr, after: seq<Expr>, visit: Expr -> seq<Diagnostic>)
    ensures Walk(before + ([n] + after), visit) == Walk(before, visit) + (visit(n) + Walk(after, visit))
  {
    WalkAppend(before, [n] + after, visit);
    WalkCons(n, after, visit);
  }

  lemma WalkCons(n: Expr, rest: seq<Expr>, visit: Expr -> seq<Diagnostic>)
    ensures Walk([n] + rest, visit) == visit(n) + Walk(rest, visit)
  {
    WalkAppend([n], rest, visit);
    WalkSingle(n, visit);
  }

  /** An fmt.Errorf call nested anywhere inside an argument of another call
      is analysed as part of the walk over the outer call: all of its
      reports appear in the outer walk's reports. */
  lemma NestedErrorfReported(call: Expr, i: nat, inner: Expr, types: TypesInfo)
    requires call.Call? && i < |call.args|
    requires inner in Preorder(call.args[i]) && inner.Call? && IsFmtErrorf(inner)
    ensures exists pre, post :: Walk(Preorder(call), Inspect(types)) == pre + CallDiagnostics(inner, types) + post
  {
    ArgumentNodesVisited(call, i, inner);
    var ns := Preorder(call);
    var j :| 0 <= j < |ns| && ns[j] == inner;
    NodeReportsInWalk(ns, j, Inspect(types));
    assert Inspect(types)(inner) == CallDiagnostics(inner, types);
  }

  /** reportFormatError: chooses the message template and hands one
      diagnostic, with its suggested fix, to the pass. */
  method ReportFormatError(errorVar: ErrorInfo, expected: string, actual: string, call: Expr, pass: Pass)
    requires call.Call?
    modifies pass
    ensures pass.diagnostics == old(pass.diagnostics) + [Reporter(call)(errorVar, expected, actual)]
  {
    var message := FormatErrorMessage(errorVar, actual);
    pass.Report(Diagnostic(call.Pos(), call.End(), "errformat", message, CreateSuggestedFix(call, actual, expected)));
  }

  /** checkFormatCompliance: scans the verbs, skips the site when the counts
      differ, and otherwise reports each position whose verb is not the
      expected one. */
  method CheckFormatCompliance(formatString: string, errorVars: seq<ErrorInfo>, call: Expr, pass: Pass)
    requires call.Call?
    modifies pass
    ensures pass.diagnostics == old(pass.diagnostics) + ComplianceDiagnostics(formatString, errorVars, call)
  {
    var formats := ParseFormatSpecifiers(formatString);
    ComplianceUnfold(formatString, errorVars, call, formats);
    if |formats| != |errorVars| {
      return;
    }
    for i := 0 to |errorVars|
      invariant pass.diagnostics == old(pass.diagnostics) + ReportsBelow(formats, errorVars, Reporter(call), i)
    {
      var expectedFormat := GetExpectedFormat(errorVars[i]);
      var actualFormat := formats[i];
      ReportsBelowStep(formats, errorVars, Reporter(call), i);
      if expectedFormat != actualFormat {
        ReportFormatError(errorVars[i], expectedFormat, actualFormat, call, pass);
        AppendAssoc(old(pass.diagnostics), ReportsBelow(formats, errorVars, Reporter(call), i),
                    [Reporter(call)(errorVars[i], expectedFormat, actualFormat)]);
      }
    }
  }

  /** analyzeErrorfCall: the per-site pipeline. */
  method AnalyzeErrorfCall(call: Expr, pass: Pass)
    requires call.Call?
    modifies pass
    ensures pass.diagnostics == old(pass.diagnostics) + CallDiagnostics(call, pass.types)
  {
    if |call.args| < 2 {
      return;
    }
    var formatString := ExtractFormatString(call.args[0]);
    if formatString == "" {
      return;
    }
    var errorVars := FindErrorVariables(call.args[1..], pass.types);
    CheckFormatCompliance(formatString, errorVars, call, pass);
  }

  /** inspectNode: analyses fmt.Errorf calls and always asks the walk to
      descend, so calls nested inside any node are reached too. */
  method InspectNode(n: Expr, pass: Pass) returns (descend: bool)
    modifies pass
    ensures descend
    ensures pass.diagnostics == old(pass.diagnostics) + NodeDiagnostics(n, pass.types)
  {
    if !n.Call? {
      return true;
    }
    if !IsFmtErrorf(n) {
      return true;
    }
    AnalyzeErrorfCall(n, pass);
    return true;
  }

  /** ast.Inspect over one file with inspectNode as the callback: since the
      callback always answers "descend", it is handed every node of the
      file in Preorder. */
  method InspectAll(nodes: seq<Expr>, pass: Pass)
    modifies pass
    ensures pass.diagnostics == old(pass.diagnostics) + Walk(nodes, Inspect(pass.types))
  {
    var types := pass.types;
    for i := 0 to |nodes|
      invariant pass.diagnostics == old(pass.diagnostics) + Walk(nodes[..i], Inspect(types))
    {
      // A "false" answer would make ast.Inspect skip the node's children;
      // inspectNode never gives one, so the flat Preorder walk loses nothing.
      var descend := InspectNode(nodes[i], pass);
      assert descend;
      InspectStep(nodes, i, types);
      AppendAssoc(old(pass.diagnostics), Walk(nodes[..i], Inspect(types)), NodeDiagnostics(nodes[i], types));
    }
    assert nodes[..|nodes|] == nodes;
  }

  /** run: inspects every node of every file. */
  method Run(pass: Pass)
    modifies pass
    ensures pass.diagnostics == old(pass.diagnostics) + FilesDiagnostics(pass.files, pass.types)
  {
    var files, types := pass.files, pass.types;
    for f := 0 to |files|
      invariant pass.diagnostics == old(pass.diagnostics) + FilesDiagnostics(files[..f], types)
    {
      InspectAll(Preorder(files[f]), pass);
      FilesStep(files, f, types);
      AppendAssoc(old(pass.diagnostics), FilesDiagnostics(files[..f], types), Walk(Preorder(files[f]), Inspect(types)));
    }
    assert files[..|files|] == files;
  }
}
