/** The compliance decision: the verb each error variable is entitled to,
    and which positions of a site disagree (errformat.go,
    getExpectedFormat and checkFormatCompliance). */
module Compliance {
  import opened Syntax
  import opened Classifier

  /** getExpectedFormat: "%w" for an exported package-level error, "%v" for
      every other one. */
  function GetExpectedFormat(errorVar: ErrorInfo): string
  {
    if errorVar.isExported && errorVar.isPackageLevel then "%w" else "%v"
  }

  /** The verb an identifier is entitled to, by the path the analysis takes
      through analyzeErrorVariable: %w exactly for a variable object declared
      by `var` (a value spec or a `var` general declaration) whose name
      starts with an upper-case ASCII letter; %v otherwise. */
  lemma ExpectedVerbOfIdent(ident: Ident)
    ensures GetExpectedFormat(AnalyzeErrorVariable(ident)) in {"%w", "%v"}
    ensures GetExpectedFormat(AnalyzeErrorVariable(ident)) == "%w" <==>
              && ident.obj.Some? && ident.obj.value.kind == Var
              && (ident.obj.value.decl == GenDecl(VAR) || ident.obj.value.decl == ValueSpec)
              && |ident.name| > 0 && 'A' <= ident.name[0] <= 'Z'
  {
  }

  /** Position i of a site whose verb is not the one its variable is
      entitled to. */
  predicate Mismatch(formats: seq<string>, vars: seq<ErrorInfo>, i: int)
  {
    0 <= i < |formats| && i < |vars| && formats[i] != GetExpectedFormat(vars[i])
  }

  /** The mismatching positions below n, in increasing order. */
  function MismatchIndices(formats: seq<string>, vars: seq<ErrorInfo>, n: nat): (r: seq<nat>)
    requires n <= |formats| && n <= |vars|
    ensures forall k :: 0 <= k < |r| ==> r[k] < n && Mismatch(formats, vars, r[k])
    ensures forall k, l :: 0 <= k < l < |r| ==> r[k] < r[l]
  {
    if n == 0 then []
    else MismatchIndices(formats, vars, n - 1) + (if Mismatch(formats, vars, n - 1) then [n - 1] else [])
  }

  /** No mismatching position below n is missing from MismatchIndices. */
  lemma {:induction false} MismatchIndicesComplete(formats: seq<string>, vars: seq<ErrorInfo>, n: nat, i: nat)
    requires n <= |formats| && n <= |vars|
    requires i < n && Mismatch(formats, vars, i)
    ensures i in MismatchIndices(formats, vars, n)
  {
    if i < n - 1 {
      MismatchIndicesComplete(formats, vars, n - 1, i);
    }
  }
}
