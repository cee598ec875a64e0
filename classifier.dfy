/** The variable classifier: which arguments of an fmt.Errorf call are error
    variables, and for each its package-level and exported flags
    (errformat.go, findErrorVariables, analyzeErrorVariable, isErrorType,
    isPackageLevel, isExported). */
module Classifier {
  import opened Syntax

  /** The type checker's answers: pass.TypesInfo.Types, keyed by the
      position of the identifier occurrence. None stands for a nil TypesInfo
      or a nil Types map; a missing key for an expression without a
      recorded type. */
  type TypesInfo = Option<map<int, GoType>>

  /** ErrorInfo: one error variable among the arguments. */
  datatype ErrorInfo = ErrorInfo(ident: Ident, isExported: bool, isPackageLevel: bool, position: int)

  /** isErrorType: the recorded type prints as "error", or as "interface{}"
      with an underlying type printed "interface{error() string}". */
  predicate IsErrorType(ident: Ident, types: TypesInfo)
  {
    && types.Some?
    && ident.pos in types.value
    && var t := types.value[ident.pos];
       || t.str == "error"
       || (t.str == "interface{}" && t.underlying == "interface{error() string}")
  }

  /** isPackageLevel: a variable object declared by a `var` general
      declaration or by a value spec. Assignments, parameters and every other
      declaration kind are not, and neither is a missing object. */
  predicate IsPackageLevel(obj: Option<Object>)
  {
    match obj
    case None => false
    case Some(o) =>
      && o.kind == Var
      && match o.decl
         case GenDecl(tok) => tok == VAR
         case ValueSpec => true
         case AssignStmt => false
         case _ => false
  }

  /** isExported: the name starts with an ASCII upper-case letter. */
  predicate IsExported(name: string)
  {
    |name| > 0 && 'A' <= name[0] <= 'Z'
  }

  /** analyzeErrorVariable: an identifier without a resolved object keeps
      both flags false. */
  function AnalyzeErrorVariable(ident: Ident): (info: ErrorInfo)
    ensures info.ident == ident && info.position == ident.pos
    ensures info.isPackageLevel <==> IsPackageLevel(ident.obj)
    ensures info.isExported <==> ident.obj.Some? && IsExported(ident.name)
  {
    var info := ErrorInfo(ident, false, false, ident.pos);
    if ident.obj.None? then info
    else info.(isPackageLevel := IsPackageLevel(ident.obj), isExported := IsExported(ident.name))
  }

  /** An argument findErrorVariables keeps: a bare identifier of error type. */
  predicate IsErrorArg(arg: Expr, types: TypesInfo)
  {
    arg.Id? && IsErrorType(arg.id, types)
  }

  /** What findErrorVariables returns for the arguments, built the way its
      loop builds it: one entry appended per error argument. */
  function ErrorVariables(args: seq<Expr>, types: TypesInfo): seq<ErrorInfo>
  {
    if args == [] then []
    else
      var last := args[|args| - 1];
      ErrorVariables(args[..|args| - 1], types)
      + (if IsErrorArg(last, types) then [AnalyzeErrorVariable(last.id)] else [])
  }

  /** The positions of the error arguments, in increasing order. */
  function ErrorArgIndices(args: seq<Expr>, types: TypesInfo): (r: seq<nat>)
    ensures forall k :: 0 <= k < |r| ==> r[k] < |args| && IsErrorArg(args[r[k]], types)
    ensures forall k, l :: 0 <= k < l < |r| ==> r[k] < r[l]
  {
    if args == [] then []
    else
      var n := |args| - 1;
      ErrorArgIndices(args[..n], types) + (if IsErrorArg(args[n], types) then [n] else [])
  }

  /** No error argument is missing from ErrorArgIndices. */
  lemma {:induction false} ErrorArgIndicesComplete(args: seq<Expr>, types: TypesInfo, i: nat)
    requires i < |args| && IsErrorArg(args[i], types)
    ensures i in ErrorArgIndices(args, types)
  {
    var n := |args| - 1;
    if i < n {
      assert args[..n][i] == args[i];
      ErrorArgIndicesComplete(args[..n], types, i);
    }
  }

  /** The error variables are exactly the error arguments, analysed, in
      argument order; every other argument is dropped. */
  lemma {:induction false} ErrorVariablesAreErrorArgs(args: seq<Expr>, types: TypesInfo)
    ensures |ErrorVariables(args, types)| == |ErrorArgIndices(args, types)|
    ensures forall k :: 0 <= k < |ErrorArgIndices(args, types)| ==>
              ErrorVariables(args, types)[k]
              == AnalyzeErrorVariable(args[ErrorArgIndices(args, types)[k]].id)
  {
    if args != [] {
      var n := |args| - 1;
      ErrorVariablesAreErrorArgs(args[..n], types);
      var ix, ix' := ErrorArgIndices(args[..n], types), ErrorArgIndices(args, types);
      var ev, ev' := ErrorVariables(args[..n], types), ErrorVariables(args, types);
      forall k | 0 <= k < |ix'|
        ensures ev'[k] == AnalyzeErrorVariable(args[ix'[k]].id)
      {
        if k < |ix| {
          assert ev'[k] == ev[k] && ix'[k] == ix[k];
          assert args[..n][ix[k]] == args[ix[k]];
        }
      }
    }
  }

  /** findErrorVariables: a loop over the arguments that appends an
      ErrorInfo for each error-typed bare identifier. */
  method FindErrorVariables(args: seq<Expr>, types: TypesInfo) returns (errorVars: seq<ErrorInfo>)
    ensures errorVars == ErrorVariables(args, types)
  {
    errorVars := [];
    for i := 0 to |args|
      invariant errorVars == ErrorVariables(args[..i], types)
    {
      var arg := args[i];
      if arg.Id? {
        if IsErrorType(arg.id, types) {
          var errorInfo := AnalyzeErrorVariable(arg.id);
          errorVars := errorVars + [errorInfo];
        }
      }
      assert args[..i + 1][..i] == args[..i];
    }
    assert args[..|args|] == args;
  }
}
