/** The slice of Go's syntax tree and symbol information that the errformat
    analysis looks at. Positions are opaque integers (byte offsets chosen by
    the parser); Pos and End follow go/ast's rules for each node kind, with
    lengths counted in UTF-8 bytes as Go's len counts them. */
module Syntax {

  datatype Option<T> = None | Some(value: T)

  /** The number of bytes c takes in UTF-8. */
  function Utf8Width(c: char): nat
  {
    if c as int < 0x80 then 1
    else if c as int < 0x800 then 2
    else if c as int < 0x1_0000 then 3
    else 4
  }

  /** Go's len of a string: the length of its UTF-8 encoding in bytes. Every
      character takes one to four bytes. */
  function Utf8Len(s: string): (n: nat)
    ensures |s| <= n <= 4 * |s|
  {
    if s == [] then 0 else Utf8Width(s[0]) + Utf8Len(s[1..])
  }

  /** The byte length of a concatenation is the sum of the byte lengths. */
  lemma {:induction false} Utf8LenAppend(a: string, b: string)
    ensures Utf8Len(a + b) == Utf8Len(a) + Utf8Len(b)
  {
    if a == [] {
      assert a + b == b;
    } else {
      assert (a + b)[0] == a[0] && (a + b)[1..] == a[1..] + b;
      Utf8LenAppend(a[1..], b);
    }
  }

  /** Bytes and characters agree exactly for ASCII text. */
  lemma {:induction false} Utf8LenAscii(s: string)
    ensures (forall i :: 0 <= i < |s| ==> s[i] as int < 0x80) <==> Utf8Len(s) == |s|
  {
    if s != [] {
      Utf8LenAscii(s[1..]);
      if forall i :: 0 <= i < |s| ==> s[i] as int < 0x80 {
        assert forall i :: 0 <= i < |s| - 1 ==> s[1..][i] == s[i + 1];
      } else if s[0] as int < 0x80 {
        var i :| 0 <= i < |s| && s[i] as int >= 0x80;
        assert s[1..][i - 1] == s[i];
      }
    }
  }

  /** Text made of two-byte characters (U+0080 to U+07FF, such as Cyrillic)
      is twice as long in bytes as in characters. */
  lemma {:induction false} Utf8LenTwoByte(s: string)
    requires forall i :: 0 <= i < |s| ==> 0x80 <= s[i] as int < 0x800
    ensures Utf8Len(s) == 2 * |s|
  {
    if s != [] {
      assert forall i :: 0 <= i < |s| - 1 ==> s[1..][i] == s[i + 1];
      Utf8LenTwoByte(s[1..]);
    }
  }

  /** Token kinds that the analysis compares against: the kind of a basic
      literal, and the keyword of a general declaration. */
  datatype Token = STRING | INT | FLOAT | IMAG | CHAR | VAR | CONST | TYPE | IMPORT

  /** Kind of a resolved object (go/ast ObjKind). */
  datatype ObjKind = Bad | Pkg | Con | Typ | Var | Fun | Lbl

  /** The syntactic construct an object was declared by (the dynamic type of
      ast.Object.Decl). Parameters, results and struct fields are Field. */
  datatype Decl = GenDecl(tok: Token) | ValueSpec | AssignStmt | Field | FuncDecl | OtherDecl

  datatype Object = Object(kind: ObjKind, decl: Decl)

  /** A type as the type checker prints it: Type.String() and
      Type.Underlying().String(). */
  datatype GoType = GoType(str: string, underlying: string)

  /** An identifier occurrence, with the object the parser resolved it to
      (ast.Ident.Obj; None is a nil Obj). */
  datatype Ident = Ident(name: string, pos: int, obj: Option<Object>)
  {
    function End(): int { pos + Utf8Len(name) }
  }

  datatype Expr =
    | Id(id: Ident)
    | BasicLit(litPos: int, kind: Token, value: string)
    | Selector(x: Expr, sel: Ident)
    | Call(fun: Expr, lparen: int, args: seq<Expr>, rparen: int)
      /** Any other node (statements, blocks, function literals, files):
          only its extent and its children matter to the analysis. */
    | Other(from: int, to: int, children: seq<Expr>)
  {
    function Pos(): int
    {
      match this
      case Id(id) => id.pos
      case BasicLit(p, _, _) => p
      case Selector(x, _) => x.Pos()
      case Call(fun, _, _, _) => fun.Pos()
      case Other(from, _, _) => from
    }

    function End(): int
    {
      match this
      case Id(id) => id.End()
      case BasicLit(p, _, v) => p + Utf8Len(v)
      case Selector(_, sel) => sel.End()
      case Call(_, _, _, rparen) => rparen + 1
      case Other(_, to, _) => to
    }
  }

  /** The nodes ast.Inspect hands to its callback, in the order it does so,
      when the callback always answers "descend": the node itself, then the
      nodes of each child in source order. */
  function Preorder(e: Expr): (r: seq<Expr>)
    decreases e, 1
    ensures |r| >= 1 && r[0] == e
  {
    [e] + match e
          case Id(_) => []
          case BasicLit(_, _, _) => []
          case Selector(x, sel) => Preorder(x) + [Id(sel)]
          case Call(fun, _, args, _) => Preorder(fun) + PreorderAll(args)
          case Other(_, _, children) => PreorderAll(children)
  }

  function PreorderAll(es: seq<Expr>): (r: seq<Expr>)
    decreases es, 0
  {
    if es == [] then [] else Preorder(es[0]) + PreorderAll(es[1..])
  }

  /** Every node of every argument of a call is visited by the walk over the
      call: nested calls are found however deep they sit. */
  lemma {:induction false} ArgumentNodesVisited(call: Expr, i: nat, n: Expr)
    requires call.Call? && i < |call.args|
    requires n in Preorder(call.args[i])
    ensures n in Preorder(call)
  {
    InPreorderAll(call.args, i, n);
  }

  lemma {:induction false} InPreorderAll(es: seq<Expr>, i: nat, n: Expr)
    requires i < |es| && n in Preorder(es[i])
    ensures n in PreorderAll(es)
  {
    if i > 0 {
      InPreorderAll(es[1..], i - 1, n);
    }
  }
}
