/** The diagnostic builder: the message and the suggested edit for one
    mismatch (errformat.go, reportFormatError, createSuggestedFix and
    replaceFormatSpecifier). */
module Report {
  import opened Syntax
  import opened Strings
  import opened Scanner
  import opened Classifier
  import opened Compliance

  datatype TextEdit = TextEdit(pos: int, end: int, newText: string)

  datatype SuggestedFix = SuggestedFix(message: string, textEdits: seq<TextEdit>)

  datatype Diagnostic = Diagnostic(
    pos: int, end: int, category: string, message: string, suggestedFixes: seq<SuggestedFix>)

  /** The two message templates of reportFormatError, chosen by the same
      exported-and-package-level test as the expected verb. */
  function FormatErrorMessage(errorVar: ErrorInfo, actual: string): string
  {
    if errorVar.isExported && errorVar.isPackageLevel then
      "exported package-level error '" + errorVar.ident.name + "' should use %w instead of "
      + actual + " for error wrapping"
    else
      "non-exported error '" + errorVar.ident.name + "' should use %v instead of "
      + actual + " for error formatting"
  }

  /** replaceFormatSpecifier: the literal's quoted source text with the
      first occurrence of wrong replaced by correct; "" for anything that is
      not a string literal. */
  function ReplaceFormatSpecifier(formatArg: Expr, wrong: string, correct: string): string
  {
    if formatArg.BasicLit? && formatArg.kind == STRING then
      ReplaceFirst(formatArg.value, wrong, correct)
    else
      ""
  }

  /** createSuggestedFix: one fix with one edit over the format argument's
      span, or no fix for a call without arguments. */
  function CreateSuggestedFix(call: Expr, wrong: string, correct: string): seq<SuggestedFix>
    requires call.Call?
  {
    if |call.args| == 0 then []
    else
      var formatArg := call.args[0];
      [SuggestedFix("Replace " + wrong + " with " + correct,
                    [TextEdit(formatArg.Pos(), formatArg.End(),
                              ReplaceFormatSpecifier(formatArg, wrong, correct))])]
  }

  /** The diagnostic reportFormatError hands to the pass. */
  function FormatErrorDiagnostic(errorVar: ErrorInfo, expected: string, actual: string, call: Expr): Diagnostic
    requires call.Call?
  {
    Diagnostic(call.Pos(), call.End(), "errformat", FormatErrorMessage(errorVar, actual),
               CreateSuggestedFix(call, actual, expected))
  }

  /** For a site whose format argument is a double-quoted literal, the
      diagnostic spans the whole call and carries exactly one fix, with one
      edit over the literal, whose text is the literal with the first
      occurrence of the wrong verb replaced by the right one. */
  lemma DiagnosticShape(errorVar: ErrorInfo, expected: string, actual: string, call: Expr)
    requires call.Call? && |call.args| >= 1 && IsQuotedString(call.args[0])
    ensures var d := FormatErrorDiagnostic(errorVar, expected, actual, call);
            && d.pos == call.fun.Pos() && d.end == call.rparen + 1
            && d.category == "errformat"
            && |d.suggestedFixes| == 1
            && d.suggestedFixes[0].message == "Replace " + actual + " with " + expected
            && |d.suggestedFixes[0].textEdits| == 1
            && d.suggestedFixes[0].textEdits[0]
               == TextEdit(call.args[0].litPos, call.args[0].litPos + Utf8Len(call.args[0].value),
                           ReplaceFirst(call.args[0].value, actual, expected))
  {
  }

  predicate IsVerb(v: string)
  {
    v == "%w" || v == "%v"
  }

  /** Replacing a verb by a verb changes at most one byte: the verb letter
      of the first occurrence. Every other byte, including every other verb,
      is left as it was; without an occurrence nothing changes. */
  lemma {:induction false} VerbFixChangesOneLetter(s: string, wrong: string, correct: string)
    requires IsVerb(wrong) && IsVerb(correct)
    ensures var r := ReplaceFirst(s, wrong, correct);
            && |r| == |s|
            && (Index(s, wrong) == -1 ==> r == s)
            && (Index(s, wrong) >= 0 ==>
                  && r[Index(s, wrong)] == '%' && r[Index(s, wrong) + 1] == correct[1]
                  && forall j :: 0 <= j < |s| && j != Index(s, wrong) + 1 ==> r[j] == s[j])
  {
    var i := Index(s, wrong);
    if i >= 0 {
      assert s[i..i + 2][0] == s[i] == wrong[0] == correct[0];
      SpliceTwo(s, i, correct);
    }
  }

  /** Putting a two-character text in place of s[i..i + 2] changes only
      positions i and i + 1. */
  lemma SpliceTwo(s: string, i: nat, t: string)
    requires i + 2 <= |s| && |t| == 2
    ensures var r := s[..i] + t + s[i + 2..];
            && |r| == |s| && r[i] == t[0] && r[i + 1] == t[1]
            && forall j :: 0 <= j < |s| && j != i && j != i + 1 ==> r[j] == s[j]
  {
    var r := s[..i] + t + s[i + 2..];
    forall j | 0 <= j < |s| && j != i && j != i + 1
      ensures r[j] == s[j]
    {
      if j > i + 1 {
        assert r[j] == s[i + 2..][j - i - 2];
      }
    }
  }

  /** Behind text without a '%', the first occurrence of a verb is the one
      right after the text, and that is the one the fix rewrites. */
  lemma FixAfterPlainText(text: string, wrong: string, correct: string, rest: string)
    requires IsVerb(wrong)
    requires forall i :: 0 <= i < |text| ==> text[i] != '%'
    ensures ReplaceFirst(text + wrong + rest, wrong, correct) == text + correct + rest
  {
    IndexAfterPlainText(text, wrong, rest);
    var s := text + wrong + rest;
    assert s[..|text|] == text && s[|text| + 2..] == rest;
  }

  lemma IndexAfterPlainText(text: string, wrong: string, rest: string)
    requires IsVerb(wrong)
    requires forall i :: 0 <= i < |text| ==> text[i] != '%'
    ensures Index(text + wrong + rest, wrong) == |text|
  {
    assert text + wrong + rest == text + (wrong + rest);
    IndexSkipPlain(text, wrong + rest, wrong);
    assert OccursAt(wrong + rest, wrong, 0);
  }

  /** The fix works on the quoted literal while the scanner works on its
      content: the quotes never take part in a verb, so the edit is the
      content's own edit, requoted. */
  lemma FixOnQuotedLiteral(content: string, wrong: string, correct: string)
    requires IsVerb(wrong)
    ensures ReplaceFirst("\"" + content + "\"", wrong, correct)
            == "\"" + ReplaceFirst(content, wrong, correct) + "\""
  {
    IndexInQuotes(content, wrong);
    var i := Index(content, wrong);
    if i >= 0 {
      FixInQuotesAt(content, wrong, correct, i);
    }
  }

  lemma FixInQuotesAt(content: string, wrong: string, correct: string, i: nat)
    requires IsVerb(wrong) && Index(content, wrong) == i
    requires Index("\"" + content + "\"", wrong) == i + 1
    ensures ReplaceFirst("\"" + content + "\"", wrong, correct)
            == "\"" + ReplaceFirst(content, wrong, correct) + "\""
  {
    var q := "\"" + content + "\"";
    assert OccursAt(content, wrong, i) && |wrong| == 2;
    SpliceInQuotes(content, i, correct);
  }

  lemma SpliceInQuotes(content: string, i: nat, correct: string)
    requires i + 2 <= |content|
    ensures var q := "\"" + content + "\"";
            q[..i + 1] + correct + q[i + 3..]
            == "\"" + (content[..i] + correct + content[i + 2..]) + "\""
  {
    var q := "\"" + content + "\"";
    assert q[..i + 1] == "\"" + content[..i];
    assert q[i + 3..] == content[i + 2..] + "\"";
  }

  /** The first occurrence of a verb in a quoted literal is one position
      after its first occurrence in the content. */
  lemma IndexInQuotes(content: string, wrong: string)
    requires IsVerb(wrong)
    ensures Index("\"" + content + "\"", wrong)
            == if Index(content, wrong) == -1 then -1 else Index(content, wrong) + 1
  {
    var q := "\"" + content + "\"";
    forall j | 0 <= j
      ensures OccursAt(q, wrong, j) <==> j >= 1 && OccursAt(content, wrong, j - 1)
    {
      OccursInQuotes(content, wrong, j);
    }
    IndexAbsent(content, wrong);
    IndexAbsent(q, wrong);
    var i := Index(content, wrong);
    if i >= 0 {
      assert OccursAt(q, wrong, i + 1);
      assert forall j :: 0 <= j < i + 1 ==> !OccursAt(q, wrong, j);
    }
  }

  lemma OccursInQuotes(content: string, wrong: string, j: nat)
    requires IsVerb(wrong)
    ensures OccursAt("\"" + content + "\"", wrong, j) <==> j >= 1 && OccursAt(content, wrong, j - 1)
  {
    var q := "\"" + content + "\"";
    if j == 0 {
      assert q[0] != wrong[0];
    } else if j + 2 < |q| {
      assert q[j..j + 2] == content[j - 1..j + 1];
    } else if j + 2 == |q| {
      assert q[j + 1] != wrong[1];
    }
  }

  /** An occurrence of a verb is a position the scanner recognises. */
  lemma VerbOccurrenceIsVerbAt(s: string, v: string, i: int)
    requires IsVerb(v)
    ensures OccursAt(s, v, i) ==> IsVerbAt(s, i)
  {
    if OccursAt(s, v, i) {
      assert s[i..i + 2][0] == s[i] && s[i..i + 2][1] == s[i + 1];
    }
  }

  /** The k-th scanned verb is the verb written at the k-th verb position. */
  lemma SpecifierAt(s: string, k: nat)
    requires k < |VerbPositions(s)|
    ensures k < |Specifiers(s)| && Specifiers(s)[k] == "%" + [s[VerbPositions(s)[k] + 1]]
  {
    SpecifiersAreVerbOccurrences(s);
  }

  /** A recognised verb other than v is not an occurrence of v. */
  lemma OtherVerbNoOccurrence(s: string, v: string, i: nat)
    requires IsVerb(v) && IsVerbAt(s, i) && "%" + [s[i + 1]] != v
    ensures !OccursAt(s, v, i)
  {
    if i + 2 <= |s| {
      assert s[i..i + 2] == "%" + [s[i + 1]];
    }
  }

  /** The fix rewrites the first verb of the content that equals the wrong
      verb, wherever the flagged variable sits: if the j-th scanned verb is
      the first one equal to wrong, the edit changes the verb at the j-th
      verb position, which for a later variable is an earlier one's verb. */
  lemma {:induction false} FixTargetsFirstScannedVerb(content: string, wrong: string, j: nat)
    requires IsVerb(wrong)
    requires j < |Specifiers(content)| && j < |VerbPositions(content)|
    requires Specifiers(content)[j] == wrong
    requires forall k :: 0 <= k < j ==> Specifiers(content)[k] != wrong
    ensures Index(content, wrong) == VerbPositions(content)[j]
  {
    var ps := VerbPositions(content);
    var p := ps[j];
    SpecifierAt(content, j);
    assert content[p..p + 2] == wrong;
    assert OccursAt(content, wrong, p);
    IndexAbsent(content, wrong);
    forall i | 0 <= i < p
      ensures !OccursAt(content, wrong, i)
    {
      VerbOccurrenceIsVerbAt(content, wrong, i);
      if IsVerbAt(content, i) {
        VerbPositionsComplete(content, 0, i);
        var k :| 0 <= k < |ps| && ps[k] == i;
        assert k < j;
        SpecifierAt(content, k);
        OtherVerbNoOccurrence(content, wrong, i);
      }
    }
  }

}
