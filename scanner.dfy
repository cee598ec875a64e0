/** The template scanner: the format string of an fmt.Errorf call and the
    %w / %v verbs in it (errformat.go, extractFormatString and
    parseFormatSpecifiers). */
module Scanner {
  import opened Syntax

  /** A double-quoted string literal: the only kind of format argument the
      analysis reads. Raw (back-quoted) literals and every other expression
      are not. */
  predicate IsQuotedString(arg: Expr)
  {
    && arg.BasicLit? && arg.kind == STRING
    && |arg.value| >= 2 && arg.value[0] == '"' && arg.value[|arg.value| - 1] == '"'
  }

  /** The text between the quotes of a double-quoted literal, as written in
      the source (escapes are not interpreted); "" for anything else. */
  function ExtractFormatString(arg: Expr): (r: string)
    ensures IsQuotedString(arg) ==> arg.value == "\"" + r + "\""
    ensures !IsQuotedString(arg) ==> r == ""
  {
    if arg.BasicLit? && arg.kind == STRING then
      var value := arg.value;
      if |value| >= 2 && value[0] == '"' && value[|value| - 1] == '"' then
        value[1..|value| - 1]
      else
        ""
    else
      ""
  }

  /** A verb the scanner recognises starts at p: a '%' with a 'w' or 'v'
      right after it. */
  predicate IsVerbAt(s: string, p: int)
  {
    0 <= p && p + 1 < |s| && s[p] == '%' && (s[p + 1] == 'w' || s[p + 1] == 'v')
  }

  /** The verbs parseFormatSpecifiers collects, left to right. A match
      consumes the verb letter; any other '%' consumes only itself, so the
      second '%' of "%%v" starts a match. */
  function Specifiers(s: string): (r: seq<string>)
    decreases |s|
    ensures forall k :: 0 <= k < |r| ==> r[k] == "%w" || r[k] == "%v"
  {
    if |s| < 2 then []
    else if s[0] == '%' && (s[1] == 'w' || s[1] == 'v') then
      ["%" + [s[1]]] + Specifiers(s[2..])
    else
      Specifiers(s[1..])
  }

  /** Text without a '%' contributes no verb, whatever follows it. */
  lemma {:induction false} SpecifiersSkipPlain(t: string, u: string)
    requires forall i :: 0 <= i < |t| ==> t[i] != '%'
    ensures Specifiers(t + u) == Specifiers(u)
    decreases |t|
  {
    if t == [] {
      assert t + u == u;
    } else {
      var s := t + u;
      assert s[0] == t[0] != '%';
      assert s[1..] == t[1..] + u;
      SpecifiersSkipPlain(t[1..], u);
      if |s| >= 2 {
        assert Specifiers(s) == Specifiers(s[1..]);
      }
    }
  }

  /** A verb at the front is collected, and scanning resumes after it. */
  lemma SpecifiersVerbFirst(letter: char, u: string)
    requires letter == 'w' || letter == 'v'
    ensures Specifiers(['%', letter] + u) == ["%" + [letter]] + Specifiers(u)
  {
    assert (['%', letter] + u)[2..] == u;
  }

  /** A format string that is plain text followed by one verb holds exactly
      that verb. */
  lemma OneVerbAfterText(text: string, letter: char)
    requires forall i :: 0 <= i < |text| ==> text[i] != '%'
    requires letter == 'w' || letter == 'v'
    ensures Specifiers(text + ['%', letter]) == ["%" + [letter]]
  {
    SpecifiersSkipPlain(text, ['%', letter]);
    SpecifiersVerbFirst(letter, []);
    assert ['%', letter] + [] == ['%', letter];
  }

  /** Every position from i on where a verb starts, in increasing order. */
  function VerbPositionsFrom(s: string, i: nat): (r: seq<nat>)
    requires i <= |s|
    decreases |s| - i
    ensures forall k :: 0 <= k < |r| ==> i <= r[k] && IsVerbAt(s, r[k])
    ensures forall k, l :: 0 <= k < l < |r| ==> r[k] < r[l]
  {
    if i + 1 >= |s| then []
    else (if IsVerbAt(s, i) then [i] else []) + VerbPositionsFrom(s, i + 1)
  }

  /** No verb from i on is missing from VerbPositionsFrom(s, i). */
  lemma {:induction false} VerbPositionsComplete(s: string, i: nat, p: int)
    requires i <= p && i <= |s| && IsVerbAt(s, p)
    decreases |s| - i
    ensures p in VerbPositionsFrom(s, i)
  {
    if p > i {
      VerbPositionsComplete(s, i + 1, p);
    }
  }

  function VerbPositions(s: string): seq<nat>
  {
    VerbPositionsFrom(s, 0)
  }

  /** The verbs written at the given positions. */
  function VerbsAt(s: string, ps: seq<nat>): seq<string>
    requires forall k :: 0 <= k < |ps| ==> ps[k] + 1 < |s|
  {
    if ps == [] then [] else ["%" + [s[ps[0] + 1]]] + VerbsAt(s, ps[1..])
  }

  lemma {:induction false} VerbsAtIndex(s: string, ps: seq<nat>, k: nat)
    requires forall j :: 0 <= j < |ps| ==> ps[j] + 1 < |s|
    requires k < |ps|
    ensures |VerbsAt(s, ps)| == |ps|
    ensures VerbsAt(s, ps)[k] == "%" + [s[ps[k] + 1]]
  {
    if k > 0 {
      VerbsAtIndex(s, ps[1..], k - 1);
    } else if |ps| > 1 {
      VerbsAtIndex(s, ps[1..], 0);
    }
  }

  /** The scanner reports exactly the verb occurrences of s, in order: the
      k-th verb it returns is the one at the k-th verb position. Skipping the
      verb letter after a match loses nothing, because a verb letter is never
      a '%'. */
  lemma SpecifiersAreVerbOccurrences(s: string)
    ensures |Specifiers(s)| == |VerbPositions(s)|
    ensures forall k :: 0 <= k < |VerbPositions(s)| ==>
              Specifiers(s)[k] == "%" + [s[VerbPositions(s)[k] + 1]]
  {
    var ps := VerbPositions(s);
    SpecifiersFrom(s, 0);
    assert s[0..] == s;
    if ps != [] {
      VerbsAtIndex(s, ps, 0);
    }
    forall k | 0 <= k < |ps|
      ensures Specifiers(s)[k] == "%" + [s[ps[k] + 1]]
    {
      VerbsAtIndex(s, ps, k);
    }
  }

  lemma {:induction false} SpecifiersFrom(s: string, i: nat)
    requires i <= |s|
    decreases |s| - i
    ensures Specifiers(s[i..]) == VerbsAt(s, VerbPositionsFrom(s, i))
  {
    if i + 1 >= |s| {
      assert VerbPositionsFrom(s, i) == [];
    } else if IsVerbAt(s, i) {
      var ps2 := StepOverVerb(s, i);
      assert ([i] + ps2)[1..] == ps2;
      SpecifiersFrom(s, i + 2);
    } else {
      StepOverOther(s, i);
      SpecifiersFrom(s, i + 1);
    }
  }

  lemma StepOverVerb(s: string, i: nat) returns (ps2: seq<nat>)
    requires IsVerbAt(s, i)
    ensures ps2 == VerbPositionsFrom(s, i + 2)
    ensures Specifiers(s[i..]) == ["%" + [s[i + 1]]] + Specifiers(s[i + 2..])
    ensures VerbPositionsFrom(s, i) == [i] + ps2
  {
    ps2 := VerbPositionsFrom(s, i + 2);
    assert s[i..][2..] == s[i + 2..];
    assert !IsVerbAt(s, i + 1);
  }

  lemma StepOverOther(s: string, i: nat)
    requires i + 1 < |s| && !IsVerbAt(s, i)
    ensures Specifiers(s[i..]) == Specifiers(s[i + 1..])
    ensures VerbPositionsFrom(s, i) == VerbPositionsFrom(s, i + 1)
  {
    assert s[i..][1..] == s[i + 1..];
  }

  /** parseFormatSpecifiers: an index loop that appends each recognised verb
      and steps over its letter. */
  method ParseFormatSpecifiers(formatString: string) returns (formats: seq<string>)
    ensures formats == Specifiers(formatString)
  {
    formats := [];
    var i := 0;
    while i < |formatString|
      invariant 0 <= i <= |formatString|
      invariant formats + Specifiers(formatString[i..]) == Specifiers(formatString)
    {
      if formatString[i] == '%' && i + 1 < |formatString| {
        var next := formatString[i + 1];
        if next == 'w' || next == 'v' {
          var _ := StepOverVerb(formatString, i);
          formats := formats + ["%" + [next]];
          i := i + 1;
        } else {
          StepOverOther(formatString, i);
        }
      } else if i + 1 < |formatString| {
        StepOverOther(formatString, i);
      }
      i := i + 1;
    }
  }
}
