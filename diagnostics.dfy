/**
 * The analysis step the editor runs after the user stops typing: reset the
 * diagnostics, parse the code, and then show either an error or a list of
 * warnings. Undeclared variables are treated as an error whose message lists
 * the first six of them; a clean parse with no undeclared variable yields
 * the missing-semicolon warnings followed by the other lint warnings; a
 * parse failure yields the parser's error.
 *
 * The parser itself is not modelled: its outcome is an input (`Parse`).
 */
module Diagnostics {
  import opened Wrappers
  import opened Ast
  import opened Decimal
  import opened Text
  import ScopeResolver
  import Semicolons
  import Lint

  /** `{ name, message }`, the error shown instead of warnings. */
  datatype SyntaxError = SyntaxError(name: string, message: string)

  /** A thrown value: its `name`, its `message`, and `String(err)`. */
  datatype Thrown = Thrown(name: string, message: string, text: string)

  /** The outcome of the parsing step. */
  datatype Parse =
    | Parsed(ast: Node)               // the parser is loaded and accepted the code
    | ParseFailed(err: Thrown)        // the parser is loaded and threw
    | NoParser(fnErr: Option<Thrown>) // no parser: `new Function(code)` threw `fnErr`, if it threw

  /** `state.syntaxError` and `state.lintWarnings` after the step. */
  datatype Diagnosis = Diagnosis(syntaxError: Option<SyntaxError>, lintWarnings: seq<Warning>)

  /** JavaScript's `a || b` on two strings: the empty string is falsy. */
  function OrElse(a: string, b: string): string
  {
    if a != "" then a else b
  }

  /** `` `${d.name} (line ${d.line})` ``. */
  function Describe(f: ScopeResolver.Finding): string
  {
    f.name + " (line " + NatToString(f.line) + ")"
  }

  function Describes(fs: seq<ScopeResolver.Finding>): (r: seq<string>)
    ensures |r| == |fs| && forall k :: 0 <= k < |fs| ==> r[k] == Describe(fs[k])
  {
    if fs == [] then [] else [Describe(fs[0])] + Describes(fs[1..])
  }

  /** `parts.join(sep)`. */
  function Join(parts: seq<string>, sep: string): string
  {
    if |parts| == 0 then "" else if |parts| == 1 then parts[0] else parts[0] + sep + Join(parts[1..], sep)
  }

  /** The tail added when more than six names were found. */
  function MoreSuffix(n: nat): string
  {
    if n > 6 then " +" + NatToString(n - 6) + " more" else ""
  }

  /** The message of the `'Undeclared Variable'` error. */
  function UndeclaredSummary(u: seq<ScopeResolver.Finding>): string
  {
    Join(Describes(u[..Min(6, |u|)]), ", ") + MoreSuffix(|u|)
  }

  /** What the step leaves in `state.syntaxError` and `state.lintWarnings`. */
  function Diagnose(code: string, p: Parse): Diagnosis
  {
    match p
    case Parsed(ast) =>
      var u := ScopeResolver.Undeclared(ast);
      if |u| > 0 then Diagnosis(Some(SyntaxError("Undeclared Variable", UndeclaredSummary(u))), [])
      else Diagnosis(None, Semicolons.MissingIn(ast, code) + Lint.LintWarnings(ast))
    case ParseFailed(err) =>
      Diagnosis(Some(SyntaxError(OrElse(err.name, "SyntaxError"), OrElse(err.message, err.text))), [])
    case NoParser(fnErr) =>
      Diagnosis(if fnErr.Some? then Some(SyntaxError(fnErr.value.name, fnErr.value.message)) else None, [])
  }

  /** The editor state the step reads and writes. */
  class EditorState {
    const code: string
    var syntaxError: Option<SyntaxError>
    var lintWarnings: seq<Warning>

    constructor(code: string)
      ensures this.code == code && syntaxError == None && lintWarnings == []
    {
      this.code := code;
      syntaxError := None;
      lintWarnings := [];
    }

    /** The body of the debounced callback, for the parse outcome `p` of `code`. */
    method Analyze(p: Parse)
      modifies this
      ensures Diagnosis(syntaxError, lintWarnings) == Diagnose(code, p)
    {
      syntaxError := None;
      lintWarnings := [];
      match p {
        case Parsed(ast) =>
          var undeclared := ScopeResolver.FindUndeclaredVars(ast);
          if |undeclared| > 0 {
            syntaxError := Some(SyntaxError("Undeclared Variable", UndeclaredSummary(undeclared)));
          } else {
            var semiIssues := Semicolons.FindMissingSemicolons(ast, code);
            var extra := Lint.FindAdditionalLintIssues(ast);
            lintWarnings := semiIssues + extra;
          }
        case ParseFailed(err) =>
          syntaxError := Some(SyntaxError(OrElse(err.name, "SyntaxError"), OrElse(err.message, err.text)));
        case NoParser(fnErr) =>
          if fnErr.Some? {
            syntaxError := Some(SyntaxError(fnErr.value.name, fnErr.value.message));
          }
      }
    }
  }

  // ---------------------------------------------------------------------
  // What the step promises.

  /** An error and warnings are never shown together, and warnings come only from a successful parse. */
  lemma ErrorExcludesWarnings(code: string, p: Parse)
    ensures Diagnose(code, p).syntaxError.Some? ==> Diagnose(code, p).lintWarnings == []
    ensures Diagnose(code, p).lintWarnings != [] ==> p.Parsed? && Diagnose(code, p).syntaxError.None?
    ensures p.ParseFailed? ==> Diagnose(code, p).syntaxError.Some? && Diagnose(code, p).syntaxError.value.name != ""
  {
  }

  /**
   * A successfully parsed program gets an error exactly when some identifier
   * in a reference position resolves, in the scope semantics, to no binding
   * and no global, and that error is the undeclared-variable one.
   */
  lemma ErrorIffUnresolved(code: string, ast: Node)
    ensures Diagnose(code, Parsed(ast)).syntaxError.Some? <==>
      exists f :: f in ScopeResolver.Resolve(ast, Root, {}).found && f.name != ""
    ensures Diagnose(code, Parsed(ast)).syntaxError.Some? ==>
      Diagnose(code, Parsed(ast)).syntaxError.value.name == "Undeclared Variable"
  {
    var u := ScopeResolver.Undeclared(ast);
    ScopeResolver.AllFindingsResolve(ast);
    ScopeResolver.UndeclaredSpec(ast);
    if exists f :: f in ScopeResolver.AllFindings(ast) && f.name != "" {
      var f :| f in ScopeResolver.AllFindings(ast) && f.name != "";
      var g :| g in u && g.name == f.name;
    }
    if |u| > 0 {
      assert u[0] in u;
    }
  }

  /** A program with no undeclared variable gets exactly the semicolon and lint warnings, semicolon ones first. */
  lemma CleanWarnings(code: string, ast: Node, w: Warning)
    requires ScopeResolver.Undeclared(ast) == []
    ensures Diagnose(code, Parsed(ast)).syntaxError.None?
    ensures w in Diagnose(code, Parsed(ast)).lintWarnings <==>
      w in Semicolons.MissingIn(ast, code) || w in Lint.LintWarnings(ast)
    ensures Diagnose(code, Parsed(ast)).lintWarnings[..|Semicolons.MissingIn(ast, code)|] == Semicolons.MissingIn(ast, code)
  {
  }

  // ---------------------------------------------------------------------
  // The shape of the undeclared-variable message.

  /** How many times `c` occurs in `s`. */
  function CountChar(s: string, c: char): nat
  {
    if s == [] then 0 else (if s[0] == c then 1 else 0) + CountChar(s[1..], c)
  }

  lemma {:induction false} CountCharConcat(a: string, b: string, c: char)
    ensures CountChar(a + b, c) == CountChar(a, c) + CountChar(b, c)
  {
    if a == [] {
      assert a + b == b;
    } else {
      assert (a + b)[1..] == a[1..] + b;
      CountCharConcat(a[1..], b, c);
    }
  }

  lemma {:induction false} CountCharAbsent(s: string, c: char)
    requires c !in s
    ensures CountChar(s, c) == 0
  {
    if s != [] {
      assert forall k :: 0 <= k < |s[1..]| ==> s[1..][k] == s[k + 1];
      CountCharAbsent(s[1..], c);
    }
  }

  /** Joining comma-free parts with `", "` puts exactly one comma between neighbours. */
  lemma {:induction false} JoinCommas(parts: seq<string>)
    requires forall k :: 0 <= k < |parts| ==> ',' !in parts[k]
    ensures CountChar(Join(parts, ", "), ',') == if parts == [] then 0 else |parts| - 1
  {
    if |parts| == 1 {
      CountCharAbsent(parts[0], ',');
    } else if |parts| > 1 {
      JoinCommas(parts[1..]);
      CountCharAbsent(parts[0], ',');
      CountCharConcat(parts[0], ", ", ',');
      CountCharConcat(parts[0] + ", ", Join(parts[1..], ", "), ',');
      assert CountChar(", ", ',') == 1 by {
        assert ", "[1..] == " ";
        assert " "[1..] == "";
      }
    }
  }

  /** `part` occurs in `s` starting at index `i`. */
  predicate OccursAt(s: string, part: string, i: int)
  {
    0 <= i <= |s| - |part| && s[i..i + |part|] == part
  }

  /** Each part occurs in the joined text. */
  lemma {:induction false} JoinContains(parts: seq<string>, sep: string, k: nat)
    requires k < |parts|
    ensures exists i :: OccursAt(Join(parts, sep), parts[k], i)
  {
    var j := Join(parts, sep);
    if k == 0 {
      if |parts| > 1 {
        assert j == parts[0] + (sep + Join(parts[1..], sep));
      }
      assert j[0..|parts[0]|] == parts[0];
      assert OccursAt(j, parts[0], 0);
    } else {
      JoinContains(parts[1..], sep, k - 1);
      var rest := Join(parts[1..], sep);
      assert parts[1..][k - 1] == parts[k];
      var i :| OccursAt(rest, parts[k], i);
      var off := |parts[0]| + |sep|;
      assert j == (parts[0] + sep) + rest;
      assert j[off + i..off + i + |parts[k]|] == rest[i..i + |parts[k]|];
      assert OccursAt(j, parts[k], off + i);
    }
  }

  lemma DescribeCommaFree(f: ScopeResolver.Finding)
    requires ',' !in f.name
    ensures ',' !in Describe(f)
  {
    var digits := NatToString(f.line);
    assert ',' !in digits by {
      forall k | 0 <= k < |digits| ensures digits[k] != ',' {
        assert IsDigit(digits[k]);
      }
    }
    assert Describe(f) == f.name + " (line " + digits + ")";
    assert ',' !in " (line ";
  }

  lemma MoreSuffixCommaFree(n: nat)
    ensures ',' !in MoreSuffix(n)
  {
    if n > 6 {
      var digits := NatToString(n - 6);
      assert ',' !in digits by {
        forall k | 0 <= k < |digits| ensures digits[k] != ',' {
          assert IsDigit(digits[k]);
        }
      }
      assert MoreSuffix(n) == " +" + digits + " more";
      assert ',' !in " +" && ',' !in " more";
    }
  }

  /**
   * The message lists `min(6, n)` entries: when names have no comma (as
   * identifiers never do), it holds exactly one comma fewer than that.
   */
  lemma SummaryEntries(u: seq<ScopeResolver.Finding>)
    requires u != [] && forall f :: f in u ==> ',' !in f.name
    ensures CountChar(UndeclaredSummary(u), ',') == Min(6, |u|) - 1
  {
    var parts := Describes(u[..Min(6, |u|)]);
    forall k | 0 <= k < |parts| ensures ',' !in parts[k] {
      assert u[..Min(6, |u|)][k] in u;
      DescribeCommaFree(u[..Min(6, |u|)][k]);
    }
    JoinCommas(parts);
    MoreSuffixCommaFree(|u|);
    CountCharAbsent(MoreSuffix(|u|), ',');
    CountCharConcat(Join(parts, ", "), MoreSuffix(|u|), ',');
  }

  /** Every one of the first six findings appears, as `name (line L)`, in the message. */
  lemma SummaryListsFirstSix(u: seq<ScopeResolver.Finding>, k: nat)
    requires k < Min(6, |u|)
    ensures exists i :: OccursAt(UndeclaredSummary(u), Describe(u[k]), i)
  {
    var parts := Describes(u[..Min(6, |u|)]);
    JoinContains(parts, ", ", k);
    var j := Join(parts, ", ");
    var i :| OccursAt(j, parts[k], i);
    assert UndeclaredSummary(u)[i..i + |parts[k]|] == j[i..i + |parts[k]|];
    assert OccursAt(UndeclaredSummary(u), Describe(u[k]), i);
  }

  /** The message ends with the last listed entry's `)` exactly when no finding was left out of it. */
  lemma SummaryEnd(u: seq<ScopeResolver.Finding>)
    requires u != []
    ensures |UndeclaredSummary(u)| > 0
    ensures UndeclaredSummary(u)[|UndeclaredSummary(u)| - 1] == ')' <==> |u| <= 6
  {
    var parts := Describes(u[..Min(6, |u|)]);
    JoinLast(parts, ", ");
    var last := parts[|parts| - 1];
    assert last == Describe(u[Min(6, |u|) - 1]);
    assert last[|last| - 1] == ')';
    if |u| > 6 {
      var m := MoreSuffix(|u|);
      assert m == " +" + NatToString(|u| - 6) + " more";
      assert m[|m| - 1] == 'e';
    }
  }

  /** A non-empty join ends with its last part. */
  lemma {:induction false} JoinLast(parts: seq<string>, sep: string)
    requires parts != []
    ensures |Join(parts, sep)| >= |parts[|parts| - 1]|
    ensures Join(parts, sep)[|Join(parts, sep)| - |parts[|parts| - 1]|..] == parts[|parts| - 1]
  {
    if |parts| > 1 {
      JoinLast(parts[1..], sep);
      assert Join(parts, sep) == (parts[0] + sep) + Join(parts[1..], sep);
    }
  }
}
