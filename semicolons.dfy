/**
 * `findMissingSemicolons(ast, source)`: a pre-order walk over every node
 * that, for each expression statement, variable declaration and return
 * statement, takes the node's source text with trailing white space removed
 * and reports it when it is non-empty and ends in neither `;` nor `}`.
 * Reports are neither merged nor reordered.
 */
module Semicolons {
  import opened Wrappers
  import opened Ast
  import opened Text

  /** The node types the check looks at, by their ESTree `type` names. */
  function CheckedType(n: Node): Option<string>
  {
    match n.k
    case ExpressionStatement(_) => Some("ExpressionStatement")
    case VarDecl(_, _) => Some("VariableDeclaration")
    case Return(_) => Some("ReturnStatement")
    case _ => None
  }

  /** `source.slice(node.start, node.end).trimRight()`. */
  function Snippet(n: Node, source: string): string
  {
    TrimRight(Slice(source, n.span.start, n.span.end))
  }

  /** A snippet that needs a report: non-empty and ending in neither `;` nor `}`. */
  predicate Unterminated(snippet: string)
  {
    snippet != [] && !EndsWith(snippet, ';') && !EndsWith(snippet, '}')
  }

  function SemicolonMessage(typeName: string): string
  {
    typeName + " may be missing a terminating semicolon"
  }

  /** The report, if any, the visit of `n` makes, at the line the node ends on. */
  function Flag(n: Node, source: string): (r: seq<Warning>)
    ensures |r| <= 1
    ensures |r| == 1 <==> CheckedType(n).Some? && Unterminated(Snippet(n, source))
    ensures |r| == 1 ==> r[0] == Warning(SemicolonMessage(CheckedType(n).value), n.span.endLine)
  {
    var t := CheckedType(n);
    if t.Some? && Unterminated(Snippet(n, source)) then [Warning(SemicolonMessage(t.value), n.span.endLine)] else []
  }

  /** The reports of the walk from `n`, in the order they are pushed. */
  function MissingIn(n: Node, source: string): seq<Warning>
    decreases n, 1
  {
    Flag(n, source) + MissingInKids(n, 0, source)
  }

  function MissingInKids(n: Node, i: nat, source: string): seq<Warning>
    requires i <= |Kids(n)|
    decreases n, 0, |Kids(n)| - i
  {
    if i == |Kids(n)| then []
    else
      assert Kids(n)[i] in Kids(n);
      MissingIn(Kids(n)[i].node, source) + MissingInKids(n, i + 1, source)
  }

  /** One child's walk followed by the walks of the later children. */
  lemma KidsStep(n: Node, i: nat, source: string)
    requires i < |Kids(n)|
    ensures MissingInKids(n, i, source) == MissingIn(Kids(n)[i].node, source) + MissingInKids(n, i + 1, source)
  {
  }

  /** The reports a sequence of visits makes, one visit after the other. */
  function FlagAll(vs: seq<Visit>, source: string): seq<Warning>
  {
    if vs == [] then [] else Flag(vs[0].node, source) + FlagAll(vs[1..], source)
  }

  lemma {:induction false} FlagAllConcat(a: seq<Visit>, b: seq<Visit>, source: string)
    ensures FlagAll(a + b, source) == FlagAll(a, source) + FlagAll(b, source)
  {
    if a != [] {
      assert (a + b)[1..] == a[1..] + b;
      FlagAllConcat(a[1..], b, source);
    } else {
      assert a + b == b;
    }
  }

  /** The walk reports exactly what flagging every visit of a pre-order traversal, in order, reports. */
  lemma {:induction false} MissingInVisits(n: Node, ctx: Ctx, source: string)
    ensures MissingIn(n, source) == FlagAll(Visits(n, ctx), source)
    decreases n, 1
  {
    MissingInKidsVisits(n, 0, source);
    FlagAllConcat([Visit(n, ctx)], VisitsFrom(n, 0), source);
    assert FlagAll([Visit(n, ctx)], source) == Flag(n, source) + [];
  }

  lemma {:induction false} MissingInKidsVisits(n: Node, i: nat, source: string)
    requires i <= |Kids(n)|
    ensures MissingInKids(n, i, source) == FlagAll(VisitsFrom(n, i), source)
    decreases n, 0, |Kids(n)| - i
  {
    if i < |Kids(n)| {
      assert Kids(n)[i] in Kids(n);
      MissingInVisits(Kids(n)[i].node, KidCtx(n, i), source);
      MissingInKidsVisits(n, i + 1, source);
      FlagAllConcat(Visits(Kids(n)[i].node, KidCtx(n, i)), VisitsFrom(n, i + 1), source);
    }
  }

  /** A report is in the list exactly when some visited node of a checked type has an unterminated snippet ending on that line. */
  lemma {:induction false} FlagAllMembers(vs: seq<Visit>, source: string, w: Warning)
    ensures w in FlagAll(vs, source) <==>
      exists v :: v in vs && CheckedType(v.node).Some? && Unterminated(Snippet(v.node, source)) &&
        w == Warning(SemicolonMessage(CheckedType(v.node).value), v.node.span.endLine)
  {
    if vs != [] {
      FlagAllMembers(vs[1..], source, w);
      if w in FlagAll(vs[1..], source) {
        var v :| v in vs[1..] && CheckedType(v.node).Some? && Unterminated(Snippet(v.node, source)) &&
          w == Warning(SemicolonMessage(CheckedType(v.node).value), v.node.span.endLine);
        assert v in vs;
      }
    }
  }

  /** A statement whose text ends in `;` followed only by white space is never reported. */
  lemma TerminatedNotFlagged(n: Node, source: string, body: string, ws: string)
    requires Slice(source, n.span.start, n.span.end) == body + [';'] + ws
    requires forall i :: 0 <= i < |ws| ==> IsJsSpace(ws[i])
    ensures Flag(n, source) == []
  {
    TrimRightSpace(body + [';'], ws);
    assert !IsJsSpace(';');
  }

  /** The walker, with the report list as a field updated in place. */
  class SemicolonChecker {
    const source: string
    var issues: seq<Warning>

    constructor(source: string)
      ensures this.source == source && issues == []
    {
      this.source := source;
      issues := [];
    }

    /** `walk(node)`: check the node, then walk every child. */
    method Walk(node: Node)
      modifies this
      ensures issues == old(issues) + MissingIn(node, source)
      decreases node, 1
    {
      ghost var start := issues;
      CheckNode(node);
      WalkChildren(node);
      AppendAssoc(start, Flag(node, source), MissingInKids(node, 0, source));
    }

    /** The check the walk makes at each node. */
    method CheckNode(node: Node)
      modifies this
      ensures issues == old(issues) + Flag(node, source)
    {
      var t := CheckedType(node);
      if t.Some? {
        var snippet := TrimRight(Slice(source, node.span.start, node.span.end));
        if snippet != [] && !EndsWith(snippet, ';') {
          if !EndsWith(snippet, '}') {
            issues := issues + [Warning(SemicolonMessage(t.value), node.span.endLine)];
          }
        }
      }
    }

    /** The loop over the children of `node`. */
    method WalkChildren(node: Node)
      modifies this
      ensures issues == old(issues) + MissingInKids(node, 0, source)
      decreases node, 0
    {
      var kids := Kids(node);
      var i := 0;
      while i < |kids|
        invariant 0 <= i <= |kids|
        invariant issues + MissingInKids(node, i, source) == old(issues) + MissingInKids(node, 0, source)
      {
        assert kids[i] in Kids(node);
        ghost var before := issues;
        Walk(kids[i].node);
        KidsStep(node, i, source);
        AppendAssoc(before, MissingIn(kids[i].node, source), MissingInKids(node, i + 1, source));
        i := i + 1;
      }
    }
  }

  /** `findMissingSemicolons(ast, source)`. */
  method FindMissingSemicolons(ast: Node, source: string) returns (issues: seq<Warning>)
    ensures issues == MissingIn(ast, source)
  {
    var checker := new SemicolonChecker(source);
    checker.Walk(ast);
    issues := checker.issues;
  }
}
