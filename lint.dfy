/**
 * `findAdditionalLintIssues(ast, source)`: a pre-order walk over every node
 * that pushes a warning for each `var` declaration, each `==` / `!=`
 * comparison and each member access on the identifier `console`, records the
 * names every declaration and every parameter list binds (a later
 * declaration of a name replaces the earlier one) and counts the identifiers
 * used as references; then one warning per recorded name that was never
 * referenced and does not start with `_`; and finally one warning per
 * message and line.
 */
module Lint {
  import opened Wrappers
  import opened Ast
  import opened Patterns
  import opened Text
  import opened Decimal
  import opened KeepFirst

  const VarMessage: string := "Avoid 'var' \U{2014} prefer 'let' or 'const'"
  const ConsoleMessage: string := "Avoid using console.* in production code"

  function EqMessage(op: string): string
  {
    "Use strict equality (=== / !==) instead of '" + op + "'"
  }

  function UnusedMessage(name: string): string
  {
    "Unused variable '" + name + "'"
  }

  /** `kind` of a recorded name: the declaration's `var`/`let`/`const`, or `'param'`. */
  datatype DeclSort = VarSort(kind: DeclKind) | ParamSort

  /** `{ kind, line }`, the value of the `declared` map. */
  datatype DeclInfo = DeclInfo(sort: DeclSort, line: nat)

  /**
   * The walk's state: the warnings pushed so far, the `declared` map with its
   * insertion order (a `Map` keeps a key where it was first inserted when the
   * key is set again), and the `refs` map of reference counts.
   */
  datatype LintState = LintState(warnings: seq<Warning>, order: seq<string>, decls: map<string, DeclInfo>, refs: map<string, nat>)

  /** The insertion order lists every key of `declared` exactly once. */
  ghost predicate OrderValid(s: LintState)
  {
    (forall x :: x in s.order <==> x in s.decls) &&
    (forall i, j :: 0 <= i < j < |s.order| ==> s.order[i] != s.order[j])
  }

  const Start := LintState([], [], map[], map[])

  // ---------------------------------------------------------------------
  // What the visit of one node contributes.

  /** The `var`, `==`/`!=` and `console` warnings the visit of `n` pushes (at most one: the three node types differ). */
  function NodeWarnings(n: Node): seq<Warning>
  {
    match n.k
    case VarDecl(kind, _) => if kind == Var then [Warning(VarMessage, n.span.startLine)] else []
    case Binary(op, _, _) => if op == "==" || op == "!=" then [Warning(EqMessage(op), n.span.startLine)] else []
    case Member(obj, _, _) => if obj.k == Identifier("console") then [Warning(ConsoleMessage, n.span.startLine)] else []
    case _ => []
  }

  /** The names of the declarators' `id` patterns, declarator after declarator. */
  function DeclaratorsNames(decls: seq<Node>): seq<string>
  {
    if decls == [] then [] else OptionNames(DeclTarget(decls[0])) + DeclaratorsNames(decls[1..])
  }

  /** The target of a declarator (`d.id`); other entries have none. */
  function DeclTarget(d: Node): Option<Node>
  {
    if d.k.Declarator? then Some(d.k.target) else None
  }

  /** The names the visit of `n` records, all with the same `{ kind, line }`. */
  function DeclNames(n: Node): seq<string>
  {
    match n.k
    case VarDecl(_, decls) => DeclaratorsNames(decls)
    case FunctionDecl(_, params, _) => ParamsNames(params)
    case FunctionExpr(_, params, _) => ParamsNames(params)
    case Arrow(params, _) => ParamsNames(params)
    case _ => []
  }

  function DeclInfoOf(n: Node): DeclInfo
  {
    if n.k.VarDecl? then DeclInfo(VarSort(n.k.kind), n.span.startLine) else DeclInfo(ParamSort, n.span.startLine)
  }

  /**
   * The positions where an identifier is not counted as a reference: no
   * parent, the `id` of a declarator, function or class declaration, any
   * child of a node whose type starts with `Import`, a non-computed member
   * property or property key.
   */
  predicate LintSkips(ctx: Ctx)
  {
    ctx.Root? || IsDeclarationId(ctx) || ctx.parent.k.Import? || IsPropertyName(ctx)
  }

  /** The name the visit counts as a reference, if any (`addRef` ignores the empty name). */
  function RefName(v: Visit): Option<string>
  {
    if v.node.k.Identifier? && !LintSkips(v.ctx) && v.node.k.name != "" then Some(v.node.k.name) else None
  }

  // ---------------------------------------------------------------------
  // The state changes.

  /** `addDecl(name, kind, line)`. */
  function AddDecl(s: LintState, name: string, info: DeclInfo): LintState
  {
    if name == "" then s
    else s.(decls := s.decls[name := info], order := if name in s.decls then s.order else s.order + [name])
  }

  function AddDecls(s: LintState, names: seq<string>, info: DeclInfo): LintState
    decreases |names|
  {
    if names == [] then s else AddDecls(AddDecl(s, names[0], info), names[1..], info)
  }

  /** `refs.get(name) || 0`. */
  function RefCount(refs: map<string, nat>, name: string): nat
  {
    if name in refs then refs[name] else 0
  }

  /** `addRef(name)`. */
  function AddRef(s: LintState, name: string): LintState
  {
    if name == "" then s else s.(refs := s.refs[name := RefCount(s.refs, name) + 1])
  }

  /** The visit of one node. */
  function Step(s: LintState, v: Visit): LintState
  {
    var s1 := s.(warnings := s.warnings + NodeWarnings(v.node));
    var s2 := AddDecls(s1, DeclNames(v.node), DeclInfoOf(v.node));
    var r := RefName(v);
    if r.Some? then AddRef(s2, r.value) else s2
  }

  /** A declaring visit: its warning, if any, then its declarations, and no reference. */
  lemma StepDeclares(s: LintState, n: Node, parent: Ctx)
    requires n.k.VarDecl? || n.k.FunctionDecl? || n.k.FunctionExpr? || n.k.Arrow?
    ensures Step(s, Visit(n, parent)) == AddDecls(s.(warnings := s.warnings + NodeWarnings(n)), DeclNames(n), DeclInfoOf(n))
  {
  }

  /** A binary or member visit only adds its warning, if any. */
  lemma StepWarns(s: LintState, n: Node, parent: Ctx)
    requires n.k.Binary? || n.k.Member?
    ensures Step(s, Visit(n, parent)) == s.(warnings := s.warnings + NodeWarnings(n))
  {
    assert AddDecls(s.(warnings := s.warnings + NodeWarnings(n)), [], DeclInfoOf(n)) == s.(warnings := s.warnings + NodeWarnings(n));
  }

  /** Any other visit counts at most one reference. */
  lemma StepOther(s: LintState, n: Node, parent: Ctx)
    requires !(n.k.VarDecl? || n.k.FunctionDecl? || n.k.FunctionExpr? || n.k.Arrow? || n.k.Binary? || n.k.Member?)
    ensures Step(s, Visit(n, parent)) == if n.k.Identifier? && !LintSkips(parent) then AddRef(s, n.k.name) else s
  {
    assert NodeWarnings(n) == [] && s.warnings + [] == s.warnings;
  }

  /** The visits `vs`, one after the other. */
  function Steps(s: LintState, vs: seq<Visit>): LintState
    decreases |vs|
  {
    if vs == [] then s else Steps(Step(s, vs[0]), vs[1..])
  }

  /** `name.startsWith('_')`: the convention for a name left unused on purpose. */
  predicate Underscored(name: string)
  {
    |name| >= 1 && name[0] == '_'
  }

  /** The warnings for the recorded names from the `i`-th in insertion order on. */
  function UnusedFrom(s: LintState, i: nat): seq<Warning>
    requires OrderValid(s) && i <= |s.order|
    decreases |s.order| - i
  {
    if i == |s.order| then []
    else
      var name := s.order[i];
      var w := if RefCount(s.refs, name) == 0 && !Underscored(name) then [Warning(UnusedMessage(name), s.decls[name].line)] else [];
      w + UnusedFrom(s, i + 1)
  }

  /** The key of the final de-duplication: `` `${message}@@${line || 0}` ``. */
  function WarningKey(w: Warning): string
  {
    w.message + "@@" + NatToString(w.line)
  }

  /** The state after the walk of the whole tree. */
  function Walked(ast: Node): LintState
  {
    Steps(Start, Visits(ast, Root))
  }

  /** The warnings before de-duplication. */
  function RawWarnings(ast: Node): seq<Warning>
  {
    var s := Walked(ast);
    StepsValid(Start, Visits(ast, Root));
    s.warnings + UnusedFrom(s, 0)
  }

  /** What `findAdditionalLintIssues` returns. */
  function LintWarnings(ast: Node): seq<Warning>
  {
    DedupBy(RawWarnings(ast), WarningKey)
  }

  // ---------------------------------------------------------------------
  // Basic facts about the state changes.

  lemma AddDeclValid(s: LintState, name: string, info: DeclInfo)
    requires OrderValid(s)
    ensures OrderValid(AddDecl(s, name, info))
  {
  }

  lemma {:induction false} AddDeclsValid(s: LintState, names: seq<string>, info: DeclInfo)
    requires OrderValid(s)
    ensures OrderValid(AddDecls(s, names, info))
    decreases |names|
  {
    if names != [] {
      AddDeclValid(s, names[0], info);
      AddDeclsValid(AddDecl(s, names[0], info), names[1..], info);
    }
  }

  lemma StepValid(s: LintState, v: Visit)
    requires OrderValid(s)
    ensures OrderValid(Step(s, v))
  {
    AddDeclsValid(s.(warnings := s.warnings + NodeWarnings(v.node)), DeclNames(v.node), DeclInfoOf(v.node));
  }

  /** The walk keeps the insertion order a list of the recorded names without repeats. */
  lemma {:induction false} StepsValid(s: LintState, vs: seq<Visit>)
    requires OrderValid(s)
    ensures OrderValid(Steps(s, vs))
    decreases |vs|
  {
    if vs != [] {
      StepValid(s, vs[0]);
      StepsValid(Step(s, vs[0]), vs[1..]);
    }
  }

  lemma {:induction false} StepsConcat(s: LintState, a: seq<Visit>, b: seq<Visit>)
    ensures Steps(s, a + b) == Steps(Steps(s, a), b)
    decreases |a|
  {
    if a != [] {
      assert (a + b)[1..] == a[1..] + b;
      StepsConcat(Step(s, a[0]), a[1..], b);
    } else {
      assert a + b == b;
    }
  }

  /** Walking the children from the `i`-th on is walking the `i`-th child, then the rest. */
  lemma StepsKids(s: LintState, n: Node, i: nat)
    requires i < |Kids(n)|
    ensures Steps(s, VisitsFrom(n, i)) == Steps(Steps(s, Visits(Kids(n)[i].node, KidCtx(n, i))), VisitsFrom(n, i + 1))
  {
    StepsConcat(s, Visits(Kids(n)[i].node, KidCtx(n, i)), VisitsFrom(n, i + 1));
  }

  lemma {:induction false} AddDeclsConcat(s: LintState, a: seq<string>, b: seq<string>, info: DeclInfo)
    ensures AddDecls(AddDecls(s, a, info), b, info) == AddDecls(s, a + b, info)
    decreases |a|
  {
    if a != [] {
      assert (a + b)[1..] == a[1..] + b;
      AddDeclsConcat(AddDecl(s, a[0], info), a[1..], b, info);
    } else {
      assert a + b == b;
    }
  }

  // ---------------------------------------------------------------------
  // The analyzer's state in fields, updated in place.

  class Linter {
    var warnings: seq<Warning>
    var order: seq<string>
    var decls: map<string, DeclInfo>
    var refs: map<string, nat>

    function State(): LintState
      reads this
    {
      LintState(warnings, order, decls, refs)
    }

    constructor()
      ensures State() == Start
    {
      warnings, order, decls, refs := [], [], map[], map[];
    }

    /** `addDecl(name, kind, line)`. */
    method Declare(name: string, info: DeclInfo)
      modifies this
      ensures State() == AddDecl(old(State()), name, info)
    {
      if name == "" {
        return;
      }
      if name !in decls {
        order := order + [name];
      }
      decls := decls[name := info];
    }

    /** `names.forEach(n => addDecl(n, kind, line))`. */
    method DeclareAll(names: seq<string>, info: DeclInfo)
      modifies this
      ensures State() == AddDecls(old(State()), names, info)
    {
      ghost var s0 := State();
      var i := 0;
      while i < |names|
        invariant 0 <= i <= |names|
        invariant AddDecls(State(), names[i..], info) == AddDecls(s0, names, info)
      {
        assert names[i..][1..] == names[i + 1..];
        Declare(names[i], info);
        i := i + 1;
      }
    }

    /** `addRef(name)`. */
    method Reference(name: string)
      modifies this
      ensures State() == AddRef(old(State()), name)
    {
      if name == "" {
        return;
      }
      var count := if name in refs then refs[name] else 0;
      refs := refs[name := count + 1];
    }

    /** The declarations a variable declaration records: each declarator's pattern names. */
    method DeclareDeclarators(node: Node)
      requires node.k.VarDecl?
      modifies this
      ensures State() == AddDecls(old(State()), DeclNames(node), DeclInfoOf(node))
    {
      ghost var s0 := State();
      var info := DeclInfo(VarSort(node.k.kind), node.span.startLine);
      var ds := node.k.declarations;
      var i := 0;
      while i < |ds|
        invariant 0 <= i <= |ds|
        invariant AddDecls(State(), DeclaratorsNames(ds[i..]), info) == AddDecls(s0, DeclaratorsNames(ds), info)
      {
        var names := CollectNames(DeclTarget(ds[i]));
        assert ds[i..][1..] == ds[i + 1..];
        AddDeclsConcat(State(), names, DeclaratorsNames(ds[i + 1..]), info);
        DeclareAll(names, info);
        i := i + 1;
      }
      assert ds[|ds|..] == [];
    }

    /** The parameters a function records, each with kind `'param'`. */
    method DeclareParams(node: Node, params: seq<Node>)
      requires (node.k.FunctionDecl? || node.k.FunctionExpr? || node.k.Arrow?) && params == node.k.params
      modifies this
      ensures State() == AddDecls(old(State()), DeclNames(node), DeclInfoOf(node))
    {
      ghost var s0 := State();
      var info := DeclInfo(ParamSort, node.span.startLine);
      var i := 0;
      while i < |params|
        invariant 0 <= i <= |params|
        invariant AddDecls(State(), ParamsNames(params[i..]), info) == AddDecls(s0, ParamsNames(params), info)
      {
        var names := CollectPatternNames(params[i], []);
        assert params[i..][1..] == params[i + 1..];
        assert [] + PatternNames(params[i]) == PatternNames(params[i]);
        AddDeclsConcat(State(), names, ParamsNames(params[i + 1..]), info);
        DeclareAll(names, info);
        i := i + 1;
      }
      assert params[|params|..] == [];
    }

    /** What the walk does at `node` before descending. */
    method Visit(node: Node, parent: Ctx)
      modifies this
      ensures State() == Step(old(State()), Ast.Visit(node, parent))
    {
      if node.k.VarDecl? || node.k.FunctionDecl? || node.k.FunctionExpr? || node.k.Arrow? {
        VisitDeclaring(node, parent);
      } else if node.k.Binary? || node.k.Member? {
        VisitWarning(node, parent);
      } else {
        StepOther(State(), node, parent);
        if node.k.Identifier? && !LintSkips(parent) {
          Reference(node.k.name);
        }
      }
    }

    /** The `==`/`!=` and `console` branches of the visit. */
    method VisitWarning(node: Node, parent: Ctx)
      requires node.k.Binary? || node.k.Member?
      modifies this
      ensures State() == Step(old(State()), Ast.Visit(node, parent))
    {
      StepWarns(State(), node, parent);
      if node.k.Binary? && (node.k.operator == "==" || node.k.operator == "!=") {
        warnings := warnings + [Warning(EqMessage(node.k.operator), node.span.startLine)];
      } else if node.k.Member? && node.k.obj.k.Identifier? && node.k.obj.k.name == "console" {
        warnings := warnings + [Warning(ConsoleMessage, node.span.startLine)];
      } else {
        assert warnings + NodeWarnings(node) == warnings;
      }
    }

    /** The variable-declaration and function branches of the visit. */
    method VisitDeclaring(node: Node, parent: Ctx)
      requires node.k.VarDecl? || node.k.FunctionDecl? || node.k.FunctionExpr? || node.k.Arrow?
      modifies this
      ensures State() == Step(old(State()), Ast.Visit(node, parent))
    {
      ghost var s0 := State();
      StepDeclares(s0, node, parent);
      if node.k.VarDecl? {
        if node.k.kind == Var {
          warnings := warnings + [Warning(VarMessage, node.span.startLine)];
        }
        assert State() == s0.(warnings := s0.warnings + NodeWarnings(node));
        DeclareDeclarators(node);
      } else {
        assert s0.(warnings := s0.warnings + NodeWarnings(node)) == s0;
        DeclareParams(node, node.k.params);
      }
    }

    /** `walk(node, parent)`. */
    method Walk(node: Node, parent: Ctx)
      modifies this
      ensures State() == Steps(old(State()), Visits(node, parent))
      decreases node, 1
    {
      ghost var s0 := State();
      Visit(node, parent);
      WalkChildren(node);
      assert Visits(node, parent)[1..] == VisitsFrom(node, 0);
    }

    /** The loop over the children of `node`, each walked with `node` as parent. */
    method WalkChildren(node: Node)
      modifies this
      ensures State() == Steps(old(State()), VisitsFrom(node, 0))
      decreases node, 0
    {
      ghost var s0 := State();
      var kids := Kids(node);
      var i := 0;
      while i < |kids|
        invariant 0 <= i <= |kids|
        invariant Steps(State(), VisitsFrom(node, i)) == Steps(s0, VisitsFrom(node, 0))
      {
        assert kids[i] in Kids(node);
        StepsKids(State(), node, i);
        Walk(kids[i].node, Under(node, kids[i].slot));
        i := i + 1;
      }
    }

    /** The loop over `declared` in insertion order, pushing a warning per unreferenced name. */
    method ReportUnused()
      requires OrderValid(State())
      modifies this
      ensures State() == old(State()).(warnings := old(warnings) + UnusedFrom(old(State()), 0))
    {
      ghost var s0 := State();
      var i := 0;
      while i < |order|
        invariant 0 <= i <= |order|
        invariant order == s0.order && decls == s0.decls && refs == s0.refs
        invariant warnings + UnusedFrom(s0, i) == s0.warnings + UnusedFrom(s0, 0)
      {
        var name := order[i];
        var count := if name in refs then refs[name] else 0;
        if count == 0 && !(|name| >= 1 && name[0] == '_') {
          assert !Underscored(name);
          warnings := warnings + [Warning(UnusedMessage(name), decls[name].line)];
        }
        i := i + 1;
      }
    }
  }

  /** The final loop: keep the first warning per key. */
  method DedupWarnings(ws: seq<Warning>) returns (uniq: seq<Warning>)
    ensures uniq == DedupBy(ws, WarningKey)
  {
    uniq := [];
    var seen: set<string> := {};
    var i := 0;
    while i < |ws|
      invariant 0 <= i <= |ws|
      invariant uniq == DedupBy(ws[..i], WarningKey)
      invariant seen == KeysOf(uniq, WarningKey)
    {
      var key := ws[i].message + "@@" + NatToString(ws[i].line);
      assert ws[..i + 1] == ws[..i] + [ws[i]];
      DedupSnoc(ws[..i], ws[i], WarningKey);
      if key !in seen {
        KeysOfSnoc(uniq, ws[i], WarningKey);
        seen := seen + {key};
        uniq := uniq + [ws[i]];
      }
      i := i + 1;
    }
    assert ws[..|ws|] == ws;
  }

  /** `findAdditionalLintIssues(ast, source)`; the source text is not used. */
  method FindAdditionalLintIssues(ast: Node) returns (uniq: seq<Warning>)
    ensures uniq == LintWarnings(ast)
  {
    var linter := new Linter();
    linter.Walk(ast, Root);
    StepsValid(Start, Visits(ast, Root));
    linter.ReportUnused();
    uniq := DedupWarnings(linter.warnings);
  }

  // ---------------------------------------------------------------------
  // Reference definitions of what the walk collects, and its agreement with them.

  /** The rule warnings of the visits `vs`, visit after visit. */
  function RuleWarnings(vs: seq<Visit>): seq<Warning>
  {
    if vs == [] then [] else NodeWarnings(vs[0].node) + RuleWarnings(vs[1..])
  }

  /** The visit records the name `x`. */
  predicate Declares(v: Visit, x: string)
  {
    x != "" && x in DeclNames(v.node)
  }

  /** The `{ kind, line }` of the last of the visits that records `x`, if any. */
  function LastDecl(vs: seq<Visit>, x: string): (r: Option<DeclInfo>)
    ensures r.Some? <==> exists i :: 0 <= i < |vs| && Declares(vs[i], x)
    ensures r.Some? ==> exists i :: 0 <= i < |vs| && Declares(vs[i], x) && r.value == DeclInfoOf(vs[i].node) &&
                                     (forall j :: i < j < |vs| ==> !Declares(vs[j], x))
  {
    if vs == [] then None
    else
      var rest := LastDecl(vs[1..], x);
      if rest.Some? then
        assert forall i :: 0 <= i < |vs[1..]| ==> vs[1..][i] == vs[i + 1];
        rest
      else if Declares(vs[0], x) then
        assert forall j :: 0 < j < |vs| ==> vs[j] == vs[1..][j - 1];
        Some(DeclInfoOf(vs[0].node))
      else
        assert forall j :: 0 < j < |vs| ==> vs[j] == vs[1..][j - 1];
        None
  }

  /** How many of the visits count `x` as a reference. */
  function Refs(vs: seq<Visit>, x: string): nat
  {
    if vs == [] then 0 else (if RefName(vs[0]) == Some(x) then 1 else 0) + Refs(vs[1..], x)
  }

  /** `Refs` is zero exactly when no visit counts `x`. */
  lemma {:induction false} RefsZero(vs: seq<Visit>, x: string)
    ensures Refs(vs, x) == 0 <==> forall i :: 0 <= i < |vs| ==> RefName(vs[i]) != Some(x)
  {
    if vs != [] {
      RefsZero(vs[1..], x);
      assert forall i :: 1 <= i < |vs| ==> vs[i] == vs[1..][i - 1];
    }
  }

  /** What recording a list of names does to `declared`. */
  lemma {:induction false} AddDeclsDecls(s: LintState, names: seq<string>, info: DeclInfo, x: string)
    ensures var r := AddDecls(s, names, info);
      r.warnings == s.warnings && r.refs == s.refs &&
      (x in r.decls <==> x in s.decls || (x != "" && x in names)) &&
      (x != "" && x in names ==> r.decls[x] == info) &&
      (!(x != "" && x in names) && x in s.decls ==> r.decls[x] == s.decls[x])
    decreases |names|
  {
    if names != [] {
      AddDeclsDecls(AddDecl(s, names[0], info), names[1..], info, x);
    }
  }

  lemma {:induction false} AddDeclsKeeps(s: LintState, names: seq<string>, info: DeclInfo)
    ensures AddDecls(s, names, info).warnings == s.warnings && AddDecls(s, names, info).refs == s.refs
    decreases |names|
  {
    if names != [] {
      AddDeclsKeeps(AddDecl(s, names[0], info), names[1..], info);
    }
  }

  /** The walk pushes exactly the rule warnings of its visits. */
  lemma {:induction false} StepsWarnings(s: LintState, vs: seq<Visit>)
    ensures Steps(s, vs).warnings == s.warnings + RuleWarnings(vs)
    decreases |vs|
  {
    if vs != [] {
      var v := vs[0];
      var s1 := s.(warnings := s.warnings + NodeWarnings(v.node));
      AddDeclsKeeps(s1, DeclNames(v.node), DeclInfoOf(v.node));
      assert Step(s, v).warnings == s.warnings + NodeWarnings(v.node);
      StepsWarnings(Step(s, v), vs[1..]);
      AppendAssoc(s.warnings, NodeWarnings(v.node), RuleWarnings(vs[1..]));
    }
  }

  /** The walk counts, for each name, exactly the visits that reference it. */
  lemma {:induction false} StepsRefs(s: LintState, vs: seq<Visit>, x: string)
    ensures RefCount(Steps(s, vs).refs, x) == RefCount(s.refs, x) + Refs(vs, x)
    decreases |vs|
  {
    if vs != [] {
      var v := vs[0];
      var s1 := s.(warnings := s.warnings + NodeWarnings(v.node));
      AddDeclsDecls(s1, DeclNames(v.node), DeclInfoOf(v.node), x);
      StepsRefs(Step(s, v), vs[1..], x);
    }
  }

  /** The walk records a name exactly when some visit declares it, with the `{ kind, line }` of the last such visit. */
  lemma {:induction false} StepsDecls(s: LintState, vs: seq<Visit>, x: string)
    ensures var r := Steps(s, vs);
      (x in r.decls <==> x in s.decls || LastDecl(vs, x).Some?) &&
      (LastDecl(vs, x).Some? ==> r.decls[x] == LastDecl(vs, x).value) &&
      (LastDecl(vs, x).None? && x in s.decls ==> r.decls[x] == s.decls[x])
    decreases |vs|
  {
    if vs != [] {
      var v := vs[0];
      var s1 := s.(warnings := s.warnings + NodeWarnings(v.node));
      AddDeclsDecls(s1, DeclNames(v.node), DeclInfoOf(v.node), x);
      StepsDecls(Step(s, v), vs[1..], x);
    }
  }

  lemma {:induction false} RuleWarningsMembers(vs: seq<Visit>, w: Warning)
    ensures w in RuleWarnings(vs) <==> exists i :: 0 <= i < |vs| && w in NodeWarnings(vs[i].node)
  {
    if vs != [] {
      RuleWarningsMembers(vs[1..], w);
      assert forall i :: 1 <= i < |vs| ==> vs[i] == vs[1..][i - 1];
      if w in RuleWarnings(vs[1..]) {
        var i :| 0 <= i < |vs[1..]| && w in NodeWarnings(vs[1..][i].node);
        assert vs[i + 1] == vs[1..][i];
      }
    }
  }

  /** An unused-variable warning is pushed for a recorded name exactly when it has no reference and no leading `_`. */
  lemma {:induction false} UnusedFromMembers(s: LintState, i: nat, x: string, line: nat)
    requires OrderValid(s) && i <= |s.order|
    ensures Warning(UnusedMessage(x), line) in UnusedFrom(s, i) <==>
      exists j :: i <= j < |s.order| && s.order[j] == x && RefCount(s.refs, x) == 0 && !Underscored(x) && s.decls[x].line == line
    decreases |s.order| - i
  {
    if i < |s.order| {
      UnusedFromMembers(s, i + 1, x, line);
      var name := s.order[i];
      if Warning(UnusedMessage(x), line) == Warning(UnusedMessage(name), s.decls[name].line) {
        UnusedMessageInjective(x, name);
      }
    }
  }

  /** Every warning of `UnusedFrom` is an unused-variable warning for a recorded name. */
  lemma {:induction false} UnusedFromShape(s: LintState, i: nat, w: Warning)
    requires OrderValid(s) && i <= |s.order|
    ensures w in UnusedFrom(s, i) ==> exists x :: x in s.decls && w.message == UnusedMessage(x)
    decreases |s.order| - i
  {
    if i < |s.order| {
      UnusedFromShape(s, i + 1, w);
    }
  }

  lemma UnusedMessageInjective(x: string, y: string)
    requires UnusedMessage(x) == UnusedMessage(y)
    ensures x == y
  {
    var p := "Unused variable '";
    assert |x| == |y|;
    assert x == UnusedMessage(x)[|p|..|p| + |x|];
    assert y == UnusedMessage(y)[|p|..|p| + |y|];
  }

  /** The four kinds of message never coincide. */
  lemma MessagesDistinct(op: string, x: string)
    ensures VarMessage != ConsoleMessage && VarMessage != EqMessage(op) && VarMessage != UnusedMessage(x)
    ensures ConsoleMessage != EqMessage(op) && ConsoleMessage != UnusedMessage(x)
    ensures EqMessage(op) != UnusedMessage(x)
  {
    MessageMarks(op, x);
  }

  /** The characters that tell the four messages apart. */
  lemma MessageMarks(op: string, x: string)
    ensures |VarMessage| > 6 && VarMessage[0] == 'A' && VarMessage[6] == '\''
    ensures |ConsoleMessage| > 6 && ConsoleMessage[0] == 'A' && ConsoleMessage[6] == 'u'
    ensures |EqMessage(op)| > 1 && EqMessage(op)[0] == 'U' && EqMessage(op)[1] == 's'
    ensures |UnusedMessage(x)| > 1 && UnusedMessage(x)[0] == 'U' && UnusedMessage(x)[1] == 'n'
  {
    EqMarks(op);
    UnusedMarks(x);
  }

  lemma EqMarks(op: string)
    ensures |EqMessage(op)| > 1 && EqMessage(op)[0] == 'U' && EqMessage(op)[1] == 's'
  {
    var eq := "Use strict equality (=== / !==) instead of '";
    assert EqMessage(op) == eq + (op + "'");
    assert eq[0] == 'U' && eq[1] == 's';
  }

  lemma UnusedMarks(x: string)
    ensures |UnusedMessage(x)| > 1 && UnusedMessage(x)[0] == 'U' && UnusedMessage(x)[1] == 'n'
  {
    var unused := "Unused variable '";
    assert UnusedMessage(x) == unused + (x + "'");
    assert unused[0] == 'U' && unused[1] == 'n';
  }

  // ---------------------------------------------------------------------
  // The de-duplication key.

  /** A string without `@`. */
  predicate AtFree(s: string)
  {
    '@' !in s
  }

  /** Two warnings whose messages have no `@` have the same key only when they are the same warning. */
  lemma WarningKeyInjective(a: Warning, b: Warning)
    requires AtFree(a.message) && AtFree(b.message) && WarningKey(a) == WarningKey(b)
    ensures a == b
  {
    assert WarningKey(a) == a.message + ("@@" + NatToString(a.line));
    assert WarningKey(b) == b.message + ("@@" + NatToString(b.line));
    AtSplit(a.message, b.message, NatToString(a.line), NatToString(b.line));
    RenderInjective(a.line, b.line);
  }

  /** Text without `@` followed by `@@` can be split back apart. */
  lemma AtSplit(m1: string, m2: string, t1: string, t2: string)
    requires AtFree(m1) && AtFree(m2) && m1 + ("@@" + t1) == m2 + ("@@" + t2)
    ensures m1 == m2 && t1 == t2
  {
    var k := m1 + ("@@" + t1);
    if |m1| < |m2| {
      AtInLonger(m1, m2, t1, t2);
      assert false;
    } else if |m2| < |m1| {
      AtInLonger(m2, m1, t2, t1);
      assert false;
    }
    assert m1 == k[..|m1|] == m2;
    assert t1 == k[|m1| + 2..] == t2;
  }

  // ---------------------------------------------------------------------
  // What the whole analysis reports.

  /** When two `m + "@@" + t` keys are equal, the longer prefix holds the shorter one's `@`. */
  lemma AtInLonger(m1: string, m2: string, t1: string, t2: string)
    requires |m1| < |m2| && m1 + ("@@" + t1) == m2 + ("@@" + t2)
    ensures '@' in m2
  {
    var k := m1 + ("@@" + t1);
    assert k[|m1|] == '@' && k[|m1|] == m2[|m1|];
  }

  /** No name recorded anywhere in the tree contains `@` (no JavaScript identifier does). */
  predicate NamesAtFree(ast: Node)
  {
    forall v, x :: v in Visits(ast, Root) && x in DeclNames(v.node) ==> AtFree(x)
  }

  /** The messages of the three rules contain no `@`. */
  lemma VarMessageAtFree()
    ensures AtFree(VarMessage)
  {
  }

  lemma ConsoleMessageAtFree()
    ensures AtFree(ConsoleMessage)
  {
  }

  lemma EqMessageAtFree(op: string)
    requires op == "==" || op == "!="
    ensures AtFree(EqMessage(op))
  {
    var p := "Use strict equality (=== / !==) instead of '";
    assert EqMessage(op) == p + op + "'";
    assert '@' !in p && '@' !in op;
  }

  /** The rules never push an unused-variable message. */
  lemma {:induction false} RuleWarningsNotUnused(vs: seq<Visit>, w: Warning)
    requires exists x :: w.message == UnusedMessage(x)
    ensures w !in RuleWarnings(vs)
  {
    if vs != [] {
      RuleWarningsNotUnused(vs[1..], w);
      var x :| w.message == UnusedMessage(x);
      var n := vs[0].node;
      MessagesDistinct(if n.k.Binary? then n.k.operator else "", x);
    }
  }

  /** An unused-variable message contains no `@` when the name does not. */
  lemma UnusedMessageAtFree(x: string)
    requires AtFree(x)
    ensures AtFree(UnusedMessage(x))
  {
    var p := "Unused variable '";
    assert UnusedMessage(x) == p + x + "'";
    assert '@' !in p;
  }

  lemma {:induction false} RuleWarningsAtFree(vs: seq<Visit>)
    ensures forall w :: w in RuleWarnings(vs) ==> AtFree(w.message)
  {
    if vs != [] {
      RuleWarningsAtFree(vs[1..]);
      var n := vs[0].node;
      VarMessageAtFree();
      ConsoleMessageAtFree();
      if n.k.Binary? && (n.k.operator == "==" || n.k.operator == "!=") {
        EqMessageAtFree(n.k.operator);
      }
    }
  }

  /** Every message the analysis produces is free of `@` when the recorded names are. */
  lemma RawAtFree(ast: Node)
    requires NamesAtFree(ast)
    ensures forall w :: w in RawWarnings(ast) ==> AtFree(w.message)
  {
    var vs := Visits(ast, Root);
    var s := Walked(ast);
    StepsValid(Start, vs);
    StepsWarnings(Start, vs);
    RuleWarningsAtFree(vs);
    forall w | w in UnusedFrom(s, 0) ensures AtFree(w.message) {
      UnusedFromShape(s, 0, w);
      var x :| x in s.decls && w.message == UnusedMessage(x);
      StepsDecls(Start, vs, x);
      var i :| 0 <= i < |vs| && Declares(vs[i], x);
      assert vs[i] in vs;
      UnusedMessageAtFree(x);
    }
  }

  /** The result holds exactly the warnings produced, each once. */
  lemma LintWarningsMembers(ast: Node)
    requires NamesAtFree(ast)
    ensures forall w :: w in LintWarnings(ast) <==> w in RawWarnings(ast)
    ensures forall i, j :: 0 <= i < j < |LintWarnings(ast)| ==> LintWarnings(ast)[i] != LintWarnings(ast)[j]
  {
    var raw := RawWarnings(ast);
    RawAtFree(ast);
    forall a, b | a in raw && b in raw && WarningKey(a) == WarningKey(b) ensures a == b {
      WarningKeyInjective(a, b);
    }
    DedupInjective(raw, WarningKey);
    DedupDistinct(raw, WarningKey);
  }

  /** no-var: a warning at line `line` exactly when some `var` declaration starts on that line. */
  lemma NoVarRule(ast: Node, line: nat)
    requires NamesAtFree(ast)
    ensures Warning(VarMessage, line) in LintWarnings(ast) <==>
      exists v :: v in Visits(ast, Root) && v.node.k.VarDecl? && v.node.k.kind == Var && v.node.span.startLine == line
  {
    forall x ensures VarMessage != UnusedMessage(x) { MessageMarks("", x); }
    RuleCase(ast, Warning(VarMessage, line));
    forall v: Visit ensures Warning(VarMessage, line) in NodeWarnings(v.node) <==>
      v.node.k.VarDecl? && v.node.k.kind == Var && v.node.span.startLine == line {
      VarWarningAt(v.node, line);
    }
  }

  /** eqeqeq: a warning for `op` at line `line` exactly when some `==` or `!=` comparison with that operator starts on that line. */
  lemma EqEqEqRule(ast: Node, op: string, line: nat)
    requires NamesAtFree(ast)
    ensures Warning(EqMessage(op), line) in LintWarnings(ast) <==>
      (op == "==" || op == "!=") &&
      exists v :: v in Visits(ast, Root) && v.node.k.Binary? && v.node.k.operator == op && v.node.span.startLine == line
  {
    forall x ensures EqMessage(op) != UnusedMessage(x) { MessageMarks(op, x); }
    RuleCase(ast, Warning(EqMessage(op), line));
    forall v: Visit ensures Warning(EqMessage(op), line) in NodeWarnings(v.node) <==>
      (op == "==" || op == "!=") && v.node.k.Binary? && v.node.k.operator == op && v.node.span.startLine == line {
      EqWarningAt(v.node, op, line);
    }
  }

  /** no-console: a warning at line `line` exactly when a member access on the identifier `console` starts on that line. */
  lemma NoConsoleRule(ast: Node, line: nat)
    requires NamesAtFree(ast)
    ensures Warning(ConsoleMessage, line) in LintWarnings(ast) <==>
      exists v :: v in Visits(ast, Root) && v.node.k.Member? && v.node.k.obj.k == Identifier("console") && v.node.span.startLine == line
  {
    forall x ensures ConsoleMessage != UnusedMessage(x) { MessageMarks("", x); }
    RuleCase(ast, Warning(ConsoleMessage, line));
    forall v: Visit ensures Warning(ConsoleMessage, line) in NodeWarnings(v.node) <==>
      v.node.k.Member? && v.node.k.obj.k == Identifier("console") && v.node.span.startLine == line {
      ConsoleWarningAt(v.node, line);
    }
  }

  /** The `var` warning of one visit. */
  lemma VarWarningAt(n: Node, line: nat)
    ensures Warning(VarMessage, line) in NodeWarnings(n) <==>
      n.k.VarDecl? && n.k.kind == Var && n.span.startLine == line
  {
    MessageMarks(if n.k.Binary? then n.k.operator else "", "");
  }

  /** The strict-equality warning of one visit. */
  lemma EqWarningAt(n: Node, op: string, line: nat)
    ensures Warning(EqMessage(op), line) in NodeWarnings(n) <==>
      (op == "==" || op == "!=") && n.k.Binary? && n.k.operator == op && n.span.startLine == line
  {
    MessageMarks(op, "");
    if n.k.Binary? && EqMessage(n.k.operator) == EqMessage(op) {
      EqMessageInjective(n.k.operator, op);
    }
  }

  /** The console warning of one visit. */
  lemma ConsoleWarningAt(n: Node, line: nat)
    ensures Warning(ConsoleMessage, line) in NodeWarnings(n) <==>
      n.k.Member? && n.k.obj.k == Identifier("console") && n.span.startLine == line
  {
    MessageMarks(if n.k.Binary? then n.k.operator else "", "");
  }

  lemma EqMessageInjective(a: string, b: string)
    requires EqMessage(a) == EqMessage(b)
    ensures a == b
  {
    var p := "Use strict equality (=== / !==) instead of '";
    assert |a| == |b|;
    assert a == EqMessage(a)[|p|..|p| + |a|];
    assert b == EqMessage(b)[|p|..|p| + |b|];
  }

  /** A warning that is not an unused-variable warning is in the result exactly when some visit pushes it. */
  lemma RuleCase(ast: Node, w: Warning)
    requires NamesAtFree(ast)
    requires forall x :: w.message != UnusedMessage(x)
    ensures w in LintWarnings(ast) <==> exists v :: v in Visits(ast, Root) && w in NodeWarnings(v.node)
  {
    var vs := Visits(ast, Root);
    var s := Walked(ast);
    LintWarningsMembers(ast);
    StepsValid(Start, vs);
    StepsWarnings(Start, vs);
    RuleWarningsMembers(vs, w);
    UnusedFromShape(s, 0, w);
    if exists v :: v in vs && w in NodeWarnings(v.node) {
      var v :| v in vs && w in NodeWarnings(v.node);
      var i :| 0 <= i < |vs| && vs[i] == v;
    }
  }

  /**
   * no-unused-vars: a warning for `x` at line `line` exactly when some
   * declaration or parameter list records `x`, the last one to do so is on
   * that line, no identifier in a reference position is named `x`, and `x`
   * does not start with `_`.
   */
  lemma UnusedRule(ast: Node, x: string, line: nat)
    requires NamesAtFree(ast)
    ensures Warning(UnusedMessage(x), line) in LintWarnings(ast) <==>
      var vs := Visits(ast, Root);
      LastDecl(vs, x).Some? && LastDecl(vs, x).value.line == line && !Underscored(x) &&
      forall i :: 0 <= i < |vs| ==> RefName(vs[i]) != Some(x)
  {
    var vs := Visits(ast, Root);
    var s := Walked(ast);
    StepsValid(Start, vs);
    UnusedCase(ast, x, line);
    StepsDecls(Start, vs, x);
    StepsRefs(Start, vs, x);
    RefsZero(vs, x);
    UnusedFromMembers(s, 0, x, line);
  }

  /** An unused-variable warning is in the result exactly when the final pass over `declared` pushes it. */
  lemma UnusedCase(ast: Node, x: string, line: nat)
    requires NamesAtFree(ast)
    ensures OrderValid(Walked(ast))
    ensures Warning(UnusedMessage(x), line) in LintWarnings(ast) <==> Warning(UnusedMessage(x), line) in UnusedFrom(Walked(ast), 0)
  {
    var vs := Visits(ast, Root);
    var w := Warning(UnusedMessage(x), line);
    LintWarningsMembers(ast);
    StepsValid(Start, vs);
    StepsWarnings(Start, vs);
    RuleWarningsNotUnused(vs, w);
  }
}
