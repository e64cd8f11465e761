/**
 * `findUndeclaredVars`: a pre-order walk over the syntax tree that keeps a
 * stack of frames (sets of declared names), reports every identifier used as
 * a reference whose name is neither a known global nor in an open frame at
 * the moment it is visited, and finally keeps one report per name.
 *
 * Three layers:
 *  - `Walked` is the walk as a function of the stack and the report list;
 *  - `Resolve` is an independent reference semantics over a plain set of
 *    visible names, where a block's declarations simply do not flow out of it;
 *  - `UndeclaredFinder` is the walk with its state in fields, updated in place.
 * `WalkedIsResolve` proves the first two agree; the methods are proved
 * against `Walked`.
 */
module ScopeResolver {
  import opened Wrappers
  import opened Ast
  import opened Patterns
  import opened KeepFirst

  /** The hard-coded `GLOBALS` set (its literal lists `JSON` twice). */
  const Globals: set<string> := {
    "console", "Math", "JSON", "Number", "String", "Boolean", "Array", "Object", "Date",
    "performance", "localStorage", "setTimeout", "clearTimeout", "document", "window",
    "fetch", "setInterval", "clearInterval", "PROBLEMS", "deepEqual", "calibrateMachine",
    "downloadJSON", "alert", "prompt", "confirm"
  }

  /** One entry of the `undeclared` list: `{ name, line }`. */
  datatype Finding = Finding(name: string, line: nat)

  /** The walk's mutable state: the frame stack (bottom first) and the reports so far. */
  datatype Walker = Walker(scopes: seq<set<string>>, found: seq<Finding>)

  /** `isDeclared(name)`: a global, or in some frame of the stack. */
  predicate Declared(scopes: seq<set<string>>, name: string)
  {
    name in Globals || exists i :: 0 <= i < |scopes| && name in scopes[i]
  }

  function Push(w: Walker): (r: Walker)
    ensures r.scopes == w.scopes + [{}] && r.found == w.found
  {
    w.(scopes := w.scopes + [{}])
  }

  /** `scopeStack.pop()`: drops the top frame; an empty stack stays empty. */
  function Pop(w: Walker): (r: Walker)
    ensures |w.scopes| >= 1 ==> r.scopes == w.scopes[..|w.scopes| - 1]
    ensures |w.scopes| == 0 ==> r.scopes == []
    ensures r.found == w.found
  {
    if |w.scopes| == 0 then w else w.(scopes := w.scopes[..|w.scopes| - 1])
  }

  /** `declare(name)`: adds `name` to the top frame and to no other. */
  function Bind(w: Walker, name: string): (r: Walker)
    requires |w.scopes| >= 1
    ensures |r.scopes| == |w.scopes| && r.found == w.found
    ensures r.scopes[..|w.scopes| - 1] == w.scopes[..|w.scopes| - 1]
    ensures r.scopes[|w.scopes| - 1] == w.scopes[|w.scopes| - 1] + {name}
  {
    var top := |w.scopes| - 1;
    w.(scopes := w.scopes[top := w.scopes[top] + {name}])
  }

  /** `names.forEach(n => declare(n))`: the top frame gains exactly the listed names. */
  function BindAll(w: Walker, names: seq<string>): (r: Walker)
    requires |w.scopes| >= 1
    ensures |r.scopes| == |w.scopes| && r.found == w.found
    ensures r.scopes[..|w.scopes| - 1] == w.scopes[..|w.scopes| - 1]
    ensures r.scopes[|w.scopes| - 1] == w.scopes[|w.scopes| - 1] + set x | x in names
    decreases |names|
  {
    if names == [] then w
    else
      var r := BindAll(Bind(w, names[0]), names[1..]);
      assert (set x | x in names) == {names[0]} + set x | x in names[1..];
      r
  }

  /** `if (node.id && node.id.name) declare(node.id.name)`. */
  function BindId(w: Walker, id: Option<Node>): (r: Walker)
    requires |w.scopes| >= 1
    ensures Extends(w, r) && r.found == w.found
  {
    var x := IdentName(id);
    if x.Some? && x.value != "" then Bind(w, x.value) else w
  }

  /** The names `BindId` adds. */
  function IdNames(id: Option<Node>): set<string>
  {
    var x := IdentName(id);
    if x.Some? && x.value != "" then {x.value} else {}
  }

  /**
   * The positions where an identifier is not a reference: no parent, the `id`
   * of a declarator, function declaration or class declaration, any child of
   * an import specifier, a non-computed member property or property key.
   */
  predicate ResolverSkips(ctx: Ctx)
  {
    ctx.Root? || IsDeclarationId(ctx) || IsImportSpecifier(ctx.parent) || IsPropertyName(ctx)
  }

  /** The report a visit of `n` in `ctx` adds, given the names visible. */
  function Report(n: Node, ctx: Ctx, visible: string -> bool): seq<Finding>
  {
    if n.k.Identifier? && !ResolverSkips(ctx) && !visible(n.k.name) then [Finding(n.k.name, n.span.startLine)] else []
  }

  /** The names visible in the reference semantics: the globals and `env`. */
  function InEnv(env: set<string>): string -> bool
  {
    x => x in Globals || x in env
  }

  /** The identifier check of the default branch. */
  function Check(n: Node, ctx: Ctx, w: Walker): Walker
  {
    w.(found := w.found + Report(n, ctx, x => Declared(w.scopes, x)))
  }

  /**
   * What every walk step keeps: the stack has the same depth, the frames
   * below the top are untouched, the top frame only gains names, and reports
   * are only appended, none of them naming a global.
   */
  predicate Extends(w: Walker, r: Walker)
  {
    |w.scopes| >= 1 && |r.scopes| == |w.scopes| &&
    r.scopes[..|w.scopes| - 1] == w.scopes[..|w.scopes| - 1] &&
    w.scopes[|w.scopes| - 1] <= r.scopes[|w.scopes| - 1] &&
    w.found <= r.found &&
    forall i :: |w.found| <= i < |r.found| ==> r.found[i].name !in Globals
  }

  /** The identifier check only appends, and never a global. */
  lemma CheckExtends(n: Node, ctx: Ctx, w: Walker)
    requires |w.scopes| >= 1
    ensures Extends(w, Check(n, ctx, w))
  {
    var r := Check(n, ctx, w);
    assert forall i :: |w.found| <= i < |r.found| ==> r.found[i] == Finding(n.k.name, n.span.startLine);
  }

  lemma ExtendsTrans(a: Walker, b: Walker, c: Walker)
    requires Extends(a, b) && Extends(b, c)
    ensures Extends(a, c)
  {
    var k := |a.scopes| - 1;
    assert a.scopes[..k] == b.scopes[..k] == c.scopes[..k];
    assert forall i :: |b.found| <= i < |c.found| ==> c.found[i].name !in Globals;
    assert forall i :: |a.found| <= i < |b.found| ==> c.found[i] == b.found[i];
  }

  /** Declaring into a pushed frame and popping it again leaves the stack as it was. */
  lemma PushedFrameDiscarded(w: Walker, names: seq<string>, r: Walker)
    requires |w.scopes| >= 1 && Extends(BindAll(Push(w), names), r)
    ensures Pop(r).scopes == w.scopes && Extends(w, Pop(r))
  {
    var p := BindAll(Push(w), names);
    assert |p.scopes| == |w.scopes| + 1;
    assert p.scopes[..|w.scopes|] == w.scopes;
    assert r.scopes[..|w.scopes|] == w.scopes;
  }

  /** The state after `walk(n, parent)`, for the walk's own case analysis. */
  function Walked(n: Node, ctx: Ctx, w: Walker): (r: Walker)
    requires |w.scopes| >= 1
    ensures Extends(w, r)
    decreases n, 2
  {
    match n.k
    case Program(_) => WalkedKids(n, 0, w)
    case Block(_) =>
      var r := WalkedKids(n, 0, Push(w));
      PushedFrameDiscarded(w, [], r);
      Pop(r)
    case FunctionDecl(id, params, body) =>
      var w1 := BindId(w, id);
      var r := Walked(body, Under(n, PlainSlot), BindAll(Push(w1), ParamsNames(params)));
      PushedFrameDiscarded(w1, ParamsNames(params), r);
      ExtendsTrans(w, w1, Pop(r));
      Pop(r)
    case FunctionExpr(_, params, body) =>
      var r := Walked(body, Under(n, PlainSlot), BindAll(Push(w), ParamsNames(params)));
      PushedFrameDiscarded(w, ParamsNames(params), r);
      Pop(r)
    case Arrow(params, body) =>
      var r := Walked(body, Under(n, PlainSlot), BindAll(Push(w), ParamsNames(params)));
      PushedFrameDiscarded(w, ParamsNames(params), r);
      Pop(r)
    case VarDecl(_, _) => WalkedDecls(n, 0, w)
    case ClassDecl(id, _, body) =>
      var w1 := BindId(w, id);
      var r := Walked(body, Under(n, PlainSlot), w1);
      ExtendsTrans(w, w1, r);
      r
    case Catch(param, body) =>
      var r := Walked(body, Under(n, PlainSlot), BindAll(Push(w), OptionNames(param)));
      PushedFrameDiscarded(w, OptionNames(param), r);
      Pop(r)
    case _ =>
      var w1 := Check(n, ctx, w);
      CheckExtends(n, ctx, w);
      var r := WalkedKids(n, 0, w1);
      ExtendsTrans(w, w1, r);
      r
  }

  /** The generic loop over the children of `n`, from the `i`-th on, each walked with `n` as parent. */
  function WalkedKids(n: Node, i: nat, w: Walker): (r: Walker)
    requires i <= |Kids(n)| && |w.scopes| >= 1
    ensures Extends(w, r)
    decreases n, 0, |Kids(n)| - i
  {
    if i == |Kids(n)| then w
    else
      assert Kids(n)[i] in Kids(n);
      var w1 := Walked(Kids(n)[i].node, KidCtx(n, i), w);
      var r := WalkedKids(n, i + 1, w1);
      ExtendsTrans(w, w1, r);
      r
  }

  /** The declarator's `id` (a non-declarator entry has none). */
  function DeclTarget(d: Node): Option<Node>
  {
    if d.k.Declarator? then Some(d.k.target) else None
  }

  /**
   * The loop over `node.declarations` from the `i`-th on: declare the
   * declarator's names, then walk its initializer with the declaration as parent.
   */
  function WalkedDecls(n: Node, i: nat, w: Walker): (r: Walker)
    requires n.k.VarDecl? && i <= |n.k.declarations| && |w.scopes| >= 1
    ensures Extends(w, r)
    decreases n, 1, |n.k.declarations| - i
  {
    if i == |n.k.declarations| then w
    else
      var d := n.k.declarations[i];
      var w1 := BindAll(w, OptionNames(DeclTarget(d)));
      var w2 := if d.k.Declarator? && d.k.init.Some? then Walked(d.k.init.value, Under(n, PlainSlot), w1) else w1;
      var r := WalkedDecls(n, i + 1, w2);
      ExtendsTrans(w, w1, w2);
      ExtendsTrans(w, w2, r);
      r
  }

  // ---------------------------------------------------------------------
  // Reference semantics: a set of visible names instead of a stack of frames.

  /** The union of all frames of the stack. */
  function Flatten(scopes: seq<set<string>>): set<string>
  {
    if scopes == [] then {} else Flatten(scopes[..|scopes| - 1]) + scopes[|scopes| - 1]
  }

  /** A name is in the union exactly when some frame holds it. */
  lemma {:induction false} FlattenMembers(scopes: seq<set<string>>, x: string)
    ensures x in Flatten(scopes) <==> exists i :: 0 <= i < |scopes| && x in scopes[i]
  {
    if scopes != [] {
      var init := scopes[..|scopes| - 1];
      FlattenMembers(init, x);
      if x in Flatten(init) {
        var i :| 0 <= i < |init| && x in init[i];
        assert scopes[i] == init[i];
      }
      if exists i :: 0 <= i < |scopes| && x in scopes[i] {
        var i :| 0 <= i < |scopes| && x in scopes[i];
        if i < |init| { assert init[i] == scopes[i]; }
      }
    }
  }

  /**
   * What walking a node does, with `env` the names visible when it starts:
   * the reports it makes, in order, and the names it binds in the scope it
   * was reached in (a block, function or catch clause binds none outside).
   */
  datatype Outcome = Outcome(found: seq<Finding>, bound: set<string>)

  /** One outcome followed by another. */
  function Then(a: Outcome, b: Outcome): Outcome
  {
    Outcome(a.found + b.found, a.bound + b.bound)
  }

  function Resolve(n: Node, ctx: Ctx, env: set<string>): Outcome
    decreases n, 2
  {
    match n.k
    case Program(_) => ResolveKids(n, 0, env)
    case Block(_) => Outcome(ResolveKids(n, 0, env).found, {})
    case FunctionDecl(id, params, body) =>
      var b := IdNames(id);
      Outcome(Resolve(body, Under(n, PlainSlot), env + b + (set x | x in ParamsNames(params))).found, b)
    case FunctionExpr(_, params, body) =>
      Outcome(Resolve(body, Under(n, PlainSlot), env + (set x | x in ParamsNames(params))).found, {})
    case Arrow(params, body) =>
      Outcome(Resolve(body, Under(n, PlainSlot), env + (set x | x in ParamsNames(params))).found, {})
    case VarDecl(_, _) => ResolveDecls(n, 0, env)
    case ClassDecl(id, _, body) =>
      var b := IdNames(id);
      var o := Resolve(body, Under(n, PlainSlot), env + b);
      Outcome(o.found, b + o.bound)
    case Catch(param, body) =>
      Outcome(Resolve(body, Under(n, PlainSlot), env + (set x | x in OptionNames(param))).found, {})
    case _ =>
      Then(Outcome(Report(n, ctx, InEnv(env)), {}), ResolveKids(n, 0, env))
  }

  function ResolveKids(n: Node, i: nat, env: set<string>): Outcome
    requires i <= |Kids(n)|
    decreases n, 0, |Kids(n)| - i
  {
    if i == |Kids(n)| then Outcome([], {})
    else
      assert Kids(n)[i] in Kids(n);
      var o := Resolve(Kids(n)[i].node, KidCtx(n, i), env);
      Then(o, ResolveKids(n, i + 1, env + o.bound))
  }

  function ResolveDecls(n: Node, i: nat, env: set<string>): Outcome
    requires n.k.VarDecl? && i <= |n.k.declarations|
    decreases n, 1, |n.k.declarations| - i
  {
    if i == |n.k.declarations| then Outcome([], {})
    else
      var d := n.k.declarations[i];
      var b := set x | x in OptionNames(DeclTarget(d));
      var o := if d.k.Declarator? && d.k.init.Some? then Resolve(d.k.init.value, Under(n, PlainSlot), env + b) else Outcome([], {});
      Then(Outcome(o.found, b + o.bound), ResolveDecls(n, i + 1, env + b + o.bound))
  }

  /** The walker state an outcome produces from `w`: reports appended, bound names added to the top frame. */
  function Lift(w: Walker, o: Outcome): Walker
    requires |w.scopes| >= 1
  {
    var top := |w.scopes| - 1;
    Walker(w.scopes[..top] + [w.scopes[top] + o.bound], w.found + o.found)
  }

  lemma FlattenLift(w: Walker, o: Outcome)
    requires |w.scopes| >= 1
    ensures |Lift(w, o).scopes| == |w.scopes|
    ensures Flatten(Lift(w, o).scopes) == Flatten(w.scopes) + o.bound
  {
  }

  lemma LiftThen(w: Walker, a: Outcome, b: Outcome)
    requires |w.scopes| >= 1
    ensures Lift(Lift(w, a), b) == Lift(w, Then(a, b))
  {
    var top := |w.scopes| - 1;
    var la := Lift(w, a);
    assert la.scopes[..top] == w.scopes[..top];
    assert la.scopes[top] == w.scopes[top] + a.bound;
    assert la.scopes[top] + b.bound == w.scopes[top] + (a.bound + b.bound);
    assert la.found + b.found == w.found + (a.found + b.found);
  }

  /** A walker state that differs from `w` only by a grown top frame and appended reports is a lift of `w`. */
  lemma LiftShape(w: Walker, r: Walker, found: seq<Finding>, bound: set<string>)
    requires |w.scopes| >= 1 && |r.scopes| == |w.scopes|
    requires r.scopes[..|w.scopes| - 1] == w.scopes[..|w.scopes| - 1]
    requires r.scopes[|w.scopes| - 1] == w.scopes[|w.scopes| - 1] + bound
    requires r.found == w.found + found
    ensures r == Lift(w, Outcome(found, bound))
  {
    var top := |w.scopes| - 1;
    assert r.scopes == r.scopes[..top] + [r.scopes[top]];
  }

  lemma BindAllLift(w: Walker, names: seq<string>)
    requires |w.scopes| >= 1
    ensures BindAll(w, names) == Lift(w, Outcome([], set x | x in names))
  {
    LiftShape(w, BindAll(w, names), [], set x | x in names);
  }

  lemma BindIdLift(w: Walker, id: Option<Node>)
    requires |w.scopes| >= 1
    ensures BindId(w, id) == Lift(w, Outcome([], IdNames(id)))
  {
    var x := IdentName(id);
    if x.Some? && x.value != "" {
      LiftShape(w, BindId(w, id), [], {x.value});
    } else {
      LiftShape(w, w, [], {});
    }
  }

  /** A frame pushed, filled with `names` and the body's bindings, then popped, leaves only the body's reports. */
  lemma PushPopLift(w: Walker, names: seq<string>, o: Outcome)
    requires |w.scopes| >= 1
    ensures Flatten(BindAll(Push(w), names).scopes) == Flatten(w.scopes) + set x | x in names
    ensures Pop(Lift(BindAll(Push(w), names), o)) == Lift(w, Outcome(o.found, {}))
  {
    var n := Outcome([], set x | x in names);
    BindAllLift(Push(w), names);
    PushedNamesVisible(w, n);
    LiftThen(Push(w), n, o);
    PushPopScopes(w, Then(n, o));
    assert Then(n, o).found == o.found;
  }

  lemma PushedNamesVisible(w: Walker, n: Outcome)
    requires |w.scopes| >= 1
    ensures Flatten(Lift(Push(w), n).scopes) == Flatten(w.scopes) + n.bound
  {
    FlattenLift(Push(w), n);
    assert Push(w).scopes[..|w.scopes|] == w.scopes;
    assert Flatten(Push(w).scopes) == Flatten(w.scopes) + {};
  }

  /** The check of a visited identifier sees exactly the names of `Flatten` and the globals. */
  lemma CheckLift(n: Node, ctx: Ctx, w: Walker)
    requires |w.scopes| >= 1
    ensures Check(n, ctx, w) == Lift(w, Outcome(Report(n, ctx, InEnv(Flatten(w.scopes))), {}))
  {
    var env := Flatten(w.scopes);
    if n.k.Identifier? {
      FlattenMembers(w.scopes, n.k.name);
    }
    assert Report(n, ctx, x => Declared(w.scopes, x)) == Report(n, ctx, InEnv(env));
    LiftShape(w, Check(n, ctx, w), Report(n, ctx, InEnv(env)), {});
  }

  lemma PushPopScopes(w: Walker, o: Outcome)
    requires |w.scopes| >= 1
    ensures Flatten(Push(w).scopes) == Flatten(w.scopes)
    ensures Pop(Lift(Push(w), o)) == Lift(w, Outcome(o.found, {}))
  {
    assert Push(w).scopes[..|w.scopes|] == w.scopes;
    var top := |w.scopes| - 1;
    assert w.scopes[top] + {} == w.scopes[top];
    assert w.scopes == w.scopes[..top] + [w.scopes[top]];
  }

  // One unfolding lemma per branch of `walk`, for `Walked` and for `Resolve`.

  lemma WalkedBlock(n: Node, ctx: Ctx, w: Walker)
    requires n.k.Block? && |w.scopes| >= 1
    ensures Walked(n, ctx, w) == Pop(WalkedKids(n, 0, Push(w)))
  {
  }

  lemma ResolveBlock(n: Node, ctx: Ctx, env: set<string>)
    requires n.k.Block?
    ensures Resolve(n, ctx, env) == Outcome(ResolveKids(n, 0, env).found, {})
  {
  }

  /** The parameters or catch parameter a function or catch clause binds in its own frame. */
  function FrameNames(n: Node): seq<string>
  {
    match n.k
    case FunctionDecl(_, params, _) => ParamsNames(params)
    case FunctionExpr(_, params, _) => ParamsNames(params)
    case Arrow(params, _) => ParamsNames(params)
    case Catch(param, _) => OptionNames(param)
    case _ => []
  }

  /** Function expressions, arrows and catch clauses: a frame around the body, nothing bound outside. */
  predicate IsFrameKind(n: Node)
  {
    n.k.FunctionExpr? || n.k.Arrow? || n.k.Catch?
  }

  function FrameBody(n: Node): (b: Node)
    requires IsFrameKind(n) || n.k.FunctionDecl?
    ensures n decreases to b
  {
    if n.k.Catch? then n.k.catchBody else n.k.fnBody
  }

  lemma WalkedFrame(n: Node, ctx: Ctx, w: Walker)
    requires IsFrameKind(n) && |w.scopes| >= 1
    ensures Walked(n, ctx, w) == Pop(Walked(FrameBody(n), Under(n, PlainSlot), BindAll(Push(w), FrameNames(n))))
  {
  }

  lemma ResolveFrame(n: Node, ctx: Ctx, env: set<string>)
    requires IsFrameKind(n)
    ensures Resolve(n, ctx, env)
         == Outcome(Resolve(FrameBody(n), Under(n, PlainSlot), env + set x | x in FrameNames(n)).found, {})
  {
  }

  lemma WalkedFunctionDecl(n: Node, ctx: Ctx, w: Walker)
    requires n.k.FunctionDecl? && |w.scopes| >= 1
    ensures Walked(n, ctx, w)
         == Pop(Walked(n.k.fnBody, Under(n, PlainSlot), BindAll(Push(BindId(w, n.k.id)), FrameNames(n))))
  {
  }

  lemma ResolveFunctionDecl(n: Node, ctx: Ctx, env: set<string>)
    requires n.k.FunctionDecl?
    ensures Resolve(n, ctx, env)
         == Outcome(Resolve(n.k.fnBody, Under(n, PlainSlot), env + IdNames(n.k.id) + set x | x in FrameNames(n)).found, IdNames(n.k.id))
  {
  }

  lemma WalkedClassDecl(n: Node, ctx: Ctx, w: Walker)
    requires n.k.ClassDecl? && |w.scopes| >= 1
    ensures Walked(n, ctx, w) == Walked(n.k.classBody, Under(n, PlainSlot), BindId(w, n.k.id))
  {
  }

  lemma ResolveClassDecl(n: Node, ctx: Ctx, env: set<string>)
    requires n.k.ClassDecl?
    ensures var o := Resolve(n.k.classBody, Under(n, PlainSlot), env + IdNames(n.k.id));
      Resolve(n, ctx, env) == Outcome(o.found, IdNames(n.k.id) + o.bound)
  {
  }

  /** The node kinds `walk` leaves to its `default` branch. */
  predicate IsDefaultKind(n: Node)
  {
    !(n.k.Program? || n.k.Block? || n.k.FunctionDecl? || n.k.FunctionExpr? || n.k.Arrow? ||
      n.k.VarDecl? || n.k.ClassDecl? || n.k.Catch?)
  }

  lemma WalkedDefault(n: Node, ctx: Ctx, w: Walker)
    requires IsDefaultKind(n) && |w.scopes| >= 1
    ensures Walked(n, ctx, w) == WalkedKids(n, 0, Check(n, ctx, w))
  {
  }

  lemma ResolveDefault(n: Node, ctx: Ctx, env: set<string>)
    requires IsDefaultKind(n)
    ensures Resolve(n, ctx, env) == Then(Outcome(Report(n, ctx, InEnv(env)), {}), ResolveKids(n, 0, env))
  {
  }

  // The branches of the agreement proof, each given the agreement for the sub-walk it makes.

  lemma BlockCase(n: Node, ctx: Ctx, w: Walker)
    requires n.k.Block? && |w.scopes| >= 1
    requires WalkedKids(n, 0, Push(w)) == Lift(Push(w), ResolveKids(n, 0, Flatten(Push(w).scopes)))
    ensures Walked(n, ctx, w) == Lift(w, Resolve(n, ctx, Flatten(w.scopes)))
  {
    WalkedBlock(n, ctx, w);
    ResolveBlock(n, ctx, Flatten(w.scopes));
    PushPopScopes(w, ResolveKids(n, 0, Flatten(w.scopes)));
  }

  /** A frame pushed around `body`: only the body's reports survive the pop. */
  lemma FrameCase(w: Walker, names: seq<string>, body: Node, bctx: Ctx)
    requires |w.scopes| >= 1
    requires var p := BindAll(Push(w), names);
      Walked(body, bctx, p) == Lift(p, Resolve(body, bctx, Flatten(p.scopes)))
    ensures Pop(Walked(body, bctx, BindAll(Push(w), names)))
         == Lift(w, Outcome(Resolve(body, bctx, Flatten(w.scopes) + set x | x in names).found, {}))
  {
    PushPopLift(w, names, Resolve(body, bctx, Flatten(w.scopes) + set x | x in names));
  }

  lemma FunctionDeclCase(n: Node, ctx: Ctx, w: Walker)
    requires n.k.FunctionDecl? && |w.scopes| >= 1
    requires var p := BindAll(Push(BindId(w, n.k.id)), FrameNames(n));
      Walked(n.k.fnBody, Under(n, PlainSlot), p) == Lift(p, Resolve(n.k.fnBody, Under(n, PlainSlot), Flatten(p.scopes)))
    ensures Walked(n, ctx, w) == Lift(w, Resolve(n, ctx, Flatten(w.scopes)))
  {
    var env, b := Flatten(w.scopes), IdNames(n.k.id);
    var w1 := BindId(w, n.k.id);
    WalkedFunctionDecl(n, ctx, w);
    ResolveFunctionDecl(n, ctx, env);
    BindIdLift(w, n.k.id);
    FlattenLift(w, Outcome([], b));
    FrameCase(w1, FrameNames(n), n.k.fnBody, Under(n, PlainSlot));
    var o := Resolve(n.k.fnBody, Under(n, PlainSlot), env + b + set x | x in FrameNames(n));
    LiftThen(w, Outcome([], b), Outcome(o.found, {}));
    assert Then(Outcome([], b), Outcome(o.found, {})) == Outcome(o.found, b);
  }

  lemma ClassDeclCase(n: Node, ctx: Ctx, w: Walker)
    requires n.k.ClassDecl? && |w.scopes| >= 1
    requires var w1 := BindId(w, n.k.id);
      Walked(n.k.classBody, Under(n, PlainSlot), w1) == Lift(w1, Resolve(n.k.classBody, Under(n, PlainSlot), Flatten(w1.scopes)))
    ensures Walked(n, ctx, w) == Lift(w, Resolve(n, ctx, Flatten(w.scopes)))
  {
    var env, b := Flatten(w.scopes), IdNames(n.k.id);
    WalkedClassDecl(n, ctx, w);
    ResolveClassDecl(n, ctx, env);
    BindIdLift(w, n.k.id);
    FlattenLift(w, Outcome([], b));
    var o := Resolve(n.k.classBody, Under(n, PlainSlot), env + b);
    LiftThen(w, Outcome([], b), o);
    assert Then(Outcome([], b), o) == Outcome(o.found, b + o.bound);
  }

  lemma DefaultCase(n: Node, ctx: Ctx, w: Walker)
    requires IsDefaultKind(n) && |w.scopes| >= 1
    requires var w1 := Check(n, ctx, w);
      WalkedKids(n, 0, w1) == Lift(w1, ResolveKids(n, 0, Flatten(w1.scopes)))
    ensures Walked(n, ctx, w) == Lift(w, Resolve(n, ctx, Flatten(w.scopes)))
  {
    var env := Flatten(w.scopes);
    var rep := Outcome(Report(n, ctx, InEnv(env)), {});
    WalkedDefault(n, ctx, w);
    ResolveDefault(n, ctx, env);
    CheckLift(n, ctx, w);
    FlattenLift(w, rep);
    assert env + {} == env;
    LiftThen(w, rep, ResolveKids(n, 0, env));
  }

  /**
   * The stack walk and the reference semantics agree: walking `n` from any
   * stack appends exactly `Resolve`'s reports for the union of the open
   * frames, and adds exactly its bindings to the top frame.
   */
  lemma {:induction false} WalkedIsResolve(n: Node, ctx: Ctx, w: Walker)
    requires |w.scopes| >= 1
    ensures Walked(n, ctx, w) == Lift(w, Resolve(n, ctx, Flatten(w.scopes)))
    decreases n, 2
  {
    if n.k.Program? {
      WalkedKidsIsResolve(n, 0, w);
    } else if n.k.Block? {
      WalkedKidsIsResolve(n, 0, Push(w));
      BlockCase(n, ctx, w);
    } else if n.k.FunctionDecl? {
      WalkedIsResolve(n.k.fnBody, Under(n, PlainSlot), BindAll(Push(BindId(w, n.k.id)), FrameNames(n)));
      FunctionDeclCase(n, ctx, w);
    } else if IsFrameKind(n) {
      var p := BindAll(Push(w), FrameNames(n));
      WalkedIsResolve(FrameBody(n), Under(n, PlainSlot), p);
      WalkedFrame(n, ctx, w);
      ResolveFrame(n, ctx, Flatten(w.scopes));
      FrameCase(w, FrameNames(n), FrameBody(n), Under(n, PlainSlot));
    } else if n.k.VarDecl? {
      WalkedDeclsIsResolve(n, 0, w);
    } else if n.k.ClassDecl? {
      WalkedIsResolve(n.k.classBody, Under(n, PlainSlot), BindId(w, n.k.id));
      ClassDeclCase(n, ctx, w);
    } else {
      WalkedKidsIsResolve(n, 0, Check(n, ctx, w));
      DefaultCase(n, ctx, w);
    }
  }

  lemma {:induction false} WalkedKidsIsResolve(n: Node, i: nat, w: Walker)
    requires i <= |Kids(n)| && |w.scopes| >= 1
    ensures WalkedKids(n, i, w) == Lift(w, ResolveKids(n, i, Flatten(w.scopes)))
    decreases n, 0, |Kids(n)| - i
  {
    if i == |Kids(n)| {
      LiftShape(w, w, [], {});
    } else {
      assert Kids(n)[i] in Kids(n);
      var env := Flatten(w.scopes);
      var o := Resolve(Kids(n)[i].node, KidCtx(n, i), env);
      WalkedIsResolve(Kids(n)[i].node, KidCtx(n, i), w);
      FlattenLift(w, o);
      WalkedKidsIsResolve(n, i + 1, Lift(w, o));
      LiftThen(w, o, ResolveKids(n, i + 1, env + o.bound));
    }
  }

  /** The initializer of the `i`-th declarator, when it has one. */
  function DeclInit(n: Node, i: nat): (r: Option<Node>)
    requires n.k.VarDecl? && i < |n.k.declarations|
    ensures r.Some? ==> (n decreases to r.value)
  {
    var d := n.k.declarations[i];
    if d.k.Declarator? && d.k.init.Some? then Some(d.k.init.value) else None
  }

  lemma WalkedDeclsStep(n: Node, i: nat, w: Walker)
    requires n.k.VarDecl? && i < |n.k.declarations| && |w.scopes| >= 1
    ensures var w1 := BindAll(w, OptionNames(DeclTarget(n.k.declarations[i])));
      var init := DeclInit(n, i);
      WalkedDecls(n, i, w)
        == WalkedDecls(n, i + 1, if init.Some? then Walked(init.value, Under(n, PlainSlot), w1) else w1)
  {
  }

  lemma ResolveDeclsStep(n: Node, i: nat, env: set<string>)
    requires n.k.VarDecl? && i < |n.k.declarations|
    ensures var b := set x | x in OptionNames(DeclTarget(n.k.declarations[i]));
      var init := DeclInit(n, i);
      var o := if init.Some? then Resolve(init.value, Under(n, PlainSlot), env + b) else Outcome([], {});
      ResolveDecls(n, i, env) == Then(Outcome(o.found, b + o.bound), ResolveDecls(n, i + 1, env + b + o.bound))
  {
  }

  /** One declarator: declare its names, then walk its initializer. */
  lemma DeclaratorStep(w: Walker, names: seq<string>, init: Option<Node>, ictx: Ctx)
    requires |w.scopes| >= 1
    requires var w1 := BindAll(w, names);
      init.Some? ==> Walked(init.value, ictx, w1) == Lift(w1, Resolve(init.value, ictx, Flatten(w1.scopes)))
    ensures var b := set x | x in names;
      var w1 := BindAll(w, names);
      var o := if init.Some? then Resolve(init.value, ictx, Flatten(w.scopes) + b) else Outcome([], {});
      (if init.Some? then Walked(init.value, ictx, w1) else w1) == Lift(w, Outcome(o.found, b + o.bound))
  {
    var b := set x | x in names;
    var w1 := BindAll(w, names);
    BindAllLift(w, names);
    FlattenLift(w, Outcome([], b));
    var o := if init.Some? then Resolve(init.value, ictx, Flatten(w.scopes) + b) else Outcome([], {});
    if init.None? {
      LiftShape(w1, w1, [], {});
    }
    LiftThen(w, Outcome([], b), o);
    assert Then(Outcome([], b), o) == Outcome(o.found, b + o.bound);
  }

  lemma DeclsCase(n: Node, i: nat, w: Walker)
    requires n.k.VarDecl? && i < |n.k.declarations| && |w.scopes| >= 1
    requires var w1 := BindAll(w, OptionNames(DeclTarget(n.k.declarations[i])));
      DeclInit(n, i).Some? ==>
        Walked(DeclInit(n, i).value, Under(n, PlainSlot), w1)
        == Lift(w1, Resolve(DeclInit(n, i).value, Under(n, PlainSlot), Flatten(w1.scopes)))
    requires var b := set x | x in OptionNames(DeclTarget(n.k.declarations[i]));
      var init := DeclInit(n, i);
      var o := if init.Some? then Resolve(init.value, Under(n, PlainSlot), Flatten(w.scopes) + b) else Outcome([], {});
      var w2 := Lift(w, Outcome(o.found, b + o.bound));
      WalkedDecls(n, i + 1, w2) == Lift(w2, ResolveDecls(n, i + 1, Flatten(w.scopes) + b + o.bound))
    ensures WalkedDecls(n, i, w) == Lift(w, ResolveDecls(n, i, Flatten(w.scopes)))
  {
    var env := Flatten(w.scopes);
    var names := OptionNames(DeclTarget(n.k.declarations[i]));
    var b := set x | x in names;
    var init := DeclInit(n, i);
    var o := if init.Some? then Resolve(init.value, Under(n, PlainSlot), env + b) else Outcome([], {});
    var a := Outcome(o.found, b + o.bound);
    var w1 := BindAll(w, names);
    var w2 := if init.Some? then Walked(init.value, Under(n, PlainSlot), w1) else w1;
    var rest := ResolveDecls(n, i + 1, env + b + o.bound);
    assert w2 == Lift(w, a) by {
      DeclaratorStep(w, names, init, Under(n, PlainSlot));
    }
    assert WalkedDecls(n, i, w) == WalkedDecls(n, i + 1, w2) by {
      WalkedDeclsStep(n, i, w);
    }
    assert Lift(w2, rest) == Lift(w, Then(a, rest)) by {
      LiftThen(w, a, rest);
    }
    assert ResolveDecls(n, i, env) == Then(a, rest) by {
      ResolveDeclsStep(n, i, env);
    }
  }

  lemma {:induction false} WalkedDeclsIsResolve(n: Node, i: nat, w: Walker)
    requires n.k.VarDecl? && i <= |n.k.declarations| && |w.scopes| >= 1
    ensures WalkedDecls(n, i, w) == Lift(w, ResolveDecls(n, i, Flatten(w.scopes)))
    decreases n, 1, |n.k.declarations| - i
  {
    if i == |n.k.declarations| {
      LiftShape(w, w, [], {});
    } else {
      var names := OptionNames(DeclTarget(n.k.declarations[i]));
      var b := set x | x in names;
      var init := DeclInit(n, i);
      if init.Some? {
        WalkedIsResolve(init.value, Under(n, PlainSlot), BindAll(w, names));
      }
      var env := Flatten(w.scopes);
      var o := if init.Some? then Resolve(init.value, Under(n, PlainSlot), env + b) else Outcome([], {});
      var w2 := Lift(w, Outcome(o.found, b + o.bound));
      WalkedDeclsIsResolve(n, i + 1, w2);
      FlattenLift(w, Outcome(o.found, b + o.bound));
      assert env + (b + o.bound) == env + b + o.bound;
      DeclsCase(n, i, w);
    }
  }

  /** Every name `Resolve` reports is neither a global nor visible when the walk starts. */
  predicate AllFree(found: seq<Finding>, env: set<string>)
  {
    forall f :: f in found ==> f.name !in env && f.name !in Globals
  }

  lemma {:induction false} ResolveFree(n: Node, ctx: Ctx, env: set<string>)
    ensures AllFree(Resolve(n, ctx, env).found, env)
    decreases n, 2
  {
    if n.k.Program? {
      ResolveKidsFree(n, 0, env);
    } else if n.k.Block? {
      ResolveBlock(n, ctx, env);
      ResolveKidsFree(n, 0, env);
    } else if n.k.FunctionDecl? {
      ResolveFunctionDecl(n, ctx, env);
      ResolveFree(n.k.fnBody, Under(n, PlainSlot), env + IdNames(n.k.id) + set x | x in FrameNames(n));
    } else if IsFrameKind(n) {
      ResolveFrame(n, ctx, env);
      ResolveFree(FrameBody(n), Under(n, PlainSlot), env + set x | x in FrameNames(n));
    } else if n.k.VarDecl? {
      ResolveDeclsFree(n, 0, env);
    } else if n.k.ClassDecl? {
      ResolveClassDecl(n, ctx, env);
      ResolveFree(n.k.classBody, Under(n, PlainSlot), env + IdNames(n.k.id));
    } else {
      ResolveDefault(n, ctx, env);
      ResolveKidsFree(n, 0, env);
    }
  }

  lemma {:induction false} ResolveKidsFree(n: Node, i: nat, env: set<string>)
    requires i <= |Kids(n)|
    ensures AllFree(ResolveKids(n, i, env).found, env)
    decreases n, 0, |Kids(n)| - i
  {
    if i < |Kids(n)| {
      assert Kids(n)[i] in Kids(n);
      var o := Resolve(Kids(n)[i].node, KidCtx(n, i), env);
      ResolveFree(Kids(n)[i].node, KidCtx(n, i), env);
      ResolveKidsFree(n, i + 1, env + o.bound);
    }
  }

  lemma {:induction false} ResolveDeclsFree(n: Node, i: nat, env: set<string>)
    requires n.k.VarDecl? && i <= |n.k.declarations|
    ensures AllFree(ResolveDecls(n, i, env).found, env)
    decreases n, 1, |n.k.declarations| - i
  {
    if i < |n.k.declarations| {
      var b := set x | x in OptionNames(DeclTarget(n.k.declarations[i]));
      var init := DeclInit(n, i);
      ResolveDeclsStep(n, i, env);
      var o := if init.Some? then Resolve(init.value, Under(n, PlainSlot), env + b) else Outcome([], {});
      assert AllFree(o.found, env + b) by {
        if init.Some? {
          ResolveFree(init.value, Under(n, PlainSlot), env + b);
        }
      }
      var rest := ResolveDecls(n, i + 1, env + b + o.bound);
      ResolveDeclsFree(n, i + 1, env + b + o.bound);
      AllFreeConcat(o.found, rest.found, env, env + b, env + b + o.bound);
      assert ResolveDecls(n, i, env).found == o.found + rest.found;
    }
  }

  /** Reports free in larger environments, one list after the other, are free in the smaller one. */
  lemma AllFreeConcat(a: seq<Finding>, b: seq<Finding>, env: set<string>, ea: set<string>, eb: set<string>)
    requires AllFree(a, ea) && AllFree(b, eb) && env <= ea && env <= eb
    ensures AllFree(a + b, env)
  {
    forall f | f in a + b ensures f.name !in env && f.name !in Globals {
      if f in a {} else { assert f in b; }
    }
  }

  /**
   * Walking from any stack reports only names that are in none of the frames
   * open when the walk starts, and no global.
   */
  lemma WalkedReportsFree(n: Node, ctx: Ctx, w: Walker)
    requires |w.scopes| >= 1
    ensures forall i :: |w.found| <= i < |Walked(n, ctx, w).found| ==>
      !Declared(w.scopes, Walked(n, ctx, w).found[i].name)
  {
    var env := Flatten(w.scopes);
    WalkedIsResolve(n, ctx, w);
    ResolveFree(n, ctx, env);
    var r := Walked(n, ctx, w);
    forall i | |w.found| <= i < |r.found| ensures !Declared(w.scopes, r.found[i].name) {
      assert r.found[i] == Resolve(n, ctx, env).found[i - |w.found|];
      FlattenMembers(w.scopes, r.found[i].name);
    }
  }

  lemma {:induction false} BindAllConcat(w: Walker, a: seq<string>, b: seq<string>)
    requires |w.scopes| >= 1
    ensures BindAll(BindAll(w, a), b) == BindAll(w, a + b)
    decreases |a|
  {
    if a != [] {
      assert (a + b)[1..] == a[1..] + b;
      BindAllConcat(Bind(w, a[0]), a[1..], b);
    } else {
      assert a + b == b;
    }
  }

  lemma ParamsNamesStep(params: seq<Node>, i: nat)
    requires i < |params|
    ensures ParamsNames(params[i..]) == PatternNames(params[i]) + ParamsNames(params[i + 1..])
  {
    assert params[i..][1..] == params[i + 1..];
  }

  lemma BindAllStep(w: Walker, names: seq<string>, i: nat)
    requires i < |names| && |w.scopes| >= 1
    ensures BindAll(w, names[i..]) == BindAll(Bind(w, names[i]), names[i + 1..])
  {
    assert names[i..][1..] == names[i + 1..];
  }

  /** The walker, with the frame stack and the report list as fields updated in place. */
  class UndeclaredFinder {
    var scopeStack: seq<set<string>>
    var undeclared: seq<Finding>

    function State(): Walker
      reads this
    {
      Walker(scopeStack, undeclared)
    }

    /** `const undeclared = []; const scopeStack = [new Set()];` */
    constructor()
      ensures scopeStack == [{}] && undeclared == []
    {
      scopeStack := [{}];
      undeclared := [];
    }

    method PushScope()
      modifies this
      ensures State() == Push(old(State()))
    {
      scopeStack := scopeStack + [{}];
    }

    method PopScope()
      modifies this
      ensures State() == Pop(old(State()))
    {
      if |scopeStack| > 0 {
        scopeStack := scopeStack[..|scopeStack| - 1];
      }
    }

    /** `declare(name)`; the source's `scopeStack[scopeStack.length - 1]` needs a frame to exist. */
    method Declare(name: string)
      requires |scopeStack| >= 1
      modifies this
      ensures State() == Bind(old(State()), name)
    {
      scopeStack := scopeStack[|scopeStack| - 1 := scopeStack[|scopeStack| - 1] + {name}];
    }

    /** `names.forEach(n => declare(n))`. */
    method DeclareNames(names: seq<string>)
      requires |scopeStack| >= 1
      modifies this
      ensures State() == BindAll(old(State()), names)
    {
      ghost var w0 := State();
      var i := 0;
      while i < |names|
        invariant 0 <= i <= |names| && |scopeStack| >= 1
        invariant BindAll(State(), names[i..]) == BindAll(w0, names)
      {
        BindAllStep(State(), names, i);
        Declare(names[i]);
        i := i + 1;
      }
    }

    /** `for (const p of node.params || []) collectPatternNames(p).forEach(n => declare(n))`. */
    method DeclareParams(params: seq<Node>)
      requires |scopeStack| >= 1
      modifies this
      ensures State() == BindAll(old(State()), ParamsNames(params))
    {
      ghost var w0 := State();
      var i := 0;
      while i < |params|
        invariant 0 <= i <= |params| && |scopeStack| >= 1
        invariant BindAll(State(), ParamsNames(params[i..])) == BindAll(w0, ParamsNames(params))
      {
        ghost var s := State();
        ghost var rest := ParamsNames(params[i + 1..]);
        var names := CollectPatternNames(params[i], []);
        assert BindAll(s, ParamsNames(params[i..])) == BindAll(BindAll(s, names), rest) by {
          ParamsNamesStep(params, i);
          assert names == PatternNames(params[i]);
          BindAllConcat(s, names, rest);
        }
        DeclareNames(names);
        i := i + 1;
      }
    }

    /** `isDeclared(name)`: the globals, then the frames from the top down. */
    method IsDeclared(name: string) returns (b: bool)
      ensures b == Declared(scopeStack, name)
    {
      if name in Globals {
        return true;
      }
      var i := |scopeStack| - 1;
      while i >= 0
        invariant -1 <= i < |scopeStack|
        invariant forall j :: i < j < |scopeStack| ==> name !in scopeStack[j]
      {
        if name in scopeStack[i] {
          return true;
        }
        i := i - 1;
      }
      return false;
    }

    /** `walk(node, parent)`: the `switch` on the node type. */
    method Walk(node: Node, parent: Ctx)
      requires |scopeStack| >= 1
      modifies this
      ensures State() == Walked(node, parent, old(State()))
      decreases node, 2
    {
      if node.k.Program? {
        WalkChildren(node);
      } else if node.k.Block? {
        WalkBlock(node, parent);
      } else if node.k.FunctionDecl? {
        WalkFunctionDecl(node, parent);
      } else if IsFrameKind(node) {
        WalkFrame(node, parent);
      } else if node.k.VarDecl? {
        WalkDeclarations(node, parent);
      } else if node.k.ClassDecl? {
        WalkClassDecl(node, parent);
      } else {
        WalkDefault(node, parent);
      }
    }

    /** `case 'BlockStatement'`: the statements in a frame of their own. */
    method WalkBlock(node: Node, parent: Ctx)
      requires node.k.Block? && |scopeStack| >= 1
      modifies this
      ensures State() == Walked(node, parent, old(State()))
      decreases node, 1
    {
      WalkedBlock(node, parent, State());
      PushScope();
      WalkChildren(node);
      PopScope();
    }

    /** `case 'FunctionDeclaration'`: the name in the enclosing frame, the parameters in a new one. */
    method WalkFunctionDecl(node: Node, parent: Ctx)
      requires node.k.FunctionDecl? && |scopeStack| >= 1
      modifies this
      ensures State() == Walked(node, parent, old(State()))
      decreases node, 1
    {
      WalkedFunctionDecl(node, parent, State());
      var x := IdentName(node.k.id);
      if x.Some? && x.value != "" {
        Declare(x.value);
      }
      PushScope();
      DeclareParams(node.k.params);
      Walk(node.k.fnBody, Under(node, PlainSlot));
      PopScope();
    }

    /** `case 'FunctionExpression'`, `'ArrowFunctionExpression'` and `'CatchClause'`. */
    method WalkFrame(node: Node, parent: Ctx)
      requires IsFrameKind(node) && |scopeStack| >= 1
      modifies this
      ensures State() == Walked(node, parent, old(State()))
      decreases node, 1
    {
      WalkedFrame(node, parent, State());
      PushScope();
      if node.k.Catch? {
        var names := CollectNames(node.k.param);
        DeclareNames(names);
      } else {
        DeclareParams(node.k.params);
      }
      Walk(FrameBody(node), Under(node, PlainSlot));
      PopScope();
    }

    /** `case 'VariableDeclaration'`: per declarator, its names, then its initializer. */
    method WalkDeclarations(node: Node, parent: Ctx)
      requires node.k.VarDecl? && |scopeStack| >= 1
      modifies this
      ensures State() == Walked(node, parent, old(State()))
      decreases node, 1
    {
      ghost var w0 := State();
      var decls := node.k.declarations;
      var i := 0;
      while i < |decls|
        invariant 0 <= i <= |decls| && |scopeStack| >= 1
        invariant WalkedDecls(node, i, State()) == WalkedDecls(node, 0, w0)
      {
        WalkedDeclsStep(node, i, State());
        var names := CollectNames(DeclTarget(decls[i]));
        DeclareNames(names);
        var init := DeclInit(node, i);
        if init.Some? {
          Walk(init.value, Under(node, PlainSlot));
        }
        i := i + 1;
      }
    }

    /** `case 'ClassDeclaration'`: the name, then the class body (never the superclass). */
    method WalkClassDecl(node: Node, parent: Ctx)
      requires node.k.ClassDecl? && |scopeStack| >= 1
      modifies this
      ensures State() == Walked(node, parent, old(State()))
      decreases node, 1
    {
      WalkedClassDecl(node, parent, State());
      var x := IdentName(node.k.id);
      if x.Some? && x.value != "" {
        Declare(x.value);
      }
      Walk(node.k.classBody, Under(node, PlainSlot));
    }

    /** `default`: an identifier in a reference position is checked, then every child is walked. */
    method WalkDefault(node: Node, parent: Ctx)
      requires IsDefaultKind(node) && |scopeStack| >= 1
      modifies this
      ensures State() == Walked(node, parent, old(State()))
      decreases node, 1
    {
      WalkedDefault(node, parent, State());
      ghost var w0 := State();
      if node.k.Identifier? && !ResolverSkips(parent) {
        var declared := IsDeclared(node.k.name);
        if !declared {
          undeclared := undeclared + [Finding(node.k.name, node.span.startLine)];
        }
      }
      assert State() == Check(node, parent, w0);
      WalkChildren(node);
    }

    /** The loop over the children of `node`, each walked with `node` as parent. */
    method WalkChildren(node: Node)
      requires |scopeStack| >= 1
      modifies this
      ensures State() == WalkedKids(node, 0, old(State()))
      decreases node, 0
    {
      ghost var w0 := State();
      var kids := Kids(node);
      var i := 0;
      while i < |kids|
        invariant 0 <= i <= |kids| && |scopeStack| >= 1
        invariant WalkedKids(node, i, State()) == WalkedKids(node, 0, w0)
      {
        assert kids[i] in Kids(node);
        Walk(kids[i].node, Under(node, kids[i].slot));
        i := i + 1;
      }
    }
  }

  /** An entry the final loop keeps: a non-empty name that is not a global. */
  predicate Reportable(f: Finding)
  {
    f.name != "" && f.name !in Globals
  }

  function NameOf(f: Finding): string
  {
    f.name
  }

  /** The reports of the whole walk, from a stack holding one empty frame. */
  function AllFindings(ast: Node): seq<Finding>
  {
    Walked(ast, Root, Walker([{}], [])).found
  }

  /** What `findUndeclaredVars` returns: the reportable entries, first one per name. */
  function Undeclared(ast: Node): seq<Finding>
  {
    DedupBy(Filter(AllFindings(ast), Reportable), NameOf)
  }

  /** One step of the final loop: the next entry is kept exactly when it is reportable and its name is new. */
  lemma KeepFirstStep(found: seq<Finding>, i: nat)
    requires i < |found|
    ensures var uniq := DedupBy(Filter(found[..i], Reportable), NameOf);
      DedupBy(Filter(found[..i + 1], Reportable), NameOf)
      == if Reportable(found[i]) && found[i].name !in KeysOf(uniq, NameOf) then uniq + [found[i]] else uniq
  {
    var u := found[i];
    var kept := Filter(found[..i], Reportable);
    assert found[..i + 1] == found[..i] + [u];
    FilterSnoc(found[..i], u, Reportable);
    if Reportable(u) {
      DedupSnoc(kept, u, NameOf);
    } else {
      assert kept + [] == kept;
    }
  }

  /** The final loop of `findUndeclaredVars`: skip empty, already seen and global names. */
  method KeepFirstPerName(found: seq<Finding>) returns (uniq: seq<Finding>)
    ensures uniq == DedupBy(Filter(found, Reportable), NameOf)
  {
    uniq := [];
    var seen: set<string> := {};
    var i := 0;
    while i < |found|
      invariant 0 <= i <= |found|
      invariant uniq == DedupBy(Filter(found[..i], Reportable), NameOf)
      invariant seen == KeysOf(uniq, NameOf)
    {
      var u := found[i];
      KeepFirstStep(found, i);
      if u.name == "" || u.name in seen {
      } else if u.name in Globals {
      } else {
        // A capitalised name (likely a constructor) is kept like any other.
        KeysOfSnoc(uniq, u, NameOf);
        seen := seen + {u.name};
        uniq := uniq + [u];
      }
      i := i + 1;
    }
    assert found[..|found|] == found;
  }

  /** The walk from the initial stack reports exactly what the reference semantics reports from no visible names. */
  lemma AllFindingsResolve(ast: Node)
    ensures AllFindings(ast) == Resolve(ast, Root, {}).found
  {
    var w := Walker([{}], []);
    WalkedIsResolve(ast, Root, w);
    assert w.scopes[..0] == [];
    assert Flatten(w.scopes) == {};
    var o := Resolve(ast, Root, {});
    assert Lift(w, o).found == [] + o.found;
  }

  /** No report of the walk names a global, so the `GLOBALS` test of the final loop never drops anything. */
  lemma GlobalsFilterIdle(ast: Node)
    ensures forall f :: f in AllFindings(ast) ==> f.name !in Globals
    ensures forall f :: f in AllFindings(ast) ==> (Reportable(f) <==> f.name != "")
  {
    var w := Walker([{}], []);
    var r := Walked(ast, Root, w);
    assert Extends(w, r);
    forall f | f in r.found ensures f.name !in Globals {
      var i :| 0 <= i < |r.found| && r.found[i] == f;
    }
  }

  /**
   * What `findUndeclaredVars` promises: every entry is a reported reference
   * with a non-empty name that is not a global, no two entries share a name,
   * each entry is the first report of its name, entries come in the order
   * their names were first reported, and every reported non-empty name has
   * an entry.
   */
  lemma UndeclaredSpec(ast: Node)
    ensures forall f :: f in Undeclared(ast) ==> f in AllFindings(ast) && f.name != "" && f.name !in Globals
    ensures forall a, b :: 0 <= a < b < |Undeclared(ast)| ==> Undeclared(ast)[a].name != Undeclared(ast)[b].name
    ensures forall f :: f in AllFindings(ast) && f.name != "" ==> exists g :: g in Undeclared(ast) && g.name == f.name
    ensures forall j :: 0 <= j < |Undeclared(ast)| ==>
      var kept := Filter(AllFindings(ast), Reportable);
      NameOf(Undeclared(ast)[j]) in KeysOf(kept, NameOf) &&
      Undeclared(ast)[j] == kept[FirstIndex(kept, NameOf, NameOf(Undeclared(ast)[j]))]
    ensures forall a, b :: 0 <= a < b < |Undeclared(ast)| ==>
      var kept := Filter(AllFindings(ast), Reportable);
      NameOf(Undeclared(ast)[a]) in KeysOf(kept, NameOf) && NameOf(Undeclared(ast)[b]) in KeysOf(kept, NameOf) &&
      FirstIndex(kept, NameOf, NameOf(Undeclared(ast)[a])) < FirstIndex(kept, NameOf, NameOf(Undeclared(ast)[b]))
  {
    var kept := Filter(AllFindings(ast), Reportable);
    var u := Undeclared(ast);
    GlobalsFilterIdle(ast);
    DedupKeys(kept, NameOf);
    DedupFirst(kept, NameOf);
    DedupOrdered(kept, NameOf);
    DedupDistinct(kept, NameOf);
    forall f | f in u ensures f in AllFindings(ast) && f.name != "" && f.name !in Globals {
      var j :| 0 <= j < |u| && u[j] == f;
      assert f == kept[FirstIndex(kept, NameOf, NameOf(f))];
    }
    forall f | f in AllFindings(ast) && f.name != "" ensures exists g :: g in u && g.name == f.name {
      assert f in kept;
      var i :| 0 <= i < |kept| && kept[i] == f;
      assert NameOf(f) in KeysOf(kept, NameOf);
      var j :| 0 <= j < |u| && NameOf(u[j]) == NameOf(f);
      assert u[j] in u;
    }
  }

  /** `findUndeclaredVars(ast)`. */
  method FindUndeclaredVars(ast: Node) returns (uniq: seq<Finding>)
    ensures uniq == Undeclared(ast)
  {
    var finder := new UndeclaredFinder();
    finder.Walk(ast, Root);
    uniq := KeepFirstPerName(finder.undeclared);
  }
}
