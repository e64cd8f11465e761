/**
 * Small programs on which the resolver's behaviour is worked out, for any
 * identifier name that is not a global: what it reports and what it lets
 * through.
 */
module ResolverScenarios {
  import opened Wrappers
  import opened Ast
  import opened Patterns
  import opened ScopeResolver
  import opened KeepFirst

  const L1 := Span(0, 0, 1, 1)
  const L2 := Span(0, 0, 2, 2)

  function Ident(x: string, at: Span): Node { Node(at, Identifier(x)) }

  /** A program whose walk makes one reportable report returns exactly that report. */
  lemma KeepOne(p: Node, f: Finding)
    requires Resolve(p, Root, {}).found == [f] && Reportable(f)
    ensures Undeclared(p) == [f]
  {
    AllFindingsResolve(p);
    FilterSnoc([], f, Reportable);
    assert [] + [f] == [f];
    DedupSnoc([], f, NameOf);
  }

  /** A reference in a position that is not skipped is reported exactly when its name is not visible. */
  lemma ReferenceLeaf(x: string, at: Span, ctx: Ctx, env: set<string>)
    requires !ResolverSkips(ctx)
    ensures Resolve(Ident(x, at), ctx, env)
         == Outcome(if x in Globals || x in env then [] else [Finding(x, at.startLine)], {})
  {
    ResolveDefault(Ident(x, at), ctx, env);
  }

  /** A leaf that is not an identifier (a literal, say) reports nothing and binds nothing. */
  lemma LeafSilent(n: Node, ctx: Ctx, env: set<string>)
    requires IsDefaultKind(n) && !n.k.Identifier? && Kids(n) == []
    ensures Resolve(n, ctx, env) == Outcome([], {})
  {
    ResolveDefault(n, ctx, env);
    assert ResolveKids(n, 0, env) == Outcome([], {});
  }

  /** A node of the default kind that is not an identifier and has one child reports what the child reports. */
  lemma OnlyChild(n: Node, ctx: Ctx, env: set<string>)
    requires IsDefaultKind(n) && !n.k.Identifier? && |Kids(n)| == 1
    ensures Resolve(n, ctx, env).found == Resolve(Kids(n)[0].node, KidCtx(n, 0), env).found
  {
    ResolveDefault(n, ctx, env);
    assert Kids(n)[0] in Kids(n);
    var o := Resolve(Kids(n)[0].node, KidCtx(n, 0), env);
    assert ResolveKids(n, 1, env + o.bound).found == [];
    assert ResolveKids(n, 0, env).found == o.found + [];
  }

  /** A program of two statements reports what the first reports, then what the second reports after the first's bindings. */
  lemma TwoStatements(p: Node, env: set<string>)
    requires p.k.Program? && |Kids(p)| == 2
    ensures var o1 := Resolve(Kids(p)[0].node, KidCtx(p, 0), env);
      var o2 := Resolve(Kids(p)[1].node, KidCtx(p, 1), env + o1.bound);
      Resolve(p, Root, env).found == o1.found + o2.found
  {
    assert Kids(p)[0] in Kids(p) && Kids(p)[1] in Kids(p);
    var o1 := Resolve(Kids(p)[0].node, KidCtx(p, 0), env);
    var o2 := Resolve(Kids(p)[1].node, KidCtx(p, 1), env + o1.bound);
    assert ResolveKids(p, 2, env + o1.bound + o2.bound).found == [];
    assert ResolveKids(p, 1, env + o1.bound).found == o2.found;
  }

  /** A declaration with one declarator `x = init` reports what `init` reports with `x` visible. */
  lemma OneDeclarator(n: Node, ctx: Ctx, x: string, init: Node, env: set<string>)
    requires n.k.VarDecl? && |n.k.declarations| == 1
    requires n.k.declarations[0].k.Declarator? && n.k.declarations[0].k.target.k == Identifier(x)
    requires n.k.declarations[0].k.init == Some(init)
    ensures Resolve(n, ctx, env).found == Resolve(init, Under(n, PlainSlot), env + {x}).found
  {
    var d := n.k.declarations[0];
    assert OptionNames(DeclTarget(d)) == [x];
    assert (set y | y in OptionNames(DeclTarget(d))) == {x};
    assert DeclInit(n, 0) == Some(init);
    ResolveDeclsStep(n, 0, env);
    var o := Resolve(init, Under(n, PlainSlot), env + {x});
    assert ResolveDecls(n, 1, env + {x} + o.bound).found == [];
  }

  // `let x = x;`
  function SelfInitProgram(x: string): Node
  {
    Node(L1, Program([Node(L1, VarDecl(Let, [Node(L1, Declarator(Ident(x, L1), Some(Ident(x, L1))))]))]))
  }

  /** `let x = x;`: the declared name is visible in its own initializer, so nothing is reported. */
  lemma SelfInitializer(x: string)
    ensures Undeclared(SelfInitProgram(x)) == []
  {
    var p := SelfInitProgram(x);
    var decl := p.k.body[0];
    AllFindingsResolve(p);
    ReferenceLeaf(x, L1, Under(decl, PlainSlot), {} + {x});
    OneDeclarator(decl, Under(p, PlainSlot), x, Ident(x, L1), {});
    assert Kids(p) == [Edge(decl, PlainSlot)];
    assert ResolveKids(p, 1, Resolve(decl, Under(p, PlainSlot), {}).bound).found == [];
    assert ResolveKids(p, 0, {}).found == [];
    assert Filter([], Reportable) == [];
  }

  // `{ let y = 1; }` on line 1, `y;` on line 2
  function InnerBlock(y: string): Node
  {
    Node(L1, Block([Node(L1, VarDecl(Let, [Node(L1, Declarator(Ident(y, L1), Some(Node(L1, Other([])))))]))]))
  }

  function LaterUse(y: string): Node
  {
    Node(L2, ExpressionStatement(Ident(y, L2)))
  }

  function BlockProgram(y: string): Node
  {
    Node(L1, Program([InnerBlock(y), LaterUse(y)]))
  }

  /** The block reports nothing and binds nothing outside itself. */
  lemma InnerBlockSilent(y: string, ctx: Ctx)
    ensures Resolve(InnerBlock(y), ctx, {}) == Outcome([], {})
  {
    var b := InnerBlock(y);
    var decl := b.k.body[0];
    var lit := Node(L1, Other([]));
    assert Kids(lit) == [];
    LeafSilent(lit, Under(decl, PlainSlot), {} + {y});
    OneDeclarator(decl, Under(b, PlainSlot), y, lit, {});
    ResolveBlock(b, ctx, {});
    assert Kids(b) == [Edge(decl, PlainSlot)];
    assert ResolveKids(b, 1, Resolve(decl, Under(b, PlainSlot), {}).bound).found == [];
    assert ResolveKids(b, 0, {}).found == [];
  }

  /** `y;` on its own reports `y`. */
  lemma LaterUseReports(y: string, ctx: Ctx)
    requires y !in Globals
    ensures Resolve(LaterUse(y), ctx, {}).found == [Finding(y, 2)]
  {
    ReferenceLeaf(y, L2, Under(LaterUse(y), PlainSlot), {});
    assert Kids(LaterUse(y)) == [Edge(Ident(y, L2), PlainSlot)];
    OnlyChild(LaterUse(y), ctx, {});
  }

  /** A block's declarations do not outlive the block: the later use is reported. */
  lemma BlockScoped(y: string)
    requires y != "" && y !in Globals
    ensures Undeclared(BlockProgram(y)) == [Finding(y, 2)]
  {
    var p := BlockProgram(y);
    assert Kids(p) == [Edge(InnerBlock(y), PlainSlot), Edge(LaterUse(y), PlainSlot)];
    TwoStatements(p, {});
    assert KidCtx(p, 0) == KidCtx(p, 1) == Under(p, PlainSlot);
    InnerBlockSilent(y, Under(p, PlainSlot));
    assert {} + Resolve(InnerBlock(y), Under(p, PlainSlot), {}).bound == {};
    LaterUseReports(y, Under(p, PlainSlot));
    KeepOne(p, Finding(y, 2));
  }

  // `f();` on line 1, `function f() {}` on line 2
  function EarlyCall(f: string): Node
  {
    Node(L1, ExpressionStatement(Node(L1, Other([Ident(f, L1)]))))
  }

  function LaterFunction(f: string): Node
  {
    Node(L2, FunctionDecl(Some(Ident(f, L2)), [], Node(L2, Block([]))))
  }

  function HoistProgram(f: string): Node
  {
    Node(L1, Program([EarlyCall(f), LaterFunction(f)]))
  }

  /** `f();` reports `f` when nothing is visible. */
  lemma EarlyCallReports(f: string, ctx: Ctx)
    requires f !in Globals
    ensures Resolve(EarlyCall(f), ctx, {}).found == [Finding(f, 1)]
  {
    var call := EarlyCall(f);
    var callExpr := call.k.expression;
    CallReports(f, Under(call, PlainSlot));
    assert Kids(call) == [Edge(callExpr, PlainSlot)];
    OnlyChild(call, ctx, {});
  }

  /** The call expression `f()` reports its callee `f`. */
  lemma CallReports(f: string, ctx: Ctx)
    requires f !in Globals
    ensures Resolve(Node(L1, Other([Ident(f, L1)])), ctx, {}).found == [Finding(f, 1)]
  {
    var callExpr := Node(L1, Other([Ident(f, L1)]));
    var inner := Under(callExpr, PlainSlot);
    assert !ResolverSkips(inner);
    ReferenceLeaf(f, L1, inner, {});
    assert Kids(callExpr) == [Edge(Ident(f, L1), PlainSlot)];
    assert KidCtx(callExpr, 0) == inner;
    OnlyChild(callExpr, ctx, {});
  }

  /** An empty function declaration reports nothing. */
  lemma EmptyFunctionSilent(f: string, ctx: Ctx, env: set<string>)
    ensures Resolve(LaterFunction(f), ctx, env).found == []
  {
    var fn := LaterFunction(f);
    ResolveFunctionDecl(fn, ctx, env);
    assert Kids(fn.k.fnBody) == [];
  }

  /** Declarations are not hoisted: a call before the function's declaration is reported. */
  lemma NoHoisting(f: string)
    requires f != "" && f !in Globals
    ensures Undeclared(HoistProgram(f)) == [Finding(f, 1)]
  {
    var p := HoistProgram(f);
    assert Kids(p) == [Edge(EarlyCall(f), PlainSlot), Edge(LaterFunction(f), PlainSlot)];
    TwoStatements(p, {});
    EarlyCallReports(f, Under(p, PlainSlot));
    EmptyFunctionSilent(f, Under(p, PlainSlot), {} + Resolve(EarlyCall(f), Under(p, PlainSlot), {}).bound);
    KeepOne(p, Finding(f, 1));
  }
}
