/**
 * The part of an ESTree syntax tree (as the acorn parser builds it with
 * `locations: true`) that the editor's analyzer looks at.
 *
 * Node kinds the analyzer treats specially get a constructor of their own;
 * every other node type is `Other`, carrying its child nodes in the order
 * `Object.keys` lists them. A child is reached through a property of its
 * parent, and the analyzer tells some of those properties apart by object
 * identity (`parent.id === node`, `parent.key === node`); a `Slot` records
 * which property an edge goes through, so identity never has to be compared.
 */
module Ast {
  import opened Wrappers

  /** Source offsets (`start`, `end`) and 1-based lines (`loc.start.line`, `loc.end.line`). */
  datatype Span = Span(start: nat, end: nat, startLine: nat, endLine: nat)

  /** `VariableDeclaration.kind`. */
  datatype DeclKind = Var | Let | Const

  /** The node types whose names begin with `Import`. */
  datatype ImportKind =
    | ImportDeclaration
    | ImportSpecifier
    | ImportDefaultSpecifier
    | ImportNamespaceSpecifier
    | ImportExpression

  datatype Node = Node(span: Span, k: Kind)

  /**
   * A `Property` whose `value` is `None` is one whose value is the very
   * object stored in `key` (a shorthand `{x}` as parsers before acorn 7
   * build it); `Some(v)` is a distinct value object (every non-shorthand
   * property, and shorthands from acorn 7 on, which copy the key node).
   */
  datatype Kind =
    | Program(body: seq<Node>)
    | Block(body: seq<Node>)
    | FunctionDecl(id: Option<Node>, params: seq<Node>, fnBody: Node)
    | FunctionExpr(id: Option<Node>, params: seq<Node>, fnBody: Node)
    | Arrow(params: seq<Node>, fnBody: Node)
    | VarDecl(kind: DeclKind, declarations: seq<Node>)
    | Declarator(target: Node, init: Option<Node>)
    | ClassDecl(id: Option<Node>, superClass: Option<Node>, classBody: Node)
    | Catch(param: Option<Node>, catchBody: Node)
    | Identifier(name: string)
    | Member(obj: Node, property: Node, computed: bool)
    | Property(key: Node, value: Option<Node>, computed: bool)
    | Binary(operator: string, left: Node, right: Node)
    | ObjectPattern(properties: seq<Node>)
    | ArrayPattern(elements: seq<Option<Node>>)
    | AssignmentPattern(left: Node, right: Node)
    | Rest(argument: Node)
    | ExpressionStatement(expression: Node)
    | Return(returned: Option<Node>)
    | Import(which: ImportKind, children: seq<Node>)
    | Other(children: seq<Node>)

  /** The parent property through which a child is reached. */
  datatype Slot =
    | IdSlot        // `id` of a declarator, function or class
    | PropertySlot  // `property` of a member expression
    | KeySlot       // `key` of a property
    | PlainSlot     // any other property

  datatype Edge = Edge(node: Node, slot: Slot)

  /** Where a visited node hangs: the root (`parent` is `null`) or a parent and the slot. */
  datatype Ctx = Root | Under(parent: Node, slot: Slot)

  /** One call of a tree walk: the node and the context it was called with. */
  datatype Visit = Visit(node: Node, ctx: Ctx)

  function Plain(ns: seq<Node>): (r: seq<Edge>)
    ensures |r| == |ns|
    ensures forall i :: 0 <= i < |r| ==> r[i] == Edge(ns[i], PlainSlot)
  {
    if ns == [] then [] else [Edge(ns[0], PlainSlot)] + Plain(ns[1..])
  }

  function Present(o: Option<Node>, slot: Slot): (r: seq<Edge>)
    ensures |r| <= 1
    ensures o.Some? <==> |r| == 1
    ensures o.Some? ==> r[0] == Edge(o.value, slot)
  {
    if o.Some? then [Edge(o.value, slot)] else []
  }

  /** The non-null entries of an array that may have holes, each reached through `elements`. */
  function Holey(os: seq<Option<Node>>): (r: seq<Edge>)
    ensures |r| <= |os|
    ensures forall e :: e in r ==> e.slot == PlainSlot && Some(e.node) in os
  {
    if os == [] then [] else Present(os[0], PlainSlot) + Holey(os[1..])
  }

  /**
   * The child nodes the generic loop `for (const key of Object.keys(node))`
   * reaches, in acorn's property order, each with its slot. A shorthand
   * property whose value is its key object is reached twice, both times as
   * the `key`.
   */
  function Kids(n: Node): (r: seq<Edge>)
    ensures forall e :: e in r ==> (n decreases to e.node)
  {
    match n.k
    case Program(body) => Plain(body)
    case Block(body) => Plain(body)
    case FunctionDecl(id, params, body) => Present(id, IdSlot) + Plain(params) + [Edge(body, PlainSlot)]
    case FunctionExpr(id, params, body) => Present(id, IdSlot) + Plain(params) + [Edge(body, PlainSlot)]
    case Arrow(params, body) => Plain(params) + [Edge(body, PlainSlot)]
    case VarDecl(_, decls) => Plain(decls)
    case Declarator(target, init) => [Edge(target, IdSlot)] + Present(init, PlainSlot)
    case ClassDecl(id, sup, body) => Present(id, IdSlot) + Present(sup, PlainSlot) + [Edge(body, PlainSlot)]
    case Catch(param, body) => Present(param, PlainSlot) + [Edge(body, PlainSlot)]
    case Identifier(_) => []
    case Member(obj, prop, _) => [Edge(obj, PlainSlot), Edge(prop, PropertySlot)]
    case Property(key, value, _) =>
      [Edge(key, KeySlot)] + (if value.Some? then [Edge(value.value, PlainSlot)] else [Edge(key, KeySlot)])
    case Binary(_, l, r) => [Edge(l, PlainSlot), Edge(r, PlainSlot)]
    case ObjectPattern(props) => Plain(props)
    case ArrayPattern(elems) => Holey(elems)
    case AssignmentPattern(l, r) => [Edge(l, PlainSlot), Edge(r, PlainSlot)]
    case Rest(arg) => [Edge(arg, PlainSlot)]
    case ExpressionStatement(e) => [Edge(e, PlainSlot)]
    case Return(arg) => Present(arg, PlainSlot)
    case Import(_, cs) => Plain(cs)
    case Other(cs) => Plain(cs)
  }

  /** The context of the `i`-th child of `n`. */
  function KidCtx(n: Node, i: nat): Ctx
    requires i < |Kids(n)|
  {
    Under(n, Kids(n)[i].slot)
  }

  /**
   * The calls a pre-order walk that descends into every child makes, starting
   * with the call on `n` itself in context `ctx`.
   */
  function Visits(n: Node, ctx: Ctx): (r: seq<Visit>)
    ensures |r| >= 1 && r[0] == Visit(n, ctx)
    decreases n, 1
  {
    [Visit(n, ctx)] + VisitsFrom(n, 0)
  }

  /** The calls made for the children of `n` from the `i`-th on. */
  function VisitsFrom(n: Node, i: nat): seq<Visit>
    requires i <= |Kids(n)|
    decreases n, 0, |Kids(n)| - i
  {
    if i == |Kids(n)| then []
    else
      assert Kids(n)[i] in Kids(n);
      Visits(Kids(n)[i].node, KidCtx(n, i)) + VisitsFrom(n, i + 1)
  }

  /** The name of an identifier node, or `None` for any other node. */
  function IdentName(o: Option<Node>): Option<string>
  {
    if o.Some? && o.value.k.Identifier? then Some(o.value.k.name) else None
  }

  /** `parent.type === 'VariableDeclarator' || 'FunctionDeclaration' || 'ClassDeclaration'`, with `parent.id === node`. */
  predicate IsDeclarationId(ctx: Ctx)
  {
    ctx.Under? && ctx.slot == IdSlot &&
    (ctx.parent.k.Declarator? || ctx.parent.k.FunctionDecl? || ctx.parent.k.ClassDecl?)
  }

  /** A non-computed member-expression property name or object-literal key. */
  predicate IsPropertyName(ctx: Ctx)
  {
    ctx.Under? &&
    ((ctx.parent.k.Member? && ctx.slot == PropertySlot && !ctx.parent.k.computed) ||
     (ctx.parent.k.Property? && ctx.slot == KeySlot && !ctx.parent.k.computed))
  }

  /** The three import-specifier node types. */
  predicate IsImportSpecifier(n: Node)
  {
    n.k.Import? && n.k.which in {ImportSpecifier, ImportDefaultSpecifier, ImportNamespaceSpecifier}
  }
}
