/**
 * The names a binding pattern introduces (`collectPatternNames`, of which the
 * analyzer has two identical copies): identifiers left to right, without
 * removing repeats, looking through object and array patterns, defaults
 * (`left` only) and rest elements.
 */
module Patterns {
  import opened Wrappers
  import opened Ast

  /** The names bound by the pattern `n`; any node kind that is not a pattern binds nothing. */
  function PatternNames(n: Node): seq<string>
    decreases n, 2
  {
    match n.k
    case Identifier(name) => [name]
    case ObjectPattern(props) => PropertiesNames(n, 0)
    case ArrayPattern(elems) => ElementsNames(n, 0)
    case AssignmentPattern(left, _) => PatternNames(left)
    case Rest(arg) => PatternNames(arg)
    case _ => []
  }

  /**
   * The names bound by one entry of an object pattern: the argument of a rest
   * element, otherwise `prop.value || prop.key`; an entry that is neither a
   * rest element nor a property has no `value` or `key` and binds nothing.
   */
  function PropertyNames(prop: Node): seq<string>
    decreases prop, 1
  {
    match prop.k
    case Rest(arg) => PatternNames(arg)
    case Property(key, value, _) => if value.Some? then PatternNames(value.value) else PatternNames(key)
    case _ => []
  }

  function PropertiesNames(n: Node, i: nat): seq<string>
    requires n.k.ObjectPattern? && i <= |n.k.properties|
    decreases n, 0, |n.k.properties| - i
  {
    if i == |n.k.properties| then [] else PropertyNames(n.k.properties[i]) + PropertiesNames(n, i + 1)
  }

  function ElementsNames(n: Node, i: nat): seq<string>
    requires n.k.ArrayPattern? && i <= |n.k.elements|
    decreases n, 0, |n.k.elements| - i
  {
    if i == |n.k.elements| then []
    else
      var el := n.k.elements[i];
      (if el.Some? then PatternNames(el.value) else []) + ElementsNames(n, i + 1)
  }

  /** The names bound by a pattern that may be absent (`null` binds nothing). */
  function OptionNames(o: Option<Node>): seq<string>
  {
    if o.Some? then PatternNames(o.value) else []
  }

  /** The names bound by a parameter list, parameter after parameter. */
  function ParamsNames(params: seq<Node>): seq<string>
  {
    if params == [] then [] else PatternNames(params[0]) + ParamsNames(params[1..])
  }

  /** `collectPatternNames(node, res)`: appends the pattern's names to `res`. */
  method CollectPatternNames(node: Node, res: seq<string>) returns (out: seq<string>)
    ensures out == res + PatternNames(node)
    decreases node
  {
    match node.k {
      case Identifier(name) =>
        out := res + [name];
      case ObjectPattern(props) =>
        out := res;
        var i := 0;
        while i < |props|
          invariant 0 <= i <= |props|
          invariant out + PropertiesNames(node, i) == res + PatternNames(node)
        {
          var prop := props[i];
          if prop.k.Rest? {
            out := CollectPatternNames(prop.k.argument, out);
          } else if prop.k.Property? {
            var target := if prop.k.value.Some? then prop.k.value.value else prop.k.key;
            out := CollectPatternNames(target, out);
          }
          i := i + 1;
        }
      case ArrayPattern(elems) =>
        out := res;
        var i := 0;
        while i < |elems|
          invariant 0 <= i <= |elems|
          invariant out + ElementsNames(node, i) == res + PatternNames(node)
        {
          if elems[i].Some? {
            out := CollectPatternNames(elems[i].value, out);
          }
          i := i + 1;
        }
      case AssignmentPattern(left, _) =>
        out := CollectPatternNames(left, res);
      case Rest(arg) =>
        out := CollectPatternNames(arg, res);
      case _ =>
        out := res;
    }
  }

  /** `collectPatternNames(node)` on a possibly-null node: a fresh list, empty for `null`. */
  method CollectNames(node: Option<Node>) returns (out: seq<string>)
    ensures out == OptionNames(node)
  {
    if node.Some? {
      out := CollectPatternNames(node.value, []);
    } else {
      out := [];
    }
  }

  /** Some visit of the walk from `n` is an identifier named `x`. */
  predicate IdentifierVisited(n: Node, ctx: Ctx, x: string)
  {
    exists v :: v in Visits(n, ctx) && v.node.k.Identifier? && v.node.k.name == x
  }

  /** Every visit of the walk from the `i`-th child of `n` is a visit of the walk from `n`. */
  lemma {:induction false} KidVisitsIncluded(n: Node, ctx: Ctx, i: nat)
    requires i < |Kids(n)|
    ensures forall v :: v in Visits(Kids(n)[i].node, KidCtx(n, i)) ==> v in Visits(n, ctx)
  {
    KidVisitsFromIncluded(n, 0, i);
  }

  lemma {:induction false} KidVisitsFromIncluded(n: Node, j: nat, i: nat)
    requires j <= i < |Kids(n)|
    ensures forall v :: v in Visits(Kids(n)[i].node, KidCtx(n, i)) ==> v in VisitsFrom(n, j)
    decreases i - j
  {
    assert Kids(n)[j] in Kids(n);
    var here, later := Visits(Kids(n)[j].node, KidCtx(n, j)), VisitsFrom(n, j + 1);
    assert VisitsFrom(n, j) == here + later;
    if j < i {
      KidVisitsFromIncluded(n, j + 1, i);
    }
  }

  /** A child's identifiers are identifiers of the walk from its parent. */
  lemma KidIdentifier(n: Node, ctx: Ctx, child: Node, slot: Slot, x: string)
    requires Edge(child, slot) in Kids(n) && IdentifierVisited(child, Under(n, slot), x)
    ensures IdentifierVisited(n, ctx, x)
  {
    var i :| 0 <= i < |Kids(n)| && Kids(n)[i] == Edge(child, slot);
    KidVisitsIncluded(n, ctx, i);
  }

  /** Every name a pattern binds is the name of an identifier node inside the pattern. */
  lemma {:induction false} PatternNamesAreIdentifiers(n: Node, ctx: Ctx)
    ensures forall x :: x in PatternNames(n) ==> IdentifierVisited(n, ctx, x)
    decreases n, 2
  {
    match n.k
    case Identifier(name) =>
      assert Visits(n, ctx)[0] == Visit(n, ctx);
    case ObjectPattern(props) =>
      PropertiesIdentifiers(n, ctx, 0);
    case ArrayPattern(elems) =>
      ElementsIdentifiers(n, ctx, 0);
    case AssignmentPattern(left, _) =>
      forall x | x in PatternNames(n) ensures IdentifierVisited(n, ctx, x) {
        PatternNamesAreIdentifiers(left, Under(n, PlainSlot));
        assert Kids(n)[0] == Edge(left, PlainSlot);
        KidIdentifier(n, ctx, left, PlainSlot, x);
      }
    case Rest(arg) =>
      forall x | x in PatternNames(n) ensures IdentifierVisited(n, ctx, x) {
        PatternNamesAreIdentifiers(arg, Under(n, PlainSlot));
        assert Kids(n)[0] == Edge(arg, PlainSlot);
        KidIdentifier(n, ctx, arg, PlainSlot, x);
      }
    case _ =>
  }

  lemma {:induction false} PropertyIdentifiers(prop: Node, ctx: Ctx)
    ensures forall x :: x in PropertyNames(prop) ==> IdentifierVisited(prop, ctx, x)
    decreases prop, 1
  {
    match prop.k
    case Rest(arg) =>
      forall x | x in PropertyNames(prop) ensures IdentifierVisited(prop, ctx, x) {
        PatternNamesAreIdentifiers(arg, Under(prop, PlainSlot));
        assert Kids(prop)[0] == Edge(arg, PlainSlot);
        KidIdentifier(prop, ctx, arg, PlainSlot, x);
      }
    case Property(key, value, _) =>
      var target, slot := if value.Some? then value.value else key, if value.Some? then PlainSlot else KeySlot;
      forall x | x in PropertyNames(prop) ensures IdentifierVisited(prop, ctx, x) {
        PatternNamesAreIdentifiers(target, Under(prop, slot));
        assert Kids(prop)[1] == Edge(target, slot);
        KidIdentifier(prop, ctx, target, slot, x);
      }
    case _ =>
  }

  lemma {:induction false} PropertiesIdentifiers(n: Node, ctx: Ctx, i: nat)
    requires n.k.ObjectPattern? && i <= |n.k.properties|
    ensures forall x :: x in PropertiesNames(n, i) ==> IdentifierVisited(n, ctx, x)
    decreases n, 0, |n.k.properties| - i
  {
    if i < |n.k.properties| {
      var prop := n.k.properties[i];
      PropertyIdentifiers(prop, Under(n, PlainSlot));
      PropertiesIdentifiers(n, ctx, i + 1);
      assert Kids(n)[i] == Edge(prop, PlainSlot);
      forall x | x in PropertyNames(prop) ensures IdentifierVisited(n, ctx, x) {
        KidIdentifier(n, ctx, prop, PlainSlot, x);
      }
    }
  }

  lemma {:induction false} ElementsIdentifiers(n: Node, ctx: Ctx, i: nat)
    requires n.k.ArrayPattern? && i <= |n.k.elements|
    ensures forall x :: x in ElementsNames(n, i) ==> IdentifierVisited(n, ctx, x)
    decreases n, 0, |n.k.elements| - i
  {
    if i < |n.k.elements| {
      ElementsIdentifiers(n, ctx, i + 1);
      var el := n.k.elements[i];
      if el.Some? {
        PatternNamesAreIdentifiers(el.value, Under(n, PlainSlot));
        HoleyMember(n.k.elements, i);
        forall x | x in PatternNames(el.value) ensures IdentifierVisited(n, ctx, x) {
          KidIdentifier(n, ctx, el.value, PlainSlot, x);
        }
      }
    }
  }

  /** A present array-pattern element is a child of the pattern. */
  lemma {:induction false} HoleyMember(os: seq<Option<Node>>, i: nat)
    requires i < |os| && os[i].Some?
    ensures Edge(os[i].value, PlainSlot) in Holey(os)
  {
    if i > 0 {
      HoleyMember(os[1..], i - 1);
    }
  }
}
