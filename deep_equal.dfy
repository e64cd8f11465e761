/**
 * `deepEqual(x, y)`, the structural comparison of a returned value against
 * an expected one, over JSON-like values: primitives, arrays and plain
 * objects with string keys. Arrays are seen the way the property loop sees
 * them: an object whose own keys are the canonical index strings "0", "1",
 * ..., with an extra own (non-enumerable) property "length".
 */
module DeepEqual {
  import opened Wrappers
  import opened Decimal

  datatype Value =
    | Null
    | Undefined
    | Bool(b: bool)
    | Num(n: int)
    | Str(s: string)
    | Arr(elems: seq<Value>)
    | Obj(props: map<string, Value>)

  /** `typeof v == "object" && v != null`. */
  predicate IsObject(v: Value)
  {
    v.Arr? || v.Obj?
  }

  /**
   * `x === y`. Primitives compare by value. Two object operands are the
   * same reference only when they are one value, and then `deepEqual` is
   * true anyway (`DeepEqualReflexive`), so objects compare as not identical.
   */
  predicate StrictEquals(x: Value, y: Value)
  {
    !IsObject(x) && x == y
  }

  /** The index that the property name `k` denotes in an array of length `n`, if any. */
  predicate IsIndexKey(k: string, n: nat)
  {
    ParseNat(k).Some? && ParseNat(k).value < n
  }

  /** The keys `Object.keys(v)` lists (and `for ... in` visits). */
  function KeySet(v: Value): set<string>
  {
    match v
    case Arr(es) => IndexKeys(|es|)
    case Obj(m) => m.Keys
    case _ => {}
  }

  function IndexKeys(n: nat): set<string>
  {
    set i | 0 <= i < n :: NatToString(i)
  }

  /** `Object.keys(v).length`. */
  function KeyCount(v: Value): nat
  {
    match v
    case Arr(es) => |es|
    case Obj(m) => |m|
    case _ => 0
  }

  /** `Object.prototype.hasOwnProperty.call(v, k)`: an array also owns "length". */
  predicate HasOwn(v: Value, k: string)
  {
    match v
    case Arr(es) => IsIndexKey(k, |es|) || k == "length"
    case Obj(m) => k in m
    case _ => false
  }

  /** The property access `v[k]`. */
  function Get(v: Value, k: string): Value
  {
    match v
    case Arr(es) =>
      if IsIndexKey(k, |es|) then es[ParseNat(k).value]
      else if k == "length" then Num(|es|)
      else Undefined
    case Obj(m) => if k in m then m[k] else Undefined
    case _ => Undefined
  }

  /** `deepEqual(x, y)` as written: every key of `x` must be one `y` owns. */
  predicate DeepEqualAsWritten(x: Value, y: Value)
  {
    if StrictEquals(x, y) then true
    else if IsObject(x) && IsObject(y) then
      && KeyCount(x) == KeyCount(y)
      && match x
         case Arr(es) =>
           forall i :: 0 <= i < |es| ==>
             HasOwn(y, NatToString(i)) && DeepEqualAsWritten(es[i], Get(y, NatToString(i)))
         case Obj(m) =>
           forall k :: k in m ==> HasOwn(y, k) && DeepEqualAsWritten(m[k], Get(y, k))
    else false
  }

  /** `deepEqual` with the membership test on the keys `y` lists, not the properties it owns. */
  predicate DeepEqual(x: Value, y: Value)
  {
    if StrictEquals(x, y) then true
    else if IsObject(x) && IsObject(y) then
      && KeyCount(x) == KeyCount(y)
      && match x
         case Arr(es) =>
           forall i :: 0 <= i < |es| ==>
             NatToString(i) in KeySet(y) && DeepEqual(es[i], Get(y, NatToString(i)))
         case Obj(m) =>
           forall k :: k in m ==> k in KeySet(y) && DeepEqual(m[k], Get(y, k))
    else false
  }

  // ---------------------------------------------------------------------
  // Array keys

  lemma IndexKeyIff(k: string, n: nat)
    ensures k in IndexKeys(n) <==> IsIndexKey(k, n)
  {
    if k in IndexKeys(n) {
      var i :| 0 <= i < n && NatToString(i) == k;
      ParseRendered(i);
    }
    if IsIndexKey(k, n) {
      RenderParsed(k);
    }
  }

  lemma IndexOfRendered(i: nat, n: nat)
    requires i < n
    ensures IsIndexKey(NatToString(i), n) && ParseNat(NatToString(i)).value == i
  {
    ParseRendered(i);
  }

  lemma {:induction false} IndexKeysCount(n: nat)
    ensures |IndexKeys(n)| == n
  {
    if n > 0 {
      IndexKeysCount(n - 1);
      IndexKeysSnoc(n);
      NewIndexKey(n);
    }
  }

  lemma IndexKeysSnoc(n: nat)
    requires n > 0
    ensures IndexKeys(n) == IndexKeys(n - 1) + {NatToString(n - 1)}
  {
  }

  /** The rendering of `n - 1` is none of the renderings of smaller indices. */
  lemma NewIndexKey(n: nat)
    requires n > 0
    ensures NatToString(n - 1) !in IndexKeys(n - 1)
  {
    if NatToString(n - 1) in IndexKeys(n - 1) {
      var i :| 0 <= i < n - 1 && NatToString(i) == NatToString(n - 1);
      RenderInjective(i, n - 1);
    }
  }

  /** `Object.keys(v).length` counts the keys `for ... in` visits. */
  lemma KeyCountIsSize(v: Value)
    ensures KeyCount(v) == |KeySet(v)|
  {
    if v.Arr? {
      IndexKeysCount(|v.elems|);
    }
  }

  // ---------------------------------------------------------------------
  // The property loop, read over `KeySet`

  /** For two objects, the corrected comparison visits the keys of `x` uniformly. */
  lemma DeepEqualObjects(x: Value, y: Value)
    requires IsObject(x) && IsObject(y)
    ensures DeepEqual(x, y) <==>
      KeyCount(x) == KeyCount(y) &&
      forall k :: k in KeySet(x) ==> k in KeySet(y) && DeepEqual(Get(x, k), Get(y, k))
  {
    if x.Arr? {
      var es := x.elems;
      forall k | k in KeySet(x) ensures exists i :: 0 <= i < |es| && k == NatToString(i) && Get(x, k) == es[i] {
        var i :| 0 <= i < |es| && NatToString(i) == k;
        IndexOfRendered(i, |es|);
      }
      forall i | 0 <= i < |es| ensures NatToString(i) in KeySet(x) && Get(x, NatToString(i)) == es[i] {
        IndexOfRendered(i, |es|);
      }
    }
  }

  lemma SameSizeSubset(a: set<string>, b: set<string>)
    requires a <= b && |a| == |b|
    ensures a == b
  {
    assert |b - a| == |b| - |a| == 0;
  }

  // ---------------------------------------------------------------------
  // Canonical trees: the corrected comparison is equality of these.

  /** A value with arrays turned into objects keyed by index strings. */
  datatype Tree = Leaf(prim: Value) | Node(kids: map<string, Tree>)

  function Canon(v: Value): Tree
  {
    match v
    case Arr(es) => Node(CanonElems(v, |es|))
    case Obj(m) => Node(map k | k in m :: Canon(m[k]))
    case _ => Leaf(v)
  }

  /** The first `n` elements of the array `v`, keyed by their index strings. */
  function CanonElems(v: Value, n: nat): map<string, Tree>
    requires v.Arr? && n <= |v.elems|
    decreases v, n
  {
    if n == 0 then map[]
    else CanonElems(v, n - 1)[NatToString(n - 1) := Canon(v.elems[n - 1])]
  }

  lemma CanonElemsFacts(v: Value, n: nat)
    requires v.Arr? && n <= |v.elems|
    ensures CanonElems(v, n).Keys == IndexKeys(n)
    ensures forall i :: 0 <= i < n ==> CanonElems(v, n)[NatToString(i)] == Canon(v.elems[i])
  {
    CanonElemsKeys(v, n);
    forall i | 0 <= i < n ensures CanonElems(v, n)[NatToString(i)] == Canon(v.elems[i]) {
      CanonElemsAt(v, n, i);
    }
  }

  lemma {:induction false} CanonElemsKeys(v: Value, n: nat)
    requires v.Arr? && n <= |v.elems|
    ensures CanonElems(v, n).Keys == IndexKeys(n)
  {
    if n > 0 {
      CanonElemsKeys(v, n - 1);
      assert IndexKeys(n) == IndexKeys(n - 1) + {NatToString(n - 1)};
    }
  }

  /** Later entries never overwrite the entry of index `i`: the rendered indices differ. */
  lemma {:induction false} CanonElemsAt(v: Value, n: nat, i: nat)
    requires v.Arr? && i < n <= |v.elems|
    ensures NatToString(i) in CanonElems(v, n) && CanonElems(v, n)[NatToString(i)] == Canon(v.elems[i])
  {
    if i < n - 1 {
      CanonElemsAt(v, n - 1, i);
      if NatToString(i) == NatToString(n - 1) {
        RenderInjective(i, n - 1);
      }
    }
  }

  /** The canonical tree of an object: one child per key, each the tree of that property. */
  lemma CanonNode(v: Value)
    requires IsObject(v)
    ensures Canon(v).Node? && Canon(v).kids.Keys == KeySet(v)
    ensures forall k :: k in KeySet(v) ==> Canon(v).kids[k] == Canon(Get(v, k))
  {
    if v.Arr? {
      var es := v.elems;
      CanonElemsFacts(v, |es|);
      forall k | k in KeySet(v) ensures Canon(v).kids[k] == Canon(Get(v, k)) {
        var i :| 0 <= i < |es| && NatToString(i) == k;
        IndexOfRendered(i, |es|);
      }
    }
  }

  /** The corrected comparison holds exactly when the two values have the same canonical tree. */
  lemma {:induction false} DeepEqualIffCanon(x: Value, y: Value)
    ensures DeepEqual(x, y) <==> Canon(x) == Canon(y)
    decreases x
  {
    if IsObject(x) && IsObject(y) {
      DeepEqualObjects(x, y);
      CanonNode(x);
      CanonNode(y);
      KeyCountIsSize(x);
      KeyCountIsSize(y);
      var kx, ky := Canon(x).kids, Canon(y).kids;
      forall k | k in KeySet(x) ensures DeepEqual(Get(x, k), Get(y, k)) <==> Canon(Get(x, k)) == Canon(Get(y, k)) {
        GetSmaller(x, k);
        DeepEqualIffCanon(Get(x, k), Get(y, k));
      }
      if DeepEqual(x, y) {
        SameSizeSubset(KeySet(x), KeySet(y));
        assert kx == ky;
      }
      if Canon(x) == Canon(y) {
        assert kx == ky;
      }
    }
  }

  lemma GetSmaller(v: Value, k: string)
    requires IsObject(v) && k in KeySet(v)
    ensures Get(v, k) < v
  {
    if v.Arr? {
      var i :| 0 <= i < |v.elems| && NatToString(i) == k;
      IndexOfRendered(i, |v.elems|);
    }
  }

  /** Every value equals itself. */
  lemma DeepEqualReflexive(x: Value)
    ensures DeepEqual(x, x)
  {
    DeepEqualIffCanon(x, x);
  }

  /** The corrected comparison does not depend on the order of its arguments. */
  lemma DeepEqualSymmetric(x: Value, y: Value)
    ensures DeepEqual(x, y) == DeepEqual(y, x)
  {
    DeepEqualIffCanon(x, y);
    DeepEqualIffCanon(y, x);
  }

  lemma DeepEqualTransitive(x: Value, y: Value, z: Value)
    requires DeepEqual(x, y) && DeepEqual(y, z)
    ensures DeepEqual(x, z)
  {
    DeepEqualIffCanon(x, y);
    DeepEqualIffCanon(y, z);
    DeepEqualIffCanon(x, z);
  }

  /** Two arrays are equal exactly when they have the same length and equal elements. */
  lemma DeepEqualArrays(xs: seq<Value>, ys: seq<Value>)
    ensures DeepEqual(Arr(xs), Arr(ys)) <==>
      |xs| == |ys| && forall i :: 0 <= i < |xs| ==> DeepEqual(xs[i], ys[i])
  {
    if |xs| == |ys| {
      forall i | 0 <= i < |xs| ensures NatToString(i) in KeySet(Arr(ys)) && Get(Arr(ys), NatToString(i)) == ys[i] {
        IndexOfRendered(i, |ys|);
        IndexKeyIff(NatToString(i), |ys|);
      }
    }
  }

  // ---------------------------------------------------------------------
  // The comparison as written

  /** Every key of `y` that the corrected test accepts, the test as written accepts too. */
  lemma OwnKeysOwned(y: Value, k: string)
    requires k in KeySet(y)
    ensures HasOwn(y, k)
  {
    if y.Arr? {
      IndexKeyIff(k, |y.elems|);
    }
  }

  /** The comparison as written accepts every pair the corrected one accepts. */
  lemma {:induction false} CorrectedImpliesAsWritten(x: Value, y: Value)
    requires DeepEqual(x, y)
    ensures DeepEqualAsWritten(x, y)
    decreases x
  {
    if !StrictEquals(x, y) {
      match x
      case Arr(es) =>
        forall i | 0 <= i < |es| ensures HasOwn(y, NatToString(i)) && DeepEqualAsWritten(es[i], Get(y, NatToString(i))) {
          OwnKeysOwned(y, NatToString(i));
          CorrectedImpliesAsWritten(es[i], Get(y, NatToString(i)));
        }
      case Obj(m) =>
        forall k | k in m ensures HasOwn(y, k) && DeepEqualAsWritten(m[k], Get(y, k)) {
          OwnKeysOwned(y, k);
          CorrectedImpliesAsWritten(m[k], Get(y, k));
        }
    }
  }

  /**
   * The comparison as written accepts every value against itself, so taking
   * two objects to be distinct for `===` changes no answer.
   */
  lemma AsWrittenReflexive(x: Value)
    ensures DeepEqualAsWritten(x, x)
  {
    DeepEqualReflexive(x);
    CorrectedImpliesAsWritten(x, x);
  }

  /** Two arrays compare element by element under the test as written too. */
  lemma AsWrittenArrays(xs: seq<Value>, ys: seq<Value>)
    ensures DeepEqualAsWritten(Arr(xs), Arr(ys)) <==>
      |xs| == |ys| && forall i :: 0 <= i < |xs| ==> DeepEqualAsWritten(xs[i], ys[i])
  {
    if |xs| == |ys| {
      forall i | 0 <= i < |xs| ensures HasOwn(Arr(ys), NatToString(i)) && Get(Arr(ys), NatToString(i)) == ys[i] {
        IndexOfRendered(i, |ys|);
      }
    }
  }

  /** The object `{length: 1}` and the array `[5]`. */
  const LengthOne: Value := Obj(map["length" := Num(1)])
  const ArrayOfFive: Value := Arr([Num(5)])

  /**
   * As written the object `{length: 1}` equals the array `[5]`, since the
   * array owns "length" and its length is 1, but not the other way round,
   * since the object has no key "0".
   */
  lemma AsWrittenAsymmetric()
    ensures DeepEqualAsWritten(LengthOne, ArrayOfFive)
    ensures !DeepEqualAsWritten(ArrayOfFive, LengthOne)
    ensures !DeepEqual(LengthOne, ArrayOfFive) && !DeepEqual(ArrayOfFive, LengthOne)
  {
    assert !IsCanonical("length") by { assert !IsDigit("length"[0]); }
    assert NatToString(0) == "0";
    assert "0" != "length";
    assert |map["length" := Num(1)]| == 1;
    assert forall k :: k in LengthOne.props ==> k == "length";
  }
}
