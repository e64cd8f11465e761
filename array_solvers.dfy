/**
 * The reference solvers of the array practice problems, which compute the
 * expected outputs of randomized test cases, and the Fisher–Yates `shuffle`
 * that reorders generated inputs.
 *
 * JavaScript numbers are modelled as unbounded integers.
 */
module ArraySolvers {
  import opened Wrappers

  predicate Sorted(s: seq<int>)
  {
    forall i, j :: 0 <= i < j < |s| ==> s[i] <= s[j]
  }

  // ---------------------------------------------------------------------
  // computeTwoSumAnswer

  /** Indices `a < b` whose values add up to `target`. */
  predicate PairAt(nums: seq<int>, target: int, a: int, b: int)
  {
    0 <= a < b < |nums| && nums[a] + nums[b] == target
  }

  /**
   * `computeTwoSumAnswer(nums, target)`: `null` when no pair adds up to the
   * target; otherwise `[a, b]` with the smallest such `b` and, for it, the
   * largest such `a` (the map keeps the latest index of each value).
   */
  method TwoSum(nums: seq<int>, target: int) returns (r: Option<(nat, nat)>)
    ensures r.None? <==> forall a, b :: !PairAt(nums, target, a, b)
    ensures r.Some? ==> PairAt(nums, target, r.value.0, r.value.1)
    ensures r.Some? ==> forall a, b :: PairAt(nums, target, a, b) ==> r.value.1 <= b
    ensures r.Some? ==> forall a :: r.value.0 < a < r.value.1 ==> !PairAt(nums, target, a, r.value.1)
  {
    var seen: map<int, nat> := map[];
    var i := 0;
    while i < |nums|
      invariant 0 <= i <= |nums|
      invariant forall j :: 0 <= j < i ==> nums[j] in seen
      invariant forall v :: v in seen ==> seen[v] < i && nums[seen[v]] == v
      invariant forall v, j :: v in seen && seen[v] < j < i ==> nums[j] != v
      invariant forall a, b :: PairAt(nums, target, a, b) ==> i <= b
    {
      var need := target - nums[i];
      if need in seen {
        assert PairAt(nums, target, seen[need], i);
        return Some((seen[need], i));
      }
      seen := seen[nums[i] := i];
      i := i + 1;
    }
    return None;
  }

  // ---------------------------------------------------------------------
  // computeUniqueSorted

  /** `a` is what is left of `b` after deleting some elements. */
  predicate Subsequence(a: seq<int>, b: seq<int>)
  {
    if a == [] then true
    else if b == [] then false
    else if a[0] == b[0] then Subsequence(a[1..], b[1..])
    else Subsequence(a, b[1..])
  }

  lemma {:induction false} SubsequenceSingle(x: int, b: seq<int>)
    requires x in b
    ensures Subsequence([x], b)
  {
    if b[0] != x {
      SubsequenceSingle(x, b[1..]);
    } else {
      assert [x][1..] == [];
    }
  }

  /** Appending the same element to both sides keeps a subsequence one. */
  lemma {:induction false} SubsequenceSnoc(a: seq<int>, b: seq<int>, x: int)
    requires Subsequence(a, b)
    ensures Subsequence(a + [x], b + [x])
  {
    if a == [] {
      SubsequenceSingle(x, b + [x]);
      assert a + [x] == [x];
    } else {
      assert (a + [x])[0] == a[0] && (a + [x])[1..] == a[1..] + [x];
      assert (b + [x])[0] == b[0] && (b + [x])[1..] == b[1..] + [x];
      if a[0] == b[0] {
        SubsequenceSnoc(a[1..], b[1..], x);
      } else {
        SubsequenceSnoc(a, b[1..], x);
      }
    }
  }

  /** Appending an element to the longer side only keeps a subsequence one. */
  lemma {:induction false} SubsequenceExtend(a: seq<int>, b: seq<int>, x: int)
    requires Subsequence(a, b)
    ensures Subsequence(a, b + [x])
  {
    if a != [] {
      assert (b + [x])[0] == b[0] && (b + [x])[1..] == b[1..] + [x];
      if a[0] == b[0] {
        SubsequenceExtend(a[1..], b[1..], x);
      } else {
        SubsequenceExtend(a, b[1..], x);
      }
    }
  }

  /** Position `j` starts a run of equal neighbours. */
  predicate RunStart(arr: seq<int>, j: int)
    requires 0 <= j < |arr|
  {
    j == 0 || arr[j] != arr[j - 1]
  }

  /** The positions below `n` that start a run. */
  function RunStarts(arr: seq<int>, n: nat): set<nat>
    requires n <= |arr|
  {
    set j: nat | j < n && RunStart(arr, j)
  }

  /** Position `n` adds one run start exactly when it starts a run. */
  lemma RunStartsSnoc(arr: seq<int>, n: nat)
    requires n < |arr|
    ensures |RunStarts(arr, n + 1)| == |RunStarts(arr, n)| + (if RunStart(arr, n) then 1 else 0)
  {
    if RunStart(arr, n) {
      assert RunStarts(arr, n + 1) == RunStarts(arr, n) + {n};
    } else {
      assert RunStarts(arr, n + 1) == RunStarts(arr, n);
    }
  }

  /**
   * `computeUniqueSorted(arr)`: the input with every run of equal neighbours
   * reduced to one element, on any input; on a sorted input, its distinct
   * values in increasing order. A subsequence without equal neighbours that
   * has one element per run is exactly that reduction.
   */
  method UniqueSorted(arr: seq<int>) returns (out: seq<int>)
    ensures Subsequence(out, arr)
    ensures forall v :: v in out <==> v in arr
    ensures forall k :: 0 <= k < |out| - 1 ==> out[k] != out[k + 1]
    ensures |out| == |RunStarts(arr, |arr|)|
    ensures Sorted(arr) ==> forall a, b :: 0 <= a < b < |out| ==> out[a] < out[b]
  {
    out := [];
    var i := 0;
    while i < |arr|
      invariant 0 <= i <= |arr|
      invariant Subsequence(out, arr[..i])
      invariant forall v :: v in out <==> v in arr[..i]
      invariant forall k :: 0 <= k < |out| - 1 ==> out[k] != out[k + 1]
      invariant i > 0 ==> out != [] && out[|out| - 1] == arr[i - 1]
      invariant |out| == |RunStarts(arr, i)|
      invariant Sorted(arr) ==> forall a, b :: 0 <= a < b < |out| ==> out[a] < out[b]
    {
      var v := arr[i];
      RunStartsSnoc(arr, i);
      assert arr[..i + 1] == arr[..i] + [v];
      if |out| == 0 || out[|out| - 1] != v {
        SubsequenceSnoc(out, arr[..i], v);
        if Sorted(arr) && i > 0 {
          forall k | 0 <= k < |out| ensures out[k] < v {
            assert out[k] in arr[..i];
            var j :| 0 <= j < i && arr[j] == out[k];
          }
        }
        out := out + [v];
      } else {
        SubsequenceExtend(out, arr[..i], v);
      }
      i := i + 1;
    }
    assert arr[..i] == arr;
  }

  // ---------------------------------------------------------------------
  // computeBinarySearch

  /**
   * `computeBinarySearch(arr, target)`: an index holding `target`, or -1; on
   * an ascending array, -1 only when `target` is absent.
   */
  method BinarySearch(arr: seq<int>, target: int) returns (idx: int)
    ensures idx == -1 || (0 <= idx < |arr| && arr[idx] == target)
    ensures Sorted(arr) ==> (idx == -1 <==> target !in arr)
  {
    var l, r := 0, |arr| - 1;
    while l <= r
      invariant 0 <= l && r < |arr|
      invariant Sorted(arr) ==> forall k :: 0 <= k < |arr| && arr[k] == target ==> l <= k <= r
      decreases r - l
    {
      var m := (l + r) / 2;
      if arr[m] == target {
        return m;
      }
      if arr[m] < target {
        l := m + 1;
      } else {
        r := m - 1;
      }
    }
    return -1;
  }

  // ---------------------------------------------------------------------
  // computeMaxSubArray

  /** A number or `-Infinity`. */
  datatype ExtInt = NegInf | Fin(v: int)

  /** `Math.max` where `-Infinity` is below every number. */
  function ExtMax(a: ExtInt, b: ExtInt): ExtInt
  {
    if a.NegInf? then b else if b.NegInf? then a else Fin(Max(a.v, b.v))
  }

  function Sum(s: seq<int>): int
  {
    if s == [] then 0 else Sum(s[..|s| - 1]) + s[|s| - 1]
  }

  lemma SumSnoc(nums: seq<int>, i: nat, k: nat)
    requires i <= k < |nums|
    ensures Sum(nums[i..k + 1]) == Sum(nums[i..k]) + nums[k]
  {
    assert nums[i..k + 1][..k - i] == nums[i..k];
  }

  /** No non-empty slice ending at `k` sums to more than `cur`. */
  predicate BestEndingAt(nums: seq<int>, k: nat, cur: int)
    requires k <= |nums|
  {
    forall i :: 0 <= i < k ==> Sum(nums[i..k]) <= cur
  }

  /** No non-empty slice within the first `k` numbers sums to more than `b`. */
  predicate BoundsAll(nums: seq<int>, k: nat, b: int)
    requires k <= |nums|
  {
    forall i, j :: 0 <= i < j <= k ==> Sum(nums[i..j]) <= b
  }

  /** The best slice ending at `k + 1` either is `[nums[k]]` alone or extends the best slice ending at `k`. */
  lemma KadaneStep(nums: seq<int>, k: nat, ci: nat, cur: int)
    requires k < |nums|
    requires k > 0 ==> ci < k && Sum(nums[ci..k]) == cur && BestEndingAt(nums, k, cur)
    requires k == 0 ==> cur == 0
    ensures var ci' := if k == 0 || nums[k] > cur + nums[k] then k else ci;
      ci' <= k && Sum(nums[ci'..k + 1]) == Max(nums[k], cur + nums[k]) &&
      BestEndingAt(nums, k + 1, Max(nums[k], cur + nums[k]))
  {
    var best, next := Max(nums[k], cur + nums[k]), k + 1;
    forall i | 0 <= i < next ensures Sum(nums[i..next]) <= best {
      SumSnoc(nums, i, k);
      if i < k {
        assert Sum(nums[i..k]) <= cur;
      } else {
        assert Sum(nums[k..k]) == 0;
      }
    }
    SumSnoc(nums, if k == 0 || nums[k] > cur + nums[k] then k else ci, k);
    assert Sum(nums[k..k]) == 0;
  }

  /** The best sum over slices ending by `next` is the old best or the best slice ending at `next`. */
  lemma BestStep(nums: seq<int>, next: nat, best: ExtInt, cur: int)
    requires 0 < next <= |nums|
    requires best.NegInf? ==> next == 1
    requires best.Fin? ==> BoundsAll(nums, next - 1, best.v)
    requires BestEndingAt(nums, next, cur)
    ensures BoundsAll(nums, next, ExtMax(best, Fin(cur)).v)
  {
    forall i, j | 0 <= i < j <= next ensures Sum(nums[i..j]) <= ExtMax(best, Fin(cur)).v {
      if j < next {
        assert Sum(nums[i..j]) <= best.v;
      } else {
        assert Sum(nums[i..next]) <= cur;
      }
    }
  }

  /** `computeMaxSubArray(nums)`: the largest sum of a non-empty run of neighbours, `-Infinity` for no numbers. */
  method MaxSubArray(nums: seq<int>) returns (best: ExtInt)
    ensures nums == [] <==> best == NegInf
    ensures best.Fin? ==> exists i, j :: 0 <= i < j <= |nums| && Sum(nums[i..j]) == best.v
    ensures best.Fin? ==> forall i, j :: 0 <= i < j <= |nums| ==> Sum(nums[i..j]) <= best.v
  {
    best := NegInf;
    var cur := 0;
    ghost var ci, bi, bj := 0, 0, 0;
    for k := 0 to |nums|
      invariant (k == 0) == (best == NegInf)
      invariant k == 0 ==> cur == 0
      invariant k > 0 ==> ci < k && Sum(nums[ci..k]) == cur && BestEndingAt(nums, k, cur)
      invariant best.Fin? ==> 0 <= bi < bj <= k && Sum(nums[bi..bj]) == best.v
      invariant best.Fin? ==> BoundsAll(nums, k, best.v)
    {
      var n := nums[k];
      KadaneStep(nums, k, ci, cur);
      ci := if k == 0 || n > cur + n then k else ci;
      cur := Max(n, cur + n);
      if best.NegInf? || cur > best.v {
        bi, bj := ci, k + 1;
      }
      BestStep(nums, k + 1, best, cur);
      best := ExtMax(best, Fin(cur));
    }
  }

  // ---------------------------------------------------------------------
  // computeMaxArea

  /** The water between lines `a` and `b`: the lower height times the distance. */
  function Area(height: seq<nat>, a: int, b: int): nat
    requires 0 <= a < b < |height|
  {
    Min(height[a], height[b]) * (b - a)
  }

  lemma MulMonotone(x: nat, y: nat, c: nat, d: nat)
    requires x <= y && c <= d
    ensures x * c <= y * d
  {
    assert x * c <= y * c;
    assert y * c <= y * d;
  }

  /** Moving the lower side inward can only skip pairs that are no better than the current one. */
  lemma SideDone(height: seq<nat>, i: nat, j: nat)
    requires i < j < |height|
    ensures height[i] < height[j] ==> forall b :: i < b <= j ==> Area(height, i, b) <= Area(height, i, j)
    ensures height[i] >= height[j] ==> forall a :: i <= a < j ==> Area(height, a, j) <= Area(height, i, j)
  {
    if height[i] < height[j] {
      forall b | i < b <= j ensures Area(height, i, b) <= Area(height, i, j) {
        MulMonotone(Min(height[i], height[b]), height[i], b - i, j - i);
      }
    } else {
      forall a | i <= a < j ensures Area(height, a, j) <= Area(height, i, j) {
        MulMonotone(Min(height[a], height[j]), height[j], j - a, j - i);
      }
    }
  }

  /** `computeMaxArea(height)`: the largest area over all pairs of lines, 0 with fewer than two lines. */
  method MaxArea(height: seq<nat>) returns (best: nat)
    ensures forall a, b :: 0 <= a < b < |height| ==> Area(height, a, b) <= best
    ensures |height| >= 2 ==> exists a, b :: 0 <= a < b < |height| && Area(height, a, b) == best
    ensures |height| < 2 ==> best == 0
  {
    var i, j := 0, |height| - 1;
    best := 0;
    ghost var ba, bb := 0, 0;
    while i < j
      invariant 0 <= i && j < |height| && (|height| >= 1 ==> i <= j)
      invariant forall a, b :: 0 <= a < b < |height| && (a < i || j < b) ==> Area(height, a, b) <= best
      invariant (i == 0 && j == |height| - 1) ==> best == 0
      invariant !(i == 0 && j == |height| - 1) ==> 0 <= ba < bb < |height| && Area(height, ba, bb) == best
      decreases j - i
    {
      var area := Area(height, i, j);
      if area >= best {
        ba, bb := i, j;
      }
      best := Max(best, area);
      SideDone(height, i, j);
      if height[i] < height[j] {
        i := i + 1;
      } else {
        j := j - 1;
      }
    }
  }

  // ---------------------------------------------------------------------
  // computeRotateArray

  /** JavaScript's `a % n`: truncated toward zero, so it takes the sign of `a`. */
  function JsRem(a: int, n: int): (r: int)
    requires n > 0
    ensures -n < r < n
  {
    if a >= 0 then a % n else -((-a) % n)
  }

  /** `((k % n) + n) % n`. */
  function RotateAmount(k: int, n: int): int
    requires n > 0
  {
    JsRem(JsRem(k, n) + n, n)
  }

  /** A non-zero multiple of `n` is at least `n` away from zero. */
  lemma MulSign(d: int, n: int)
    requires n > 0
    ensures d >= 1 ==> d * n >= n
    ensures d <= -1 ==> d * n <= -n
  {
    assert d >= 1 ==> d * n >= 1 * n;
    assert d <= -1 ==> d * n <= -1 * n;
  }

  /** `k % n` is the `b` of any way of writing `k` as `q * n + b` with `0 <= b < n`. */
  lemma ModUnique(k: int, n: int, q: int, b: int)
    requires n > 0 && 0 <= b < n && k == q * n + b
    ensures k % n == b
  {
    var q', b' := k / n, k % n;
    assert k == q' * n + b';
    assert (q - q') * n == b' - b;
    MulSign(q - q', n);
  }

  /** The normalised amount is `k` modulo `n`, for negative `k` as well. */
  lemma RotateAmountMod(k: int, n: int)
    requires n > 0
    ensures RotateAmount(k, n) == k % n
  {
    if k < 0 {
      var q, r := (-k) / n, (-k) % n;
      assert -k == q * n + r;
      if r == 0 {
        assert JsRem(k, n) == 0;
        ModUnique(n, n, 1, 0);
        ModUnique(k, n, -q, 0);
      } else {
        assert JsRem(k, n) == -r;
        ModUnique(n - r, n, 0, n - r);
        ModUnique(k, n, -q - 1, n - r);
      }
    } else {
      var q, r := k / n, k % n;
      ModUnique(r + n, n, 1, r);
    }
  }

  /** `computeRotateArray(nums, k)`: the array rotated right by `k` places; a copy for an empty array. */
  function Rotate(nums: seq<int>, k: int): (r: seq<int>)
    ensures |r| == |nums|
  {
    var n := |nums|;
    if n == 0 then nums
    else
      var amount := RotateAmount(k, n);
      nums[n - amount..] + nums[..n - amount]
  }

  /** Where one element moves. */
  lemma RotateOne(nums: seq<int>, k: int, i: nat)
    requires i < |nums|
    ensures Rotate(nums, k)[(i + k) % |nums|] == nums[i]
  {
    var n := |nums|;
    RotateAmountMod(k, n);
    var amount := k % n;
    assert k == (k / n) * n + amount;
    if i < n - amount {
      ModUnique(i + k, n, k / n, i + amount);
    } else {
      ModUnique(i + k, n, k / n + 1, i + amount - n);
    }
  }

  /** The element at `i` moves to `(i + k) mod n`. */
  lemma RotateIndex(nums: seq<int>, k: int)
    ensures |Rotate(nums, k)| == |nums|
    ensures forall i :: 0 <= i < |nums| ==> Rotate(nums, k)[(i + k) % |nums|] == nums[i]
  {
    forall i | 0 <= i < |nums| ensures Rotate(nums, k)[(i + k) % |nums|] == nums[i] {
      RotateOne(nums, k, i);
    }
  }

  /** Rotating back by the same amount puts the element at `i` back at `i`. */
  lemma RotateBackOne(nums: seq<int>, k: int, i: nat)
    requires i < |nums|
    ensures |Rotate(nums, k)| == |nums| && Rotate(Rotate(nums, k), -k)[i] == nums[i]
  {
    var n := |nums|;
    var once := Rotate(nums, k);
    var j := (i + k) % n;
    RotateAt(nums, k, i, j);
    ModBack(i, k, n);
    RotateAt(once, -k, j, i);
  }

  /** `RotateOne` with the target index named. */
  lemma RotateAt(nums: seq<int>, k: int, i: nat, j: int)
    requires i < |nums| && j == (i + k) % |nums|
    ensures 0 <= j < |Rotate(nums, k)| && Rotate(nums, k)[j] == nums[i]
  {
    RotateOne(nums, k, i);
  }

  /** Moving forward by `k` and back by `k` modulo `n` returns to the start. */
  lemma ModBack(i: int, k: int, n: int)
    requires n > 0 && 0 <= i < n
    ensures ((i + k) % n + -k) % n == i
  {
    var j := (i + k) % n;
    var q := (i + k) / n;
    assert i + k == q * n + j;
    assert (-q) * n == -(q * n);
    assert j + -k == (-q) * n + i;
    ModUnique(j + -k, n, -q, i);
  }

  /** Rotating back by the same amount gives the array back. */
  lemma RotateInverse(nums: seq<int>, k: int)
    ensures Rotate(Rotate(nums, k), -k) == nums
  {
    if |nums| > 0 {
      forall i | 0 <= i < |nums| ensures Rotate(Rotate(nums, k), -k)[i] == nums[i] {
        RotateBackOne(nums, k, i);
      }
    }
  }

  // ---------------------------------------------------------------------
  // computeMoveZeroes

  /** `nums.filter(x => x !== 0)`. */
  function NonZero(nums: seq<int>): (r: seq<int>)
    ensures |r| <= |nums| && forall x :: x in r ==> x != 0
  {
    if nums == [] then [] else (if nums[0] != 0 then [nums[0]] else []) + NonZero(nums[1..])
  }

  /** `Array(n).fill(0)`. */
  function Zeros(n: nat): (r: seq<int>)
    ensures |r| == n && forall x :: x in r ==> x == 0
  {
    if n == 0 then [] else [0] + Zeros(n - 1)
  }

  /** `computeMoveZeroes(nums)`. */
  function MoveZeroes(nums: seq<int>): seq<int>
  {
    var out := NonZero(nums);
    out + Zeros(|nums| - |out|)
  }

  /** The filter drops exactly the zeros. */
  lemma {:induction false} NonZeroLength(nums: seq<int>)
    ensures |NonZero(nums)| + multiset(nums)[0] == |nums|
  {
    if nums != [] {
      NonZeroLength(nums[1..]);
      assert nums == [nums[0]] + nums[1..];
      assert multiset(nums)[0] == multiset([nums[0]])[0] + multiset(nums[1..])[0];
    }
  }

  /** The filter keeps every non-zero element as often as it occurs, and no zero. */
  lemma {:induction false} NonZeroCount(nums: seq<int>, x: int)
    ensures multiset(NonZero(nums))[x] == if x == 0 then 0 else multiset(nums)[x]
  {
    if nums != [] {
      var head := if nums[0] != 0 then [nums[0]] else [];
      NonZeroCount(nums[1..], x);
      assert NonZero(nums) == head + NonZero(nums[1..]);
      assert multiset(NonZero(nums)) == multiset(head) + multiset(NonZero(nums[1..]));
      assert nums == [nums[0]] + nums[1..];
      assert multiset(nums) == multiset{nums[0]} + multiset(nums[1..]);
    }
  }

  lemma {:induction false} ZerosCount(n: nat, x: int)
    ensures multiset(Zeros(n))[x] == if x == 0 then n else 0
  {
    if n > 0 {
      ZerosCount(n - 1, x);
      assert Zeros(n) == [0] + Zeros(n - 1);
    }
  }

  /** The kept elements and the dropped zeros make up the input. */
  lemma NonZeroMultiset(nums: seq<int>)
    ensures multiset(NonZero(nums)) + multiset(Zeros(multiset(nums)[0])) == multiset(nums)
  {
    forall x ensures (multiset(NonZero(nums)) + multiset(Zeros(multiset(nums)[0])))[x] == multiset(nums)[x] {
      NonZeroCount(nums, x);
      ZerosCount(multiset(nums)[0], x);
    }
  }

  /**
   * The result has the input's length and elements: its non-zero elements in
   * their original order, then only zeros.
   */
  lemma MoveZeroesSpec(nums: seq<int>)
    ensures |MoveZeroes(nums)| == |nums|
    ensures multiset(MoveZeroes(nums)) == multiset(nums)
    ensures MoveZeroes(nums)[..|NonZero(nums)|] == NonZero(nums)
    ensures forall i :: |NonZero(nums)| <= i < |nums| ==> MoveZeroes(nums)[i] == 0
  {
    NonZeroLength(nums);
    NonZeroMultiset(nums);
    var out := NonZero(nums);
    assert MoveZeroes(nums)[..|out|] == out;
    forall i | |out| <= i < |nums| ensures MoveZeroes(nums)[i] == 0 {
      assert MoveZeroes(nums)[i] == Zeros(|nums| - |out|)[i - |out|];
      assert Zeros(|nums| - |out|)[i - |out|] in Zeros(|nums| - |out|);
    }
  }

  lemma {:induction false} NonZeroConcat(a: seq<int>, b: seq<int>)
    ensures NonZero(a + b) == NonZero(a) + NonZero(b)
  {
    if a == [] {
      assert a + b == b;
    } else {
      assert (a + b)[0] == a[0] && (a + b)[1..] == a[1..] + b;
      NonZeroConcat(a[1..], b);
    }
  }

  lemma {:induction false} NonZeroIdempotent(nums: seq<int>)
    requires forall x :: x in nums ==> x != 0
    ensures NonZero(nums) == nums
  {
    if nums != [] {
      assert nums[0] in nums;
      assert forall x :: x in nums[1..] ==> x in nums;
      NonZeroIdempotent(nums[1..]);
      assert nums == [nums[0]] + nums[1..];
    }
  }

  lemma {:induction false} NonZeroZeros(n: nat)
    ensures NonZero(Zeros(n)) == []
  {
    if n > 0 {
      assert Zeros(n)[1..] == Zeros(n - 1);
      NonZeroZeros(n - 1);
    }
  }

  /** Moving the zeros of an array whose zeros are already at the end changes nothing. */
  lemma MoveZeroesIdempotent(nums: seq<int>)
    ensures MoveZeroes(MoveZeroes(nums)) == MoveZeroes(nums)
  {
    var out := NonZero(nums);
    var once := MoveZeroes(nums);
    NonZeroConcat(out, Zeros(|nums| - |out|));
    NonZeroIdempotent(out);
    NonZeroZeros(|nums| - |out|);
    assert out + [] == out;
  }

  // ---------------------------------------------------------------------
  // shuffle

  /** `[s[i], s[j]] = [s[j], s[i]]`. */
  function Swap<T>(s: seq<T>, i: nat, j: nat): seq<T>
    requires i < |s| && j < |s|
  {
    s[i := s[j]][j := s[i]]
  }

  /** Each draw `picks[i]` is an index in `[0, i]`, as `Math.floor(rnd() * (i + 1))` is. */
  predicate ValidPicks(picks: seq<nat>)
  {
    forall i :: 0 <= i < |picks| ==> picks[i] <= i
  }

  /** The swaps for positions `i`, `i - 1`, ..., 1, in that order. */
  function ShuffledFrom<T>(s: seq<T>, picks: seq<nat>, i: nat): (r: seq<T>)
    requires |picks| == |s| && ValidPicks(picks) && (i < |s| || i == 0)
    ensures |r| == |s|
    decreases i
  {
    if i == 0 then s else ShuffledFrom(Swap(s, i, picks[i]), picks, i - 1)
  }

  /** The loop's starting position: `array.length - 1`, or 0 for an empty array. */
  function Top(n: nat): nat
  {
    if n == 0 then 0 else n - 1
  }

  /** `shuffle(array, rnd)`, with the draws of `rnd` given as `picks`. */
  method Shuffle<T>(a: array<T>, picks: seq<nat>)
    requires |picks| == a.Length && ValidPicks(picks)
    modifies a
    ensures a[..] == ShuffledFrom(old(a[..]), picks, Top(a.Length))
  {
    var i := Top(a.Length);
    while i > 0
      invariant 0 <= i <= Top(a.Length)
      invariant ShuffledFrom(a[..], picks, i) == ShuffledFrom(old(a[..]), picks, Top(a.Length))
    {
      var j := picks[i];
      ghost var before := a[..];
      a[i], a[j] := a[j], a[i];
      assert a[..] == Swap(before, i, j);
      i := i - 1;
    }
  }

  /** Shuffling only reorders: the same elements, each as many times. */
  lemma {:induction false} ShuffledPermutation<T>(s: seq<T>, picks: seq<nat>, i: nat)
    requires |picks| == |s| && ValidPicks(picks) && (i < |s| || i == 0)
    ensures multiset(ShuffledFrom(s, picks, i)) == multiset(s)
    decreases i
  {
    if i > 0 {
      var t := Swap(s, i, picks[i]);
      SwapPermutation(s, i, picks[i]);
      ShuffledPermutation(t, picks, i - 1);
    }
  }

  /** One swap only reorders. */
  lemma SwapPermutation<T>(s: seq<T>, i: nat, j: nat)
    requires i < |s| && j < |s|
    ensures multiset(Swap(s, i, j)) == multiset(s)
  {
    var t1 := s[i := s[j]];
    assert multiset(t1) == multiset(s) - multiset{s[i]} + multiset{s[j]};
    assert t1[j] == s[j];
    assert multiset(t1[j := s[i]]) == multiset(t1) - multiset{s[j]} + multiset{s[i]};
  }

  /** Positions above `i` are never touched again once the loop is at `i`. */
  lemma {:induction false} ShuffledKeepsAbove<T>(s: seq<T>, picks: seq<nat>, i: nat, k: nat)
    requires |picks| == |s| && ValidPicks(picks) && (i < |s| || i == 0) && i < k < |s|
    ensures ShuffledFrom(s, picks, i)[k] == s[k]
    decreases i
  {
    if i > 0 {
      ShuffledKeepsAbove(Swap(s, i, picks[i]), picks, i - 1, k);
    }
  }

  /** The first draw decides the last element: the element at `picks[n - 1]` ends up last. */
  lemma ShuffledLast<T>(s: seq<T>, picks: seq<nat>)
    requires |picks| == |s| && ValidPicks(picks) && |s| >= 2
    ensures ShuffledFrom(s, picks, |s| - 1)[|s| - 1] == s[picks[|s| - 1]]
  {
    var n := |s|;
    var t := Swap(s, n - 1, picks[n - 1]);
    if n - 2 > 0 {
      ShuffledKeepsAbove(t, picks, n - 2, n - 1);
    }
  }

  /** Drawing `j == i` every time leaves the array as it was. */
  lemma {:induction false} ShuffledIdentity<T>(s: seq<T>, picks: seq<nat>, i: nat)
    requires |picks| == |s| && (i < |s| || i == 0) && forall k :: 0 <= k < |picks| ==> picks[k] == k
    ensures ShuffledFrom(s, picks, i) == s
    decreases i
  {
    if i > 0 {
      assert Swap(s, i, i) == s;
      ShuffledIdentity(s, picks, i - 1);
    }
  }
}
