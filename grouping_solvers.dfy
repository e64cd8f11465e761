/**
 * The two reference solvers that group or count through an
 * insertion-ordered `Map`: `computeGroupAnagrams` and `computeTopKFrequent`.
 * A JavaScript `Map` is modelled as a Dafny `map` plus the sequence of its
 * keys in insertion order, which is the order `map.values()` and
 * `map.entries()` report.
 */
module GroupingSolvers {
  import opened KeepFirst

  // ---------------------------------------------------------------------
  // Group anagrams: the key of a string is its characters in sorted order.

  predicate SortedChars(s: string)
  {
    forall i, j :: 0 <= i < j < |s| ==> s[i] <= s[j]
  }

  /** Inserts `c` before the first character of `s` that is not below it. */
  function InsertChar(c: char, s: string): (r: string)
    ensures |r| == |s| + 1
  {
    if s == [] then [c]
    else if c <= s[0] then [c] + s
    else [s[0]] + InsertChar(c, s[1..])
  }

  /** `s.split('').sort()`, written as an insertion sort. */
  function SortChars(s: string): (r: string)
    ensures |r| == |s|
  {
    if s == [] then []
    else InsertChar(s[0], SortChars(s[1..]))
  }

  /** The map key `s.split('').sort().join('')`. */
  function AnagramKey(s: string): string
  {
    SortChars(s)
  }

  /** The inserted string starts with `c` or with the old first character. */
  lemma InsertCharHead(c: char, s: string)
    ensures InsertChar(c, s)[0] == c || (s != [] && InsertChar(c, s)[0] == s[0])
  {
  }

  lemma {:induction false} InsertCharSorted(c: char, s: string)
    requires SortedChars(s)
    ensures SortedChars(InsertChar(c, s))
  {
    if s != [] {
      if c <= s[0] {
        SortedCons(c, s);
      } else {
        var rest := InsertChar(c, s[1..]);
        InsertCharSorted(c, s[1..]);
        InsertCharHead(c, s[1..]);
        assert |s| > 1 ==> s[0] <= s[1];
        SortedCons(s[0], rest);
      }
    }
  }

  lemma {:induction false} InsertCharPermutes(c: char, s: string)
    ensures multiset(InsertChar(c, s)) == multiset(s) + multiset{c}
  {
    if s != [] && c > s[0] {
      InsertCharPermutes(c, s[1..]);
      assert s == [s[0]] + s[1..];
    }
  }

  /** The sort orders the characters and keeps each of them. */
  lemma {:induction false} SortCharsSorted(s: string)
    ensures SortedChars(SortChars(s)) && multiset(SortChars(s)) == multiset(s)
  {
    if s != [] {
      SortCharsSorted(s[1..]);
      InsertCharSorted(s[0], SortChars(s[1..]));
      InsertCharPermutes(s[0], SortChars(s[1..]));
      assert s == [s[0]] + s[1..];
    }
  }

  lemma SortedCons(x: char, t: string)
    requires SortedChars(t) && (t != [] ==> x <= t[0])
    ensures SortedChars([x] + t)
  {
  }

  /** A sorted string is determined by its characters, whatever sort produced it. */
  lemma {:induction false} SortedUnique(a: string, b: string)
    requires SortedChars(a) && SortedChars(b) && multiset(a) == multiset(b)
    ensures a == b
  {
    SameLength(a, b);
    if a != [] {
      SameFirst(a, b);
      SortedTails(a, b);
      SortedUnique(a[1..], b[1..]);
      ConsEqual(a, b);
    }
  }

  lemma SameLength(a: string, b: string)
    requires multiset(a) == multiset(b)
    ensures |a| == |b|
  {
    assert |b| == |multiset(b)| == |multiset(a)| == |a|;
  }

  /** With equal first characters, the tails are again sorted with equal multisets. */
  lemma SortedTails(a: string, b: string)
    requires SortedChars(a) && SortedChars(b) && multiset(a) == multiset(b)
    requires a != [] && b != [] && a[0] == b[0]
    ensures SortedChars(a[1..]) && SortedChars(b[1..]) && multiset(a[1..]) == multiset(b[1..])
  {
    TailMultiset(a);
    TailMultiset(b);
    SortedTail(a);
    SortedTail(b);
  }

  lemma SortedTail(s: string)
    requires SortedChars(s) && s != []
    ensures SortedChars(s[1..])
  {
    forall i, j | 0 <= i < j < |s| - 1 ensures s[1..][i] <= s[1..][j] {
      assert s[1..][i] == s[i + 1] && s[1..][j] == s[j + 1];
    }
  }

  lemma ConsEqual(a: string, b: string)
    requires a != [] && b != [] && a[0] == b[0] && a[1..] == b[1..]
    ensures a == b
  {
    assert a == [a[0]] + a[1..];
    assert b == [b[0]] + b[1..];
  }

  lemma SameFirst(a: string, b: string)
    requires SortedChars(a) && SortedChars(b) && multiset(a) == multiset(b)
    requires a != [] && |b| == |a|
    ensures a[0] == b[0]
  {
    assert b[0] in multiset(b) && a[0] in multiset(a);
    var i :| 0 <= i < |a| && a[i] == b[0];
    var j :| 0 <= j < |b| && b[j] == a[0];
  }

  lemma TailMultiset(a: string)
    requires a != []
    ensures multiset(a[1..]) == multiset(a) - multiset{a[0]}
  {
    assert a == [a[0]] + a[1..];
  }

  /** Two strings share a key exactly when they are anagrams of each other. */
  lemma AnagramKeyIff(a: string, b: string)
    ensures AnagramKey(a) == AnagramKey(b) <==> multiset(a) == multiset(b)
  {
    SortCharsSorted(a);
    SortCharsSorted(b);
    if multiset(a) == multiset(b) {
      SortedUnique(AnagramKey(a), AnagramKey(b));
    }
  }

  /** The strings of `strs` whose key is `k`, in input order and with their repetitions. */
  function WithKey(strs: seq<string>, k: string): seq<string>
  {
    if strs == [] then []
    else WithKey(strs[..|strs| - 1], k) + (if AnagramKey(strs[|strs| - 1]) == k then [strs[|strs| - 1]] else [])
  }

  /** A group keeps every string of its key as often as it occurs, and nothing else. */
  lemma {:induction false} WithKeyCount(strs: seq<string>, k: string)
    ensures forall s :: multiset(WithKey(strs, k))[s] == if AnagramKey(s) == k then multiset(strs)[s] else 0
  {
    if strs != [] {
      var init, last := strs[..|strs| - 1], strs[|strs| - 1];
      assert strs == init + [last];
      WithKeyCount(init, k);
    }
  }

  /** The distinct keys of `strs`, in the order they first occur. */
  function KeyOrder(strs: seq<string>): (ks: seq<string>)
    ensures |ks| == |DedupBy(strs, AnagramKey)|
  {
    var reps := DedupBy(strs, AnagramKey);
    seq(|reps|, j requires 0 <= j < |reps| => AnagramKey(reps[j]))
  }

  /** `Array.from(map.values())` after the loop: one group per key, in first-occurrence order. */
  function Grouped(strs: seq<string>): (g: seq<seq<string>>)
    ensures |g| == |KeyOrder(strs)|
  {
    var ks := KeyOrder(strs);
    seq(|ks|, j requires 0 <= j < |ks| => WithKey(strs, ks[j]))
  }

  lemma WithKeyAbsent(strs: seq<string>, k: string)
    requires k !in KeysOf(strs, AnagramKey)
    ensures WithKey(strs, k) == []
  {
    var r := WithKey(strs, k);
    WithKeyCount(strs, k);
    if r != [] {
      assert false;
    }
  }

  /** What the loop keeps true after `i` strings: `order` lists the keys of `byKey` in insertion order, and each key holds its strings so far. */
  ghost predicate GroupState(strs: seq<string>, i: nat, order: seq<string>, byKey: map<string, seq<string>>)
    requires i <= |strs|
  {
    var reps := DedupBy(strs[..i], AnagramKey);
    && |order| == |reps|
    && (forall j :: 0 <= j < |reps| ==> order[j] == AnagramKey(reps[j]))
    && byKey.Keys == KeysOf(strs[..i], AnagramKey)
    && (forall k :: k in byKey ==> byKey[k] == WithKey(strs[..i], k))
  }

  method GroupAnagrams(strs: seq<string>) returns (groups: seq<seq<string>>)
    ensures groups == Grouped(strs)
  {
    var order: seq<string> := [];
    var byKey: map<string, seq<string>> := map[];
    for i := 0 to |strs|
      invariant GroupState(strs, i, order, byKey)
    {
      var s := strs[i];
      var k := AnagramKey(s);
      GroupStep(strs, i, order, byKey);
      if k !in byKey {
        byKey := byKey[k := []];
        order := order + [k];
      }
      byKey := byKey[k := byKey[k] + [s]];
    }
    assert strs[..|strs|] == strs;
    KeyOrderInKeys(strs, order);
    groups := seq(|order|, j requires 0 <= j < |order| => byKey[order[j]]);
  }

  /** One pass of the loop, from the state after `strs[..i]` to the state after `strs[..i + 1]`. */
  lemma GroupStep(strs: seq<string>, i: nat, order: seq<string>, byKey: map<string, seq<string>>)
    requires i < |strs| && GroupState(strs, i, order, byKey)
    ensures var s, k := strs[i], AnagramKey(strs[i]);
      var order' := if k in byKey then order else order + [k];
      var started := if k in byKey then byKey else byKey[k := []];
      GroupState(strs, i + 1, order', started[k := started[k] + [s]])
  {
    var pre, s, k := strs[..i], strs[i], AnagramKey(strs[i]);
    var started := if k in byKey then byKey else byKey[k := []];
    var byKey' := started[k := started[k] + [s]];
    OrderStep(strs, i, order, byKey.Keys);
    assert strs[..i + 1] == pre + [s];
    KeysOfSnoc(pre, s, AnagramKey);
    assert byKey'.Keys == KeysOf(strs[..i + 1], AnagramKey);
    GroupContents(strs, i, byKey, byKey');
  }

  /** The key list gains the key of `strs[i]` exactly when that key is new. */
  lemma OrderStep(strs: seq<string>, i: nat, order: seq<string>, keys: set<string>)
    requires i < |strs| && keys == KeysOf(strs[..i], AnagramKey)
    requires var reps := DedupBy(strs[..i], AnagramKey);
      |order| == |reps| && forall j :: 0 <= j < |reps| ==> order[j] == AnagramKey(reps[j])
    ensures var k := AnagramKey(strs[i]);
      var order' := if k in keys then order else order + [k];
      var reps' := DedupBy(strs[..i + 1], AnagramKey);
      |order'| == |reps'| && forall j :: 0 <= j < |reps'| ==> order'[j] == AnagramKey(reps'[j])
  {
    var pre, s := strs[..i], strs[i];
    assert strs[..i + 1] == pre + [s];
    DedupSnoc(pre, s, AnagramKey);
    DedupKeys(pre, AnagramKey);
  }

  lemma GroupContents(strs: seq<string>, i: nat, byKey: map<string, seq<string>>, byKey': map<string, seq<string>>)
    requires i < |strs| && byKey.Keys == KeysOf(strs[..i], AnagramKey)
    requires forall k :: k in byKey ==> byKey[k] == WithKey(strs[..i], k)
    requires var s, k := strs[i], AnagramKey(strs[i]);
      var started := if k in byKey then byKey else byKey[k := []];
      byKey' == started[k := started[k] + [s]]
    ensures forall k :: k in byKey' ==> byKey'[k] == WithKey(strs[..i + 1], k)
  {
    var pre, s := strs[..i], strs[i];
    assert strs[..i + 1] == pre + [s];
    if AnagramKey(s) !in byKey {
      WithKeyAbsent(pre, AnagramKey(s));
    }
    forall k | k in byKey' ensures byKey'[k] == WithKey(strs[..i + 1], k) {
      assert (pre + [s])[..|pre + [s]| - 1] == pre;
    }
  }

  lemma KeyOrderInKeys(strs: seq<string>, order: seq<string>)
    requires |order| == |DedupBy(strs, AnagramKey)|
    requires forall j :: 0 <= j < |order| ==> order[j] == AnagramKey(DedupBy(strs, AnagramKey)[j])
    ensures order == KeyOrder(strs)
    ensures forall j :: 0 <= j < |order| ==> order[j] in KeysOf(strs, AnagramKey)
  {
    DedupKeys(strs, AnagramKey);
    var reps := DedupBy(strs, AnagramKey);
    forall j | 0 <= j < |order| ensures order[j] in KeysOf(strs, AnagramKey) {
      assert AnagramKey(reps[j]) in KeysOf(reps, AnagramKey);
    }
  }

  /** Two grouped strings are anagrams of each other exactly when they sit in the same group. */
  lemma GroupsAreAnagramClasses(strs: seq<string>, i: nat, j: nat, a: string, b: string)
    requires i < |Grouped(strs)| && j < |Grouped(strs)|
    requires a in Grouped(strs)[i] && b in Grouped(strs)[j]
    ensures multiset(a) == multiset(b) <==> i == j
  {
    var g, ks := Grouped(strs), KeyOrder(strs);
    WithKeyCount(strs, ks[i]);
    WithKeyCount(strs, ks[j]);
    assert multiset(g[i])[a] > 0 && multiset(g[j])[b] > 0;
    assert AnagramKey(a) == ks[i] && AnagramKey(b) == ks[j];
    AnagramKeyIff(a, b);
    DedupDistinct(strs, AnagramKey);
  }

  /** Every input string lands in some group, with all its repetitions. */
  lemma EveryStringGrouped(strs: seq<string>, s: string)
    requires s in strs
    ensures exists j :: 0 <= j < |Grouped(strs)| && multiset(Grouped(strs)[j])[s] == multiset(strs)[s]
  {
    var reps, ks := DedupBy(strs, AnagramKey), KeyOrder(strs);
    var i :| 0 <= i < |strs| && strs[i] == s;
    assert AnagramKey(s) in KeysOf(strs, AnagramKey);
    DedupKeys(strs, AnagramKey);
    var j :| 0 <= j < |reps| && AnagramKey(reps[j]) == AnagramKey(s);
    assert ks[j] == AnagramKey(s);
    WithKeyCount(strs, ks[j]);
    assert multiset(Grouped(strs)[j])[s] == multiset(strs)[s];
  }

  /** No group is empty. */
  lemma GroupsNonEmpty(strs: seq<string>)
    ensures forall j :: 0 <= j < |Grouped(strs)| ==> Grouped(strs)[j] != []
  {
    var reps, ks, g := DedupBy(strs, AnagramKey), KeyOrder(strs), Grouped(strs);
    DedupSubset(strs, AnagramKey);
    forall j | 0 <= j < |g| ensures g[j] != [] {
      assert reps[j] in reps;
      WithKeyCount(strs, ks[j]);
      assert multiset(g[j])[reps[j]] == multiset(strs)[reps[j]] > 0;
    }
  }

  /** The groups come in the order their keys first occur in the input. */
  lemma GroupsInOrder(strs: seq<string>, a: nat, b: nat)
    requires a < b < |KeyOrder(strs)|
    ensures KeyOrder(strs)[a] in KeysOf(strs, AnagramKey) && KeyOrder(strs)[b] in KeysOf(strs, AnagramKey)
    ensures FirstIndex(strs, AnagramKey, KeyOrder(strs)[a]) < FirstIndex(strs, AnagramKey, KeyOrder(strs)[b])
  {
    var reps, ks := DedupBy(strs, AnagramKey), KeyOrder(strs);
    DedupOrdered(strs, AnagramKey);
    assert ks[a] == AnagramKey(reps[a]) && ks[b] == AnagramKey(reps[b]);
  }

  // ---------------------------------------------------------------------
  // Top k frequent: count with a Map, sort its entries by descending
  // count, keep the first k values.

  datatype Entry = Entry(value: int, count: nat)

  function Id(x: int): int
  {
    x
  }

  function Count(nums: seq<int>, v: int): nat
  {
    multiset(nums)[v]
  }

  /** `Array.from(freq.entries())`: each distinct value with its count, in first-occurrence order. */
  function Entries(nums: seq<int>): (es: seq<Entry>)
    ensures |es| == |DedupBy(nums, Id)|
  {
    var vs := DedupBy(nums, Id);
    seq(|vs|, j requires 0 <= j < |vs| => Entry(vs[j], Count(nums, vs[j])))
  }

  predicate DescendingCounts(s: seq<Entry>)
  {
    forall i, j :: 0 <= i < j < |s| ==> s[i].count >= s[j].count
  }

  /** Places `e` after every entry whose count is at least its own. */
  function InsertByCount(e: Entry, s: seq<Entry>): (r: seq<Entry>)
    ensures |r| == |s| + 1
  {
    if s == [] then [e]
    else if s[0].count < e.count then [e] + s
    else [s[0]] + InsertByCount(e, s[1..])
  }

  /**
   * `sort((a, b) => b[1] - a[1])`: a stable sort (as `Array.prototype.sort`
   * is since ES2019) by descending count, written as an insertion sort.
   */
  function SortByCount(s: seq<Entry>): (r: seq<Entry>)
    ensures |r| == |s|
  {
    if s == [] then []
    else InsertByCount(s[|s| - 1], SortByCount(s[..|s| - 1]))
  }

  /** The entries of `s` whose count is `c`, in order. */
  function WithCount(s: seq<Entry>, c: nat): seq<Entry>
  {
    if s == [] then []
    else (if s[0].count == c then [s[0]] else []) + WithCount(s[1..], c)
  }

  lemma {:induction false} InsertPermutes(e: Entry, s: seq<Entry>)
    ensures multiset(InsertByCount(e, s)) == multiset(s) + multiset{e}
  {
    if s != [] && s[0].count >= e.count {
      InsertPermutes(e, s[1..]);
      assert s == [s[0]] + s[1..];
    }
  }

  /** The sort is a permutation of its input. */
  lemma {:induction false} SortPermutes(s: seq<Entry>)
    ensures multiset(SortByCount(s)) == multiset(s)
  {
    if s != [] {
      SortPermutes(s[..|s| - 1]);
      InsertPermutes(s[|s| - 1], SortByCount(s[..|s| - 1]));
      assert s == s[..|s| - 1] + [s[|s| - 1]];
    }
  }

  lemma DescendingCons(x: Entry, t: seq<Entry>)
    requires DescendingCounts(t) && (t != [] ==> x.count >= t[0].count)
    ensures DescendingCounts([x] + t)
  {
  }

  lemma InsertFirst(e: Entry, s: seq<Entry>)
    ensures InsertByCount(e, s)[0] == if s == [] || s[0].count < e.count then e else s[0]
  {
  }

  lemma {:induction false} InsertKeepsDescending(e: Entry, s: seq<Entry>)
    requires DescendingCounts(s)
    ensures DescendingCounts(InsertByCount(e, s))
  {
    if s == [] {
    } else if s[0].count < e.count {
      DescendingCons(e, s);
    } else {
      var rest := InsertByCount(e, s[1..]);
      assert DescendingCounts(s[1..]);
      InsertKeepsDescending(e, s[1..]);
      InsertFirst(e, s[1..]);
      DescendingCons(s[0], rest);
    }
  }

  /** The sorted entries have non-increasing counts. */
  lemma {:induction false} SortDescending(s: seq<Entry>)
    ensures DescendingCounts(SortByCount(s))
  {
    if s != [] {
      SortDescending(s[..|s| - 1]);
      InsertKeepsDescending(s[|s| - 1], SortByCount(s[..|s| - 1]));
    }
  }

  lemma WithCountCons(x: Entry, t: seq<Entry>, c: nat)
    ensures WithCount([x] + t, c) == (if x.count == c then [x] else []) + WithCount(t, c)
  {
    assert ([x] + t)[1..] == t;
  }

  lemma {:induction false} WithCountConcat(a: seq<Entry>, b: seq<Entry>, c: nat)
    ensures WithCount(a + b, c) == WithCount(a, c) + WithCount(b, c)
  {
    if a != [] {
      assert a + b == [a[0]] + (a[1..] + b);
      WithCountCons(a[0], a[1..] + b, c);
      WithCountConcat(a[1..], b, c);
    } else {
      assert a + b == b;
    }
  }

  lemma {:induction false} WithCountBelow(s: seq<Entry>, c: nat)
    requires forall i :: 0 <= i < |s| ==> s[i].count < c
    ensures WithCount(s, c) == []
  {
    if s != [] {
      WithCountBelow(s[1..], c);
    }
  }

  lemma {:induction false} InsertStable(e: Entry, s: seq<Entry>, c: nat)
    requires DescendingCounts(s)
    ensures WithCount(InsertByCount(e, s), c) == WithCount(s, c) + (if e.count == c then [e] else [])
  {
    if s == [] {
      WithCountCons(e, [], c);
    } else if s[0].count < e.count {
      WithCountCons(e, s, c);
      if e.count == c {
        WithCountBelow(s, c);
      }
    } else {
      var rest := InsertByCount(e, s[1..]);
      assert DescendingCounts(s[1..]);
      InsertStable(e, s[1..], c);
      WithCountCons(s[0], rest, c);
      WithCountCons(s[0], s[1..], c);
      assert s == [s[0]] + s[1..];
    }
  }

  /** Stability: for every count, the entries with that count keep their input order. */
  lemma {:induction false} SortStable(s: seq<Entry>, c: nat)
    ensures WithCount(SortByCount(s), c) == WithCount(s, c)
  {
    if s != [] {
      var init, last := s[..|s| - 1], s[|s| - 1];
      SortStable(init, c);
      SortDescending(init);
      InsertStable(last, SortByCount(init), c);
      assert s == init + [last];
      WithCountConcat(init, [last], c);
      WithCountCons(last, [], c);
      assert [last] + [] == [last];
    }
  }

  /** The end index `slice(0, k)` uses on a sequence of length `len`. */
  function SliceEnd(len: nat, k: int): (e: nat)
    ensures e <= len
    ensures 0 <= k ==> e == if k < len then k else len
    ensures k < 0 ==> e == if len + k < 0 then 0 else len + k
  {
    if k < 0 then (if len + k < 0 then 0 else len + k)
    else if k < len then k
    else len
  }

  function Values(es: seq<Entry>): (vs: seq<int>)
    ensures |vs| == |es| && forall j :: 0 <= j < |es| ==> vs[j] == es[j].value
  {
    seq(|es|, j requires 0 <= j < |es| => es[j].value)
  }

  /** The result of `computeTopKFrequent(nums, k)`. */
  function TopK(nums: seq<int>, k: int): seq<int>
  {
    var sorted := SortByCount(Entries(nums));
    Values(sorted[..SliceEnd(|sorted|, k)])
  }

  method TopKFrequent(nums: seq<int>, k: int) returns (top: seq<int>)
    ensures top == TopK(nums, k)
  {
    var freq: map<int, nat> := map[];
    var order: seq<int> := [];
    for i := 0 to |nums|
      invariant order == DedupBy(nums[..i], Id)
      invariant freq.Keys == KeysOf(nums[..i], Id)
      invariant forall v :: v in freq ==> freq[v] == Count(nums[..i], v)
    {
      var n := nums[i];
      FreqStep(nums, i, freq);
      var seen := if n in freq then freq[n] else 0;
      if n !in freq {
        order := order + [n];
      }
      freq := freq[n := seen + 1];
    }
    assert nums[..|nums|] == nums;
    CountsInMap(nums, order, freq);
    var entries := seq(|order|, j requires 0 <= j < |order| => Entry(order[j], freq[order[j]]));
    assert entries == Entries(nums);
    var sorted := SortByCount(entries);
    var kept := sorted[..SliceEnd(|sorted|, k)];
    top := seq(|kept|, j requires 0 <= j < |kept| => kept[j].value);
  }

  /** After the counting loop, the map holds the count of every distinct value, in the order of `Entries`. */
  lemma CountsInMap(nums: seq<int>, order: seq<int>, freq: map<int, nat>)
    requires order == DedupBy(nums, Id) && freq.Keys == KeysOf(nums, Id)
    requires forall v :: v in freq ==> freq[v] == Count(nums, v)
    ensures forall j :: 0 <= j < |order| ==> order[j] in freq && Entries(nums)[j] == Entry(order[j], freq[order[j]])
  {
    DedupKeys(nums, Id);
    forall j | 0 <= j < |order| ensures order[j] in freq {
      assert Id(order[j]) in KeysOf(order, Id);
    }
  }

  /** One pass of the counting loop keeps the map equal to the counts of the prefix read so far. */
  lemma FreqStep(nums: seq<int>, i: nat, freq: map<int, nat>)
    requires i < |nums| && freq.Keys == KeysOf(nums[..i], Id)
    requires forall v :: v in freq ==> freq[v] == Count(nums[..i], v)
    ensures var n := nums[i];
      var bumped := freq[n := (if n in freq then freq[n] else 0) + 1];
      && DedupBy(nums[..i + 1], Id) == (if n in freq then DedupBy(nums[..i], Id) else DedupBy(nums[..i], Id) + [n])
      && bumped.Keys == KeysOf(nums[..i + 1], Id)
      && forall v :: v in bumped ==> bumped[v] == Count(nums[..i + 1], v)
  {
    CountStep(nums, i, freq.Keys);
  }

  /** What one pass of the counting loop adds, for the prefix `nums[..i]`. */
  lemma CountStep(nums: seq<int>, i: nat, keys: set<int>)
    requires i < |nums| && keys == KeysOf(nums[..i], Id)
    ensures var pre, n := nums[..i], nums[i];
      && KeysOf(nums[..i + 1], Id) == keys + {n}
      && DedupBy(nums[..i + 1], Id) == (if n in keys then DedupBy(pre, Id) else DedupBy(pre, Id) + [n])
      && (n !in keys ==> Count(pre, n) == 0)
      && forall v :: Count(nums[..i + 1], v) == Count(pre, v) + (if v == n then 1 else 0)
  {
    var pre, n := nums[..i], nums[i];
    assert nums[..i + 1] == pre + [n];
    KeysOfSnoc(pre, n, Id);
    DedupSnoc(pre, n, Id);
    DedupKeys(pre, Id);
    if n !in keys {
      if Count(pre, n) > 0 {
        assert false;
      }
    }
  }

  /** Every sorted entry is a distinct value of `nums` paired with its count, and no entry repeats. */
  lemma SortedEntries(nums: seq<int>)
    ensures var sorted := SortByCount(Entries(nums));
      && (forall i :: 0 <= i < |sorted| ==> sorted[i].value in nums && sorted[i].count == Count(nums, sorted[i].value))
      && (forall i, j :: 0 <= i < j < |sorted| ==> sorted[i].value != sorted[j].value)
      && |sorted| == |DedupBy(nums, Id)|
  {
    var vs, es := DedupBy(nums, Id), Entries(nums);
    var sorted := SortByCount(es);
    SortPermutes(es);
    DedupSubset(nums, Id);
    DedupDistinct(nums, Id);
    assert forall i, j :: 0 <= i < j < |es| ==> es[i] != es[j] by {
      forall i, j | 0 <= i < j < |es| ensures es[i] != es[j] {
        assert Id(vs[i]) != Id(vs[j]);
      }
    }
    DistinctAtMostOnce(es);
    assert |sorted| == |multiset(sorted)| == |multiset(es)| == |es|;
    forall i | 0 <= i < |sorted|
      ensures sorted[i].value in nums && sorted[i].count == Count(nums, sorted[i].value)
    {
      assert sorted[i] in multiset(es);
      var j :| 0 <= j < |es| && es[j] == sorted[i];
      assert vs[j] in vs;
    }
    forall i, j | 0 <= i < j < |sorted| ensures sorted[i].value != sorted[j].value {
      if sorted[i].value == sorted[j].value {
        assert sorted[i] == sorted[j];
        TwiceInMultiset(sorted, i, j);
        assert false;
      }
    }
  }

  lemma {:induction false} DistinctAtMostOnce<T>(s: seq<T>)
    requires forall i, j :: 0 <= i < j < |s| ==> s[i] != s[j]
    ensures forall x :: multiset(s)[x] <= 1
  {
    if s != [] {
      var init, last := s[..|s| - 1], s[|s| - 1];
      assert s == init + [last];
      DistinctAtMostOnce(init);
      assert last !in init;
    }
  }

  lemma TwiceInMultiset<T>(s: seq<T>, i: nat, j: nat)
    requires i < j < |s| && s[i] == s[j]
    ensures multiset(s)[s[i]] >= 2
  {
    assert s == s[..j] + s[j..];
    assert s[i] in s[..j] && s[j] in s[j..];
  }

  /** The result has `slice(0, k)` of the distinct values: no value twice, each one from `nums`. */
  lemma TopKValues(nums: seq<int>, k: int)
    ensures |TopK(nums, k)| == SliceEnd(|DedupBy(nums, Id)|, k)
    ensures forall i :: 0 <= i < |TopK(nums, k)| ==> TopK(nums, k)[i] in nums
    ensures forall i, j :: 0 <= i < j < |TopK(nums, k)| ==> TopK(nums, k)[i] != TopK(nums, k)[j]
  {
    SortedEntries(nums);
  }

  /** Listed values come in order of non-increasing frequency. */
  lemma TopKDescending(nums: seq<int>, k: int)
    ensures forall i, j :: 0 <= i < j < |TopK(nums, k)| ==>
      Count(nums, TopK(nums, k)[i]) >= Count(nums, TopK(nums, k)[j])
  {
    SortedEntries(nums);
    SortDescending(Entries(nums));
  }

  /** No value left out of the result occurs more often than a value in it. */
  lemma TopKDominates(nums: seq<int>, k: int, v: int, w: int)
    requires v in TopK(nums, k) && w in nums && w !in TopK(nums, k)
    ensures Count(nums, w) <= Count(nums, v)
  {
    var sorted := SortByCount(Entries(nums));
    var top := TopK(nums, k);
    SortedEntries(nums);
    SortDescending(Entries(nums));
    var i :| 0 <= i < |top| && top[i] == v;
    var p := SortedIndexOf(nums, w);
    assert p >= |top|;
    assert sorted[i].count >= sorted[p].count;
  }

  /** Every value of `nums` has its entry somewhere in the sorted list. */
  lemma SortedIndexOf(nums: seq<int>, w: int) returns (p: nat)
    requires w in nums
    ensures p < |SortByCount(Entries(nums))| && SortByCount(Entries(nums))[p] == Entry(w, Count(nums, w))
  {
    var es := Entries(nums);
    var sorted := SortByCount(es);
    SortPermutes(es);
    assert Id(w) in KeysOf(nums, Id) by {
      var q :| 0 <= q < |nums| && nums[q] == w;
    }
    DedupKeys(nums, Id);
    var vs := DedupBy(nums, Id);
    var j :| 0 <= j < |vs| && Id(vs[j]) == w;
    assert es[j] == Entry(w, Count(nums, w));
    assert es[j] in multiset(sorted);
    p :| 0 <= p < |sorted| && sorted[p] == es[j];
  }

  /** One more value for `DedupBy(_, Id)`: kept only when it is new. */
  lemma DedupIdSnoc(xs: seq<int>, x: int, prev: seq<int>)
    requires DedupBy(xs, Id) == prev
    ensures DedupBy(xs + [x], Id) == if x in prev then prev else prev + [x]
  {
    DedupSnoc(xs, x, Id);
    if x in KeysOf(prev, Id) {
      var j :| 0 <= j < |prev| && prev[j] == x;
    }
    if x in prev {
      var j :| 0 <= j < |prev| && prev[j] == x;
      assert Id(prev[j]) in KeysOf(prev, Id);
    }
  }

  lemma ExampleDistinct()
    ensures DedupBy([1, 1, 1, 2, 2, 3], Id) == [1, 2, 3]
  {
    ExampleDistinct5();
    DedupIdStep([1, 1, 1, 2, 2], 3, [1, 1, 1, 2, 2, 3], [1, 2], [1, 2, 3]);
  }

  lemma ExampleDistinct5()
    ensures DedupBy([1, 1, 1, 2, 2], Id) == [1, 2]
  {
    ExampleDistinct4();
    DedupIdStep([1, 1, 1, 2], 2, [1, 1, 1, 2, 2], [1, 2], [1, 2]);
  }

  lemma ExampleDistinct4()
    ensures DedupBy([1, 1, 1, 2], Id) == [1, 2]
  {
    ExampleDistinct3();
    DedupIdStep([1, 1, 1], 2, [1, 1, 1, 2], [1], [1, 2]);
  }

  lemma ExampleDistinct3()
    ensures DedupBy([1, 1, 1], Id) == [1]
  {
    ExampleDistinct2();
    DedupIdStep([1, 1], 1, [1, 1, 1], [1], [1]);
  }

  lemma ExampleDistinct2()
    ensures DedupBy([1, 1], Id) == [1]
  {
    DedupIdStep([], 1, [1], [], [1]);
    DedupIdStep([1], 1, [1, 1], [1], [1]);
  }

  /** `DedupIdSnoc` with the longer list and the result named. */
  lemma DedupIdStep(xs: seq<int>, x: int, ys: seq<int>, prev: seq<int>, next: seq<int>)
    requires DedupBy(xs, Id) == prev && ys == xs + [x]
    requires next == if x in prev then prev else prev + [x]
    ensures DedupBy(ys, Id) == next
  {
    DedupIdSnoc(xs, x, prev);
  }

  lemma ExampleEntries()
    ensures Entries([1, 1, 1, 2, 2, 3]) == [Entry(1, 3), Entry(2, 2), Entry(3, 1)]
  {
    var nums := [1, 1, 1, 2, 2, 3];
    ExampleDistinct();
    assert Count(nums, 1) == 3 && Count(nums, 2) == 2 && Count(nums, 3) == 1;
  }

  lemma ExampleSorted()
    ensures SortByCount([Entry(1, 3), Entry(2, 2), Entry(3, 1)]) == [Entry(1, 3), Entry(2, 2), Entry(3, 1)]
  {
    var e1, e2, e3 := Entry(1, 3), Entry(2, 2), Entry(3, 1);
    var es := [e1, e2, e3];
    assert [e1][..0] == [] && [e1, e2][..1] == [e1] && es[..2] == [e1, e2];
    assert SortByCount([e1]) == InsertByCount(e1, []) == [e1];
    assert InsertByCount(e2, [e1]) == [e1] + InsertByCount(e2, []) == [e1, e2];
    assert SortByCount([e1, e2]) == [e1, e2];
    assert InsertByCount(e3, [e2]) == [e2] + InsertByCount(e3, []) == [e2, e3];
    assert InsertByCount(e3, [e1, e2]) == [e1] + InsertByCount(e3, [e2]);
  }

  /** The example `[1,1,1,2,2,3]` with `k = 2` gives `[1, 2]`. */
  lemma TopKExample()
    ensures TopK([1, 1, 1, 2, 2, 3], 2) == [1, 2]
  {
    ExampleEntries();
    ExampleSorted();
    var es := [Entry(1, 3), Entry(2, 2), Entry(3, 1)];
    assert SliceEnd(3, 2) == 2;
    assert Values(es[..2]) == [1, 2];
  }
}
