/**
 * The reference solvers of the string practice problems, which compute the
 * expected outputs of randomized test cases: reversal, numeric palindromes,
 * FizzBuzz, bracket matching and the longest common prefix.
 *
 * A JavaScript string is modelled as a sequence of characters; splitting it
 * into characters and joining them back is the identity on that sequence.
 */
module StringSolvers {
  import opened Wrappers
  import opened Decimal

  // ---------------------------------------------------------------------
  // computeReverseString

  /** `s.split('').reverse().join('')`. */
  function Reverse(s: string): string
  {
    if s == [] then [] else Reverse(s[1..]) + [s[0]]
  }

  /** The reversal has the same length and reads the input from the end. */
  lemma {:induction false} ReverseIndex(s: string)
    ensures |Reverse(s)| == |s| && forall i :: 0 <= i < |s| ==> Reverse(s)[i] == s[|s| - 1 - i]
  {
    if s != [] {
      ReverseIndex(s[1..]);
    }
  }

  /** Reversing twice gives the string back. */
  lemma ReverseInvolutive(s: string)
    ensures Reverse(Reverse(s)) == s
  {
    ReverseIndex(s);
    ReverseIndex(Reverse(s));
  }

  // ---------------------------------------------------------------------
  // computeIsPalindrome

  /** `computeIsPalindrome(x)`: a non-negative integer whose decimal digits read the same reversed. */
  function IsPalindrome(x: int): bool
  {
    x >= 0 && NatToString(x) == Reverse(NatToString(x))
  }

  /** Negative numbers are never palindromes; otherwise the i-th digit equals the i-th from the end. */
  lemma PalindromeDigits(x: int)
    ensures IsPalindrome(x) <==> x >= 0 && Mirrored(NatToString(x))
  {
    if x >= 0 {
      MirroredReverse(NatToString(x));
    }
  }

  /** The i-th character equals the i-th from the end. */
  predicate Mirrored(s: string)
  {
    forall i :: 0 <= i < |s| ==> s[i] == s[|s| - 1 - i]
  }

  lemma MirroredReverse(s: string)
    ensures s == Reverse(s) <==> Mirrored(s)
  {
    ReverseIndex(s);
  }

  /** Every one-digit number is a palindrome; no positive multiple of ten is. */
  lemma PalindromeExamples(x: int)
    ensures 0 <= x < 10 ==> IsPalindrome(x)
    ensures x > 0 && x % 10 == 0 ==> !IsPalindrome(x)
  {
    PalindromeDigits(x);
    if x > 0 && x % 10 == 0 {
      var s := NatToString(x);
      assert s == NatToString(x / 10) + [DigitChar(0)];
      assert s[|s| - 1 - 0] == '0' && s[0] != '0';
      assert !Mirrored(s);
    }
  }

  // ---------------------------------------------------------------------
  // computeFizzBuzz

  /** The entry for `i`: `'Fizz'` and/or `'Buzz'`, or the number itself when that is empty. */
  function FizzBuzzEntry(i: nat): string
  {
    var out := (if i % 3 == 0 then "Fizz" else "") + (if i % 5 == 0 then "Buzz" else "");
    if out != "" then out else NatToString(i)
  }

  /** `computeFizzBuzz(n)`: the entries for 1 .. n. */
  method FizzBuzz(n: int) returns (res: seq<string>)
    ensures |res| == if n > 0 then n else 0
    ensures forall k :: 0 <= k < |res| ==> res[k] == FizzBuzzEntry(k + 1)
  {
    res := [];
    var i := 1;
    while i <= n
      invariant 1 <= i && (n > 0 ==> i <= n + 1) && (n <= 0 ==> i == 1) && |res| == i - 1
      invariant forall k :: 0 <= k < |res| ==> res[k] == FizzBuzzEntry(k + 1)
    {
      var out := "";
      if i % 3 == 0 {
        out := out + "Fizz";
      }
      if i % 5 == 0 {
        out := out + "Buzz";
      }
      res := res + [if out != "" then out else NatToString(i)];
      i := i + 1;
    }
  }

  /** The four kinds of entry, and a plain number reads back as itself. */
  lemma FizzBuzzCases(i: nat)
    ensures i % 15 == 0 ==> FizzBuzzEntry(i) == "FizzBuzz"
    ensures i % 3 == 0 && i % 5 != 0 ==> FizzBuzzEntry(i) == "Fizz"
    ensures i % 5 == 0 && i % 3 != 0 ==> FizzBuzzEntry(i) == "Buzz"
    ensures ParseNat(FizzBuzzEntry(i)) == (if i % 3 != 0 && i % 5 != 0 then Some(i) else None)
  {
    if i % 3 != 0 && i % 5 != 0 {
      ParseRendered(i);
    } else {
      WordNotNumber(i);
    }
    if i % 15 == 0 {
      MultipleOfFifteen(i);
    }
  }

  /** A `Fizz` or `Buzz` entry does not read as a number. */
  lemma WordNotNumber(i: nat)
    requires i % 3 == 0 || i % 5 == 0
    ensures ParseNat(FizzBuzzEntry(i)) == None
  {
    var e := FizzBuzzEntry(i);
    assert e[0] == 'F' || e[0] == 'B';
    assert !IsDigit(e[0]);
  }

  lemma MultipleOfFifteen(i: nat)
    requires i % 15 == 0
    ensures i % 3 == 0 && i % 5 == 0
  {
    var q := i / 15;
    assert i == 3 * (5 * q) && i == 5 * (3 * q);
  }

  // ---------------------------------------------------------------------
  // computeIsValidParens

  predicate IsOpener(c: char)
  {
    c == '(' || c == '[' || c == '{'
  }

  predicate IsCloser(c: char)
  {
    c == ')' || c == ']' || c == '}'
  }

  /** The `map` object: the opener a closer matches. */
  function OpenerOf(c: char): (o: char)
    requires IsCloser(c)
    ensures IsOpener(o)
  {
    if c == ')' then '(' else if c == ']' then '[' else '{'
  }

  /**
   * The stack of unmatched openers after reading `s` from the stack `st`, or
   * `None` once a closer does not match the most recent unmatched opener
   * (including when there is none); other characters are skipped.
   */
  function Scan(s: string, st: seq<char>): Option<seq<char>>
  {
    if s == [] then Some(st)
    else if IsOpener(s[0]) then Scan(s[1..], st + [s[0]])
    else if IsCloser(s[0]) then
      if st != [] && st[|st| - 1] == OpenerOf(s[0]) then Scan(s[1..], st[..|st| - 1]) else None
    else Scan(s[1..], st)
  }

  /** Every closer matches and nothing is left open. */
  predicate Balanced(s: string)
  {
    Scan(s, []) == Some([])
  }

  /** `computeIsValidParens(s)`. */
  method IsValidParens(s: string) returns (ok: bool)
    ensures ok == Balanced(s)
  {
    var st: seq<char> := [];
    var i := 0;
    while i < |s|
      invariant 0 <= i <= |s|
      invariant Scan(s[i..], st) == Scan(s, [])
    {
      var c := s[i];
      assert s[i..][0] == c && s[i..][1..] == s[i + 1..];
      if IsOpener(c) {
        st := st + [c];
      } else if IsCloser(c) {
        if st == [] || st[|st| - 1] != OpenerOf(c) {
          return false;
        }
        st := st[..|st| - 1];
      }
      i := i + 1;
    }
    assert s[i..] == [];
    ok := st == [];
  }

  /** Reading `a` then `b` is reading `a + b`. */
  lemma {:induction false} ScanConcat(a: string, b: string, st: seq<char>)
    ensures Scan(a + b, st) == if Scan(a, st).None? then None else Scan(b, Scan(a, st).value)
  {
    if a == [] {
      assert a + b == b;
    } else {
      assert (a + b)[0] == a[0] && (a + b)[1..] == a[1..] + b;
      if IsOpener(a[0]) {
        ScanConcat(a[1..], b, st + [a[0]]);
      } else if IsCloser(a[0]) {
        if st != [] && st[|st| - 1] == OpenerOf(a[0]) {
          ScanConcat(a[1..], b, st[..|st| - 1]);
        }
      } else {
        ScanConcat(a[1..], b, st);
      }
    }
  }

  /** Openers already on the stack below are left alone by a reading that succeeds without them. */
  lemma {:induction false} ScanBelow(a: string, below: seq<char>, st: seq<char>)
    requires Scan(a, st).Some?
    ensures Scan(a, below + st) == Some(below + Scan(a, st).value)
  {
    if a != [] {
      if IsOpener(a[0]) {
        assert below + st + [a[0]] == below + (st + [a[0]]);
        ScanBelow(a[1..], below, st + [a[0]]);
      } else if IsCloser(a[0]) {
        assert (below + st)[..|below + st| - 1] == below + st[..|st| - 1];
        ScanBelow(a[1..], below, st[..|st| - 1]);
      } else {
        ScanBelow(a[1..], below, st);
      }
    }
  }

  /** Two balanced strings in a row are balanced. */
  lemma BalancedConcat(a: string, b: string)
    requires Balanced(a) && Balanced(b)
    ensures Balanced(a + b)
  {
    ScanConcat(a, b, []);
  }

  /** A balanced string between an opener and its closer is balanced. */
  lemma BalancedNest(a: string, close: char)
    requires Balanced(a) && IsCloser(close)
    ensures Balanced([OpenerOf(close)] + a + [close])
  {
    var open := OpenerOf(close);
    var s := [open] + a + [close];
    assert Scan(s, []) == Scan(a + [close], [open]) by {
      assert s[0] == open && s[1..] == a + [close];
      assert [] + [open] == [open];
    }
    assert Scan(a, [open]) == Some([open]) by {
      ScanBelow(a, [open], []);
      assert [open] + [] == [open];
    }
    ScanConcat(a, [close], [open]);
    assert Scan([close], [open]) == Some([]) by {
      assert [close][0] == close && [close][1..] == [];
      assert [open][..0] == [];
    }
  }

  /** A closer with nothing open makes the whole string unbalanced, whatever follows. */
  lemma CloserFirst(c: char, rest: string)
    requires IsCloser(c)
    ensures !Balanced([c] + rest)
  {
    assert ([c] + rest)[0] == c;
  }

  /** Characters other than brackets make no difference. */
  lemma OtherIgnored(c: char, rest: string)
    requires !IsOpener(c) && !IsCloser(c)
    ensures Balanced([c] + rest) == Balanced(rest)
  {
    assert ([c] + rest)[0] == c && ([c] + rest)[1..] == rest;
  }

  function Opens(s: string): nat
  {
    if s == [] then 0 else (if IsOpener(s[0]) then 1 else 0) + Opens(s[1..])
  }

  function Closes(s: string): nat
  {
    if s == [] then 0 else (if IsCloser(s[0]) then 1 else 0) + Closes(s[1..])
  }

  /** Each opener pushes and each matched closer pops. */
  lemma {:induction false} ScanDepth(s: string, st: seq<char>)
    requires Scan(s, st).Some?
    ensures |Scan(s, st).value| == |st| + Opens(s) - Closes(s)
  {
    if s != [] {
      if IsOpener(s[0]) {
        ScanDepth(s[1..], st + [s[0]]);
      } else if IsCloser(s[0]) {
        ScanDepth(s[1..], st[..|st| - 1]);
      } else {
        ScanDepth(s[1..], st);
      }
    }
  }

  /** A balanced string has as many openers as closers. */
  lemma BalancedCounts(s: string)
    requires Balanced(s)
    ensures Opens(s) == Closes(s)
  {
    ScanDepth(s, []);
  }

  // ---------------------------------------------------------------------
  // computeLongestCommonPrefix

  predicate IsPrefix(p: string, s: string)
  {
    |p| <= |s| && s[..|p|] == p
  }

  /** `p` is a prefix of every string of `strs`. */
  predicate CommonPrefix(p: string, strs: seq<string>)
  {
    forall s :: s in strs ==> IsPrefix(p, s)
  }

  /** `s.indexOf(p, i)`: the first index from `i` on where `p` occurs in `s`, or -1. */
  function IndexOfFrom(s: string, p: string, i: nat): (r: int)
    ensures r == -1 || i <= r
    decreases |s| - i
  {
    if i + |p| > |s| then -1
    else if s[i..i + |p|] == p then i
    else IndexOfFrom(s, p, i + 1)
  }

  /** `s.indexOf(p) === 0` exactly when `p` is a prefix of `s`. */
  lemma IndexOfZero(s: string, p: string)
    ensures IndexOfFrom(s, p, 0) == 0 <==> IsPrefix(p, s)
  {
    if |p| <= |s| && s[0..|p|] != p {
      assert IndexOfFrom(s, p, 0) == IndexOfFrom(s, p, 1);
    }
  }

  /** One step of the inner loop: the prefix loses its last character and keeps both invariants. */
  lemma ShrinkStep(done: seq<string>, next: string, prefix: string)
    requires !IsPrefix(prefix, next)
    requires CommonPrefix(prefix, done)
    requires forall p :: CommonPrefix(p, done + [next]) ==> IsPrefix(p, prefix)
    ensures prefix != []
    ensures CommonPrefix(prefix[..|prefix| - 1], done)
    ensures forall p :: CommonPrefix(p, done + [next]) ==> IsPrefix(p, prefix[..|prefix| - 1])
  {
    var shorter := prefix[..|prefix| - 1];
    forall s | s in done ensures IsPrefix(shorter, s) {
      assert IsPrefix(prefix, s);
    }
    forall p | CommonPrefix(p, done + [next]) ensures IsPrefix(p, shorter) {
      assert next in done + [next];
      assert IsPrefix(p, prefix) && IsPrefix(p, next);
      assert |p| < |prefix|;
      assert shorter[..|p|] == prefix[..|p|];
    }
  }

  /** `computeLongestCommonPrefix(strs)`: the longest string that is a prefix of every string, `''` for no strings. */
  method LongestCommonPrefix(strs: seq<string>) returns (prefix: string)
    ensures strs == [] ==> prefix == ""
    ensures CommonPrefix(prefix, strs)
    ensures strs != [] ==> forall p :: CommonPrefix(p, strs) ==> IsPrefix(p, prefix)
  {
    if |strs| == 0 {
      return "";
    }
    prefix := strs[0];
    var i := 1;
    assert strs[..1] == [strs[0]];
    while i < |strs|
      invariant 1 <= i <= |strs|
      invariant CommonPrefix(prefix, strs[..i])
      invariant forall p :: CommonPrefix(p, strs[..i]) ==> IsPrefix(p, prefix)
    {
      var done, next := strs[..i], strs[i];
      assert strs[..i + 1] == done + [next];
      forall p | CommonPrefix(p, done + [next]) ensures IsPrefix(p, prefix) {
        assert CommonPrefix(p, done);
      }
      IndexOfZero(next, prefix);
      while IndexOfFrom(next, prefix, 0) != 0
        invariant CommonPrefix(prefix, done)
        invariant forall p :: CommonPrefix(p, done + [next]) ==> IsPrefix(p, prefix)
        decreases |prefix|
      {
        IndexOfZero(next, prefix);
        ShrinkStep(done, next, prefix);
        prefix := prefix[..|prefix| - 1];
      }
      IndexOfZero(next, prefix);
      if prefix == "" {
        forall p | CommonPrefix(p, strs) ensures IsPrefix(p, prefix) {
          assert CommonPrefix(p, done + [next]);
        }
        return "";
      }
      i := i + 1;
    }
    assert strs[..i] == strs;
  }
}
