/**
 * The few string operations of JavaScript the analyzer relies on, on strings
 * of characters: `String.prototype.slice` with its clamping of offsets,
 * `trimRight` (an alias of `trimEnd`) with ECMAScript's white-space and
 * line-terminator characters, and `endsWith` for one character; plus the
 * `{ message, line }` record every diagnostic is.
 */
module Text {

  /** One diagnostic: `{ message, line }`. */
  datatype Warning = Warning(message: string, line: nat)

  /** Warning lists are appended to in steps; the grouping of the steps does not matter. */
  lemma AppendAssoc(a: seq<Warning>, b: seq<Warning>, c: seq<Warning>)
    ensures (a + b) + c == a + (b + c)
  {
  }

  /**
   * The characters `trimEnd` removes: WhiteSpace (tab, vertical tab, form
   * feed, space, no-break space, zero-width no-break space and the category
   * Zs space separators) and LineTerminator (line feed, carriage return,
   * line separator, paragraph separator).
   */
  predicate IsJsSpace(c: char)
  {
    c == '\t' || c == '\n' || c == '\U{000B}' || c == '\U{000C}' || c == '\r' || c == ' ' ||
    c == '\U{00A0}' || c == '\U{1680}' || ('\U{2000}' <= c <= '\U{200A}') ||
    c == '\U{2028}' || c == '\U{2029}' || c == '\U{202F}' || c == '\U{205F}' || c == '\U{3000}' || c == '\U{FEFF}'
  }

  /** `s.trimRight()`: `s` without its trailing white space. */
  function TrimRight(s: string): string
  {
    if s == [] || !IsJsSpace(s[|s| - 1]) then s else TrimRight(s[..|s| - 1])
  }

  /** What `TrimRight` removes: a suffix of white space, and no more than that. */
  lemma {:induction false} TrimRightSpec(s: string)
    ensures TrimRight(s) <= s
    ensures forall i :: |TrimRight(s)| <= i < |s| ==> IsJsSpace(s[i])
    ensures TrimRight(s) == [] || !IsJsSpace(TrimRight(s)[|TrimRight(s)| - 1])
  {
    if s != [] && IsJsSpace(s[|s| - 1]) {
      TrimRightSpec(s[..|s| - 1]);
    }
  }

  /** The three properties of `TrimRight` pin its result down: any string that has them is the trimmed string. */
  lemma {:induction false} TrimRightUnique(s: string, r: string)
    requires r <= s
    requires forall i :: |r| <= i < |s| ==> IsJsSpace(s[i])
    requires r == [] || !IsJsSpace(r[|r| - 1])
    ensures r == TrimRight(s)
  {
    if |r| < |s| {
      assert IsJsSpace(s[|s| - 1]);
      TrimRightUnique(s[..|s| - 1], r);
    }
  }

  /** Trimming twice is trimming once. */
  lemma TrimRightIdempotent(s: string)
    ensures TrimRight(TrimRight(s)) == TrimRight(s)
  {
    TrimRightSpec(s);
  }

  /** Trailing white space makes no difference. */
  lemma TrimRightSpace(s: string, ws: string)
    requires forall i :: 0 <= i < |ws| ==> IsJsSpace(ws[i])
    ensures TrimRight(s + ws) == TrimRight(s)
  {
    TrimRightSpec(s);
    var t := TrimRight(s);
    assert t <= s + ws;
    forall i | |t| <= i < |s + ws| ensures IsJsSpace((s + ws)[i]) {
      if i >= |s| { assert (s + ws)[i] == ws[i - |s|]; }
    }
    TrimRightUnique(s + ws, t);
  }

  /** `s.slice(start, end)` for non-negative offsets: both are clamped to the length, and a reversed range is empty. */
  function Slice(s: string, start: nat, end: nat): (r: string)
    ensures start <= end <= |s| ==> r == s[start..end]
    ensures start <= |s| <= end ==> r == s[start..]
    ensures |s| <= start || end <= start ==> r == []
    ensures |r| <= |s|
  {
    var from := if start < |s| then start else |s|;
    var to := if end < |s| then end else |s|;
    if from < to then s[from..to] else []
  }

  /** `s.endsWith(c)` for a one-character suffix. */
  predicate EndsWith(s: string, c: char)
  {
    |s| >= 1 && s[|s| - 1] == c
  }
}
