/** The JavaScript values and string primitives the domain layer relies on:
    truthiness, `typeof x === 'string'`, strict equality, `trim()`,
    `toLowerCase()`, `includes()` and splitting on `/\s+/`. */
module Js {

  /** A value a caller may pass where the domain code inspects its type.
      `Num` is a JavaScript number; NaN and the infinities are not modelled. */
  datatype Value =
    | Undefined
    | Null
    | Bool(b: bool)
    | Num(n: real)
    | Str(s: string)
    | Arr(items: seq<Value>)
    | Obj

  /** JavaScript truthiness: `!v` holds exactly when `Truthy(v)` does not. */
  predicate Truthy(v: Value) {
    match v
    case Undefined => false
    case Null => false
    case Bool(b) => b
    case Num(n) => n != 0.0
    case Str(s) => s != ""
    case Arr(_) => true
    case Obj => true
  }

  /** The guard `!v || typeof v !== 'string'` passes exactly on these values. */
  predicate IsNonEmptyString(v: Value) {
    v.Str? && v.s != ""
  }

  /** `a === b`. Every array or object operand is taken to be a reference
      distinct from the other operand. */
  predicate StrictEquals(a: Value, b: Value) {
    match a
    case Arr(_) => false
    case Obj => false
    case _ => a == b
  }

  /** A parameter declared with default `null`: an omitted (undefined)
      argument becomes `null`. */
  function DefaultNull(v: Value): (r: Value)
    ensures r != Undefined
    ensures v == Undefined ==> r == Null
    ensures v != Undefined ==> r == v
  {
    if v.Undefined? then Null else v
  }

  // ---------------------------------------------------------------------
  // Whitespace and trim()

  /** ECMAScript WhiteSpace and LineTerminator code points: what `trim()`
      strips and what `\s` matches. */
  predicate IsWhitespace(c: char) {
    || c == ' ' || c == '\t' || c == '\n' || c == '\U{000B}' || c == '\U{000C}' || c == '\r'
    || c == '\U{00A0}' || c == '\U{1680}' || ('\U{2000}' <= c <= '\U{200A}')
    || c == '\U{2028}' || c == '\U{2029}' || c == '\U{202F}' || c == '\U{205F}'
    || c == '\U{3000}' || c == '\U{FEFF}'
  }

  predicate AllWhitespace(s: string) {
    forall i :: 0 <= i < |s| ==> IsWhitespace(s[i])
  }

  /** The string has a character `trim()` keeps. */
  predicate HasVisibleChar(s: string) {
    exists i :: 0 <= i < |s| && !IsWhitespace(s[i])
  }

  /** `s.trim()`: whitespace removed from both ends. */
  function Trim(s: string): (r: string)
    ensures |r| <= |s|
    ensures r != [] ==> !IsWhitespace(r[0]) && !IsWhitespace(r[|r| - 1])
    ensures r == [] <==> AllWhitespace(s)
    decreases |s|
  {
    if s == [] then s
    else if IsWhitespace(s[0]) then
      assert forall i :: 1 <= i < |s| ==> s[i] == s[1..][i - 1];
      Trim(s[1..])
    else if IsWhitespace(s[|s| - 1]) then
      assert forall i :: 0 <= i < |s| - 1 ==> s[i] == s[..|s| - 1][i];
      Trim(s[..|s| - 1])
    else s
  }

  /** What `Trim` keeps is a slice of its input, starting at offset `k`,
      with only whitespace around it. */
  lemma {:induction false} TrimSlice(s: string) returns (k: nat)
    ensures k + |Trim(s)| <= |s|
    ensures Trim(s) == s[k..k + |Trim(s)|]
    ensures AllWhitespace(s[..k]) && AllWhitespace(s[k + |Trim(s)|..])
    decreases |s|
  {
    if s == [] {
      k := 0;
    } else if IsWhitespace(s[0]) {
      var k' := TrimSlice(s[1..]);
      k := k' + 1;
      ShiftSlice(s, k', |Trim(s)|);
    } else if IsWhitespace(s[|s| - 1]) {
      k := TrimSlice(s[..|s| - 1]);
      DropLastSlice(s, k, |Trim(s)|);
    } else {
      k := 0;
      assert s[0..|s|] == s;
    }
  }

  /** Slices of `s[1..]` seen as slices of `s`, one place further on. */
  lemma ShiftSlice(s: string, k: nat, n: nat)
    requires s != [] && IsWhitespace(s[0]) && k + n <= |s| - 1
    requires AllWhitespace(s[1..][..k]) && AllWhitespace(s[1..][k + n..])
    ensures s[1..][k..k + n] == s[k + 1..k + 1 + n]
    ensures AllWhitespace(s[..k + 1]) && AllWhitespace(s[k + 1 + n..])
  {
    var pre := s[..k + 1];
    forall i | 0 <= i < |pre| ensures IsWhitespace(pre[i]) {
      if i > 0 { assert pre[i] == s[1..][..k][i - 1]; }
    }
    assert s[k + 1 + n..] == s[1..][k + n..];
  }

  /** Slices of `s[..|s| - 1]` seen as slices of `s`. */
  lemma DropLastSlice(s: string, k: nat, n: nat)
    requires s != [] && IsWhitespace(s[|s| - 1]) && k + n <= |s| - 1
    requires AllWhitespace(s[..|s| - 1][..k]) && AllWhitespace(s[..|s| - 1][k + n..])
    ensures s[..|s| - 1][k..k + n] == s[k..k + n]
    ensures AllWhitespace(s[..k]) && AllWhitespace(s[k + n..])
  {
    assert s[..k] == s[..|s| - 1][..k];
    var post := s[k + n..];
    forall i | 0 <= i < |post| ensures IsWhitespace(post[i]) {
      if i < |post| - 1 { assert post[i] == s[..|s| - 1][k + n..][i]; }
    }
  }

  lemma TrimBlankIff(s: string)
    ensures |Trim(s)| == 0 <==> !HasVisibleChar(s)
  {
  }

  // ---------------------------------------------------------------------
  // toLowerCase() and includes()

  /** `toLowerCase()` on one character, restricted to ASCII letters. No
      character outside `A`..`Z` lower-cases to one of the ASCII letters the
      denylists use, so this is exact for the containment checks below. */
  function LowerChar(c: char): (r: char)
    ensures 'A' <= c <= 'Z' ==> r as int == c as int + 32
    ensures !('A' <= c <= 'Z') ==> r == c
  {
    if 'A' <= c <= 'Z' then (c as int + 32) as char else c
  }

  function Lower(s: string): (r: string)
    ensures |r| == |s|
    ensures forall i :: 0 <= i < |s| ==> r[i] == LowerChar(s[i])
  {
    seq(|s|, i requires 0 <= i < |s| => LowerChar(s[i]))
  }

  /** `toUpperCase()` on one character, restricted to ASCII letters. */
  function UpperChar(c: char): (r: char)
    ensures 'a' <= c <= 'z' ==> r as int == c as int - 32
    ensures !('a' <= c <= 'z') ==> r == c
  {
    if 'a' <= c <= 'z' then (c as int - 32) as char else c
  }

  function Upper(s: string): (r: string)
    ensures |r| == |s|
    ensures forall i :: 0 <= i < |s| ==> r[i] == UpperChar(s[i])
  {
    seq(|s|, i requires 0 <= i < |s| => UpperChar(s[i]))
  }

  /** Upper-casing first changes nothing once the text is lower-cased. */
  lemma LowerOfUpper(s: string)
    ensures Lower(Upper(s)) == Lower(s)
  {
    forall i | 0 <= i < |s| ensures Lower(Upper(s))[i] == Lower(s)[i] {
      assert Upper(s)[i] == UpperChar(s[i]);
    }
  }

  /** `w` occurs in `s` starting at position `i`. */
  predicate OccursAt(w: string, s: string, i: int) {
    0 <= i && i + |w| <= |s| && s[i..i + |w|] == w
  }

  /** `w` occurs in `s` at some position. */
  ghost predicate Occurs(w: string, s: string) {
    exists i :: OccursAt(w, s, i)
  }

  /** A word whose first letter never appears in `s` does not occur in it. */
  lemma AbsentFirstLetter(w: string, s: string)
    requires w != []
    requires forall i :: 0 <= i < |s| ==> s[i] != w[0]
    ensures !Occurs(w, s)
  {
    forall i | 0 <= i && i + |w| <= |s| ensures !OccursAt(w, s, i) {
      assert s[i..i + |w|][0] == s[i] != w[0];
    }
  }

  /** `s.includes(w)`, searched left to right. */
  function Includes(s: string, w: string): bool
    decreases |s|
  {
    if |s| < |w| then false
    else if s[..|w|] == w then true
    else Includes(s[1..], w)
  }

  lemma {:induction false} IncludesIff(s: string, w: string)
    ensures Includes(s, w) <==> Occurs(w, s)
    decreases |s|
  {
    if |s| < |w| {
    } else if s[..|w|] == w {
      assert OccursAt(w, s, 0);
    } else {
      IncludesIff(s[1..], w);
      if Occurs(w, s) {
        var i :| OccursAt(w, s, i);
        OccursInTail(w, s, i);
      }
      if Occurs(w, s[1..]) {
        var i :| OccursAt(w, s[1..], i);
        OccursFromTail(w, s, i);
      }
    }
  }

  lemma OccursInTail(w: string, s: string, i: int)
    requires OccursAt(w, s, i) && i > 0
    ensures OccursAt(w, s[1..], i - 1)
  {
    assert s[1..][i - 1..i - 1 + |w|] == s[i..i + |w|];
  }

  lemma OccursFromTail(w: string, s: string, i: int)
    requires s != [] && OccursAt(w, s[1..], i)
    ensures OccursAt(w, s, i + 1)
  {
    assert s[i + 1..i + 1 + |w|] == s[1..][i..i + |w|];
  }

  // ---------------------------------------------------------------------
  // Words

  function B(b: bool): nat {
    if b then 1 else 0
  }

  /** Number of positions of `s` where a word (a maximal run of non-whitespace)
      starts, when the character before `s[0]` was whitespace iff `afterSpace`. */
  function WordStarts(s: string, afterSpace: bool): nat
    decreases |s|
  {
    if s == [] then 0
    else B(afterSpace && !IsWhitespace(s[0])) + WordStarts(s[1..], IsWhitespace(s[0]))
  }

  /** Number of maximal whitespace runs of `s`, under the same convention. */
  function SpaceRuns(s: string, afterSpace: bool): nat
    decreases |s|
  {
    if s == [] then 0
    else B(!afterSpace && IsWhitespace(s[0])) + SpaceRuns(s[1..], IsWhitespace(s[0]))
  }

  /** Whether the last character read was whitespace. */
  function EndsInSpace(s: string, afterSpace: bool): bool {
    if s == [] then afterSpace else IsWhitespace(s[|s| - 1])
  }

  /** The number of words of `s`: its maximal runs of non-whitespace. */
  function WordCount(s: string): nat {
    WordStarts(s, true)
  }

  /** `s.split(/\s+/).length`: each maximal whitespace run is one separator. */
  function SplitCount(s: string): (n: nat)
    ensures n >= 1
  {
    SpaceRuns(s, false) + 1
  }

  /** Word starts and whitespace runs alternate: their counts differ only
      by the state at the two ends. */
  lemma {:induction false} StartsAndRunsAlternate(s: string, afterSpace: bool)
    ensures WordStarts(s, afterSpace) + B(EndsInSpace(s, afterSpace))
         == SpaceRuns(s, afterSpace) + B(afterSpace)
    decreases |s|
  {
    if s != [] {
      StartsAndRunsAlternate(s[1..], IsWhitespace(s[0]));
      if |s| > 1 {
        assert s[1..][|s[1..]| - 1] == s[|s| - 1];
      }
    }
  }

  lemma {:induction false} WordStartsAppend(a: string, b: string, afterSpace: bool)
    ensures WordStarts(a + b, afterSpace) == WordStarts(a, afterSpace) + WordStarts(b, EndsInSpace(a, afterSpace))
    decreases |a|
  {
    if a != [] {
      assert (a + b)[1..] == a[1..] + b;
      WordStartsAppend(a[1..], b, IsWhitespace(a[0]));
      if |a| > 1 {
        assert a[1..][|a[1..]| - 1] == a[|a| - 1];
      }
    } else {
      assert a + b == b;
    }
  }

  lemma {:induction false} BlankHasNoWords(s: string, afterSpace: bool)
    requires AllWhitespace(s)
    ensures WordStarts(s, afterSpace) == 0
    ensures s != [] ==> EndsInSpace(s, afterSpace)
    decreases |s|
  {
    if s != [] {
      BlankHasNoWords(s[1..], true);
    }
  }

  /** Splitting the trimmed text on whitespace runs counts its words. */
  lemma SplitCountsWords(s: string)
    requires HasVisibleChar(s)
    ensures SplitCount(Trim(s)) == WordCount(s)
  {
    var t := Trim(s);
    assert t != [];
    TrimKeepsWords(s);
    TrimmedSplitCountsWords(t);
  }

  /** Whitespace around a text adds no words. */
  lemma TrimKeepsWords(s: string)
    ensures WordCount(Trim(s)) == WordCount(s)
  {
    var k := TrimSlice(s);
    var t := Trim(s);
    SplitThree(s, k, |t|);
    PaddingAddsNoWords(s[..k], t, s[k + |t|..]);
  }

  lemma SplitThree(s: string, k: nat, n: nat)
    requires k + n <= |s|
    ensures s == s[..k] + (s[k..k + n] + s[k + n..])
  {
  }

  lemma PaddingAddsNoWords(pre: string, t: string, post: string)
    requires AllWhitespace(pre) && AllWhitespace(post)
    ensures WordCount(pre + (t + post)) == WordCount(t)
  {
    WordStartsAppend(pre, t + post, true);
    BlankHasNoWords(pre, true);
    assert EndsInSpace(pre, true);
    WordStartsAppend(t, post, true);
    BlankHasNoWords(post, EndsInSpace(t, true));
  }

  /** On a text with no whitespace at either end, splitting counts words. */
  lemma TrimmedSplitCountsWords(t: string)
    requires t != [] && !IsWhitespace(t[0]) && !IsWhitespace(t[|t| - 1])
    ensures SplitCount(t) == WordCount(t)
  {
    StartsAndRunsAlternate(t, true);
    assert SpaceRuns(t, true) == SpaceRuns(t[1..], false) == SpaceRuns(t, false);
  }

  lemma {:induction false} WordsAtMostLength(s: string, afterSpace: bool)
    ensures WordStarts(s, afterSpace) <= |s|
    decreases |s|
  {
    if s != [] {
      WordsAtMostLength(s[1..], IsWhitespace(s[0]));
    }
  }
}
