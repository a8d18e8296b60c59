/**
  The Python string and `re` primitives the news parser and the news pipeline are built from:
  `str.lower`, `str.strip`, `str.split`, `str.replace`, `str.title`, `str.capitalize`, the
  substring test `w in s`, and the regex atoms `\s`, `\w` and `\b`.

  Characters are Unicode scalar values. Case mapping and `\w` are the ASCII ones; `\s` and
  `str.strip` use Python's full whitespace set, which is finite and listed below.
 */
module Text {
  import opened Wrappers

  // ---------------------------------------------------------------- characters

  /** Python's `str.isspace()`, which is also what `\s` matches in a `str` pattern. */
  predicate IsSpace(c: char) {
    || ('\t' <= c <= '\r')                  // \t \n \v \f \r
    || ('\U{001C}' <= c <= ' ')             // the four information separators and the space
    || c == '\U{0085}' || c == '\U{00A0}' || c == '\U{1680}'
    || ('\U{2000}' <= c <= '\U{200A}')
    || c == '\U{2028}' || c == '\U{2029}' || c == '\U{202F}' || c == '\U{205F}' || c == '\U{3000}'
  }

  predicate IsUpperAscii(c: char) { 'A' <= c <= 'Z' }

  predicate IsLowerAscii(c: char) { 'a' <= c <= 'z' }

  /** The `[a-zA-Z]` class. */
  predicate IsAsciiLetter(c: char) { IsUpperAscii(c) || IsLowerAscii(c) }

  /** The `\w` class, restricted to ASCII: letters, digits and the underscore. */
  predicate IsWordChar(c: char) { IsAsciiLetter(c) || ('0' <= c <= '9') || c == '_' }

  /** An upper-case ASCII letter becomes the letter 32 code points on; any other character is kept. */
  function LowerChar(c: char): (d: char)
    ensures !IsUpperAscii(d)
    ensures IsAsciiLetter(d) <==> IsAsciiLetter(c)
    ensures IsUpperAscii(c) ==> d as int == c as int + 32
    ensures !IsUpperAscii(c) ==> d == c
  {
    if IsUpperAscii(c) then (c as int + 32) as char else c
  }

  /** A lower-case ASCII letter becomes the letter 32 code points back; any other character is kept. */
  function UpperChar(c: char): (d: char)
    ensures !IsLowerAscii(d)
    ensures IsAsciiLetter(d) <==> IsAsciiLetter(c)
    ensures IsLowerAscii(c) ==> d as int == c as int - 32
    ensures !IsLowerAscii(c) ==> d == c
  {
    if IsLowerAscii(c) then (c as int - 32) as char else c
  }

  // ---------------------------------------------------------------- case mapping

  /** `s.lower()`: every character keeps its place; no upper-case ASCII letter is left. */
  function Lower(s: string): (r: string)
    ensures |r| == |s|
    ensures forall i | 0 <= i < |r| :: !IsUpperAscii(r[i])
  {
    seq(|s|, i requires 0 <= i < |s| => LowerChar(s[i]))
  }

  /** `lower()` maps every character through `LowerChar`, in place. */
  lemma LowerMapsEachChar(s: string)
    ensures forall i | 0 <= i < |s| :: Lower(s)[i] == LowerChar(s[i])
  {
  }

  lemma LowerIdempotent(s: string)
    ensures Lower(Lower(s)) == s ==> Lower(s) == s
    ensures Lower(Lower(s)) == Lower(s)
  {
  }

  /** Lower-casing brings in no character that is not a letter. */
  lemma LowerAddsNoNonLetter(s: string, c: char)
    requires !IsAsciiLetter(c) && c !in s
    ensures c !in Lower(s)
  {
    forall i | 0 <= i < |s| ensures Lower(s)[i] != c {
      assert s[i] in s;
    }
  }

  lemma LowerAppend(a: string, b: string)
    ensures Lower(a + b) == Lower(a) + Lower(b)
  {
  }

  /**
    `s.title()`: a letter is upper-cased when the character before it is not a letter and
    lower-cased otherwise; everything else is kept.
   */
  function Title(s: string): (r: string)
    ensures |r| == |s|
    ensures forall i {:trigger r[i]} | 0 <= i < |s| && !IsAsciiLetter(s[i]) :: r[i] == s[i]
    ensures forall i {:trigger r[i]} | 0 <= i < |s| && IsAsciiLetter(s[i]) && (i == 0 || !IsAsciiLetter(s[i - 1])) ::
      r[i] == UpperChar(s[i])
    ensures forall i {:trigger r[i]} | 0 < i < |s| && IsAsciiLetter(s[i]) && IsAsciiLetter(s[i - 1]) :: r[i] == LowerChar(s[i])
  {
    seq(|s|, i requires 0 <= i < |s| =>
      if !IsAsciiLetter(s[i]) then s[i]
      else if i == 0 || !IsAsciiLetter(s[i - 1]) then UpperChar(s[i])
      else LowerChar(s[i]))
  }

  /** Title-casing only looks at which characters are letters, so it ignores the input's case. */
  lemma TitleIgnoresCase(s: string)
    ensures Title(Lower(s)) == Title(s)
  {
    var l := Lower(s);
    forall i | 0 <= i < |s| ensures Title(l)[i] == Title(s)[i] {
      assert IsAsciiLetter(l[i]) <==> IsAsciiLetter(s[i]);
      assert i > 0 ==> (IsAsciiLetter(l[i - 1]) <==> IsAsciiLetter(s[i - 1]));
      assert IsAsciiLetter(s[i]) ==> UpperChar(l[i]) == UpperChar(s[i]) && LowerChar(l[i]) == LowerChar(s[i]);
    }
  }

  /** `s.capitalize()`: the first character upper-cased, the rest lower-cased. */
  function Capitalize(s: string): (r: string)
    ensures |r| == |s|
    ensures |r| > 0 ==> r[0] == UpperChar(s[0]) && !IsLowerAscii(r[0])
    ensures forall i {:trigger r[i]} | 1 <= i < |s| :: r[i] == LowerChar(s[i])
    ensures forall i | 1 <= i < |r| :: !IsUpperAscii(r[i])
  {
    if s == [] then [] else [UpperChar(s[0])] + Lower(s[1..])
  }

  // ---------------------------------------------------------------- substrings and word boundaries

  /** `w` occurs in `s` starting at index `i`. */
  predicate OccursAt(s: string, w: string, i: int) {
    0 <= i && i + |w| <= |s| && s[i..i + |w|] == w
  }

  /** Python's `w in s`. */
  predicate Contains(s: string, w: string) {
    exists i | 0 <= i <= |s| :: OccursAt(s, w, i)
  }

  /** True when any of `words` occurs in `s`: Python's `any(w in s for w in words)`. */
  predicate ContainsAny(s: string, words: seq<string>) {
    exists w | w in words :: Contains(s, w)
  }

  /** The regex assertion `\b` at index `i`: exactly one side of `i` is a word character. */
  predicate WordBoundary(s: string, i: int)
    requires 0 <= i <= |s|
  {
    (i > 0 && IsWordChar(s[i - 1])) != (i < |s| && IsWordChar(s[i]))
  }

  /** `\bw\b` matches at `i`. */
  predicate WholeWordAt(s: string, w: string, i: int) {
    OccursAt(s, w, i) && WordBoundary(s, i) && WordBoundary(s, i + |w|)
  }

  /** `re.search(r'\bw\b', s)` succeeds. */
  predicate HasWholeWord(s: string, w: string) {
    exists i | 0 <= i <= |s| :: WholeWordAt(s, w, i)
  }

  /** `re.search(r'\b(w1|w2|...)\b', s)` succeeds: some alternative occurs as a whole word. */
  predicate HasWholeWordAny(s: string, words: seq<string>) {
    exists w | w in words :: HasWholeWord(s, w)
  }

  lemma OccursAtChar(s: string, w: string, i: int, k: int)
    requires 0 <= k < |w|
    ensures OccursAt(s, w, i) ==> s[i + k] == w[k]
  {
    if OccursAt(s, w, i) {
      assert s[i..i + |w|][k] == s[i + k];
    }
  }

  /** `w` occurs at `i` when each of its characters is found at its place. */
  lemma OccursAtByChars(s: string, w: string, i: nat)
    requires i + |w| <= |s|
    requires forall k | 0 <= k < |w| :: s[i + k] == w[k]
    ensures OccursAt(s, w, i)
  {
    assert s[i..i + |w|] == w;
  }

  /** A word with a character that `s` lacks does not occur in `s`. */
  lemma NotContainsByChar(s: string, w: string, k: int)
    requires 0 <= k < |w| && w[k] !in s
    ensures !Contains(s, w)
  {
    forall i | 0 <= i <= |s| ensures !OccursAt(s, w, i) {
      OccursAtChar(s, w, i, k);
    }
  }

  /** A word with two adjacent characters that never stand side by side in `s` does not occur in `s`. */
  lemma NotContainsByPair(s: string, w: string, k: int)
    requires 0 <= k < |w| - 1
    requires forall i | 0 <= i < |s| - 1 :: s[i] != w[k] || s[i + 1] != w[k + 1]
    ensures !Contains(s, w)
  {
    forall i | 0 <= i <= |s| ensures !OccursAt(s, w, i) {
      OccursAtChar(s, w, i, k);
      OccursAtChar(s, w, i, k + 1);
    }
  }

  /** Whatever occurs in `s`, its prefixes occur in `s` too. */
  lemma ContainsPrefix(s: string, w: string, v: string)
    requires Contains(s, w + v)
    ensures Contains(s, w)
  {
    var i :| 0 <= i <= |s| && OccursAt(s, w + v, i);
    assert s[i..i + |w|] == (w + v)[..|w|];
    assert OccursAt(s, w, i);
  }

  /** What occurs in `b` occurs in `a + b`, and `a` itself occurs in `a + b`. */
  lemma ContainsInConcat(a: string, b: string, w: string)
    ensures Contains(a + b, a)
    ensures Contains(b, w) ==> Contains(a + b, w)
  {
    assert OccursAt(a + b, a, 0);
    if Contains(b, w) {
      var i :| 0 <= i <= |b| && OccursAt(b, w, i);
      assert (a + b)[|a| + i..|a| + i + |w|] == b[i..i + |w|];
      assert OccursAt(a + b, w, |a| + i);
    }
  }

  lemma WholeWordContains(s: string, w: string)
    requires HasWholeWord(s, w)
    ensures Contains(s, w)
  {
    var i :| 0 <= i <= |s| && WholeWordAt(s, w, i);
    assert OccursAt(s, w, i);
  }

  /** The end of the run of whitespace that starts at `i` (where a greedy `\s*` from `i` stops). */
  function SpaceEnd(s: string, i: nat): (j: nat)
    requires i <= |s|
    ensures i <= j <= |s|
    ensures forall k | i <= k < j :: IsSpace(s[k])
    ensures j == |s| || !IsSpace(s[j])
    decreases |s| - i
  {
    if i < |s| && IsSpace(s[i]) then SpaceEnd(s, i + 1) else i
  }

  // ---------------------------------------------------------------- strip

  /** No whitespace at either end: what `str.strip()` returns. */
  predicate IsTrimmed(s: string) {
    s == [] || (!IsSpace(s[0]) && !IsSpace(s[|s| - 1]))
  }

  function TrimStart(s: string): (r: string)
    ensures |r| <= |s| && r == s[|s| - |r|..]
    ensures r == [] || !IsSpace(r[0])
    ensures s == [] || !IsSpace(s[0]) ==> r == s
  {
    if |s| > 0 && IsSpace(s[0]) then TrimStart(s[1..]) else s
  }

  function TrimEnd(s: string): (r: string)
    ensures |r| <= |s| && r == s[..|r|]
    ensures r == [] || !IsSpace(r[|r| - 1])
    ensures s == [] || !IsSpace(s[|s| - 1]) ==> r == s
  {
    if |s| > 0 && IsSpace(s[|s| - 1]) then TrimEnd(s[..|s| - 1]) else s
  }

  /** Every character of `x` is whitespace. */
  predicate AllSpace(x: string) {
    forall k | 0 <= k < |x| :: IsSpace(x[k])
  }

  /** `TrimStart` cuts off only whitespace. */
  lemma {:induction false} TrimStartCutsSpace(s: string)
    ensures AllSpace(s[..|s| - |TrimStart(s)|])
    decreases |s|
  {
    if |s| > 0 && IsSpace(s[0]) {
      var n := |s| - |TrimStart(s)|;
      TrimStartCutsSpace(s[1..]);
      assert s[..n] == [s[0]] + s[1..][..n - 1];
    }
  }

  /** `TrimEnd` cuts off only whitespace. */
  lemma {:induction false} TrimEndCutsSpace(s: string)
    ensures AllSpace(s[|TrimEnd(s)|..])
    decreases |s|
  {
    if |s| > 0 && IsSpace(s[|s| - 1]) {
      var n := |TrimEnd(s)|;
      TrimEndCutsSpace(s[..|s| - 1]);
      assert s[n..] == s[..|s| - 1][n..] + [s[|s| - 1]];
    }
  }

  /** `s.strip()`: `s` without its leading and trailing whitespace, every character taken from `s`. */
  function Strip(s: string): (r: string)
    ensures IsTrimmed(r)
    ensures |r| <= |s|
    ensures forall c | c in r :: c in s
    ensures IsTrimmed(s) ==> r == s
  {
    var t := TrimStart(s);
    var r := TrimEnd(t);
    assert forall c | c in r :: c in t;
    assert forall c | c in t :: c in s;
    assert r != [] ==> r[0] == t[0];
    r
  }

  /**
    `strip()` removes exactly the leading and the trailing whitespace: `s` is some whitespace
    followed by `TrimStart(s)`, and that is `Strip(s)` followed by some whitespace. With
    `IsTrimmed(Strip(s))` this fixes the result.
   */
  lemma StripCutsOnlySpace(s: string)
    ensures var t := TrimStart(s); var i := |s| - |t|; var r := Strip(s);
      && t == s[i..] && AllSpace(s[..i])
      && |r| <= |t| && r == t[..|r|] && AllSpace(t[|r|..])
  {
    var t := TrimStart(s);
    TrimStartCutsSpace(s);
    TrimEndCutsSpace(t);
  }

  /** `strip()` gives the empty string exactly when the input is all whitespace. */
  lemma StripEmptyIffAllSpace(s: string)
    ensures Strip(s) == [] <==> AllSpace(s)
  {
    var t := TrimStart(s);
    var i := |s| - |t|;
    StripCutsOnlySpace(s);
    if Strip(s) == [] {
      assert i == |s|;
      forall k | 0 <= k < |s| ensures IsSpace(s[k]) {
        assert s[k] == s[..i][k];
      }
    }
  }

  /** Stripping a trimmed, non-empty word followed by one space gives the word back. */
  lemma StripTrailingSpace(w: string)
    requires w != [] && IsTrimmed(w)
    ensures Strip(w + " ") == w
  {
    var s := w + " ";
    assert TrimStart(s) == s;
  }

  /** `sep.join(parts)`. */
  function Join(parts: seq<string>, sep: char): string
    decreases |parts|
  {
    if |parts| == 0 then ""
    else if |parts| == 1 then parts[0]
    else parts[0] + [sep] + Join(parts[1..], sep)
  }

  /**
    `s.split(sep)` for a one-character separator: the pieces between the separators, at least one,
    none containing the separator, and joining them with the separator gives `s` back.
   */
  function Split(s: string, sep: char): (parts: seq<string>)
    ensures |parts| >= 1
    ensures forall k | 0 <= k < |parts| :: sep !in parts[k]
    ensures Join(parts, sep) == s
    decreases |s|
  {
    if |s| == 0 then [""]
    else
      var rest := Split(s[1..], sep);
      if s[0] == sep then
        assert ([""] + rest)[1..] == rest;
        [""] + rest
      else
        var parts := [[s[0]] + rest[0]] + rest[1..];
        assert parts[1..] == rest[1..];
        assert s == [s[0]] + s[1..];
        parts
  }

  /** A separator-free text does not split. */
  lemma {:induction false} SplitNoSeparator(a: string, sep: char)
    requires sep !in a
    ensures Split(a, sep) == [a]
    decreases |a|
  {
    if |a| > 0 {
      SplitNoSeparator(a[1..], sep);
      assert [a[0]] + a[1..] == a;
    }
  }

  /** Splitting at the first separator: the text before it, then the pieces of the text after it. */
  lemma {:induction false} SplitAtFirst(a: string, sep: char, b: string)
    requires sep !in a
    ensures Split(a + [sep] + b, sep) == [a] + Split(b, sep)
    decreases |a|
  {
    var s := a + [sep] + b;
    if |a| == 0 {
      assert s[1..] == b;
    } else {
      assert s[1..] == a[1..] + [sep] + b;
      SplitAtFirst(a[1..], sep, b);
      assert [a[0]] + a[1..] == a;
    }
  }

  /** Splitting undoes joining whenever no piece contains the separator. */
  lemma {:induction false} SplitJoin(parts: seq<string>, sep: char)
    requires |parts| >= 1
    requires forall k | 0 <= k < |parts| :: sep !in parts[k]
    ensures Split(Join(parts, sep), sep) == parts
    decreases |parts|
  {
    if |parts| == 1 {
      SplitNoSeparator(parts[0], sep);
    } else {
      SplitJoin(parts[1..], sep);
      SplitAtFirst(parts[0], sep, Join(parts[1..], sep));
      assert [parts[0]] + parts[1..] == parts;
    }
  }

  // ---------------------------------------------------------------- replace

  /** `s.replace(a, b)` for one character by one character. */
  function ReplaceChar(s: string, a: char, b: char): (r: string)
    ensures |r| == |s|
    ensures forall i | 0 <= i < |s| :: r[i] == (if s[i] == a then b else s[i])
  {
    seq(|s|, i requires 0 <= i < |s| => if s[i] == a then b else s[i])
  }

  /** `s.replace(c, '')`: `s` with every `c` dropped and every other character kept in order. */
  function RemoveChar(s: string, c: char): (r: string)
    ensures c !in r
    ensures forall x | x in r :: x in s
    ensures c !in s ==> r == s
    ensures |r| <= |s|
  {
    if s == [] then []
    else if s[0] == c then RemoveChar(s[1..], c)
    else
      assert s == [s[0]] + s[1..];
      [s[0]] + RemoveChar(s[1..], c)
  }

  // ---------------------------------------------------------------- first match in an ordered table

  /**
    The index of the first element at or after `from` that satisfies `p`: the find-first `for`
    loop that returns early, as used over every ordered table of the parser. The test `p` sees the
    element and `ctx`, the value the loop body reads besides the element (the message being parsed).
   */
  function FindFrom<C, T>(ctx: C, xs: seq<T>, p: (C, T) -> bool, from: nat): (r: Option<nat>)
    requires from <= |xs|
    ensures r.Some? ==> from <= r.value < |xs| && p(ctx, xs[r.value])
    ensures r.Some? ==> forall j | from <= j < r.value :: !p(ctx, xs[j])
    ensures r.None? ==> forall j | from <= j < |xs| :: !p(ctx, xs[j])
    decreases |xs| - from
  {
    if from == |xs| then None
    else if p(ctx, xs[from]) then Some(from)
    else FindFrom(ctx, xs, p, from + 1)
  }

  function Find<C, T>(ctx: C, xs: seq<T>, p: (C, T) -> bool): (r: Option<nat>)
    ensures r.Some? ==> r.value < |xs| && p(ctx, xs[r.value])
    ensures r.Some? ==> forall j | 0 <= j < r.value :: !p(ctx, xs[j])
    ensures r.None? ==> forall j | 0 <= j < |xs| :: !p(ctx, xs[j])
  {
    FindFrom(ctx, xs, p, 0)
  }

  /** `Find` returns `k` exactly when `xs[k]` is the first element satisfying `p`. */
  lemma FindIsFirst<C, T>(ctx: C, xs: seq<T>, p: (C, T) -> bool, k: nat)
    requires k < |xs|
    ensures Find(ctx, xs, p) == Some(k) <==> (p(ctx, xs[k]) && forall j | 0 <= j < k :: !p(ctx, xs[j]))
  {
    var r := Find(ctx, xs, p);
    assert r.Some? ==> r.value < |xs| && p(ctx, xs[r.value]);
  }
}
