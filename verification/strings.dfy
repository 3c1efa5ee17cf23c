/**
  The JavaScript string operations the assertion helpers rely on, on `string`
  (a sequence of `char`): substring search (`includes`, `indexOf`), replacing
  the first occurrence of a string pattern by the empty string (`replace`),
  `trim`, and the single-quote stripping regex `/^'|'$/g`.
 */
module Strings {
  import opened Wrappers

  /** `pat` occurs in `s` starting at index `i`. */
  predicate OccursAt(s: string, pat: string, i: int) {
    0 <= i && i + |pat| <= |s| && s[i..i + |pat|] == pat
  }

  /**
    JavaScript's `s.includes(pat)`: an empty pattern occurs in every string,
    and a pattern longer than the string occurs in none.
   */
  predicate Contains(s: string, pat: string)
    ensures pat == [] ==> Contains(s, pat)
    ensures Contains(s, pat) ==> |pat| <= |s|
  {
    assert pat == [] ==> OccursAt(s, pat, 0);
    exists i | 0 <= i <= |s| - |pat| :: OccursAt(s, pat, i)
  }

  /** `i` is the leftmost index at which `pat` occurs in `s`. */
  predicate IsFirstOccurrence(s: string, pat: string, i: int) {
    OccursAt(s, pat, i) && forall j | 0 <= j < i :: !OccursAt(s, pat, j)
  }

  /** The leftmost occurrence of `pat` in `s` at or after `from`. */
  function IndexOfFrom(s: string, pat: string, from: nat): (r: Option<nat>)
    ensures r.Some? ==> from <= r.value && OccursAt(s, pat, r.value)
    ensures r.Some? ==> forall j | from <= j < r.value :: !OccursAt(s, pat, j)
    ensures r.None? ==> forall j | from <= j :: !OccursAt(s, pat, j)
    decreases |s| - from
  {
    if from + |pat| > |s| then None
    else if s[from..from + |pat|] == pat then Some(from)
    else IndexOfFrom(s, pat, from + 1)
  }

  /** JavaScript's `s.indexOf(pat)`, with None standing for -1. */
  function IndexOf(s: string, pat: string): (r: Option<nat>)
    ensures r.Some? ==> IsFirstOccurrence(s, pat, r.value)
    ensures r.None? <==> !Contains(s, pat)
  {
    IndexOfFrom(s, pat, 0)
  }

  /**
    JavaScript's `s.replace(pat, '')` with a string (not regex) pattern:
    deletes the leftmost occurrence of `pat`, and nothing when there is none.
   */
  function RemoveFirst(s: string, pat: string): (r: string)
    ensures !Contains(s, pat) ==> r == s
    ensures Contains(s, pat) ==> |r| == |s| - |pat|
    ensures |r| <= |s|
    ensures forall i | IsFirstOccurrence(s, pat, i) :: r == s[..i] + s[i + |pat|..]
  {
    match IndexOf(s, pat)
    case None => s
    case Some(i) => s[..i] + s[i + |pat|..]
  }

  /**
    The characters JavaScript's `trim` removes: the WhiteSpace and
    LineTerminator code points of section 12.2 and 12.3 of ECMA-262, with the
    space separators (category Zs) listed out.
   */
  predicate IsWhitespace(c: char) {
    || c == '\t' || c == '\n' || c == '\U{000B}' || c == '\U{000C}' || c == '\r'
    || c == ' ' || c == '\U{00A0}' || c == '\U{1680}'
    || ('\U{2000}' <= c <= '\U{200A}')
    || c == '\U{2028}' || c == '\U{2029}' || c == '\U{202F}' || c == '\U{205F}'
    || c == '\U{3000}' || c == '\U{FEFF}'
  }

  predicate AllWhitespace(s: string) {
    forall k | 0 <= k < |s| :: IsWhitespace(s[k])
  }

  /** Neither end of `s` is whitespace. */
  predicate IsTrimmed(s: string) {
    s == [] || (!IsWhitespace(s[0]) && !IsWhitespace(s[|s| - 1]))
  }

  /**
    `r` is the piece of `s` that starts at `i` and leaves only whitespace
    before and after it.
   */
  predicate IsCoreOf(r: string, s: string, i: int) {
    && 0 <= i && i + |r| <= |s| && s[i..i + |r|] == r
    && AllWhitespace(s[..i]) && AllWhitespace(s[i + |r|..])
  }

  /** JavaScript's `s.trimStart()`. */
  function TrimStart(s: string): (r: string)
    ensures |r| <= |s| && r == s[|s| - |r|..]
    ensures AllWhitespace(s[..|s| - |r|])
    ensures r == [] || !IsWhitespace(r[0])
  {
    if s != [] && IsWhitespace(s[0]) then TrimStart(s[1..]) else s
  }

  /** JavaScript's `s.trimEnd()`. */
  function TrimEnd(s: string): (r: string)
    ensures |r| <= |s| && r == s[..|r|]
    ensures AllWhitespace(s[|r|..])
    ensures r == [] || !IsWhitespace(r[|r| - 1])
  {
    if s != [] && IsWhitespace(s[|s| - 1]) then TrimEnd(s[..|s| - 1]) else s
  }

  /** JavaScript's `s.trim()`: the core of `s` with no whitespace at either end. */
  function Trim(s: string): (r: string)
    ensures IsTrimmed(r) && |r| <= |s|
    ensures exists i :: IsCoreOf(r, s, i)
  {
    var t := TrimStart(s);
    var r := TrimEnd(t);
    CoreOfParts(s, t, r);
    r
  }

  /** A whitespace-free-at-the-front suffix of `s`, cut back to a prefix by trailing whitespace, is a core of `s`. */
  lemma CoreOfParts(s: string, t: string, r: string)
    requires |t| <= |s| && t == s[|s| - |t|..] && AllWhitespace(s[..|s| - |t|])
    requires |r| <= |t| && r == t[..|r|] && AllWhitespace(t[|r|..])
    ensures IsCoreOf(r, s, |s| - |t|)
  {
    assert s[|s| - |t|..][..|r|] == r;
    assert s[|s| - |t| + |r|..] == t[|r|..];
  }

  const Quote: char := '\''

  predicate StartsWithQuote(s: string) {
    |s| > 0 && s[0] == Quote
  }

  predicate EndsWithQuote(s: string) {
    |s| > 0 && s[|s| - 1] == Quote
  }

  /**
    JavaScript's `s.replace(/^'|'$/g, "")`: deletes one single quote at the
    start and one at the end. A lone `'` is consumed by the first alternative,
    so it does not also count as the closing quote.
   */
  function StripQuotes(s: string): (r: string)
    ensures |r| <= |s|
    ensures StartsWithQuote(s) && |s| >= 2 && EndsWithQuote(s) ==> r == s[1..|s| - 1]
    ensures StartsWithQuote(s) && !(|s| >= 2 && EndsWithQuote(s)) ==> r == s[1..]
    ensures !StartsWithQuote(s) && EndsWithQuote(s) ==> r == s[..|s| - 1]
    ensures !StartsWithQuote(s) && !EndsWithQuote(s) ==> r == s
  {
    var t := if StartsWithQuote(s) then s[1..] else s;
    if EndsWithQuote(t) then t[..|t| - 1] else t
  }

  /** Concatenation is associative; stated once so that proofs about long constants need not rediscover it. */
  lemma AppendAssoc(a: string, b: string, c: string)
    ensures a + b + c == a + (b + c)
  {
  }

  /** Putting back the `n` characters cut from `s` at `i` gives back `s`. */
  lemma SpliceBack(s: string, i: int, n: int, r: string)
    requires 0 <= i <= i + n <= |s| && r == s[..i] + s[i + n..]
    ensures i <= |r| && r[..i] + s[i..i + n] + r[i..] == s
  {
    assert r[..i] == s[..i];
    assert r[i..] == s[i + n..];
    assert s == s[..i] + s[i..i + n] + s[i + n..];
  }

  /** Putting the deleted pattern back where it was found gives back `s`. */
  lemma RemoveFirstRestores(s: string, pat: string)
    requires Contains(s, pat)
    ensures var i := IndexOf(s, pat).value;
            var r := RemoveFirst(s, pat);
            i <= |r| && r[..i] + pat + r[i..] == s
  {
    RemoveFirstRestoresAt(s, pat, IndexOf(s, pat).value);
  }

  /** The same, for the first occurrence given by its index. */
  lemma RemoveFirstRestoresAt(s: string, pat: string, i: int)
    requires IsFirstOccurrence(s, pat, i)
    ensures var r := RemoveFirst(s, pat); i <= |r| && r[..i] + pat + r[i..] == s
  {
    SpliceBack(s, i, |pat|, RemoveFirst(s, pat));
  }

  /** A pattern found at the very start is the one removed. */
  lemma RemoveFirstOfPrefix(pat: string, b: string)
    ensures RemoveFirst(pat + b, pat) == b
  {
    assert OccursAt(pat + b, pat, 0);
    assert IsFirstOccurrence(pat + b, pat, 0);
    assert (pat + b)[|pat|..] == b;
  }

  /** When no occurrence starts inside `a`, the one right after `a` is removed. */
  lemma RemoveFirstAfter(a: string, pat: string, b: string)
    requires forall i | 0 <= i < |a| :: !OccursAt(a + pat + b, pat, i)
    ensures RemoveFirst(a + pat + b, pat) == a + b
  {
    var s := a + pat + b;
    assert s[|a|..|a| + |pat|] == pat;
    assert IsFirstOccurrence(s, pat, |a|);
    assert s[..|a|] == a;
    assert s[|a| + |pat|..] == b;
  }

  /** A character that differs from the pattern's at the same offset rules out an occurrence. */
  lemma MismatchPreventsOccurrence(s: string, pat: string, i: int, k: int)
    requires 0 <= k < |pat| && 0 <= i && i + k < |s| && s[i + k] != pat[k]
    ensures !OccursAt(s, pat, i)
  {
    if i + |pat| <= |s| {
      assert s[i..i + |pat|][k] == s[i + k];
    }
  }

  /** No occurrence starts where the pattern's first character is absent. */
  lemma NoOccurrenceWithoutHead(s: string, pat: string, lo: int, hi: int)
    requires |pat| > 0
    requires forall k | lo <= k < hi && 0 <= k < |s| :: s[k] != pat[0]
    ensures forall i | lo <= i < hi :: !OccursAt(s, pat, i)
  {
    forall i | lo <= i < hi
      ensures !OccursAt(s, pat, i)
    {
      if 0 <= i < |s| {
        MismatchPreventsOccurrence(s, pat, i, 0);
      }
    }
  }

  /** Outside a core, every character of `s` is whitespace. */
  lemma OutsideCoreIsWhitespace(r: string, s: string, i: int)
    requires IsCoreOf(r, s, i)
    ensures forall k | 0 <= k < |s| && (k < i || i + |r| <= k) :: IsWhitespace(s[k])
  {
    forall k | 0 <= k < |s| && (k < i || i + |r| <= k)
      ensures IsWhitespace(s[k])
    {
      if k < i { assert s[..i][k] == s[k]; } else { assert s[i + |r|..][k - i - |r|] == s[k]; }
    }
  }

  /** `Trim` is determined by its contract: any trimmed core of `s` is `Trim(s)`. */
  lemma TrimUnique(s: string, r: string, i: int)
    requires IsTrimmed(r) && IsCoreOf(r, s, i)
    ensures Trim(s) == r
  {
    var t := Trim(s);
    var j :| IsCoreOf(t, s, j);
    OutsideCoreIsWhitespace(r, s, i);
    OutsideCoreIsWhitespace(t, s, j);
    if r != [] && t != [] {
      assert r[0] == s[i] && t[0] == s[j];
      assert r[|r| - 1] == s[i + |r| - 1] && t[|t| - 1] == s[j + |t| - 1];
      assert i == j;
      assert |r| == |t|;
    }
  }

  /** Trimming twice is trimming once. */
  lemma TrimIdempotent(s: string)
    ensures Trim(Trim(s)) == Trim(s)
  {
    var t := Trim(s);
    assert t[0..|t|] == t;
    assert IsCoreOf(t, t, 0);
    TrimUnique(t, t, 0);
  }

  /** Trimming removes exactly the whitespace wrapped around a trimmed string. */
  lemma TrimAround(a: string, t: string, c: string)
    requires AllWhitespace(a) && AllWhitespace(c) && IsTrimmed(t)
    ensures Trim(a + t + c) == t
  {
    var s := a + t + c;
    assert s[..|a|] == a;
    assert s[|a|..|a| + |t|] == t;
    assert s[|a| + |t|..] == c;
    TrimUnique(s, t, |a|);
  }

  /** A trimmed head and a trimmed body joined by one space are already trimmed, or trim to the head. */
  lemma TrimJoin(head: string, body: string)
    requires |head| > 0 && IsTrimmed(head) && IsTrimmed(body)
    ensures Trim(head + " " + body) == if body == [] then head else head + " " + body
  {
    var y := head + " " + body;
    if body == [] {
      assert y == "" + head + " ";
      TrimAround("", head, " ");
    } else {
      assert y[0] == head[0] && y[|y| - 1] == body[|body| - 1];
      assert y == "" + y + "";
      TrimAround("", y, "");
    }
  }

  /** Wrapping in single quotes and stripping them is the identity. */
  lemma StripQuotesOfQuoted(t: string)
    ensures StripQuotes([Quote] + t + [Quote]) == t
  {
    var s := [Quote] + t + [Quote];
    assert s[1..|s| - 1] == t;
  }

  /** Quote stripping keeps the head of a string that does not start with a quote, and drops at most one character. */
  lemma StripQuotesKeepsHead(y: string, head: string)
    requires |y| >= |head| && y[..|head|] == head && !StartsWithQuote(y)
    requires |y| == |head| ==> !EndsWithQuote(y)
    ensures var r := StripQuotes(y); |r| >= |y| - 1 && |r| >= |head| && r[..|head|] == head
  {
  }

  /** A pattern placed after `a` occurs at index `|a|`. */
  lemma OccursAfter(a: string, pat: string, b: string)
    ensures OccursAt(a + pat + b, pat, |a|)
  {
    assert (a + pat + b)[|a|..|a| + |pat|] == pat;
  }

  /** Where a pattern occurs, so does every piece of it, shifted by the piece's offset. */
  lemma OccurrenceOfInfix(s: string, pat: string, i: int, j: int, sub: string)
    requires OccursAt(s, pat, i) && 0 <= j && j + |sub| <= |pat| && pat[j..j + |sub|] == sub
    ensures OccursAt(s, sub, i + j)
  {
    forall k | 0 <= k < |sub|
      ensures s[i + j + k] == sub[k]
    {
      assert s[i..i + |pat|][j + k] == s[i + j + k];
      assert pat[j..j + |sub|][k] == pat[j + k];
    }
    assert s[i + j..i + j + |sub|] == sub;
  }

  /** An occurrence that starts past `a` in `a + b` is an occurrence in `b`. */
  lemma OccurrenceInSuffix(a: string, b: string, pat: string, i: int)
    requires i >= |a|
    ensures OccursAt(a + b, pat, i) ==> OccursAt(b, pat, i - |a|)
  {
    if OccursAt(a + b, pat, i) {
      assert (a + b)[i..i + |pat|] == b[i - |a|..i - |a| + |pat|];
    }
  }

  /** Where a pattern occurs, so does each of its prefixes. */
  lemma OccurrenceOfPrefix(s: string, pat: string, pre: string, i: int)
    requires |pre| <= |pat| && pat[..|pre|] == pre
    ensures OccursAt(s, pat, i) ==> OccursAt(s, pre, i)
  {
    if OccursAt(s, pat, i) {
      assert s[i..i + |pre|] == s[i..i + |pat|][..|pre|];
    }
  }

  /** A string shorter than the pattern cannot contain it. */
  lemma ShorterNeverContains(s: string, pat: string)
    requires |s| < |pat|
    ensures !Contains(s, pat) && RemoveFirst(s, pat) == s
  {
  }
}
