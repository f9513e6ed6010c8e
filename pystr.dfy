/**
 The few Python `str` operations that `clean_cell` relies on: `isspace`,
 `strip`, `replace` of one character by another, and the
 `startswith('(') and endswith(')')` test followed by the `[1:-1]` slice.
 */
module PyStr {

  /** Python 3's `str.isspace` for a single character: the code points whose
      bidirectional class is WS, B or S, or whose category is Zs. */
  predicate IsWs(c: char)
    ensures IsWs(c) ==> c !in "(),.-" && !('0' <= c <= '9') && !('a' <= c <= 'z')
  {
    || ('\t' <= c <= '\r')
    || ('\U{1C}' <= c <= ' ')
    || c == '\U{85}'
    || c == '\U{A0}'
    || c == '\U{1680}'
    || ('\U{2000}' <= c <= '\U{200A}')
    || c == '\U{2028}'
    || c == '\U{2029}'
    || c == '\U{202F}'
    || c == '\U{205F}'
    || c == '\U{3000}'
  }

  /** Every character of `s` is whitespace (vacuously true of ""). */
  predicate AllWs(s: string) {
    forall k :: 0 <= k < |s| ==> IsWs(s[k])
  }

  /** Neither end of `s` is whitespace: what `strip` leaves behind. */
  predicate Trimmed(s: string) {
    s == [] || (!IsWs(s[0]) && !IsWs(s[|s| - 1]))
  }

  /** The first index at or after `i` that does not hold whitespace
      (`|s|` if there is none): where `strip` starts. */
  function SkipWs(s: string, i: nat): (r: nat)
    requires i <= |s|
    ensures i <= r <= |s|
    ensures forall k :: i <= k < r ==> IsWs(s[k])
    ensures r < |s| ==> !IsWs(s[r])
    decreases |s| - i
  {
    if i < |s| && IsWs(s[i]) then SkipWs(s, i + 1) else i
  }

  /** The least index `r` with `lo <= r <= j` such that only whitespace lies
      in `s[r..j]`: where `strip` ends. */
  function BackWs(s: string, lo: nat, j: nat): (r: nat)
    requires lo <= j <= |s|
    ensures lo <= r <= j
    ensures forall k :: r <= k < j ==> IsWs(s[k])
    ensures lo < r ==> !IsWs(s[r - 1])
    decreases j - lo
  {
    if lo < j && IsWs(s[j - 1]) then BackWs(s, lo, j - 1) else j
  }

  /** Where the slice kept by `strip` starts and ends. */
  function StripStart(s: string): nat {
    SkipWs(s, 0)
  }

  function StripEnd(s: string): nat {
    BackWs(s, SkipWs(s, 0), |s|)
  }

  /** `s.strip()`: a trimmed slice of `s` with only whitespace around it. */
  function Strip(s: string): (r: string)
    ensures StripStart(s) <= StripEnd(s) <= |s|
    ensures r == s[StripStart(s)..StripEnd(s)]
    ensures forall k :: 0 <= k < StripStart(s) ==> IsWs(s[k])
    ensures forall k :: StripEnd(s) <= k < |s| ==> IsWs(s[k])
    ensures Trimmed(r)
  {
    var a, b := StripStart(s), StripEnd(s);
    assert a < b ==> !IsWs(s[a]) && !IsWs(s[b - 1]);
    s[a..b]
  }

  /** `strip` is determined by its contract: any trimmed slice with only
      whitespace around it is the one `strip` returns. */
  lemma StripUnique(s: string, i: int, j: int)
    requires 0 <= i <= j <= |s|
    requires AllWs(s[..i]) && AllWs(s[j..]) && Trimmed(s[i..j])
    ensures Strip(s) == s[i..j]
  {
    var a, b := StripStart(s), StripEnd(s);
    if i < j {
      assert !IsWs(s[i]) && !IsWs(s[j - 1]) by { assert s[i..j][j - i - 1] == s[j - 1]; }
      PrefixWs(s, i, a);
      SuffixWs(s, j, b - 1);
      assert a == i && b == j;
    } else {
      forall k | 0 <= k < |s| ensures IsWs(s[k]) {
        PrefixWs(s, i, k);
        SuffixWs(s, j, k);
      }
      StripAllWs(s);
    }
  }

  /** A character before `i` in a string with an all-whitespace prefix of length `i` is whitespace. */
  lemma PrefixWs(s: string, i: int, k: int)
    requires 0 <= i <= |s| && AllWs(s[..i]) && 0 <= k < |s|
    ensures k < i ==> IsWs(s[k])
  {
    if k < i { assert s[..i][k] == s[k]; }
  }

  /** A character from `j` on in a string with an all-whitespace suffix from `j` is whitespace. */
  lemma SuffixWs(s: string, j: int, k: int)
    requires 0 <= j <= |s| && AllWs(s[j..]) && 0 <= k < |s|
    ensures j <= k ==> IsWs(s[k])
  {
    if j <= k { assert s[j..][k - j] == s[k]; }
  }

  /** A string made only of whitespace strips to "", and only such a string does. */
  lemma StripAllWs(s: string)
    ensures Strip(s) == [] <==> AllWs(s)
  {
  }

  /** A trimmed string is left alone by `strip`; in particular `strip` is idempotent. */
  lemma TrimmedStripFixed(s: string)
    requires Trimmed(s)
    ensures Strip(s) == s
  {
    assert s[0..|s|] == s && s[..0] == [] && s[|s|..] == [];
    StripUnique(s, 0, |s|);
  }

  /** A string that does not start with whitespace keeps its first character. */
  lemma StripKeepsFirst(s: string)
    requires s != [] && !IsWs(s[0])
    ensures Strip(s) != [] && Strip(s)[0] == s[0]
  {
    assert StripStart(s) == 0;
  }

  /** Every character `strip` keeps comes from its argument. */
  lemma StripKeepsChars(s: string, c: char)
    requires c in Strip(s)
    ensures c in s
  {
    var r := Strip(s);
    var k :| 0 <= k < |r| && r[k] == c;
    assert s[StripStart(s) + k] == c;
  }

  /** `s.replace(a, b)` for single characters `a` and `b`. */
  function ReplaceChar(s: string, a: char, b: char): (r: string)
    ensures |r| == |s|
    ensures forall k :: 0 <= k < |s| ==> r[k] == (if s[k] == a then b else s[k])
  {
    if s == [] then [] else [if s[0] == a then b else s[0]] + ReplaceChar(s[1..], a, b)
  }

  /** After replacing `a` by a different `b`, no `a` is left. */
  lemma ReplaceCharRemoves(s: string, a: char, b: char)
    requires a != b
    ensures a !in ReplaceChar(s, a, b)
  {
    var r := ReplaceChar(s, a, b);
    assert forall k :: 0 <= k < |r| ==> r[k] != a;
  }

  /** Replacing by a non-whitespace character keeps a trimmed string trimmed. */
  lemma ReplaceCharTrimmed(s: string, a: char, b: char)
    requires Trimmed(s) && !IsWs(b)
    ensures Trimmed(ReplaceChar(s, a, b))
  {
  }

  /** Replacing a character that does not occur changes nothing. */
  lemma ReplaceCharAbsent(s: string, a: char, b: char)
    requires a !in s
    ensures ReplaceChar(s, a, b) == s
  {
    var r := ReplaceChar(s, a, b);
    assert forall k :: 0 <= k < |s| ==> r[k] == s[k];
  }

  /** Replacement distributes over concatenation. */
  lemma {:induction false} ReplaceCharConcat(x: string, y: string, a: char, b: char)
    ensures ReplaceChar(x + y, a, b) == ReplaceChar(x, a, b) + ReplaceChar(y, a, b)
  {
    if x != [] {
      assert (x + y)[1..] == x[1..] + y;
      ReplaceCharConcat(x[1..], y, a, b);
    }
  }

  /** Replacing `a` by `b` in a string with exactly one `a`, between a dot-free
      prefix and suffix. */
  lemma ReplaceCharOnce(x: string, y: string, a: char, b: char)
    requires a !in x && a !in y
    ensures ReplaceChar(x + [a] + y, a, b) == x + [b] + y
  {
    ReplaceCharConcat(x + [a], y, a, b);
    ReplaceCharConcat(x, [a], a, b);
    ReplaceCharAbsent(x, a, b);
    ReplaceCharAbsent(y, a, b);
  }

  /** Replacement commutes with slicing. */
  lemma ReplaceCharSlice(s: string, a: char, b: char, i: int, j: int)
    requires 0 <= i <= j <= |s|
    ensures ReplaceChar(s, a, b)[i..j] == ReplaceChar(s[i..j], a, b)
  {
    var r := ReplaceChar(s, a, b);
    var t := ReplaceChar(s[i..j], a, b);
    assert forall k :: 0 <= k < j - i ==> r[i..j][k] == t[k];
  }

  /** Python's `s.startswith('(') and s.endswith(')')`. */
  predicate Wrapped(s: string)
    ensures Wrapped(s) ==> |s| >= 2
  {
    |s| > 0 && s[0] == '(' && s[|s| - 1] == ')'
  }

  /** Replacing one character by another, neither of them a parenthesis,
      does not change whether a string is wrapped in parentheses. */
  lemma ReplaceCharWrapped(s: string, a: char, b: char)
    requires a != '(' && a != ')' && b != '(' && b != ')'
    ensures Wrapped(ReplaceChar(s, a, b)) <==> Wrapped(s)
  {
  }

  /** Python's `s[1:-1]` on a wrapped string: what lies strictly between the
      parentheses. */
  function Interior(s: string): (r: string)
    requires Wrapped(s)
    ensures |r| == |s| - 2
    ensures forall k :: 0 <= k < |r| ==> r[k] == s[k + 1]
  {
    s[1..|s| - 1]
  }
}
