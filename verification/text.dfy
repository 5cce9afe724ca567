/**
 Character classes and the few `str` methods the roster code relies on:
 `strip()`, `upper()` and the substring test `a in b`.

 Whitespace follows Python's `str.isspace()` (which is also what `\s` and
 `strip()` use). Word characters and upper-casing are ASCII only.
 */
module Text {

  /** Python's `str.isspace()` / regex `\s` for `str` patterns. */
  predicate IsSpace(c: char) {
    || ('\t' <= c <= '\r')
    || ('\U{1C}' <= c <= ' ')
    || c == '\U{85}' || c == '\U{A0}' || c == '\U{1680}'
    || ('\U{2000}' <= c <= '\U{200A}')
    || c == '\U{2028}' || c == '\U{2029}' || c == '\U{202F}'
    || c == '\U{205F}' || c == '\U{3000}'
  }

  predicate IsUpper(c: char) { 'A' <= c <= 'Z' }

  predicate IsLower(c: char) { 'a' <= c <= 'z' }

  predicate IsDigit(c: char) { '0' <= c <= '9' }

  /** Regex `\w`, restricted to ASCII. */
  predicate IsWordChar(c: char) { IsUpper(c) || IsLower(c) || IsDigit(c) || c == '_' }

  /** Regex `\b` at position `q` of `s`: exactly one side is a word character. */
  predicate WordBoundary(s: string, q: nat)
    requires q <= |s|
  {
    (q > 0 && IsWordChar(s[q - 1])) != (q < |s| && IsWordChar(s[q]))
  }

  /** `c.upper()` for ASCII letters; every other character is unchanged. */
  function UpperChar(c: char): (u: char)
    ensures IsLower(c) ==> IsUpper(u) && u as int == c as int - 32
    ensures !IsLower(c) ==> u == c
  {
    if IsLower(c) then (c as int - 32) as char else c
  }

  function Upper(s: string): (u: string)
    ensures |u| == |s|
    ensures forall i :: 0 <= i < |s| ==> u[i] == UpperChar(s[i])
  {
    if s == [] then [] else [UpperChar(s[0])] + Upper(s[1..])
  }

  function LStrip(s: string): (r: string)
    ensures |r| <= |s| && r == s[|s| - |r|..]
    ensures r != [] ==> !IsSpace(r[0])
    ensures forall i :: 0 <= i < |s| - |r| ==> IsSpace(s[i])
  {
    if s != [] && IsSpace(s[0]) then LStrip(s[1..]) else s
  }

  function RStrip(s: string): (r: string)
    ensures |r| <= |s| && r == s[..|r|]
    ensures r != [] ==> !IsSpace(r[|r| - 1])
    ensures forall i :: |r| <= i < |s| ==> IsSpace(s[i])
  {
    if s != [] && IsSpace(s[|s| - 1]) then RStrip(s[..|s| - 1]) else s
  }

  /** `s.strip()`: drop leading and trailing whitespace. */
  function Strip(s: string): string {
    RStrip(LStrip(s))
  }

  /** `r` is the slice of `s` at `k`, and every character of `s` outside it is whitespace. */
  predicate TrimmedAt(s: string, r: string, k: nat) {
    && k + |r| <= |s|
    && r == s[k..k + |r|]
    && (forall i :: 0 <= i < k ==> IsSpace(s[i]))
    && (forall i :: k + |r| <= i < |s| ==> IsSpace(s[i]))
  }

  /** `s.strip()` keeps the middle part of `s` and removes exactly the whitespace around it. */
  lemma StripShape(s: string)
    ensures var r := Strip(s);
      && (exists k :: TrimmedAt(s, r, k))
      && IsInfix(r, s)
      && (r != [] ==> !IsSpace(r[0]) && !IsSpace(r[|r| - 1]))
      && (r == [] <==> forall i :: 0 <= i < |s| ==> IsSpace(s[i]))
  {
    StripTrimmed(s);
    StripInfix(s);
    StripEnds(s);
    StripBlank(s);
  }

  /** The stripped string sits where the leading whitespace ends, with only whitespace after it. */
  lemma StripTrimmed(s: string)
    ensures TrimmedAt(s, Strip(s), |s| - |LStrip(s)|)
  {
    var l := LStrip(s);
    var r := RStrip(l);
    var k := |s| - |l|;
    PrefixOfSuffix(s, k, |r|);
    SpaceAfterPrefix(s, k, |r|);
  }

  /** Whitespace after the first `m` characters of `s[k..]` is whitespace after `k + m` in `s`. */
  lemma SpaceAfterPrefix(s: string, k: nat, m: nat)
    requires k + m <= |s|
    requires forall i :: m <= i < |s[k..]| ==> IsSpace(s[k..][i])
    ensures forall i :: k + m <= i < |s| ==> IsSpace(s[i])
  {
    forall i | k + m <= i < |s|
      ensures IsSpace(s[i])
    {
      assert s[i] == s[k..][i - k];
    }
  }

  lemma StripInfix(s: string)
    ensures IsInfix(Strip(s), s)
  {
    var l := LStrip(s);
    var r := RStrip(l);
    var k := |s| - |l|;
    PrefixOfSuffix(s, k, |r|);
    assert OccursAt(r, s, k);
  }

  lemma PrefixOfSuffix(s: string, k: nat, m: nat)
    requires k + m <= |s|
    ensures s[k..][..m] == s[k..k + m]
  {
  }

  lemma StripEnds(s: string)
    ensures var r := Strip(s); r != [] ==> !IsSpace(r[0]) && !IsSpace(r[|r| - 1])
  {
    var l := LStrip(s);
    var r := RStrip(l);
    if r != [] {
      assert r == l[..|r|];
      assert r[0] == l[0];
    }
  }

  lemma StripBlank(s: string)
    ensures Strip(s) == [] <==> forall i :: 0 <= i < |s| ==> IsSpace(s[i])
  {
    var l := LStrip(s);
    var k := |s| - |l|;
    assert l == s[k..];
    if l != [] {
      assert l[0] == s[k] && !IsSpace(s[k]);
      assert RStrip(l) != [];
    }
  }

  /** Stripping twice is stripping once. */
  lemma StripIdempotent(s: string)
    ensures Strip(Strip(s)) == Strip(s)
  {
    var r := Strip(s);
    StripEnds(s);
    assert LStrip(r) == r;
    assert RStrip(r) == r;
  }

  /** `a` occurs in `b` starting at index `i`. */
  predicate OccursAt(a: string, b: string, i: int) {
    0 <= i <= |b| - |a| && b[i..i + |a|] == a
  }

  /** Python's `a in b` on strings. */
  predicate IsInfix(a: string, b: string) {
    exists i | 0 <= i <= |b| - |a| :: OccursAt(a, b, i)
  }
}
