/**
 The two name regexes of the roster code, modelled as functions over the
 string.

 The two-word pattern `\b[A-Z]X+\s+[A-Z][a-z'-]+\b` is used anchored
 (`re.match`) to tell name columns apart. The first-word class `X` is
 `[a-z'-]` in the openpyxl locator and `[a-z'+]` in the pandas one.

 The full-name pattern is `(?:P\s+){1,}P`, where the name part `P` is
 `\b(?:[A-Z](?:[a-z]+|[-'][A-Z][a-z]*)+)\b`. It is used with `finditer`.
 Its backtracking behaviour is spelled out here:
 - a part that is followed by more name is the whole greedy run of its
   segments, because only whitespace may follow it;
 - the last part is the longest prefix of its run that ends on a word
   boundary: the whole run, or the run cut just before a `-` or `'`;
 - the repetition takes as many parts as it can. When the part after the
   last repetition cannot match, the last repeated part becomes the final
   part instead.
 */
module NamePattern {
  import opened Text
  import opened Seqs

  /** `[-']`: joins two capitalised pieces of one name part (Smith-Jones, O'Brien). */
  predicate IsJoiner(c: char) { c == '-' || c == '\'' }

  /** `[a-z'-]`: the tail class of both words of the two-word pattern. */
  predicate IsWordTail(c: char) { IsLower(c) || c == '\'' || c == '-' }

  /** `[a-z'+]`: the first word's tail class as `name_matched` writes it. */
  predicate IsWordTailAsWritten(c: char) { IsLower(c) || c == '\'' || c == '+' }

  /** End of the longest run of `cls` characters starting at `p`. */
  function RunEnd(s: string, p: nat, cls: char -> bool): (e: nat)
    requires p <= |s|
    ensures p <= e <= |s|
    ensures forall k :: p <= k < e ==> cls(s[k])
    ensures e < |s| ==> !cls(s[e])
    decreases |s| - p
  {
    if p < |s| && cls(s[p]) then RunEnd(s, p + 1, cls) else p
  }

  /**
   `re.match(r"\b[A-Z]X+\s+[A-Z][a-z'-]+\b", s)` succeeds, where `X` is `first`.
   The first tail and the whitespace are taken whole (what follows each
   could not be in it); the second tail may be cut back to any word boundary.
   */
  predicate TwoWordPrefix(s: string, first: char -> bool) {
    && |s| > 0 && IsUpper(s[0])
    && var a := RunEnd(s, 1, first);
    && a > 1 && a < |s| && IsSpace(s[a])
    && var b := RunEnd(s, a, IsSpace);
    && b < |s| && IsUpper(s[b])
    && var c := RunEnd(s, b + 1, IsWordTail);
    && c > b + 1
    && exists q | b + 1 < q <= c :: WordBoundary(s, q)
  }

  /**
   One way the two-word pattern can match at the start of `s`: a capital, a
   first tail `s[1..a]` of `first` characters, whitespace `s[a..b]`, a capital
   at `b`, a second tail `s[b + 1..q]`, and a word boundary at `q`.
   */
  predicate TwoWordSplit(s: string, first: char -> bool, a: nat, b: nat, q: nat) {
    && 1 < a < b && b + 1 < q <= |s|
    && IsUpper(s[0])
    && (forall k :: 1 <= k < a ==> first(s[k]))
    && (forall k :: a <= k < b ==> IsSpace(s[k]))
    && IsUpper(s[b])
    && (forall k :: b + 1 <= k < q ==> IsWordTail(s[k]))
    && WordBoundary(s, q)
  }

  /**
   When the first tail class holds no whitespace, the greedy reading matches
   exactly when some split of the string fits the pattern.
   */
  lemma TwoWordPrefixSplit(s: string, first: char -> bool)
    requires forall c :: first(c) ==> !IsSpace(c)
    ensures TwoWordPrefix(s, first) <==> exists a, b, q :: TwoWordSplit(s, first, a, b, q)
  {
    if TwoWordPrefix(s, first) {
      PrefixHasSplit(s, first);
    }
    if exists a, b, q :: TwoWordSplit(s, first, a, b, q) {
      var a: nat, b: nat, q: nat :| TwoWordSplit(s, first, a, b, q);
      SplitIsPrefix(s, first, a, b, q);
    }
  }

  /** The runs the greedy reading takes form a split. */
  lemma PrefixHasSplit(s: string, first: char -> bool)
    requires TwoWordPrefix(s, first)
    ensures exists a, b, q :: TwoWordSplit(s, first, a, b, q)
  {
    var a := RunEnd(s, 1, first);
    var b := RunEnd(s, a, IsSpace);
    var c := RunEnd(s, b + 1, IsWordTail);
    var q :| b + 1 < q <= c && WordBoundary(s, q);
    assert TwoWordSplit(s, first, a, b, q);
  }

  /** A split is what the greedy reading finds, so the pattern matches. */
  lemma SplitIsPrefix(s: string, first: char -> bool, a: nat, b: nat, q: nat)
    requires forall c :: first(c) ==> !IsSpace(c)
    requires TwoWordSplit(s, first, a, b, q)
    ensures TwoWordPrefix(s, first)
  {
    RunEndExact(s, 1, a, first);
    RunEndExact(s, a, b, IsSpace);
    RunEndReaches(s, b + 1, q, IsWordTail);
  }

  /** A run of `cls` characters from `p` that stops at `e` ends at `e`. */
  lemma RunEndExact(s: string, p: nat, e: nat, cls: char -> bool)
    requires p <= e <= |s|
    requires forall k :: p <= k < e ==> cls(s[k])
    requires e < |s| ==> !cls(s[e])
    ensures RunEnd(s, p, cls) == e
  {
    RunEndReaches(s, p, e, cls);
  }

  /** A run of `cls` characters from `p` to `e` ends no earlier than `e`. */
  lemma RunEndReaches(s: string, p: nat, e: nat, cls: char -> bool)
    requires p <= e <= |s|
    requires forall k :: p <= k < e ==> cls(s[k])
    ensures RunEnd(s, p, cls) >= e
  {
  }

  /** Both first-word classes of the two-word pattern read as a split of the string. */
  lemma NameTestsSplit(s: string)
    ensures TwoWordPrefix(s, IsWordTail) <==> exists a, b, q :: TwoWordSplit(s, IsWordTail, a, b, q)
    ensures TwoWordPrefix(s, IsWordTailAsWritten) <==> exists a, b, q :: TwoWordSplit(s, IsWordTailAsWritten, a, b, q)
  {
    TwoWordPrefixSplit(s, IsWordTail);
    TwoWordPrefixSplit(s, IsWordTailAsWritten);
  }

  /**
   Position `k` of `s[p..e]` fits a run of `[a-z]+|[-'][A-Z][a-z]*` segments:
   a lower-case letter, a joiner followed by a capital, or a capital right
   after a joiner.
   */
  predicate SegmentChar(s: string, p: nat, e: nat, k: nat)
    requires p <= k < e <= |s|
  {
    || IsLower(s[k])
    || (IsJoiner(s[k]) && k + 1 < e && IsUpper(s[k + 1]))
    || (IsUpper(s[k]) && k > p && IsJoiner(s[k - 1]))
  }

  /** `s[p..e]` is a (possibly empty) run of segments, one after another. */
  predicate SegmentRun(s: string, p: nat, e: nat)
    requires p <= e <= |s|
  {
    forall k :: p <= k < e ==> SegmentChar(s, p, e, k)
  }

  /** All of `x` is one or more segments. */
  predicate IsNameSegments(x: string) {
    |x| > 0 && SegmentRun(x, 0, |x|)
  }

  /** One name part: a capital followed by at least one segment. */
  predicate IsNamePart(p: string) {
    |p| >= 2 && IsUpper(p[0]) && IsNameSegments(p[1..])
  }

  predicate AllSpace(w: string) {
    |w| > 0 && forall k :: 0 <= k < |w| ==> IsSpace(w[k])
  }

  /** `m` is one or more name parts separated by whitespace. */
  predicate IsNameChain(m: string)
    decreases |m|
  {
    || IsNamePart(m)
    || exists k, t | 0 < k < t < |m| ::
         IsNamePart(m[..k]) && AllSpace(m[k..t]) && IsNameChain(m[t..])
  }

  /** `m` is a full name: at least two name parts separated by whitespace. */
  predicate IsFullName(m: string) {
    exists k, t | 0 < k < t < |m| ::
      IsNamePart(m[..k]) && AllSpace(m[k..t]) && IsNameChain(m[t..])
  }

  /** End of the greedy run of segments starting at `p`. */
  function SegmentsEnd(s: string, p: nat): (e: nat)
    requires p <= |s|
    ensures p <= e <= |s|
    ensures SegmentRun(s, p, e)
    ensures e < |s| ==> !IsLower(s[e]) && !(IsJoiner(s[e]) && e + 1 < |s| && IsUpper(s[e + 1]))
    decreases |s| - p
  {
    if p < |s| && IsLower(s[p]) then
      var e := SegmentsEnd(s, p + 1);
      SegmentRunWiden(s, p, p + 1, e);
      e
    else if p + 1 < |s| && IsJoiner(s[p]) && IsUpper(s[p + 1]) then
      var e := SegmentsEnd(s, p + 2);
      SegmentRunWiden(s, p, p + 2, e);
      e
    else p
  }

  /** A segment run keeps its shape when a segment is put in front of it. */
  lemma SegmentRunWiden(s: string, p: nat, p': nat, e: nat)
    requires p < p' <= e <= |s|
    requires SegmentRun(s, p', e)
    requires p' == p + 1 ==> IsLower(s[p])
    requires p' == p + 2 ==> IsJoiner(s[p]) && IsUpper(s[p + 1])
    requires p' == p + 1 || p' == p + 2
    ensures SegmentRun(s, p, e)
  {
    forall k | p <= k < e ensures SegmentChar(s, p, e, k) {
      if k >= p' {
        assert SegmentChar(s, p', e, k);
      }
    }
  }

  /** The last joiner in `s[lo..hi]`, if any. */
  function LastJoiner(s: string, lo: nat, hi: nat): (r: Option<nat>)
    requires lo <= hi <= |s|
    ensures r.Some? ==> lo <= r.value < hi && IsJoiner(s[r.value])
    ensures r.Some? ==> forall q :: r.value < q < hi ==> !IsJoiner(s[q])
    ensures r.None? ==> forall q :: lo <= q < hi ==> !IsJoiner(s[q])
    decreases hi - lo
  {
    if hi == lo then None
    else if IsJoiner(s[hi - 1]) then Some(hi - 1)
    else LastJoiner(s, lo, hi - 1)
  }

  /**
   End of the name part `P` tried at `i` as the final part: the whole greedy
   run when a word boundary follows it, else the run cut before its last joiner.
   */
  function PartEnd(s: string, i: nat): (r: Option<nat>)
    requires i <= |s|
    ensures r.Some? ==> i + 2 <= r.value <= |s|
  {
    if i < |s| && IsUpper(s[i]) then
      var e := SegmentsEnd(s, i + 1);
      if e == i + 1 then None
      else if WordBoundary(s, e) then Some(e)
      else LastJoiner(s, i + 2, e)
    else None
  }

  /** A part at `t` that can be repeated: its whole run is followed by whitespace. */
  predicate Repeatable(s: string, t: nat)
    requires t <= |s|
  {
    t < |s| && IsUpper(s[t])
    && var e := SegmentsEnd(s, t + 1);
    e > t + 1 && e < |s| && IsSpace(s[e])
  }

  /**
   End of a match of `(?:P\s+){1,}P` whose parts start at `t`; `repeated`
   says whether one repetition has already been taken.
   */
  function MatchFrom(s: string, t: nat, repeated: bool): (r: Option<nat>)
    requires t <= |s|
    ensures r.Some? ==> t < r.value <= |s|
    decreases |s| - t
  {
    if Repeatable(s, t) then
      var e := SegmentsEnd(s, t + 1);
      match MatchFrom(s, RunEnd(s, e, IsSpace), true)
      case Some(end) => Some(end)
      case None => if repeated then Some(e) else None
    else if repeated then PartEnd(s, t)
    else None
  }

  /** End of the full-name match starting exactly at `i`, if there is one. */
  function MatchAt(s: string, i: nat): (r: Option<nat>)
    requires i <= |s|
    ensures r.Some? ==> i < r.value <= |s|
  {
    if i == 0 || !IsWordChar(s[i - 1]) then MatchFrom(s, i, false) else None
  }

  /** `[m.group() for m in REGEX.finditer(s, pos)]` for the full-name pattern. */
  function FindAllFrom(s: string, pos: nat): seq<string>
    requires pos <= |s|
    decreases |s| - pos
  {
    if pos == |s| then []
    else
      match MatchAt(s, pos)
      case Some(e) => [s[pos..e]] + FindAllFrom(s, e)
      case None => FindAllFrom(s, pos + 1)
  }

  /** Every full-name match in `s`, left to right, non-overlapping. */
  function FullNames(s: string): seq<string> {
    FindAllFrom(s, 0)
  }

  /** A segment run cut at its end or just before a joiner is still a segment run. */
  lemma SegmentRunCut(s: string, p: nat, e: nat, q: nat)
    requires p <= q <= e <= |s|
    requires SegmentRun(s, p, e)
    requires q == e || IsJoiner(s[q])
    ensures SegmentRun(s, p, q)
  {
    forall k | p <= k < q ensures SegmentChar(s, p, q, k) {
      assert SegmentChar(s, p, e, k);
    }
  }

  /** A segment run, read as a string of its own. */
  lemma SegmentRunSlice(s: string, p: nat, e: nat)
    requires p <= e <= |s|
    requires SegmentRun(s, p, e)
    ensures SegmentRun(s[p..e], 0, e - p)
  {
    var x := s[p..e];
    forall k | 0 <= k < |x| ensures SegmentChar(x, 0, |x|, k) {
      assert SegmentChar(s, p, e, p + k);
      assert x[k] == s[p + k];
      if k + 1 < |x| {
        assert x[k + 1] == s[p + k + 1];
      }
      if k > 0 {
        assert x[k - 1] == s[p + k - 1];
      }
    }
  }

  /** A piece of a greedy segment run, cut at its end or before a joiner, is a name part. */
  lemma PartSlice(s: string, t: nat, q: nat)
    requires t < |s| && IsUpper(s[t])
    requires t + 2 <= q <= SegmentsEnd(s, t + 1)
    requires q == SegmentsEnd(s, t + 1) || IsJoiner(s[q])
    ensures IsNamePart(s[t..q])
  {
    var e := SegmentsEnd(s, t + 1);
    SegmentRunCut(s, t + 1, e, q);
    SegmentRunSlice(s, t + 1, q);
    var x := s[t..q];
    assert x[0] == s[t];
    assert x[1..] == s[t + 1..q];
  }

  /** A name part, whitespace, then a chain of parts: a full name, and so a chain too. */
  lemma JoinParts(s: string, t: nat, e: nat, next: nat, end: nat)
    requires t < e < next < end <= |s|
    requires IsNamePart(s[t..e]) && AllSpace(s[e..next]) && IsNameChain(s[next..end])
    ensures IsFullName(s[t..end]) && IsNameChain(s[t..end])
  {
    var m := s[t..end];
    assert m[..e - t] == s[t..e];
    assert m[e - t..next - t] == s[e..next] by {
      forall i | 0 <= i < next - e ensures m[e - t..next - t][i] == s[e..next][i] {
        assert m[e - t + i] == s[e + i];
      }
    }
    assert m[next - t..] == s[next..end];
  }

  /** The whitespace a run of `\s` covers. */
  lemma SpaceRun(s: string, e: nat)
    requires e < |s| && IsSpace(s[e])
    ensures AllSpace(s[e..RunEnd(s, e, IsSpace)])
  {
    var next := RunEnd(s, e, IsSpace);
    forall k | 0 <= k < next - e ensures IsSpace(s[e..next][k]) {
      assert s[e..next][k] == s[e + k];
    }
  }

  /** Every match of the full-name pattern spells a chain of name parts, at least two when unrepeated. */
  lemma {:induction false} MatchFromSound(s: string, t: nat, repeated: bool)
    requires t <= |s|
    ensures MatchFrom(s, t, repeated).Some? ==>
      var e := MatchFrom(s, t, repeated).value;
      IsNameChain(s[t..e]) && (!repeated ==> IsFullName(s[t..e]))
    decreases |s| - t
  {
    var r := MatchFrom(s, t, repeated);
    if r.Some? {
      var end := r.value;
      var e := SegmentsEnd(s, t + 1);
      if Repeatable(s, t) {
        var next := RunEnd(s, e, IsSpace);
        PartSlice(s, t, e);
        if MatchFrom(s, next, true).Some? {
          MatchFromSound(s, next, true);
          SpaceRun(s, e);
          JoinParts(s, t, e, next, end);
        }
      } else if WordBoundary(s, e) {
        PartSlice(s, t, e);
      } else {
        PartSlice(s, t, end);
      }
    }
  }

  /** Each name `finditer` reports is a full name and a substring of the searched string. */
  lemma {:induction false} FindAllFromSound(s: string, pos: nat)
    requires pos <= |s|
    ensures forall i :: 0 <= i < |FindAllFrom(s, pos)| ==>
      IsFullName(FindAllFrom(s, pos)[i]) && IsInfix(FindAllFrom(s, pos)[i], s)
    decreases |s| - pos
  {
    if pos < |s| {
      match MatchAt(s, pos)
      case Some(e) =>
        FindAllFromSound(s, e);
        MatchFromSound(s, pos, false);
        assert OccursAt(s[pos..e], s, pos);
        var rest := FindAllFrom(s, e);
        var all := FindAllFrom(s, pos);
        assert all == [s[pos..e]] + rest;
        forall i | 0 <= i < |all| ensures IsFullName(all[i]) && IsInfix(all[i], s) {
          if i > 0 {
            assert all[i] == rest[i - 1];
          }
        }
      case None =>
        FindAllFromSound(s, pos + 1);
    }
  }

  lemma FullNamesSound(s: string)
    ensures forall i :: 0 <= i < |FullNames(s)| ==>
      IsFullName(FullNames(s)[i]) && IsInfix(FullNames(s)[i], s)
  {
    FindAllFromSound(s, 0);
  }
}
