/** Character-level vocabulary shared by every pattern of the minifier:
    a literal occurring at an index, PCRE's `\s` class, the end of a run of
    blanks, and a left-to-right search for a literal. */
module Text {

  datatype Option<T> = None | Some(value: T)

  /** The literal `pat` occurs in `s` starting at index `i`. */
  predicate IsAt(s: string, pat: string, i: nat) {
    i + |pat| <= |s| && s[i..i + |pat|] == pat
  }

  /** PCRE's `\s` in the default C-locale tables: HT, LF, VT, FF, CR, space. */
  predicate IsWs(c: char) {
    c == ' ' || c == '\t' || c == '\n' || c == '\U{B}' || c == '\U{C}' || c == '\r'
  }

  /** The two characters the patterns accept as an attribute quote. */
  predicate IsQuote(c: char) {
    c == '"' || c == '\''
  }

  /** Where the longest run of `\s` characters that starts at `i` ends
      (a greedy `\s*` starting at `i`). */
  function WsEnd(s: string, i: nat): (e: nat)
    requires i <= |s|
    ensures i <= e <= |s|
    ensures forall k :: i <= k < e ==> IsWs(s[k])
    ensures e == |s| || !IsWs(s[e])
    decreases |s| - i
  {
    if i == |s| || !IsWs(s[i]) then i else WsEnd(s, i + 1)
  }

  /** Where the longest run of spaces (0x20 only) that starts at `i` ends. */
  function SpaceEnd(s: string, i: nat): (e: nat)
    requires i <= |s|
    ensures i <= e <= |s|
    ensures forall k :: i <= k < e ==> s[k] == ' '
    ensures e == |s| || s[e] != ' '
    decreases |s| - i
  {
    if i == |s| || s[i] != ' ' then i else SpaceEnd(s, i + 1)
  }

  /** The first index at or after `from` where `pat` occurs, if any. */
  function Find(s: string, pat: string, from: nat): (r: Option<nat>)
    requires from <= |s|
    ensures r.Some? ==> from <= r.value && IsAt(s, pat, r.value)
    ensures r.Some? ==> forall i :: from <= i < r.value ==> !IsAt(s, pat, i)
    ensures r.None? ==> forall i :: from <= i ==> !IsAt(s, pat, i)
    decreases |s| - from
  {
    if IsAt(s, pat, from) then Some(from)
    else if from == |s| then None
    else Find(s, pat, from + 1)
  }

  /** The first occurrence of `pat` at or after `from` is found. */
  lemma FindFirst(s: string, pat: string, from: nat, i: nat)
    requires from <= i && IsAt(s, pat, i)
    requires forall j :: from <= j < i ==> !IsAt(s, pat, j)
    ensures Find(s, pat, from) == Some(i)
  {
  }

  /** An occurrence inside the right operand of a concatenation is an
      occurrence in the concatenation, shifted by the left operand's length. */
  lemma IsAtShift(a: string, b: string, pat: string, i: nat)
    ensures IsAt(a + b, pat, |a| + i) <==> IsAt(b, pat, i)
  {
    if |a| + i + |pat| <= |a + b| {
      assert (a + b)[|a| + i..|a| + i + |pat|] == b[i..i + |pat|];
    }
  }

  /** An occurrence that ends inside the left operand of a concatenation
      is an occurrence in that operand. */
  lemma IsAtPrefix(a: string, b: string, pat: string, i: nat)
    requires i + |pat| <= |a|
    ensures IsAt(a + b, pat, i) <==> IsAt(a, pat, i)
  {
    assert (a + b)[i..i + |pat|] == a[i..i + |pat|];
  }

  /** Each character of an occurrence is the pattern's character. */
  lemma IsAtChar(s: string, pat: string, i: nat, k: nat)
    requires IsAt(s, pat, i) && k < |pat|
    ensures s[i + k] == pat[k]
  {
    assert s[i..i + |pat|][k] == s[i + k];
  }

  /** Where the one-character pattern `c` occurs nowhere in a stretch, the
      stretch holds no `c`. */
  lemma NotAtChar(s: string, c: char, b: nat, q: nat)
    requires b <= q <= |s| && forall k :: b <= k < q ==> !IsAt(s, [c], k)
    ensures forall k :: b <= k < q ==> s[k] != c
  {
    forall k | b <= k < q ensures s[k] != c {
      assert !IsAt(s, [c], k);
      assert s[k..k + 1] == [s[k]];
      assert [s[k]][0] == s[k];
    }
  }

  /** A text whose character at offset `k` from `i` differs from the
      pattern's has no occurrence of the pattern at `i`. */
  lemma CharDiffers(s: string, pat: string, i: nat, k: nat)
    requires k < |pat| && i + k < |s| && s[i + k] != pat[k]
    ensures !IsAt(s, pat, i)
  {
    if i + |pat| <= |s| {
      assert s[i..i + |pat|][k] == s[i + k];
    }
  }

  /** A pattern with a character the text lacks occurs nowhere in it. */
  lemma MissingChar(s: string, pat: string, i: nat, k: nat)
    requires k < |pat| && pat[k] !in s
    ensures !IsAt(s, pat, i)
  {
    if i + |pat| <= |s| {
      assert s[i..i + |pat|][k] == s[i + k];
    }
  }

  /** Every character an occurrence covers is a character of the
      pattern. */
  lemma OccurrenceCovers(s: string, pat: string, i: nat, j: nat)
    requires IsAt(s, pat, i) && i <= j < i + |pat|
    ensures s[j] in pat
  {
    assert s[i..i + |pat|][j - i] == s[j];
  }

  /** An occurrence that lies inside a slice is an occurrence in the slice. */
  lemma IsAtWithin(s: string, lo: nat, hi: nat, pat: string, i: nat)
    requires lo + i + |pat| <= hi <= |s|
    ensures IsAt(s, pat, lo + i) ==> IsAt(s[lo..hi], pat, i)
  {
    assert s[lo..hi][i..i + |pat|] == s[lo..hi][i..][..|pat|];
    assert s[lo..hi][i..] == s[lo + i..hi];
    assert s[lo + i..hi][..|pat|] == s[lo + i..lo + i + |pat|];
  }

  /** An occurrence inside a slice is an occurrence in the whole string. */
  lemma IsAtSlice(s: string, lo: nat, hi: nat, pat: string, i: nat)
    requires lo <= hi <= |s|
    ensures IsAt(s[lo..hi], pat, i) ==> IsAt(s, pat, lo + i)
  {
    if IsAt(s[lo..hi], pat, i) {
      forall k | 0 <= k < |pat| ensures s[lo + i + k] == pat[k] {
        assert s[lo..hi][i..i + |pat|][k] == pat[k];
      }
      assert s[lo + i..lo + i + |pat|] == pat;
    }
  }

  /** Two strings that agree on a stretch agree on where a run of blanks
      that ends inside that stretch ends. */
  lemma {:induction false} WsEndAgree(s: string, p: nat, t: string, q: nat, n: nat)
    requires p + n <= |s| && q + n <= |t|
    requires s[p..p + n] == t[q..q + n]
    requires WsEnd(t, q) < q + n
    ensures WsEnd(s, p) == p + (WsEnd(t, q) - q)
    decreases n
  {
    assert s[p] == s[p..p + n][0];
    if IsWs(t[q]) {
      assert s[p + 1..p + n] == t[q + 1..q + n];
      WsEndAgree(s, p + 1, t, q + 1, n - 1);
    }
  }
}
