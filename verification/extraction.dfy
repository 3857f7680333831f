/** The inline-script extraction pass: every bare `<script>` element is cut
    out of the page, its body appended (with a line end) to one combined
    script, the first element replaced by a position marker and every later
    one dropped. */
module Extraction {
  import opened Text

  const ScriptOpen: string := "<script>"
  const ScriptClose: string := "</script>"
  /** Where the combined script goes back in once the page is compacted. */
  const Placeholder: string := "##SCRIPTPOSITION##"
  /** `PHP_EOL` on the platforms the listener runs on. */
  const Eol: string := "\n"

  /** A bare opening tag at `start` and a closing tag at `close`, with the
      closing tag after the opening one: a candidate match of the
      extraction pattern. */
  predicate PairAt(s: string, start: nat, close: nat) {
    IsAt(s, ScriptOpen, start) && start + |ScriptOpen| <= close && IsAt(s, ScriptClose, close)
  }

  /** `s` holds a complete bare script element somewhere. */
  ghost predicate HasPair(s: string) {
    exists i, c :: PairAt(s, i, c)
  }

  /** `pat` occurs nowhere in `t`. */
  ghost predicate Lacks(t: string, pat: string) {
    forall i :: !IsAt(t, pat, i)
  }

  /** One match of the extraction pattern: the opening tag's index and the
      closing tag's index. */
  datatype Pair = Pair(start: nat, close: nat)

  /** The next match at or after `pos`, with PCRE's semantics for a literal
      opening tag, a lazy body that may span lines and a literal closing
      tag: the leftmost opening tag, and the first closing tag after it. */
  function NextPair(s: string, pos: nat): (m: Option<Pair>)
    requires pos <= |s|
    ensures m.Some? ==> pos <= m.value.start && m.value.start + |ScriptOpen| <= m.value.close
                        && m.value.close + |ScriptClose| <= |s|
  {
    match Find(s, ScriptOpen, pos)
    case None => None
    case Some(i) =>
      match Find(s, ScriptClose, i + |ScriptOpen|)
      case None => None
      case Some(c) => Some(Pair(i, c))
  }

  /** What the next match is: a pair of tags with no opening tag before it
      (leftmost) and no closing tag inside it (lazy); and when there is
      none, no pair of tags at all from `pos` on. */
  lemma NextPairSpec(s: string, pos: nat)
    requires pos <= |s|
    ensures var m := NextPair(s, pos);
      && (m.Some? ==> PairAt(s, m.value.start, m.value.close))
      && (m.Some? ==> forall i :: pos <= i < m.value.start ==> !IsAt(s, ScriptOpen, i))
      && (m.Some? ==> forall c :: m.value.start + |ScriptOpen| <= c < m.value.close ==> !IsAt(s, ScriptClose, c))
      && (m.None? ==> forall i, c :: pos <= i ==> !PairAt(s, i, c))
  {
  }

  /** The text between matches (`gaps`, one more than there are matches)
      and the bodies of the matches, in document order. */
  datatype Parts = Parts(gaps: seq<string>, bodies: seq<string>)

  /** The subject from `pos` on, cut at every match. */
  function Split(s: string, pos: nat): (r: Parts)
    requires pos <= |s|
    ensures |r.gaps| == |r.bodies| + 1
    decreases |s| - pos
  {
    match NextPair(s, pos)
    case None => Parts([s[pos..]], [])
    case Some(m) =>
      var rest := Split(s, m.close + |ScriptClose|);
      Parts([s[pos..m.start]] + rest.gaps, [s[m.start + |ScriptOpen|..m.close]] + rest.bodies)
  }

  /** What the cut looks like: every body is free of closing tags (the body
      is lazy), every gap before a match is free of opening tags (the match
      is leftmost), and the last gap holds no complete element. */
  lemma {:induction false} SplitShape(s: string, pos: nat)
    requires pos <= |s|
    ensures var r := Split(s, pos);
      && (forall k :: 0 <= k < |r.bodies| ==> Lacks(r.bodies[k], ScriptClose))
      && (forall k :: 0 <= k < |r.bodies| ==> Lacks(r.gaps[k], ScriptOpen))
      && !HasPair(r.gaps[|r.bodies|])
    decreases |s| - pos
  {
    match NextPair(s, pos)
    case None =>
      LastGapClean(s, pos);
    case Some(m) =>
      var next := m.close + |ScriptClose|;
      SplitStep(s, pos);
      SplitShape(s, next);
      var r, rest := Split(s, pos), Split(s, next);
      assert Lacks(r.gaps[0], ScriptOpen) by {
        NextPairSpec(s, pos);
        SliceLacks(s, pos, m.start, ScriptOpen);
      }
      assert Lacks(r.bodies[0], ScriptClose) by {
        NextPairSpec(s, pos);
        SliceLacks(s, m.start + |ScriptOpen|, m.close, ScriptClose);
      }
      forall k | 1 <= k < |r.bodies|
        ensures Lacks(r.bodies[k], ScriptClose) && Lacks(r.gaps[k], ScriptOpen)
      {
        assert r.bodies[k] == rest.bodies[k - 1] && r.gaps[k] == rest.gaps[k - 1];
      }
      assert r.gaps[|r.bodies|] == rest.gaps[|rest.bodies|];
  }

  /** A slice in which `pat` starts nowhere that it would fit lacks `pat`. */
  lemma SliceLacks(s: string, lo: nat, hi: nat, pat: string)
    requires lo <= hi <= |s| && |pat| > 0
    requires forall i :: lo <= i < hi ==> !IsAt(s, pat, i)
    ensures Lacks(s[lo..hi], pat)
  {
    forall i ensures !IsAt(s[lo..hi], pat, i) {
      IsAtSlice(s, lo, hi, pat, i);
      assert IsAt(s[lo..hi], pat, i) ==> lo + i < hi;
    }
  }

  /** What is left after the last match holds no complete element. */
  lemma LastGapClean(s: string, pos: nat)
    requires pos <= |s| && NextPair(s, pos).None?
    ensures !HasPair(s[pos..])
  {
    NextPairSpec(s, pos);
    forall i, c ensures !PairAt(s[pos..], i, c) {
      IsAtSlice(s, pos, |s|, ScriptOpen, i);
      IsAtSlice(s, pos, |s|, ScriptClose, c);
      assert PairAt(s[pos..], i, c) ==> PairAt(s, pos + i, pos + c);
    }
  }

  /** One match, unfolded: its gap and body lead the parts of the rest. */
  lemma SplitStep(s: string, pos: nat)
    requires pos <= |s| && NextPair(s, pos).Some?
    ensures var m := NextPair(s, pos).value;
      var r, rest := Split(s, pos), Split(s, m.close + |ScriptClose|);
      && m.close + |ScriptClose| <= |s|
      && r.gaps == [s[pos..m.start]] + rest.gaps
      && r.bodies == [s[m.start + |ScriptOpen|..m.close]] + rest.bodies
      && r.gaps[0] == s[pos..m.start] && r.gaps[1..] == rest.gaps
      && r.bodies[0] == s[m.start + |ScriptOpen|..m.close] && r.bodies[1..] == rest.bodies
  {
    var m := NextPair(s, pos).value;
    var rest := Split(s, m.close + |ScriptClose|);
    DropHead(s[pos..m.start], rest.gaps);
    DropHead(s[m.start + |ScriptOpen|..m.close], rest.bodies);
  }

  lemma DropHead(x: string, t: seq<string>)
    ensures ([x] + t)[0] == x && ([x] + t)[1..] == t
  {
  }

  /** The gaps joined end to end. */
  function Concat(gs: seq<string>): string {
    if gs == [] then "" else gs[0] + Concat(gs[1..])
  }

  /** The bodies, each followed by a line end, in order: the combined
      script. */
  function Join(bodies: seq<string>): string {
    if bodies == [] then "" else bodies[0] + Eol + Join(bodies[1..])
  }

  /** The page text up to the last gap: the first gap, the marker standing
      for the first match, then the later gaps (later matches vanish). */
  function Leading(gaps: seq<string>): string {
    if gaps == [] then "" else gaps[0] + Placeholder + Concat(gaps[1..])
  }

  /** The page with the parts put back: each match restored between its
      gaps. */
  function Weave(gaps: seq<string>, bodies: seq<string>): string
    requires |gaps| == |bodies| + 1
  {
    if bodies == [] then gaps[0]
    else gaps[0] + (ScriptOpen + (bodies[0] + (ScriptClose + Weave(gaps[1..], bodies[1..]))))
  }

  /** The outcome of the pass: the rewritten page and the combined script. */
  datatype Extracted = Extracted(doc: string, scripts: string)

  /** The pass as a whole. The scan only runs when the page contains a
      closing tag at all. */
  function Extract(s: string): Extracted {
    if Find(s, ScriptClose, 0).None? then Extracted(s, "")
    else
      var parts := Split(s, 0);
      var n := |parts.bodies|;
      Extracted(Leading(parts.gaps[..n]) + parts.gaps[n], Join(parts.bodies))
  }

  lemma {:induction false} ConcatSnoc(gs: seq<string>, x: string)
    ensures Concat(gs + [x]) == Concat(gs) + x
  {
    if gs != [] {
      assert (gs + [x])[1..] == gs[1..] + [x];
      ConcatSnoc(gs[1..], x);
    }
  }

  lemma {:induction false} JoinSnoc(bodies: seq<string>, x: string)
    ensures Join(bodies + [x]) == Join(bodies) + x + Eol
  {
    if bodies != [] {
      assert (bodies + [x])[1..] == bodies[1..] + [x];
      JoinSnoc(bodies[1..], x);
    }
  }

  /** Handling one more match appends its gap, preceded by the marker only
      for the first match. */
  lemma LeadingSnoc(gaps: seq<string>, x: string)
    ensures Leading(gaps + [x]) == Leading(gaps) + x + (if gaps == [] then Placeholder else "")
  {
    if gaps != [] {
      assert (gaps + [x])[1..] == gaps[1..] + [x];
      ConcatSnoc(gaps[1..], x);
    }
  }

  /** The scan's bookkeeping across one match: the gap and body of the
      next match move from the parts still to come to the parts done. */
  lemma Shift(s: string, pos: nat, whole: Parts, gaps: seq<string>, bodies: seq<string>)
    requires pos <= |s| && NextPair(s, pos).Some?
    requires whole.gaps == gaps + Split(s, pos).gaps && whole.bodies == bodies + Split(s, pos).bodies
    ensures NextPair(s, pos).value.close + |ScriptClose| <= |s|
    ensures var m := NextPair(s, pos).value;
      whole.gaps == (gaps + [s[pos..m.start]]) + Split(s, m.close + |ScriptClose|).gaps
    ensures var m := NextPair(s, pos).value;
      whole.bodies == (bodies + [s[m.start + |ScriptOpen|..m.close]]) + Split(s, m.close + |ScriptClose|).bodies
  {
    SplitStep(s, pos);
  }

  /** The same, in the terms the scan holds: the match it found, and the
      position and parts after it. */
  lemma Advance(s: string, pos: nat, m: Pair, whole: Parts, gaps: seq<string>, bodies: seq<string>,
                pos': nat, gaps': seq<string>, bodies': seq<string>)
    requires pos <= |s| && NextPair(s, pos) == Some(m)
    requires whole.gaps == gaps + Split(s, pos).gaps && whole.bodies == bodies + Split(s, pos).bodies
    requires pos' == m.close + |ScriptClose|
    requires gaps' == gaps + [s[pos..m.start]] && bodies' == bodies + [s[m.start + |ScriptOpen|..m.close]]
    ensures pos' <= |s|
    ensures whole.gaps == gaps' + Split(s, pos').gaps && whole.bodies == bodies' + Split(s, pos').bodies
  {
    assert NextPair(s, pos).value == m;
    Shift(s, pos, whole, gaps, bodies);
  }

  /** The callback-driven scan: for each match, count it, append its body
      and a line end to the combined script, and write the marker for the
      first match and nothing for the others; text between matches is
      copied. */
  method ExtractCombinedInlineScripts(content: string) returns (doc: string, scripts: string)
    ensures Extracted(doc, scripts) == Extract(content)
  {
    scripts := "";
    doc := content;
    var index := 0;
    if Find(content, ScriptClose, 0).Some? {
      var out := "";
      var pos := 0;
      ghost var whole := Split(content, 0);
      ghost var gaps: seq<string> := [];
      ghost var bodies: seq<string> := [];
      var next := NextPair(content, pos);
      while next.Some?
        invariant pos <= |content| && next == NextPair(content, pos)
        invariant |gaps| == |bodies| == index
        invariant whole.gaps == gaps + Split(content, pos).gaps
        invariant whole.bodies == bodies + Split(content, pos).bodies
        invariant out == Leading(gaps) && scripts == Join(bodies)
        decreases |content| - pos
      {
        var m := next.value;
        var gap, body := content[pos..m.start], content[m.start + |ScriptOpen|..m.close];
        ghost var gaps0, bodies0 := gaps, bodies;
        var pos0 := pos;
        gaps, bodies := gaps + [gap], bodies + [body];
        pos := m.close + |ScriptClose|;
        Advance(content, pos0, m, whole, gaps0, bodies0, pos, gaps, bodies);
        index := index + 1;
        assert Join(bodies) == scripts + body + Eol by {
          JoinSnoc(bodies0, body);
        }
        scripts := scripts + body + Eol;
        assert Leading(gaps) == out + gap + (if index == 1 then Placeholder else "") by {
          LeadingSnoc(gaps0, gap);
        }
        out := out + gap + (if index == 1 then Placeholder else "");
        next := NextPair(content, pos);
      }
      doc := out + content[pos..];
      assert Split(content, pos) == Parts([content[pos..]], []);
      assert whole.bodies == bodies + [];
      assert whole.bodies == bodies;
      assert whole.gaps[..|whole.bodies|] == gaps;
      assert doc == Leading(whole.gaps[..|whole.bodies|]) + whole.gaps[|whole.bodies|];
      assert scripts == Join(whole.bodies);
    } else {
      assert Extract(content) == Extracted(content, "");
    }
  }

  lemma Cut(s: string, a: nat, b: nat)
    requires a <= b <= |s|
    ensures s[a..b] + s[b..] == s[a..]
  {
  }

  /** Nothing is lost by the cut: putting every match back between its
      gaps gives the subject again. */
  lemma {:induction false} Reassemble(s: string, pos: nat)
    requires pos <= |s|
    ensures Weave(Split(s, pos).gaps, Split(s, pos).bodies) == s[pos..]
    decreases |s| - pos
  {
    match NextPair(s, pos)
    case None =>
    case Some(m) =>
      var next := m.close + |ScriptClose|;
      var open := m.start + |ScriptOpen|;
      NextPairSpec(s, pos);
      SplitStep(s, pos);
      Reassemble(s, next);
      assert s[m.start..open] == ScriptOpen && s[m.close..next] == ScriptClose;
      Cut(s, m.close, next);
      Cut(s, open, m.close);
      Cut(s, m.start, open);
      Cut(s, pos, m.start);
  }

  /** The closing-tag test in front of the scan never changes the outcome:
      the page is always the gaps with the first match turned into the
      marker, and the combined script always the bodies in order. */
  lemma GuardRedundant(s: string)
    ensures var r := Split(s, 0); var n := |r.bodies|;
      Extract(s) == Extracted(Leading(r.gaps[..n]) + r.gaps[n], Join(r.bodies))
  {
    if Find(s, ScriptClose, 0).None? {
      NextPairSpec(s, 0);
      assert NextPair(s, 0).None?;
      assert s[0..] == s;
    }
  }

  /** With no complete bare element the page is left as it was and the
      combined script is empty; with one, the script is not empty. */
  lemma NoPairUnchanged(s: string)
    ensures !HasPair(s) <==> Extract(s).scripts == ""
    ensures !HasPair(s) ==> Extract(s).doc == s
  {
    GuardRedundant(s);
    NextPairSpec(s, 0);
    match NextPair(s, 0)
    case None =>
      assert s[0..] == s;
    case Some(m) =>
      assert PairAt(s, m.start, m.close);
      SplitStep(s, 0);
      assert Join(Split(s, 0).bodies)[|Split(s, 0).bodies[0]|] == '\n';
  }

  /** A page without a bare opening tag is left alone: attributes on the
      tag (a source, a type) keep an element out of the extraction. */
  lemma NoBareTagUnchanged(s: string)
    requires Lacks(s, ScriptOpen)
    ensures Extract(s) == Extracted(s, "")
  {
    NoPairUnchanged(s);
  }

  /** Every gap is made of characters of the subject. */
  lemma {:induction false} GapsAvoid(s: string, pos: nat, x: char)
    requires pos <= |s| && forall j :: pos <= j < |s| ==> s[j] != x
    ensures forall k :: 0 <= k < |Split(s, pos).gaps| ==> x !in Split(s, pos).gaps[k]
    decreases |s| - pos
  {
    match NextPair(s, pos)
    case None =>
      assert forall j :: 0 <= j < |s[pos..]| ==> s[pos..][j] != x;
    case Some(m) =>
      var next := m.close + |ScriptClose|;
      SplitStep(s, pos);
      GapsAvoid(s, next, x);
      var r, rest := Split(s, pos), Split(s, next);
      assert forall j :: 0 <= j < |s[pos..m.start]| ==> s[pos..m.start][j] != x;
      forall k | 1 <= k < |r.gaps| ensures x !in r.gaps[k] {
        assert r.gaps[k] == rest.gaps[k - 1];
      }
  }

  lemma {:induction false} ConcatAvoids(gs: seq<string>, x: char)
    requires forall k :: 0 <= k < |gs| ==> x !in gs[k]
    ensures x !in Concat(gs)
  {
    if gs != [] {
      ConcatAvoids(gs[1..], x);
    }
  }

  /** Between two texts without `#`, the marker occurs exactly once. */
  lemma MarkerOnce(g0: string, tail: string)
    requires '#' !in g0 && '#' !in tail
    ensures forall i: nat :: IsAt(g0 + (Placeholder + tail), Placeholder, i) <==> i == |g0|
  {
    var doc := g0 + (Placeholder + tail);
    HashOnlyInMarker(g0, tail);
    forall i: nat ensures IsAt(doc, Placeholder, i) <==> i == |g0| {
      if i == |g0| {
        assert doc[i..i + |Placeholder|] == Placeholder;
      } else if i + |Placeholder| <= |doc| {
        if i < |g0| {
          assert doc[i..i + |Placeholder|][0] == doc[i] != Placeholder[0];
        } else {
          assert doc[i..i + |Placeholder|][17] == doc[i + 17] != Placeholder[17];
        }
      }
    }
  }

  /** Outside the marker there is no `#`. */
  lemma HashOnlyInMarker(g0: string, tail: string)
    requires '#' !in g0 && '#' !in tail
    ensures forall j :: 0 <= j < |g0 + (Placeholder + tail)| && !(|g0| <= j < |g0| + |Placeholder|)
              ==> (g0 + (Placeholder + tail))[j] != '#'
  {
    var doc := g0 + (Placeholder + tail);
    forall j | 0 <= j < |doc| && !(|g0| <= j < |g0| + |Placeholder|) ensures doc[j] != '#' {
      if j < |g0| {
        assert doc[j] == g0[j];
      } else {
        assert doc[j] == tail[j - |g0| - |Placeholder|];
      }
    }
  }

  /** On a page without `#`, a page with at least one element comes out
      with exactly one marker, where the first element was. */
  lemma OnePlaceholder(s: string)
    requires forall j :: 0 <= j < |s| ==> s[j] != '#'
    requires HasPair(s)
    ensures forall i: nat :: IsAt(Extract(s).doc, Placeholder, i) <==> i == |Split(s, 0).gaps[0]|
  {
    var r := Split(s, 0);
    var n := |r.bodies|;
    assert n > 0 by {
      NextPairSpec(s, 0);
      if NextPair(s, 0).Some? {
        SplitStep(s, 0);
      }
    }
    var tail := Concat(r.gaps[1..n]) + r.gaps[n];
    assert '#' !in r.gaps[0] && '#' !in tail by {
      GapsAvoid(s, 0, '#');
      ConcatAvoids(r.gaps[1..n], '#');
    }
    DocShape(s);
    MarkerOnce(r.gaps[0], tail);
  }

  /** With at least one match, the page is the first gap, the marker, and
      the other gaps in order. */
  lemma DocShape(s: string)
    requires |Split(s, 0).bodies| > 0
    ensures var r := Split(s, 0); var n := |r.bodies|;
      Extract(s).doc == r.gaps[0] + (Placeholder + (Concat(r.gaps[1..n]) + r.gaps[n]))
  {
    var r := Split(s, 0);
    var n := |r.bodies|;
    GuardRedundant(s);
    var lead := r.gaps[..n];
    assert lead[0] == r.gaps[0] && lead[1..] == r.gaps[1..n];
    assert Leading(lead) == r.gaps[0] + (Placeholder + Concat(r.gaps[1..n]));
    Assoc(r.gaps[0], Placeholder + Concat(r.gaps[1..n]), r.gaps[n]);
    Assoc(Placeholder, Concat(r.gaps[1..n]), r.gaps[n]);
  }

  lemma Assoc(a: string, b: string, c: string)
    ensures (a + b) + c == a + (b + c)
  {
  }

  /** A bare element whose body has no closing tag, starting right at
      `p`, is the next match. */
  lemma PairHere(s: string, p: nat, body: string)
    requires IsAt(s, ScriptOpen, p) && IsAt(s, body, p + |ScriptOpen|)
    requires IsAt(s, ScriptClose, p + |ScriptOpen| + |body|) && Lacks(body, ScriptClose)
    ensures NextPair(s, p) == Some(Pair(p, p + |ScriptOpen| + |body|))
  {
    var b, e := p + |ScriptOpen|, p + |ScriptOpen| + |body|;
    FindFirst(s, ScriptOpen, p, p);
    forall j | b <= j < e ensures !IsAt(s, ScriptClose, j) {
      if j + |ScriptClose| <= e {
        assert s[b..e] == body;
        IsAtWithin(s, b, e, ScriptClose, j - b);
      } else if j + |ScriptClose| <= |s| {
        var k := e - j;
        IsAtChar(s, ScriptClose, e, 0);
        assert s[j..j + |ScriptClose|][k] == s[e];
        assert ScriptClose[k] == ScriptClose[1..][k - 1];
        assert '<' !in ScriptClose[1..];
      }
    }
    FindFirst(s, ScriptClose, b, e);
  }

  /** The matches in a page of two adjacent bare elements. */
  lemma TwoPairs(a: string, b: string, s: string)
    requires Lacks(a, ScriptClose) && Lacks(b, ScriptClose)
    requires s == (ScriptOpen + a + ScriptClose) + (ScriptOpen + b + ScriptClose)
    ensures NextPair(s, 0) == Some(Pair(0, |ScriptOpen| + |a|))
    ensures var mid := |ScriptOpen| + |a| + |ScriptClose|;
      NextPair(s, mid) == Some(Pair(mid, mid + |ScriptOpen| + |b|))
    ensures s[|ScriptOpen|..|ScriptOpen| + |a|] == a
    ensures var mid := |ScriptOpen| + |a| + |ScriptClose|;
      s[mid + |ScriptOpen|..mid + |ScriptOpen| + |b|] == b
    ensures |ScriptOpen| + |a| + |ScriptClose| + |ScriptOpen| + |b| + |ScriptClose| == |s|
  {
    var x, y := ScriptOpen + a + ScriptClose, ScriptOpen + b + ScriptClose;
    HeadPair(a, y, s);
    TailPair(x, b, s);
  }

  /** An element at the start of the page is the first match. */
  lemma HeadPair(a: string, y: string, s: string)
    requires Lacks(a, ScriptClose) && s == (ScriptOpen + a + ScriptClose) + y
    ensures NextPair(s, 0) == Some(Pair(0, |ScriptOpen| + |a|))
    ensures s[|ScriptOpen|..|ScriptOpen| + |a|] == a
  {
    var x := ScriptOpen + a + ScriptClose;
    ElementSlices(a);
    IsAtPrefix(x, y, ScriptOpen, 0);
    IsAtPrefix(x, y, a, |ScriptOpen|);
    IsAtPrefix(x, y, ScriptClose, |ScriptOpen| + |a|);
    PairHere(s, 0, a);
  }

  /** An element right after `x` is the match found from there. */
  lemma TailPair(x: string, b: string, s: string)
    requires Lacks(b, ScriptClose) && s == x + (ScriptOpen + b + ScriptClose)
    ensures NextPair(s, |x|) == Some(Pair(|x|, |x| + |ScriptOpen| + |b|))
    ensures s[|x| + |ScriptOpen|..|x| + |ScriptOpen| + |b|] == b
  {
    var y := ScriptOpen + b + ScriptClose;
    ElementSlices(b);
    IsAtShift(x, y, ScriptOpen, 0);
    IsAtShift(x, y, b, |ScriptOpen|);
    IsAtShift(x, y, ScriptClose, |ScriptOpen| + |b|);
    PairHere(s, |x|, b);
  }

  /** Where the tags and the body of one element stand. */
  lemma ElementSlices(a: string)
    ensures var x := ScriptOpen + a + ScriptClose;
      IsAt(x, ScriptOpen, 0) && IsAt(x, a, |ScriptOpen|) && IsAt(x, ScriptClose, |ScriptOpen| + |a|)
  {
    var x := ScriptOpen + a + ScriptClose;
    assert x[0..|ScriptOpen|] == ScriptOpen && x[|ScriptOpen|..|ScriptOpen| + |a|] == a;
    assert x[|ScriptOpen| + |a|..|x|] == ScriptClose;
  }

  /** The cut of a page whose only matches are two adjacent elements
      with bodies `a` and `b`: three empty gaps around the two bodies. */
  lemma TwoSplit(s: string, a: string, b: string, mid: nat)
    requires mid <= |s|
    requires NextPair(s, 0) == Some(Pair(0, |ScriptOpen| + |a|))
    requires NextPair(s, mid) == Some(Pair(mid, mid + |ScriptOpen| + |b|))
    requires mid == |ScriptOpen| + |a| + |ScriptClose|
    requires mid + |ScriptOpen| + |b| + |ScriptClose| == |s|
    requires s[|ScriptOpen|..|ScriptOpen| + |a|] == a && s[mid + |ScriptOpen|..mid + |ScriptOpen| + |b|] == b
    ensures Split(s, 0).gaps == ["", "", ""] && Split(s, 0).bodies == [a, b]
  {
    assert NextPair(s, |s|).None?;
    var r, r1, r2 := Split(s, 0), Split(s, mid), Split(s, |s|);
    assert r2.gaps == [""] && r2.bodies == [] by {
      assert s[|s|..] == "";
    }
    assert r1.gaps == ["", ""] && r1.bodies == [b] by {
      SplitStep(s, mid);
      assert s[mid..mid] == "";
      assert [""] + [""] == ["", ""] && [b] + [] == [b];
    }
    SplitStep(s, 0);
    assert s[0..0] == "";
    assert [""] + ["", ""] == ["", "", ""] && [a] + [b] == [a, b];
  }

  /** A page cut into two bodies between empty gaps comes out as the
      marker alone, with both bodies in the combined script. */
  lemma TwoBodiesOnly(s: string, a: string, b: string)
    requires Split(s, 0).gaps == ["", "", ""] && Split(s, 0).bodies == [a, b]
    ensures Extract(s) == Extracted(Placeholder, a + Eol + b + Eol)
  {
    GuardRedundant(s);
    assert Split(s, 0).gaps[..2] == ["", ""];
    assert Leading(["", ""]) == Placeholder by {
      assert ["", ""][1..] == [""];
      assert Concat([""]) == "";
    }
    assert Join([a, b]) == a + Eol + b + Eol by {
      assert [a, b][1..] == [b];
      assert Join([b]) == b + Eol + Join([]);
    }
  }

  /** Two adjacent inline scripts: both bodies, each followed by a line
      end, and nothing but the marker left of the page. */
  lemma TwoScripts(a: string, b: string)
    requires Lacks(a, ScriptClose) && Lacks(b, ScriptClose)
    ensures Extract(ScriptOpen + a + ScriptClose + ScriptOpen + b + ScriptClose)
         == Extracted(Placeholder, a + Eol + b + Eol)
  {
    var s := ScriptOpen + a + ScriptClose + ScriptOpen + b + ScriptClose;
    TwoCut(a, b, s);
    TwoBodiesOnly(s, a, b);
  }

  /** The cut of a page of two adjacent bare elements. */
  lemma TwoCut(a: string, b: string, s: string)
    requires Lacks(a, ScriptClose) && Lacks(b, ScriptClose)
    requires s == (ScriptOpen + a + ScriptClose) + (ScriptOpen + b + ScriptClose)
    ensures Split(s, 0).gaps == ["", "", ""] && Split(s, 0).bodies == [a, b]
  {
    TwoPairs(a, b, s);
    TwoSplit(s, a, b, |ScriptOpen| + |a| + |ScriptClose|);
  }

  /** A page that is one bare inline script: the marker alone, and the
      body followed by a line end. */
  lemma OneScript(a: string)
    requires Lacks(a, ScriptClose)
    ensures Extract(ScriptOpen + a + ScriptClose) == Extracted(Placeholder, a + Eol)
  {
    var s, e := ScriptOpen + a + ScriptClose, "";
    assert e + ScriptOpen + a + ScriptClose + e == s;
    assert e + Placeholder + e == Placeholder;
    assert Lacks(e, ScriptOpen);
    EnclosedScript(e, a, e);
  }

  /** No opening tag starts before `p` when the text before `p` holds none
      and an opening tag stands at `p`: its `<` cannot be the middle of
      another. */
  lemma NoOpenBefore(s: string, g: string, p: nat)
    requires p == |g| && p <= |s| && s[..p] == g && Lacks(g, ScriptOpen) && IsAt(s, ScriptOpen, p)
    ensures forall i :: 0 <= i < p ==> !IsAt(s, ScriptOpen, i)
  {
    IsAtChar(s, ScriptOpen, p, 0);
    assert forall k :: 1 <= k < |ScriptOpen| ==> ScriptOpen[k] != '<';
    forall i | 0 <= i < p ensures !IsAt(s, ScriptOpen, i) {
      if i + |ScriptOpen| <= p {
        assert s == g + s[p..];
        IsAtPrefix(g, s[p..], ScriptOpen, i);
      } else {
        CharDiffers(s, ScriptOpen, i, p - i);
      }
    }
  }

  /** No opening tag starts in the text `h` that ends the page. */
  lemma NoOpenAfter(s: string, h: string, e: nat)
    requires e + |h| == |s| && s[e..] == h && Lacks(h, ScriptOpen)
    ensures NextPair(s, e).None?
  {
    if Find(s, ScriptOpen, e).Some? {
      var i := Find(s, ScriptOpen, e).value;
      assert s == s[..e] + h;
      IsAtShift(s[..e], h, ScriptOpen, i - e);
    }
  }

  /** The matches in a page with one bare inline script in it: that
      element, and nothing after it. */
  lemma EnclosedPairs(g: string, a: string, h: string)
    requires Lacks(g, ScriptOpen) && Lacks(a, ScriptClose) && Lacks(h, ScriptOpen)
    ensures var s := g + ScriptOpen + a + ScriptClose + h;
      var e := |g| + |ScriptOpen| + |a|;
      && e + |ScriptClose| + |h| == |s|
      && NextPair(s, 0) == Some(Pair(|g|, e))
      && NextPair(s, e + |ScriptClose|).None?
      && s[0..|g|] == g && s[|g| + |ScriptOpen|..e] == a && s[e + |ScriptClose|..] == h
  {
    var s := g + ScriptOpen + a + ScriptClose + h;
    var p := |g|;
    var e := p + |ScriptOpen| + |a|;
    var end := e + |ScriptClose|;
    EnclosedSlices(g, a, h);
    PairHere(s, p, a);
    NoOpenBefore(s, g, p);
    FindFirst(s, ScriptOpen, 0, p);
    NoOpenAfter(s, h, end);
  }

  /** Where the parts of such a page stand. */
  lemma EnclosedSlices(g: string, a: string, h: string)
    ensures var s := g + ScriptOpen + a + ScriptClose + h;
      var p := |g|;
      var e := p + |ScriptOpen| + |a|;
      && e + |ScriptClose| + |h| == |s|
      && s[..p] == g && s[0..p] == g && s[e + |ScriptClose|..] == h
      && IsAt(s, ScriptOpen, p) && IsAt(s, a, p + |ScriptOpen|) && IsAt(s, ScriptClose, e)
      && s[p + |ScriptOpen|..e] == a
  {
    var s := g + ScriptOpen + a + ScriptClose + h;
    var p := |g|;
    var e := p + |ScriptOpen| + |a|;
    assert s[..p] == g && s[p..p + |ScriptOpen|] == ScriptOpen && s[p + |ScriptOpen|..e] == a;
    assert s[e..e + |ScriptClose|] == ScriptClose && s[e + |ScriptClose|..] == h;
  }

  /** The cut of a page whose only match is one element with body `a`
      between the gaps `g` and `h`. */
  lemma OneSplit(s: string, g: string, a: string, h: string)
    requires |g| + |ScriptOpen| + |a| + |ScriptClose| + |h| == |s|
    requires NextPair(s, 0) == Some(Pair(|g|, |g| + |ScriptOpen| + |a|))
    requires NextPair(s, |g| + |ScriptOpen| + |a| + |ScriptClose|).None?
    requires s[0..|g|] == g && s[|g| + |ScriptOpen|..|g| + |ScriptOpen| + |a|] == a
    requires s[|g| + |ScriptOpen| + |a| + |ScriptClose|..] == h
    ensures Split(s, 0).gaps == [g, h] && Split(s, 0).bodies == [a]
  {
    var end := |g| + |ScriptOpen| + |a| + |ScriptClose|;
    LastSplit(s, end);
    SplitStep(s, 0);
    assert [g] + [h] == [g, h] && [a] + [] == [a];
  }

  /** Past the last match, the cut is the rest of the page alone. */
  lemma LastSplit(s: string, pos: nat)
    requires pos <= |s| && NextPair(s, pos).None?
    ensures Split(s, pos).gaps == [s[pos..]] && Split(s, pos).bodies == []
  {
  }

  /** A page cut into one body between two gaps: the gaps around the
      marker, and the body followed by a line end. */
  lemma OneBodyOnly(s: string, g: string, a: string, h: string)
    requires Split(s, 0).gaps == [g, h] && Split(s, 0).bodies == [a]
    ensures Extract(s) == Extracted(g + Placeholder + h, a + Eol)
  {
    GuardRedundant(s);
    assert [g, h][..1] == [g] && [g][1..] == [];
    assert Join([a]) == a + Eol + Join([]);
  }

  /** One bare inline script inside a page: the first gap, the marker and
      the last gap make the page, and the body followed by a line end is
      the combined script. */
  lemma EnclosedScript(g: string, a: string, h: string)
    requires Lacks(g, ScriptOpen) && Lacks(a, ScriptClose) && Lacks(h, ScriptOpen)
    ensures Extract(g + ScriptOpen + a + ScriptClose + h) == Extracted(g + Placeholder + h, a + Eol)
  {
    var s := g + ScriptOpen + a + ScriptClose + h;
    EnclosedPairs(g, a, h);
    OneSplit(s, g, a, h);
    OneBodyOnly(s, g, a, h);
  }

  /** A text without opening tag stays so when a text that starts with `<`
      and holds none is put after it: that `<` cannot be inside a tag. */
  lemma LacksBeforeTag(g: string, t: string)
    requires Lacks(g, ScriptOpen) && Lacks(t, ScriptOpen) && |t| > 0 && t[0] == '<'
    ensures Lacks(g + t, ScriptOpen)
  {
    assert (g + t)[|g|] == '<';
    assert forall k :: 1 <= k < |ScriptOpen| ==> ScriptOpen[k] != '<';
    forall i: nat ensures !IsAt(g + t, ScriptOpen, i) {
      if i + |ScriptOpen| <= |g| {
        IsAtPrefix(g, t, ScriptOpen, i);
      } else if |g| <= i {
        IsAtShift(g, t, ScriptOpen, i - |g|);
      } else {
        CharDiffers(g + t, ScriptOpen, i, |g| - i);
      }
    }
  }
}

