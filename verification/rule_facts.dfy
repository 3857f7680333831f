/** What one replacement pass guarantees about its own output: for the rules
    below, the pattern no longer matches anywhere in what the pass produced,
    so a second pass changes nothing. */
module RuleFacts {
  import opened Text
  import opened Patterns

  /** The rules whose replacement can neither be matched again nor complete
      a match with the text around it, with the conditions on their literal
      parts that make it so. */
  predicate SelfClean(rule: Rule) {
    match rule
    case Newline => true
    case WsAfter(tag) => |tag| > 0 && tag[0] !in tag[1..] + SpaceMark && !IsWs(tag[0])
    case WsBefore(tag) => |tag| > 0 && forall c :: c in tag ==> !IsWs(c) && c != '#'
    case BetweenTags => true
    case QuoteThenClose => true
    case EqualsThenQuote => true
    case Literal(pat, rep) =>
      && |pat| > 0 && |rep| > 0 && rep[0] !in pat && rep[|rep| - 1] !in pat
      && forall i :: 0 <= i < |rep| ==> !IsAt(rep, pat, i)
    case _ => false
  }

  lemma {:induction false} WsEndShift(a: string, b: string, i: nat)
    requires i <= |b|
    ensures WsEnd(a + b, |a| + i) == |a| + WsEnd(b, i)
    decreases |b| - i
  {
    if i < |b| {
      assert (a + b)[|a| + i] == b[i];
      if IsWs(b[i]) {
        WsEndShift(a, b, i + 1);
      }
    }
  }

  /** The self-cleaning rules carry no anchor: whether they match at an
      index depends only on the text from that index on. */
  lemma MatchShift(rule: Rule, a: string, b: string, i: nat)
    requires i < |b| && SelfClean(rule)
    ensures MatchAt(rule, a + b, |a| + i).Some? <==> MatchAt(rule, b, i).Some?
  {
    match rule
    case Newline => assert (a + b)[|a| + i] == b[i];
    case WsAfter(tag) => ShiftWsAfter(tag, a, b, i);
    case WsBefore(tag) => ShiftWsBefore(tag, a, b, i);
    case BetweenTags => ShiftAround(a, b, i);
    case QuoteThenClose => ShiftAround(a, b, i);
    case EqualsThenQuote => ShiftAround(a, b, i);
    case Literal(pat, _) => IsAtShift(a, b, pat, i);
  }

  lemma ShiftWsAfter(tag: string, a: string, b: string, i: nat)
    requires i < |b|
    ensures MatchWsAfter(tag, a + b, |a| + i).Some? <==> MatchWsAfter(tag, b, i).Some?
  {
    IsAtShift(a, b, tag, i);
    if i + |tag| < |b| {
      assert (a + b)[|a| + i + |tag|] == b[i + |tag|];
    }
  }

  lemma ShiftWsBefore(tag: string, a: string, b: string, i: nat)
    requires i < |b|
    ensures MatchWsBefore(tag, a + b, |a| + i).Some? <==> MatchWsBefore(tag, b, i).Some?
  {
    assert (a + b)[|a| + i] == b[i];
    WsEndShift(a, b, i);
    IsAtShift(a, b, tag, WsEnd(b, i));
  }

  /** The three rules of the shape "one character, a run of blanks, one
      character" look at the same characters after a shift. */
  lemma ShiftAround(a: string, b: string, i: nat)
    requires i < |b|
    ensures MatchBetweenTags(a + b, |a| + i).Some? <==> MatchBetweenTags(b, i).Some?
    ensures MatchQuoteThenClose(a + b, |a| + i).Some? <==> MatchQuoteThenClose(b, i).Some?
    ensures MatchEqualsThenQuote(a + b, |a| + i).Some? <==> MatchEqualsThenQuote(b, i).Some?
  {
    var s, p := a + b, |a| + i;
    assert s[p] == b[i];
    if i + 1 < |b| {
      assert s[p + 1] == b[i + 1];
      WsEndShift(a, b, i + 1);
      if WsEnd(b, i + 1) < |b| {
        assert s[WsEnd(s, p + 1)] == b[WsEnd(b, i + 1)];
      }
    }
  }

  /** A replacement written by a self-cleaning rule starts no new match,
      whatever follows it. */
  lemma ReplacementClean(rule: Rule, s: string, p: nat, rest: string, i: nat)
    requires SelfClean(rule) && p < |s| && MatchAt(rule, s, p).Some?
    requires i < |MatchAt(rule, s, p).value.rep|
    ensures MatchAt(rule, MatchAt(rule, s, p).value.rep + rest, i).None?
  {
    var rep := MatchAt(rule, s, p).value.rep;
    match rule
    case Newline =>
      assert rep == " ";
      CleanAfterNewline(rep + rest, i);
    case WsAfter(tag) =>
      assert rep == tag + SpaceMark;
      CleanAfterWsAfter(tag, rest, i);
    case WsBefore(tag) =>
      assert rep == SpaceMark + tag;
      CleanAfterWsBefore(tag, rest, i);
    case BetweenTags =>
      assert rep == "><";
      CleanAfterBetweenTags(rest, i);
    case QuoteThenClose =>
      assert rep == [s[p], '>'] && IsQuote(s[p]);
      CleanAfterQuoteThenClose(s[p], rest, i);
    case EqualsThenQuote =>
      assert rep[0] == '=' && IsQuote(rep[1]) && |rep| == 2;
      CleanAfterEqualsThenQuote(rep, rest, i);
    case Literal(pat, rep') =>
      assert rep == rep';
      CleanAfterLiteral(pat, rep, rest, i);
  }

  lemma CleanAfterNewline(t: string, i: nat)
    requires i < |t| && t[i] == ' '
    ensures MatchAt(Newline, t, i).None?
  {
  }

  lemma CleanAfterWsAfter(tag: string, rest: string, i: nat)
    requires SelfClean(WsAfter(tag)) && i < |tag + SpaceMark|
    ensures MatchAt(WsAfter(tag), tag + SpaceMark + rest, i).None?
  {
    var t := tag + SpaceMark + rest;
    if i < |tag| {
      if i > 0 {
        assert t[i] == tag[1..][i - 1];
      }
      assert t[|tag|] == '#';
    } else {
      assert t[i] == SpaceMark[i - |tag|];
    }
  }

  lemma CleanAfterWsBefore(tag: string, rest: string, i: nat)
    requires SelfClean(WsBefore(tag)) && i < |SpaceMark + tag|
    ensures MatchAt(WsBefore(tag), SpaceMark + tag + rest, i).None?
  {
    var t := SpaceMark + tag + rest;
    if i >= |SpaceMark| {
      assert t[i] == tag[i - |SpaceMark|];
    }
  }

  lemma CleanAfterBetweenTags(rest: string, i: nat)
    requires i < 2
    ensures MatchAt(BetweenTags, "><" + rest, i).None?
  {
    var t := "><" + rest;
    assert t[0] == '>' && t[1] == '<';
  }

  lemma CleanAfterQuoteThenClose(q: char, rest: string, i: nat)
    requires i < 2 && IsQuote(q)
    ensures MatchAt(QuoteThenClose, [q, '>'] + rest, i).None?
  {
    var t := [q, '>'] + rest;
    assert t[0] == q && t[1] == '>';
  }

  lemma CleanAfterEqualsThenQuote(rep: string, rest: string, i: nat)
    requires |rep| == 2 && rep[0] == '=' && IsQuote(rep[1]) && i < 2
    ensures MatchAt(EqualsThenQuote, rep + rest, i).None?
  {
    var t := rep + rest;
    assert t[0] == '=' && t[1] == rep[1];
  }

  lemma CleanAfterLiteral(pat: string, rep: string, rest: string, i: nat)
    requires SelfClean(Literal(pat, rep)) && i < |rep|
    ensures MatchAt(Literal(pat, rep), rep + rest, i).None?
  {
    var t := rep + rest;
    if IsAt(t, pat, i) {
      if i + |pat| <= |rep| {
        IsAtPrefix(rep, rest, pat, i);
      } else {
        OccurrenceCovers(t, pat, i, |rep| - 1);
      }
    }
  }

  /** If the first attempt of a self-cleaning pass fails, the pattern does
      not match at the start of the output either. */
  lemma HeadClean(rule: Rule, s: string, p: nat)
    requires SelfClean(rule) && p < |s| && MatchAt(rule, s, p).None?
    ensures MatchAt(rule, Apply(rule, s, p), 0).None?
  {
    ApplyStep(rule, s, p);
    ApplyCopies(rule, s, p + 1);
    var r' := Apply(rule, s, p + 1);
    assert Apply(rule, s, p) == [s[p]] + r';
    match rule
    case Newline =>
    case WsAfter(tag) => ReflectWsAfter(tag, s, p, r');
    case WsBefore(tag) => ReflectWsBefore(tag, s, p, r');
    case BetweenTags => ReflectBetweenTags(s, p, r');
    case QuoteThenClose => ReflectQuoteThenClose(s, p, r');
    case EqualsThenQuote => ReflectEqualsThenQuote(s, p, r');
    case Literal(pat, rep) => ReflectLiteral(pat, rep, s, p, r');
  }

  /** `r` agrees with `s[p..p + n]` character by character. */
  lemma Agree(r: string, s: string, p: nat, n: nat)
    requires n <= |r| && p + n <= |s| && r[..n] == s[p..p + n]
    ensures forall j :: 0 <= j < n ==> r[j] == s[p + j]
  {
    forall j | 0 <= j < n ensures r[j] == s[p + j] {
      assert r[..n][j] == s[p..p + n][j];
    }
  }

  /** An occurrence inside a stretch where `r` agrees with `s[p..]`. */
  lemma AgreeIsAt(r: string, s: string, p: nat, n: nat, pat: string, i: nat)
    requires n <= |r| && p + n <= |s| && r[..n] == s[p..p + n]
    requires i + |pat| <= n && IsAt(r, pat, i)
    ensures IsAt(s, pat, p + i)
  {
    Agree(r, s, p, n);
    forall j | 0 <= j < |pat| ensures s[p + i + j] == pat[j] {
      assert r[i..i + |pat|][j] == pat[j];
    }
    assert s[p + i..p + i + |pat|] == pat;
  }

  /** A character of `s` followed by a text that copies `s` until the first
      lead agrees with `s` that far. */
  lemma HeadCopy(s: string, p: nat, r': string, leads: string, n: nat)
    requires p < |s| && CopiesUntilLead(r', s, p + 1, leads)
    requires n <= |r'| && NoLeadBefore(r', n, leads)
    ensures p + 1 + n <= |s|
    ensures ([s[p]] + r')[..n + 1] == s[p..p + 1 + n]
  {
    assert ([s[p]] + r')[..n + 1] == [s[p]] + r'[..n];
  }

  lemma ReflectWsAfter(tag: string, s: string, p: nat, r': string)
    requires SelfClean(WsAfter(tag)) && p < |s|
    requires CopiesUntilLead(r', s, p + 1, Leads(WsAfter(tag)))
    ensures MatchWsAfter(tag, [s[p]] + r', 0).Some? ==> MatchWsAfter(tag, s, p).Some?
  {
    var r := [s[p]] + r';
    var k := |tag|;
    if IsAt(r, tag, 0) && k < |r| && IsWs(r[k]) {
      var leads := Leads(WsAfter(tag));
      assert leads == [tag[0]];
      forall j | 0 <= j < k ensures r'[j] !in leads {
        assert r'[j] == r[j + 1];
        if j < k - 1 {
          assert r[j + 1] == r[..k][j + 1] == tag[1..][j];
        }
      }
      HeadCopy(s, p, r', leads, k);
      AgreeIsAt(r, s, p, k + 1, tag, 0);
      Agree(r, s, p, k + 1);
    }
  }

  /** Blanks followed by a tag with no `#` in it hold no `#`. */
  lemma BlanksThenTag(r: string, tag: string, e: nat)
    requires e <= |r| && IsAt(r, tag, e) && forall k :: 0 <= k < e ==> IsWs(r[k])
    requires forall c :: c in tag ==> c != '#'
    ensures forall j :: 0 <= j < e + |tag| ==> r[j] != '#'
  {
    forall j | 0 <= j < e + |tag| ensures r[j] != '#' {
      if e <= j {
        assert r[j] == r[e..e + |tag|][j - e] == tag[j - e];
        assert tag[j - e] in tag;
      }
    }
  }

  lemma ReflectWsBefore(tag: string, s: string, p: nat, r': string)
    requires SelfClean(WsBefore(tag)) && p < |s|
    requires CopiesUntilLead(r', s, p + 1, Leads(WsBefore(tag)))
    ensures MatchWsBefore(tag, [s[p]] + r', 0).Some? ==> MatchWsBefore(tag, s, p).Some?
  {
    var r := [s[p]] + r';
    var e := WsEnd(r, 0);
    if IsWs(r[0]) && IsAt(r, tag, e) {
      var n := e - 1 + |tag|;
      BlanksThenTag(r, tag, e);
      forall j | 0 <= j < n ensures r'[j] !in "#" {
        assert r'[j] == r[j + 1];
      }
      HeadCopy(s, p, r', "#", n);
      WsEndAgree(s, p, r, 0, n + 1);
      AgreeIsAt(r, s, p, n + 1, tag, e);
    }
  }

  lemma ReflectBetweenTags(s: string, p: nat, r': string)
    requires p < |s| && CopiesUntilLead(r', s, p + 1, ">")
    ensures MatchBetweenTags([s[p]] + r', 0).Some? ==> MatchBetweenTags(s, p).Some?
  {
    var r := [s[p]] + r';
    if 1 < |r| && r[0] == '>' && IsWs(r[1]) && WsEnd(r, 1) < |r| && r[WsEnd(r, 1)] == '<' {
      var e := WsEnd(r, 1);
      forall j | 0 <= j < e ensures r'[j] !in ">" {
        assert r'[j] == r[j + 1];
      }
      HeadCopy(s, p, r', ">", e);
      Agree(r, s, p, e + 1);
      WsEndAgree(s, p + 1, r, 1, e);
    }
  }

  lemma ReflectQuoteThenClose(s: string, p: nat, r': string)
    requires p < |s| && CopiesUntilLead(r', s, p + 1, "\"'")
    ensures MatchQuoteThenClose([s[p]] + r', 0).Some? ==> MatchQuoteThenClose(s, p).Some?
  {
    var r := [s[p]] + r';
    if 1 < |r| && IsQuote(r[0]) && IsWs(r[1]) && WsEnd(r, 1) < |r| && r[WsEnd(r, 1)] == '>' {
      var e := WsEnd(r, 1);
      forall j | 0 <= j < e ensures r'[j] !in "\"'" {
        assert r'[j] == r[j + 1];
      }
      HeadCopy(s, p, r', "\"'", e);
      Agree(r, s, p, e + 1);
      WsEndAgree(s, p + 1, r, 1, e);
    }
  }

  lemma ReflectEqualsThenQuote(s: string, p: nat, r': string)
    requires p < |s| && CopiesUntilLead(r', s, p + 1, "=")
    ensures MatchEqualsThenQuote([s[p]] + r', 0).Some? ==> MatchEqualsThenQuote(s, p).Some?
  {
    var r := [s[p]] + r';
    if 1 < |r| && r[0] == '=' && IsWs(r[1]) && WsEnd(r, 1) < |r| && IsQuote(r[WsEnd(r, 1)]) {
      var e := WsEnd(r, 1);
      forall j | 0 <= j < e ensures r'[j] !in "=" {
        assert r'[j] == r[j + 1];
        assert IsWs(r[j + 1]) || IsQuote(r[j + 1]);
      }
      HeadCopy(s, p, r', "=", e);
      Agree(r, s, p, e + 1);
      WsEndAgree(s, p + 1, r, 1, e);
    }
  }

  lemma ReflectLiteral(pat: string, rep: string, s: string, p: nat, r': string)
    requires SelfClean(Literal(pat, rep)) && p < |s|
    requires CopiesUntilLead(r', s, p + 1, Leads(Literal(pat, rep)))
    ensures MatchLiteral(pat, rep, [s[p]] + r', 0).Some? ==> MatchLiteral(pat, rep, s, p).Some?
  {
    var r := [s[p]] + r';
    if IsAt(r, pat, 0) {
      var leads := Leads(Literal(pat, rep));
      assert leads == [rep[0]];
      forall j | 0 <= j < |pat| - 1 ensures r'[j] !in leads {
        assert r'[j] == r[..|pat|][j + 1];
      }
      HeadCopy(s, p, r', leads, |pat| - 1);
      AgreeIsAt(r, s, p, |pat|, pat, 0);
    }
  }

  /** The rule matches nowhere in `r`. */
  ghost predicate Clean(rule: Rule, r: string) {
    forall i :: 0 <= i < |r| ==> MatchAt(rule, r, i).None?
  }

  /** A self-cleaning rule that matches nowhere in `b` does not match
      inside `b` once text is put in front of it. */
  lemma CleanBehind(rule: Rule, a: string, b: string)
    requires SelfClean(rule) && Clean(rule, b)
    ensures forall i :: |a| <= i < |a| + |b| ==> MatchAt(rule, a + b, i).None?
  {
    forall i | |a| <= i < |a| + |b| ensures MatchAt(rule, a + b, i).None? {
      MatchShift(rule, a, b, i - |a|);
    }
  }

  /** Putting text in front of a clean string keeps it clean when the rule
      does not match inside the new text. */
  lemma PrefixClean(rule: Rule, a: string, b: string)
    requires SelfClean(rule) && Clean(rule, b)
    requires forall i :: 0 <= i < |a| ==> MatchAt(rule, a + b, i).None?
    ensures Clean(rule, a + b)
  {
    CleanBehind(rule, a, b);
  }

  /** After a pass of a self-cleaning rule, the rule matches nowhere in the
      output. */
  lemma {:induction false} NoneLeft(rule: Rule, s: string, p: nat)
    requires SelfClean(rule) && p <= |s|
    ensures Clean(rule, Apply(rule, s, p))
    decreases |s| - p
  {
    if p < |s| {
      ApplyStep(rule, s, p);
      var m := MatchAt(rule, s, p);
      if m.Some? {
        NoneLeft(rule, s, m.value.end);
        var r' := Apply(rule, s, m.value.end);
        forall i | 0 <= i < |m.value.rep| ensures MatchAt(rule, m.value.rep + r', i).None? {
          ReplacementClean(rule, s, p, r', i);
        }
        PrefixClean(rule, m.value.rep, r');
      } else {
        NoneLeft(rule, s, p + 1);
        var r' := Apply(rule, s, p + 1);
        HeadClean(rule, s, p);
        PrefixClean(rule, [s[p]], r');
      }
    }
  }

  /** A self-cleaning pass is idempotent. */
  lemma Idempotent(rule: Rule, s: string)
    requires SelfClean(rule)
    ensures Rewrite(rule, Rewrite(rule, s)) == Rewrite(rule, s)
  {
    NoneLeft(rule, s, 0);
    ApplyNoMatch(rule, Rewrite(rule, s), 0);
  }

  /** How far past the start of a match lies the character that every
      match of the rule must contain (see `Signals`). */
  function Reach(rule: Rule): nat {
    match rule
    case WsAfter(tag) => |tag|
    case HtmlComment => 1
    case BetweenTags => 1
    case QuoteThenClose => 1
    case EqualsThenQuote => 1
    case _ => 0
  }

  /** `s[j]` is a character without which the rule cannot match: a blank
      for the blank-handling rules, the `!` of `<!--`, the `#` that starts
      a marker literal, a newline or a leading `/` for line comments. */
  predicate Signals(rule: Rule, s: string, j: nat)
    requires j < |s|
  {
    match rule
    case HtmlComment => s[j] == '!'
    case Literal(_, _) => s[j] == '#'
    case CommentLine => s[j] == '\n' || (j == 0 && s[0] == '/')
    case _ => IsWs(s[j])
  }

  /** The literal rules whose pattern starts with `#`, as both markers do. */
  predicate Marked(rule: Rule) {
    rule.Literal? ==> |rule.pat| > 0 && rule.pat[0] == '#'
  }

  /** A match at `p` has its signal character `Reach` places on. */
  lemma MatchSign(rule: Rule, s: string, p: nat)
    requires p < |s| && MatchAt(rule, s, p).Some? && Marked(rule)
    ensures p + Reach(rule) < |s| && Signals(rule, s, p + Reach(rule))
  {
    match rule
    case TypeAttr(mime) =>
      IsAtChar(s, " type=", p, 0);
    case HtmlComment =>
      IsAtChar(s, "<!--", p, 1);
    case Literal(pat, rep) =>
      IsAtChar(s, pat, p, 0);
    case _ =>
  }

  /** A rule matches nowhere when its signal characters all lie in
      `s[lo..hi]` and no attempt whose signal would fall there matches. */
  lemma Silent(rule: Rule, s: string, lo: nat, hi: nat)
    requires Marked(rule) && lo <= hi
    requires forall j :: 0 <= j < |s| && Signals(rule, s, j) ==> lo <= j < hi
    requires forall i :: 0 <= i < |s| && lo <= i + Reach(rule) < hi ==> MatchAt(rule, s, i).None?
    ensures Clean(rule, s)
  {
    forall i | 0 <= i < |s| ensures MatchAt(rule, s, i).None? {
      if MatchAt(rule, s, i).Some? { MatchSign(rule, s, i); }
    }
  }

  /** A pass over a text whose signal characters all lie inside one match:
      that match is replaced and everything else is copied. */
  lemma Pass(rule: Rule, s: string, lo: nat, hi: nat, r: string)
    requires Marked(rule) && lo < hi <= |s|
    requires MatchAt(rule, s, lo) == Some(Step(hi, r))
    requires forall j :: 0 <= j < |s| && Signals(rule, s, j) ==> lo + Reach(rule) <= j < hi
    ensures Rewrite(rule, s) == s[..lo] + r + s[hi..]
  {
    forall i | 0 <= i < |s| && (i < lo || hi <= i) ensures MatchAt(rule, s, i).None? {
      if MatchAt(rule, s, i).Some? { MatchSign(rule, s, i); }
    }
    CopyUntil(rule, s, 0, lo);
    ApplyStep(rule, s, lo);
    ApplyNoMatch(rule, s, hi);
    assert s[0..lo] == s[..lo];
  }
}
