/** The regular expressions the minifier hands to `preg_replace`, each one
    written out as a matcher with PCRE's semantics for that one pattern, and
    the left-to-right, non-overlapping replacement scan that `preg_replace`
    (and, for a literal pattern, `str_replace`) performs with it. */
module Patterns {
  import opened Text

  /** The marker the compactor puts where blanks next to inline tags must
      survive; its last rule turns every marker back into one space. */
  const SpaceMark: string := "##SPACE##"

  /** One search pattern together with its replacement. */
  datatype Rule =
    | TypeAttr(mime: string)      // " type=" + quote + mime + quote, removed
    | LineIndent                  // a newline (or the subject start) plus spaces or one tab -> newline
    | CommentLine                 // a newline (or the subject start), "//", rest of line, its newline -> newline
    | Newline                     // every newline -> one space
    | HtmlComment                 // "<!--" ... first "-->" on the same line, removed
    | HorizontalSpace             // a run of spaces, or a single tab -> one space
    | WsAfter(tag: string)        // tag + run of \s -> tag + SpaceMark
    | WsBefore(tag: string)       // run of \s + tag -> SpaceMark + tag
    | BetweenTags                 // ">" + run of \s + "<" -> "><"
    | QuoteThenClose              // quote + run of \s + ">" -> quote + ">"
    | EqualsThenQuote             // "=" + run of \s + quote -> "=" + quote
    | Literal(pat: string, rep: string)  // every occurrence of pat -> rep

  /** A successful match: where it ends (exclusive) and what replaces it. */
  datatype Step = Step(end: nat, rep: string)

  /** Characters a replacement may contain besides those of the matched text. */
  function Inserted(rule: Rule): string {
    match rule
    case TypeAttr(_) => ""
    case LineIndent => "\n"
    case CommentLine => "\n"
    case Newline => " "
    case HtmlComment => ""
    case HorizontalSpace => " "
    case WsAfter(tag) => tag + SpaceMark
    case WsBefore(tag) => SpaceMark + tag
    case BetweenTags => "><"
    case QuoteThenClose => ">"
    case EqualsThenQuote => "="
    case Literal(_, rep) => rep
  }

  /** The rules whose replacement is the empty string. */
  predicate Erasing(rule: Rule) {
    rule.TypeAttr? || rule.HtmlComment? || (rule.Literal? && rule.rep == "")
  }

  /** The characters a non-empty replacement can begin with. */
  function Leads(rule: Rule): string {
    match rule
    case TypeAttr(_) => ""
    case LineIndent => "\n"
    case CommentLine => "\n"
    case Newline => " "
    case HtmlComment => ""
    case HorizontalSpace => " "
    case WsAfter(tag) => (tag + SpaceMark)[..1]
    case WsBefore(tag) => "#"
    case BetweenTags => ">"
    case QuoteThenClose => "\"'"
    case EqualsThenQuote => "="
    case Literal(_, rep) => if rep == "" then "" else rep[..1]
  }

  /** The end of a `//` line comment whose text starts at `b`: just past the
      first newline at or after `b` (which the match consumes), or the end of
      the subject when there is none. */
  function LineEnd(s: string, b: nat): (e: nat)
    requires b <= |s|
    ensures b <= e <= |s|
    ensures forall k :: b <= k < e - 1 ==> s[k] != '\n'
    ensures e < |s| ==> b < e && s[e - 1] == '\n'
    ensures e == |s| ==> forall k :: b <= k < |s| - 1 ==> s[k] != '\n'
  {
    match Find(s, "\n", b)
    case Some(q) =>
      NotAtChar(s, '\n', b, q);
      IsAtChar(s, "\n", q, 0);
      q + 1
    case None =>
      NotAtChar(s, '\n', b, |s|);
      |s|
  }

  /** No newline in `s[a..b]`: the `.` of a pattern without the `s` flag. */
  predicate NoNewline(s: string, a: nat, b: nat)
    requires a <= b <= |s|
  {
    forall k :: a <= k < b ==> s[k] != '\n'
  }

  /** A step that replaces `s[p..m.end]` and writes only characters of the
      matched text or of `lits`, starting with one of `leads` unless empty. */
  predicate StepOk(s: string, p: nat, m: Step, lits: string, leads: string) {
    && p < m.end <= |s|
    && (forall c :: c in m.rep ==> c in s[p..m.end] || c in lits)
    && (m.rep == [] || m.rep[0] in leads)
  }

  /** The result of trying `rule` at index `p` of the subject `s`, with PCRE's
      semantics: alternatives in order, greedy runs backtracking, lazy bodies
      growing one character at a time, `^` the subject start, `$` its end. */
  function MatchAt(rule: Rule, s: string, p: nat): (m: Option<Step>)
    requires p < |s|
    ensures m.Some? ==> p < m.value.end <= |s|
    ensures m.Some? ==> forall c :: c in m.value.rep ==> c in s[p..m.value.end] || c in Inserted(rule)
    ensures m.Some? && !Erasing(rule) ==> |m.value.rep| > 0 && m.value.rep[0] in Leads(rule)
    ensures m.Some? && Erasing(rule) ==> m.value.rep == ""
  {
    match rule
    case TypeAttr(mime) => MatchTypeAttr(mime, s, p)
    case LineIndent => MatchLineIndent(s, p)
    case CommentLine => MatchCommentLine(s, p)
    case Newline => MatchNewline(s, p)
    case HtmlComment => MatchHtmlComment(s, p)
    case HorizontalSpace => MatchHorizontalSpace(s, p)
    case WsAfter(tag) => MatchWsAfter(tag, s, p)
    case WsBefore(tag) => MatchWsBefore(tag, s, p)
    case BetweenTags => MatchBetweenTags(s, p)
    case QuoteThenClose => MatchQuoteThenClose(s, p)
    case EqualsThenQuote => MatchEqualsThenQuote(s, p)
    case Literal(pat, rep) => MatchLiteral(pat, rep, s, p)
  }

  /** A space, `type=`, a quote, the MIME type, a quote (either quote at
      either end); removed. */
  function MatchTypeAttr(mime: string, s: string, p: nat): (m: Option<Step>)
    requires p < |s|
    ensures m.Some? ==> StepOk(s, p, m.value, "", "") && m.value.rep == ""
  {
    var q := p + 7 + |mime|;
    if IsAt(s, " type=", p) && p + 6 < |s| && IsQuote(s[p + 6]) && IsAt(s, mime, p + 7)
       && q < |s| && IsQuote(s[q])
    then Some(Step(q + 1, ""))
    else None
  }

  /** A newline followed by a run of spaces or by ONE tab, or the same
      blanks at the very start of the subject; replaced by a newline. */
  function MatchLineIndent(s: string, p: nat): (m: Option<Step>)
    requires p < |s|
    ensures m.Some? ==> StepOk(s, p, m.value, "\n", "\n") && m.value.rep == "\n"
  {
    if s[p] == '\n' && p + 1 < |s| && s[p + 1] == ' ' then Some(Step(SpaceEnd(s, p + 1), "\n"))
    else if s[p] == '\n' && p + 1 < |s| && s[p + 1] == '\t' then Some(Step(p + 2, "\n"))
    else if p == 0 && s[0] == ' ' then Some(Step(SpaceEnd(s, 0), "\n"))
    else if p == 0 && s[0] == '\t' then Some(Step(1, "\n"))
    else None
  }

  /** A newline, or the subject start, then `//`, the rest of that line and
      the newline that ends it (if any); replaced by a newline. */
  function MatchCommentLine(s: string, p: nat): (m: Option<Step>)
    requires p < |s|
    ensures m.Some? ==> StepOk(s, p, m.value, "\n", "\n") && m.value.rep == "\n"
  {
    if s[p] == '\n' && IsAt(s, "//", p + 1) then Some(Step(LineEnd(s, p + 3), "\n"))
    else if p == 0 && IsAt(s, "//", 0) then Some(Step(LineEnd(s, 2), "\n"))
    else None
  }

  /** A newline; replaced by a space. */
  function MatchNewline(s: string, p: nat): (m: Option<Step>)
    requires p < |s|
    ensures m.Some? ==> StepOk(s, p, m.value, " ", " ") && m.value.rep == " "
  {
    if s[p] == '\n' then Some(Step(p + 1, " ")) else None
  }

  /** `<!--`, then the shortest text without a newline up to `-->`;
      removed. */
  function MatchHtmlComment(s: string, p: nat): (m: Option<Step>)
    requires p < |s|
    ensures m.Some? ==> StepOk(s, p, m.value, "", "") && m.value.rep == ""
  {
    if IsAt(s, "<!--", p) then
      match Find(s, "-->", p + 4)
      case Some(c) => if NoNewline(s, p + 4, c) then Some(Step(c + 3, "")) else None
      case None => None
    else None
  }

  /** A run of spaces, or ONE tab; replaced by a space. */
  function MatchHorizontalSpace(s: string, p: nat): (m: Option<Step>)
    requires p < |s|
    ensures m.Some? ==> StepOk(s, p, m.value, " ", " ") && m.value.rep == " "
  {
    if s[p] == ' ' then Some(Step(SpaceEnd(s, p), " "))
    else if s[p] == '\t' then Some(Step(p + 1, " "))
    else None
  }

  /** `tag` followed by a run of `\s`; the run becomes the space marker. */
  function MatchWsAfter(tag: string, s: string, p: nat): (m: Option<Step>)
    requires p < |s|
    ensures m.Some? ==> StepOk(s, p, m.value, tag + SpaceMark, (tag + SpaceMark)[..1])
    ensures m.Some? ==> m.value.rep == tag + SpaceMark
  {
    var e := p + |tag|;
    if IsAt(s, tag, p) && e < |s| && IsWs(s[e]) then Some(Step(WsEnd(s, e), tag + SpaceMark))
    else None
  }

  /** A run of `\s` followed by `tag`; the run becomes the space marker. */
  function MatchWsBefore(tag: string, s: string, p: nat): (m: Option<Step>)
    requires p < |s|
    ensures m.Some? ==> StepOk(s, p, m.value, SpaceMark + tag, "#") && m.value.rep == SpaceMark + tag
  {
    var e := WsEnd(s, p);
    if IsWs(s[p]) && IsAt(s, tag, e) then Some(Step(e + |tag|, SpaceMark + tag))
    else None
  }

  /** `>`, a run of `\s`, `<`; the run is removed. */
  function MatchBetweenTags(s: string, p: nat): (m: Option<Step>)
    requires p < |s|
    ensures m.Some? ==> StepOk(s, p, m.value, "><", ">") && m.value.rep == "><"
  {
    if s[p] == '>' && p + 1 < |s| && IsWs(s[p + 1]) && WsEnd(s, p + 1) < |s| && s[WsEnd(s, p + 1)] == '<'
    then Some(Step(WsEnd(s, p + 1) + 1, "><"))
    else None
  }

  /** A quote, a run of `\s`, `>`; the run is removed. */
  function MatchQuoteThenClose(s: string, p: nat): (m: Option<Step>)
    requires p < |s|
    ensures m.Some? ==> StepOk(s, p, m.value, ">", "\"'") && m.value.rep == [s[p], '>'] && IsQuote(s[p])
  {
    if IsQuote(s[p]) && p + 1 < |s| && IsWs(s[p + 1]) && WsEnd(s, p + 1) < |s| && s[WsEnd(s, p + 1)] == '>'
    then Some(Step(WsEnd(s, p + 1) + 1, [s[p], '>']))
    else None
  }

  /** `=`, a run of `\s`, a quote; the run is removed. */
  function MatchEqualsThenQuote(s: string, p: nat): (m: Option<Step>)
    requires p < |s|
    ensures m.Some? ==> StepOk(s, p, m.value, "=", "=")
    ensures m.Some? ==> m.value.rep == ['=', s[m.value.end - 1]] && IsQuote(s[m.value.end - 1])
  {
    if s[p] == '=' && p + 1 < |s| && IsWs(s[p + 1]) && WsEnd(s, p + 1) < |s| && IsQuote(s[WsEnd(s, p + 1)])
    then Some(Step(WsEnd(s, p + 1) + 1, ['=', s[WsEnd(s, p + 1)]]))
    else None
  }

  /** The literal `pat` (when not empty); replaced by `rep`. */
  function MatchLiteral(pat: string, rep: string, s: string, p: nat): (m: Option<Step>)
    requires p < |s|
    ensures m.Some? ==> StepOk(s, p, m.value, rep, if rep == "" then "" else rep[..1]) && m.value.rep == rep
  {
    if |pat| > 0 && IsAt(s, pat, p) then Some(Step(p + |pat|, rep)) else None
  }

  /** `preg_replace` of one pattern over `s[p..]`: scan left to right; where
      the pattern matches, emit its replacement and resume after the match
      (the replacement is never rescanned); elsewhere copy one character. */
  function Apply(rule: Rule, s: string, p: nat): string
    requires p <= |s|
    decreases |s| - p
  {
    if p == |s| then ""
    else match MatchAt(rule, s, p)
      case Some(m) => m.rep + Apply(rule, s, m.end)
      case None => [s[p]] + Apply(rule, s, p + 1)
  }

  /** One replacement pass over a whole subject. */
  function Rewrite(rule: Rule, s: string): string {
    Apply(rule, s, 0)
  }

  /** `preg_replace` with arrays of patterns: each pass sees the output of
      the one before. */
  function RewriteAll(rules: seq<Rule>, s: string): string
    decreases |rules|
  {
    if rules == [] then s else RewriteAll(rules[1..], Rewrite(rules[0], s))
  }

  /** Every character of a pass's output was in its input or in the
      replacement text the rule writes. */
  lemma {:induction false} ApplyChars(rule: Rule, s: string, p: nat)
    requires p <= |s|
    ensures forall c :: c in Apply(rule, s, p) ==> c in s[p..] || c in Inserted(rule)
    decreases |s| - p
  {
    if p < |s| {
      match MatchAt(rule, s, p)
      case Some(m) =>
        ApplyChars(rule, s, m.end);
        assert s[p..] == s[p..m.end] + s[m.end..];
      case None =>
        ApplyChars(rule, s, p + 1);
        assert s[p..] == [s[p]] + s[p + 1..];
    }
  }

  /** Where the rule matches nowhere, a pass leaves the text unchanged. */
  lemma {:induction false} ApplyNoMatch(rule: Rule, s: string, p: nat)
    requires p <= |s|
    requires forall i :: p <= i < |s| ==> MatchAt(rule, s, i).None?
    ensures Apply(rule, s, p) == s[p..]
    decreases |s| - p
  {
    if p < |s| {
      ApplyNoMatch(rule, s, p + 1);
      assert s[p..] == [s[p]] + s[p + 1..];
    }
  }

  /** Where the rule matches nowhere in `s[p..q]`, the pass copies that
      stretch and goes on from `q`. */
  lemma {:induction false} CopyUntil(rule: Rule, s: string, p: nat, q: nat)
    requires p <= q <= |s|
    requires forall i :: p <= i < q ==> MatchAt(rule, s, i).None?
    ensures Apply(rule, s, p) == s[p..q] + Apply(rule, s, q)
    decreases q - p
  {
    if p < q {
      ApplyStep(rule, s, p);
      CopyUntil(rule, s, p + 1, q);
      CopyGlue(s, p, q, Apply(rule, s, p), Apply(rule, s, p + 1), Apply(rule, s, q));
    }
  }

  /** One copied character in front of a copied stretch and the rest. */
  lemma CopyGlue(s: string, p: nat, q: nat, out: string, next: string, rest: string)
    requires p < q <= |s| && out == [s[p]] + next && next == s[p + 1..q] + rest
    ensures out == s[p..q] + rest
  {
    assert s[p..q] == [s[p]] + s[p + 1..q];
  }

  /** None of the first `k` characters of `out` is in `leads`. */
  predicate NoLeadBefore(out: string, k: nat, leads: string)
    requires k <= |out|
  {
    forall j :: 0 <= j < k ==> out[j] !in leads
  }

  /** `out` copies `s[q..]` up to (at least) the first character that is in
      `leads`. */
  ghost predicate CopiesUntilLead(out: string, s: string, q: nat, leads: string) {
    forall k :: 0 <= k <= |out| && NoLeadBefore(out, k, leads) ==> q + k <= |s| && out[..k] == s[q..q + k]
  }

  /** One step of the scan, unfolded. */
  lemma ApplyStep(rule: Rule, s: string, p: nat)
    requires p < |s|
    ensures MatchAt(rule, s, p).None? ==> Apply(rule, s, p) == [s[p]] + Apply(rule, s, p + 1)
    ensures MatchAt(rule, s, p).Some? ==>
      Apply(rule, s, p) == MatchAt(rule, s, p).value.rep + Apply(rule, s, MatchAt(rule, s, p).value.end)
    ensures MatchAt(rule, s, p).Some? && !Erasing(rule) ==>
      |Apply(rule, s, p)| > 0 && Apply(rule, s, p)[0] in Leads(rule)
  {
  }

  /** A match found at `p` is replaced and the pass resumes after it. */
  lemma ApplyMatch(rule: Rule, s: string, p: nat, end: nat, rep: string)
    requires p < |s| && MatchAt(rule, s, p) == Some(Step(end, rep))
    ensures Apply(rule, s, p) == rep + Apply(rule, s, end)
  {
  }

  /** As long as the output shows none of the characters a replacement
      starts with, nothing has been replaced: the output is a copy of the
      input. */
  lemma {:induction false} CopiedPrefix(rule: Rule, s: string, p: nat, k: nat)
    requires p <= |s| && !Erasing(rule)
    requires k <= |Apply(rule, s, p)| && NoLeadBefore(Apply(rule, s, p), k, Leads(rule))
    ensures p + k <= |s| && Apply(rule, s, p)[..k] == s[p..p + k]
    decreases k
  {
    if k > 0 {
      var r := Apply(rule, s, p);
      assert r[0] !in Leads(rule);
      CopiedHead(rule, s, p);
      var r' := Apply(rule, s, p + 1);
      NoLeadTail(s[p], r', k, Leads(rule));
      CopiedPrefix(rule, s, p + 1, k - 1);
      ConsPrefix(r', s, p, k);
    }
  }

  /** A copied character in front of a copied stretch makes a longer
      copied stretch. */
  lemma ConsPrefix(out: string, s: string, p: nat, k: nat)
    requires 0 < k && p + k <= |s| && k - 1 <= |out| && out[..k - 1] == s[p + 1..p + k]
    ensures ([s[p]] + out)[..k] == s[p..p + k]
  {
    assert ([s[p]] + out)[..k] == [s[p]] + out[..k - 1];
    assert s[p..p + k] == [s[p]] + s[p + 1..p + k];
  }

  /** Dropping the first character of a lead-free stretch leaves one. */
  lemma NoLeadTail(c: char, out: string, k: nat, leads: string)
    requires 0 < k <= |out| + 1 && NoLeadBefore([c] + out, k, leads)
    ensures NoLeadBefore(out, k - 1, leads)
  {
    forall j | 0 <= j < k - 1 ensures out[j] !in leads {
      assert out[j] == ([c] + out)[j + 1];
    }
  }

  /** When a pass's output does not start with a lead, the first character
      was copied. */
  lemma CopiedHead(rule: Rule, s: string, p: nat)
    requires p <= |s| && !Erasing(rule)
    requires |Apply(rule, s, p)| > 0 && Apply(rule, s, p)[0] !in Leads(rule)
    ensures p < |s| && Apply(rule, s, p) == [s[p]] + Apply(rule, s, p + 1)
  {
    ApplyStep(rule, s, p);
  }

  /** The output of a pass copies its input up to the first replacement. */
  lemma ApplyCopies(rule: Rule, s: string, p: nat)
    requires p <= |s| && !Erasing(rule)
    ensures CopiesUntilLead(Apply(rule, s, p), s, p, Leads(rule))
  {
    var r := Apply(rule, s, p);
    forall k | 0 <= k <= |r| && NoLeadBefore(r, k, Leads(rule))
      ensures p + k <= |s| && r[..k] == s[p..p + k]
    {
      CopiedPrefix(rule, s, p, k);
    }
  }

  /** An erasing pass never lengthens the text, and shortens it as soon as
      the rule matches anywhere. */
  lemma {:induction false} ErasingShrinks(rule: Rule, s: string, p: nat)
    requires p <= |s| && Erasing(rule)
    ensures |Apply(rule, s, p)| <= |s| - p
    ensures (exists i :: p <= i < |s| && MatchAt(rule, s, i).Some?) ==> |Apply(rule, s, p)| < |s| - p
    decreases |s| - p
  {
    if p < |s| {
      ApplyStep(rule, s, p);
      match MatchAt(rule, s, p)
      case Some(m) =>
        ErasingShrinks(rule, s, m.end);
      case None =>
        ErasingShrinks(rule, s, p + 1);
        if exists i :: p <= i < |s| && MatchAt(rule, s, i).Some? {
          var i :| p <= i < |s| && MatchAt(rule, s, i).Some?;
          assert i != p;
        }
    }
  }

  /** An erasing pass leaves the text exactly as it was if and only if
      the rule matches nowhere in it. */
  lemma ErasingUnchangedIff(rule: Rule, s: string)
    requires Erasing(rule)
    ensures Rewrite(rule, s) == s <==> forall i :: 0 <= i < |s| ==> MatchAt(rule, s, i).None?
  {
    ErasingShrinks(rule, s, 0);
    if forall i :: 0 <= i < |s| ==> MatchAt(rule, s, i).None? {
      ApplyNoMatch(rule, s, 0);
    }
  }
}
