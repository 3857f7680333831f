/** The HTML compaction pass: thirteen pattern replacements, each applied
    to the output of the one before, then the surrounding blanks trimmed. */
module Compactor {
  import opened Text
  import opened Patterns
  import opened RuleFacts

  /** Passes 1 and 2, which work on whole lines. */
  const LineRules: seq<Rule> := [
    LineIndent,                 //  1. indentation after a newline
    CommentLine                 //  2. `//` line comments
  ]

  /** Pass 3: every newline becomes a space. */
  const JoinLines: Rule := Newline

  /** Passes 6 to 9: blanks next to span and button tags become markers,
      so that the later passes do not remove them. */
  const TagRules: seq<Rule> := [
    WsAfter("span>"),           //  6. blanks after the end of a span tag
    WsBefore("<span"),          //  7. blanks before a span tag
    WsAfter("button>"),         //  8. blanks after the end of a button tag
    WsBefore("<button")         //  9. blanks before a button tag
  ]

  /** Passes 4 to 12, on what is now one line. */
  const InlineRules: seq<Rule> :=
    [HtmlComment,               //  4. one-line HTML comments
     HorizontalSpace]           //  5. runs of spaces, single tabs
    + TagRules
    + [BetweenTags,             // 10. blanks between two tags
       QuoteThenClose,          // 11. blanks between a quote and `>`
       EqualsThenQuote]         // 12. blanks between `=` and a quote

  /** Pass 13: every marker back to one space. */
  const Unmark: Rule := Literal(SpaceMark, " ")

  /** The thirteen replacements, in order. */
  const Table: seq<Rule> := LineRules + ([JoinLines] + (InlineRules + [Unmark]))

  /** The characters PHP's `trim` removes by default: space, tab, line
      feed, carriage return, NUL and vertical tab (not form feed). */
  predicate IsTrimmed(c: char) {
    c == ' ' || c == '\t' || c == '\n' || c == '\r' || c == '\0' || c == '\U{B}'
  }

  /** Index of the first character `trim` keeps (or the length). */
  function TrimLo(s: string, i: nat): (lo: nat)
    requires i <= |s|
    ensures i <= lo <= |s|
    ensures forall k :: i <= k < lo ==> IsTrimmed(s[k])
    ensures lo == |s| || !IsTrimmed(s[lo])
    decreases |s| - i
  {
    if i == |s| || !IsTrimmed(s[i]) then i else TrimLo(s, i + 1)
  }

  /** Index just past the last character `trim` keeps, at or after `lo`. */
  function TrimHi(s: string, lo: nat, j: nat): (hi: nat)
    requires lo <= j <= |s|
    ensures lo <= hi <= j
    ensures forall k :: hi <= k < j ==> IsTrimmed(s[k])
    ensures hi == lo || !IsTrimmed(s[hi - 1])
    decreases j
  {
    if j == lo || !IsTrimmed(s[j - 1]) then j else TrimHi(s, lo, j - 1)
  }

  /** PHP's `trim`: the text between the outermost characters that are not
      trim characters. */
  function Trim(s: string): (r: string)
    ensures |r| <= |s|
    ensures |r| == 0 || (!IsTrimmed(r[0]) && !IsTrimmed(r[|r| - 1]))
  {
    var lo := TrimLo(s, 0);
    s[lo..TrimHi(s, lo, |s|)]
  }

  /** What `trim` removes is trim characters only: the result is the slice
      of the subject starting at the first kept character, and everything
      outside it is a trim character. */
  lemma TrimSlice(s: string)
    ensures TrimLo(s, 0) + |Trim(s)| <= |s|
    ensures Trim(s) == s[TrimLo(s, 0)..TrimLo(s, 0) + |Trim(s)|]
    ensures forall k :: 0 <= k < TrimLo(s, 0) ==> IsTrimmed(s[k])
    ensures forall k :: TrimLo(s, 0) + |Trim(s)| <= k < |s| ==> IsTrimmed(s[k])
  {
  }

  /** A text whose first and last characters are kept is left as it is. */
  lemma TrimKeeps(t: string)
    requires |t| == 0 || (!IsTrimmed(t[0]) && !IsTrimmed(t[|t| - 1]))
    ensures Trim(t) == t
  {
    assert TrimLo(t, 0) == 0;
    assert TrimHi(t, 0, |t|) == |t|;
  }

  /** The whole compaction. */
  function MinifyHtml(s: string): string {
    Trim(RewriteAll(Table, s))
  }

  /** Running two tables one after the other is running their
      concatenation. */
  lemma {:induction false} RewriteAllAppend(first: seq<Rule>, second: seq<Rule>, s: string)
    ensures RewriteAll(first + second, s) == RewriteAll(second, RewriteAll(first, s))
    decreases |first|
  {
    if first == [] {
      assert first + second == second;
    } else {
      var both := first + second;
      assert both[0] == first[0] && both[1..] == first[1..] + second;
      assert RewriteAll(both, s) == RewriteAll(both[1..], Rewrite(both[0], s));
      RewriteAllAppend(first[1..], second, Rewrite(first[0], s));
    }
  }

  /** A character the subject lacks and no replacement writes is absent
      after every pass of a table. */
  lemma {:induction false} RewriteAllAvoids(rules: seq<Rule>, s: string, x: char)
    requires x !in s
    requires forall rule :: rule in rules ==> x !in Inserted(rule)
    ensures x !in RewriteAll(rules, s)
    decreases |rules|
  {
    if rules != [] {
      ApplyChars(rules[0], s, 0);
      assert s[0..] == s;
      RewriteAllAvoids(rules[1..], Rewrite(rules[0], s), x);
    }
  }

  /** A table none of whose rules matches anywhere in the text leaves it
      unchanged. */
  lemma {:induction false} RewriteAllClean(rules: seq<Rule>, t: string)
    requires forall rule :: rule in rules ==> Clean(rule, t)
    ensures RewriteAll(rules, t) == t
    decreases |rules|
  {
    if rules != [] {
      assert rules[0] in rules;
      assert Clean(rules[0], t);
      ApplyNoMatch(rules[0], t, 0);
      assert t[0..] == t;
      RewriteAllClean(rules[1..], t);
    }
  }

  /** After a newline pass that is followed only by rules that write no
      newline, the output holds none. */
  lemma JoinedStaysJoined(first: seq<Rule>, rest: seq<Rule>, s: string)
    requires forall rule :: rule in rest ==> '\n' !in Inserted(rule)
    ensures '\n' !in RewriteAll(first + ([JoinLines] + rest), s)
  {
    var t := RewriteAll(first, s);
    var u := Rewrite(JoinLines, t);
    RewriteAllAppend(first, [JoinLines] + rest, s);
    assert ([JoinLines] + rest)[1..] == rest;
    assert RewriteAll([JoinLines] + rest, t) == RewriteAll(rest, u);
    NoneLeft(JoinLines, t, 0);
    assert '\n' !in u by {
      forall i | 0 <= i < |u| ensures u[i] != '\n' {
        assert MatchAt(JoinLines, u, i).None?;
      }
    }
    RewriteAllAvoids(rest, u, '\n');
  }

  /** The text that pass 4 sees is one line: pass 3 has already turned
      every newline into a space, so an HTML comment that spanned lines in
      the page is matched like any other. */
  lemma CommentsSeeOneLine(s: string)
    ensures '\n' !in RewriteAll(LineRules + [JoinLines], s)
  {
    JoinedStaysJoined(LineRules, [], s);
    assert [JoinLines] + [] == [JoinLines];
  }

  /** A character in neither the marker nor the four tags is written by
      none of passes 6 to 9. */
  lemma TagRulesAvoid(x: char)
    requires x !in SpaceMark && x !in "span>" && x !in "<span" && x !in "button>" && x !in "<button"
    ensures forall rule :: rule in TagRules ==> x !in Inserted(rule)
  {
  }

  /** A character that is not one of ` <>=`, not in the marker and not in
      the tags is written by none of passes 4 to 12. */
  lemma InlineRulesAvoid(x: char)
    requires x != ' ' && x != '<' && x != '>' && x != '='
    requires x !in SpaceMark && x !in "span>" && x !in "<span" && x !in "button>" && x !in "<button"
    ensures forall rule :: rule in InlineRules ==> x !in Inserted(rule)
  {
    TagRulesAvoid(x);
  }

  /** None of the passes after the third writes a newline. */
  lemma LaterPassesWriteNoNewline()
    ensures forall rule :: rule in InlineRules + [Unmark] ==> '\n' !in Inserted(rule)
  {
    InlineRulesAvoid('\n');
  }

  /** The third pass turns every newline into a space and no later
      replacement writes one, so the compacted page is a single line. */
  lemma NoNewlineOut(s: string)
    ensures '\n' !in MinifyHtml(s)
  {
    var rest := InlineRules + [Unmark];
    LaterPassesWriteNoNewline();
    JoinedStaysJoined(LineRules, rest, s);
    TrimSlice(RewriteAll(Table, s));
  }

  /** After a final marker pass, no marker is left. */
  lemma UnmarkedAtEnd(front: seq<Rule>, s: string)
    ensures forall i: nat :: !IsAt(RewriteAll(front + [Unmark], s), SpaceMark, i)
  {
    var t := RewriteAll(front, s);
    var w := Rewrite(Unmark, t);
    RewriteAllAppend(front, [Unmark], s);
    assert RewriteAll([Unmark], t) == RewriteAll([], w);
    NoneLeft(Unmark, t, 0);
    forall i: nat ensures !IsAt(w, SpaceMark, i) {
      if i < |w| {
        assert MatchAt(Unmark, w, i).None?;
      }
    }
  }

  /** The last pass leaves no space marker behind, and trimming cannot make
      one appear. */
  lemma NoMarkerOut(s: string)
    ensures forall i: nat :: !IsAt(MinifyHtml(s), SpaceMark, i)
  {
    var front := LineRules + ([JoinLines] + InlineRules);
    assert Table == front + [Unmark];
    UnmarkedAtEnd(front, s);
    var w := RewriteAll(Table, s);
    var r := MinifyHtml(s);
    TrimSlice(w);
    var lo := TrimLo(w, 0);
    forall i: nat ensures !IsAt(r, SpaceMark, i) {
      IsAtSlice(w, lo, lo + |r|, SpaceMark, i);
    }
  }

  /** A tag that begins with a lower-case letter not repeated in it
      settles in one pass of the blanks-after rule. */
  lemma AfterTagSettles(tag: string)
    requires |tag| > 0 && 'a' <= tag[0] <= 'z' && tag[0] !in tag[1..]
    ensures SelfClean(WsAfter(tag))
  {
    forall c | c in SpaceMark ensures c != tag[0] {
      var k :| 0 <= k < |SpaceMark| && SpaceMark[k] == c;
    }
  }

  /** A tag with no blank and no `#` settles in one pass of the
      blanks-before rule. */
  lemma BeforeTagSettles(tag: string)
    requires |tag| > 0 && forall k :: 0 <= k < |tag| ==> '!' <= tag[k] && tag[k] != '#'
    ensures SelfClean(WsBefore(tag))
  {
    forall c | c in tag ensures !IsWs(c) && c != '#' {
      var k :| 0 <= k < |tag| && tag[k] == c;
    }
  }

  /** Passes 3 and 6 to 13 use rules that settle in one run: after one
      pass the rule matches nowhere, so a second pass of it changes nothing
      (`RuleFacts.NoneLeft`, `RuleFacts.Idempotent`). */
  lemma SettlingRules()
    ensures SelfClean(JoinLines) && SelfClean(Unmark)
    ensures SelfClean(WsAfter("span>")) && SelfClean(WsBefore("<span"))
    ensures SelfClean(WsAfter("button>")) && SelfClean(WsBefore("<button"))
    ensures SelfClean(BetweenTags) && SelfClean(QuoteThenClose) && SelfClean(EqualsThenQuote)
  {
    AfterTagSettles("span>");
    AfterTagSettles("button>");
    BeforeTagSettles("<span");
    BeforeTagSettles("<button");
    assert ' ' !in SpaceMark;
  }

  /** Passes 6 and 8 at a tag followed by blanks: the whole run of blanks
      (all of `\s`, newlines included) becomes one marker. */
  lemma BlanksAfterTagMarked(tag: string, s: string, p: nat)
    requires IsAt(s, tag, p) && p + |tag| < |s| && IsWs(s[p + |tag|])
    ensures Apply(WsAfter(tag), s, p) == tag + SpaceMark + Apply(WsAfter(tag), s, WsEnd(s, p + |tag|))
  {
    assert MatchAt(WsAfter(tag), s, p) == Some(Step(WsEnd(s, p + |tag|), tag + SpaceMark));
    ApplyStep(WsAfter(tag), s, p);
  }

  /** Passes 7 and 9 at a run of blanks followed by a tag: the run becomes
      one marker. */
  lemma BlanksBeforeTagMarked(tag: string, s: string, p: nat)
    requires p < |s| && IsWs(s[p]) && IsAt(s, tag, WsEnd(s, p))
    ensures Apply(WsBefore(tag), s, p) == SpaceMark + tag + Apply(WsBefore(tag), s, WsEnd(s, p) + |tag|)
  {
    assert MatchAt(WsBefore(tag), s, p) == Some(Step(WsEnd(s, p) + |tag|, SpaceMark + tag));
    ApplyMatch(WsBefore(tag), s, p, WsEnd(s, p) + |tag|, SpaceMark + tag);
  }

  /** Pass 10 at `>`, blanks, `<`: the blanks are dropped. */
  lemma BlanksBetweenTagsDropped(s: string, p: nat)
    requires p + 1 < |s| && s[p] == '>' && IsWs(s[p + 1])
    requires WsEnd(s, p + 1) < |s| && s[WsEnd(s, p + 1)] == '<'
    ensures Apply(BetweenTags, s, p) == "><" + Apply(BetweenTags, s, WsEnd(s, p + 1) + 1)
  {
    assert MatchAt(BetweenTags, s, p) == Some(Step(WsEnd(s, p + 1) + 1, "><"));
    ApplyStep(BetweenTags, s, p);
  }

  /** Pass 11 at a quote, blanks, `>`: the blanks are dropped and the quote
      kept. */
  lemma BlanksBeforeCloseDropped(s: string, p: nat)
    requires p + 1 < |s| && IsQuote(s[p]) && IsWs(s[p + 1])
    requires WsEnd(s, p + 1) < |s| && s[WsEnd(s, p + 1)] == '>'
    ensures Apply(QuoteThenClose, s, p) == [s[p], '>'] + Apply(QuoteThenClose, s, WsEnd(s, p + 1) + 1)
  {
    assert MatchAt(QuoteThenClose, s, p) == Some(Step(WsEnd(s, p + 1) + 1, [s[p], '>']));
    ApplyStep(QuoteThenClose, s, p);
  }

  /** Pass 12 at `=`, blanks, a quote: the blanks are dropped and the quote
      kept. */
  lemma BlanksAfterEqualsDropped(s: string, p: nat)
    requires p + 1 < |s| && s[p] == '=' && IsWs(s[p + 1])
    requires WsEnd(s, p + 1) < |s| && IsQuote(s[WsEnd(s, p + 1)])
    ensures Apply(EqualsThenQuote, s, p) == ['=', s[WsEnd(s, p + 1)]] + Apply(EqualsThenQuote, s, WsEnd(s, p + 1) + 1)
  {
    assert MatchAt(EqualsThenQuote, s, p) == Some(Step(WsEnd(s, p + 1) + 1, ['=', s[WsEnd(s, p + 1)]]));
    ApplyStep(EqualsThenQuote, s, p);
  }

  /** A marker shields the blank it stands for from passes 10 to 12: a
      tag's `>` followed by a marker starts no match of pass 10. */
  lemma MarkerShields(s: string, p: nat)
    requires p < |s| && IsAt(s, SpaceMark, p + 1)
    ensures MatchAt(BetweenTags, s, p).None?
  {
    assert s[p + 1] == SpaceMark[0];
  }

  /** Pass 13 at a marker: it becomes exactly one space. */
  lemma MarkerBecomesSpace(s: string, p: nat)
    requires IsAt(s, SpaceMark, p)
    ensures Apply(Unmark, s, p) == " " + Apply(Unmark, s, p + |SpaceMark|)
  {
    ApplyStep(Unmark, s, p);
  }

  /** The blank pass turns each tab into its own space, so two tabs become
      two spaces, which a second pass would merge. */
  lemma TabsBecomeSpaces()
    ensures Rewrite(HorizontalSpace, "\t\t") == "  "
    ensures Rewrite(HorizontalSpace, "  ") == " "
  {
    var tabs := "\t\t";
    ApplyStep(HorizontalSpace, tabs, 0);
    ApplyStep(HorizontalSpace, tabs, 1);
    var spaces := "  ";
    assert SpaceEnd(spaces, 0) == 2;
    ApplyStep(HorizontalSpace, spaces, 0);
  }

  /** The indentation pass removes one tab only. */
  lemma OneTabPerLine(rest: string)
    ensures Rewrite(LineIndent, "\n\t\t" + rest) == "\n\t" + Apply(LineIndent, "\n\t\t" + rest, 3)
  {
    var s := "\n\t\t" + rest;
    ApplyStep(LineIndent, s, 0);
    ApplyStep(LineIndent, s, 2);
  }

  /** The comment pass consumes the newline that ends a `//` line, so the
      `//` line right after it no longer follows a newline and is kept. */
  lemma CommentLinesAlternate(a: string, b: string)
    requires '\n' !in a
    ensures Rewrite(CommentLine, "\n//" + (a + ("\n//" + b)))
         == "\n//" + Apply(CommentLine, "\n//" + (a + ("\n//" + b)), |a| + 6)
  {
    var s := "\n//" + (a + ("\n//" + b));
    var n := |a|;
    FirstCommentLine(s, a, b);
    ApplyStep(CommentLine, s, 0);
    ApplyStep(CommentLine, s, n + 4);
    ApplyStep(CommentLine, s, n + 5);
    SlashesGlue(Apply(CommentLine, s, 0), Apply(CommentLine, s, n + 4), Apply(CommentLine, s, n + 5),
      Apply(CommentLine, s, n + 6));
  }

  /** A newline, then two slashes copied one at a time. */
  lemma SlashesGlue(out: string, mid: string, next: string, rest: string)
    requires out == "\n" + mid && mid == "/" + next && next == "/" + rest
    ensures out == "\n//" + rest
  {
  }

  /** The first of two `//` lines is matched up to and including the
      newline that ends it. */
  lemma FirstCommentLine(s: string, a: string, b: string)
    requires '\n' !in a && s == "\n//" + (a + ("\n//" + b))
    ensures MatchAt(CommentLine, s, 0) == Some(Step(|a| + 4, "\n"))
    ensures s[|a| + 4] == '/' && s[|a| + 5] == '/'
    ensures MatchAt(CommentLine, s, |a| + 4).None? && MatchAt(CommentLine, s, |a| + 5).None?
  {
    var n := |a|;
    assert s[0] == '\n' && s[1..3] == "//";
    assert s[n + 3] == '\n' && s[n + 4] == '/' && s[n + 5] == '/';
    assert forall k :: 3 <= k < n + 3 ==> s[k] == a[k - 3];
    assert LineEnd(s, 3) == n + 4;
  }
}
