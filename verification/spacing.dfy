/** What the thirteen passes and the trim do, taken together, to a run of
    blanks between two stretches of text that hold no blank: dropped
    between two ordinary tags, kept as one space next to a span tag or
    between two words, and never merged when it came from tabs. */
module Spacing {
  import opened Text
  import opened Patterns
  import opened RuleFacts
  import opened Compactor

  /** Passes 1 to 4: the line passes, the newline pass, HTML comments. */
  const Front: seq<Rule> := LineRules + [JoinLines, HtmlComment]

  /** Passes 10 to 12. */
  const Closing: seq<Rule> := [BetweenTags, QuoteThenClose, EqualsThenQuote]

  /** Passes 6 to 13 and the trim. */
  function Later(t: string): string {
    Trim(Rewrite(Unmark, RewriteAll(Closing, RewriteAll(TagRules, t))))
  }

  lemma Single(rule: Rule, s: string)
    ensures RewriteAll([rule], s) == Rewrite(rule, s)
  {
    assert [rule][1..] == [];
  }

  /** The compaction cut where the blank pass (pass 5) sits. */
  lemma Stages(s: string)
    ensures MinifyHtml(s) == Later(Rewrite(HorizontalSpace, RewriteAll(Front, s)))
  {
    var t := RewriteAll(Front, s);
    var u := Rewrite(HorizontalSpace, t);
    assert Table == Front + ([HorizontalSpace] + (TagRules + (Closing + [Unmark])));
    RewriteAllAppend(Front, [HorizontalSpace] + (TagRules + (Closing + [Unmark])), s);
    RewriteAllAppend([HorizontalSpace], TagRules + (Closing + [Unmark]), t);
    Single(HorizontalSpace, t);
    RewriteAllAppend(TagRules, Closing + [Unmark], u);
    RewriteAllAppend(Closing, [Unmark], RewriteAll(TagRules, u));
    Single(Unmark, RewriteAll(Closing, RewriteAll(TagRules, u)));
  }

  /** Text that gives no pass a foothold: no blank, no character `trim`
      removes, no `!`, no `#`. */
  predicate Plain(t: string) {
    forall k :: 0 <= k < |t| ==> !IsWs(t[k]) && !IsTrimmed(t[k]) && t[k] != '!' && t[k] != '#'
  }

  /** A run of one or more spaces. */
  predicate Spaces(ws: string) {
    |ws| > 0 && forall k :: 0 <= k < |ws| ==> ws[k] == ' '
  }

  predicate EndsWith(a: string, t: string) {
    |t| <= |a| && a[|a| - |t|..] == t
  }

  /** A page without newline or `!` that does not start with a blank or a
      `/`: passes 1 to 4 find nothing in it. */
  predicate OneLine(s: string) {
    && (forall k :: 0 <= k < |s| ==> s[k] != '\n' && s[k] != '!')
    && (|s| > 0 ==> s[0] != ' ' && s[0] != '\t' && s[0] != '/')
  }

  lemma LineRulesIdle(s: string)
    requires OneLine(s)
    ensures Clean(LineIndent, s) && Clean(CommentLine, s) && Clean(Newline, s)
  {
    forall i | 0 <= i < |s| ensures MatchAt(CommentLine, s, i).None? {
      assert i == 0 ==> s[0] != '/';
    }
  }

  lemma CommentIdle(s: string)
    requires OneLine(s)
    ensures Clean(HtmlComment, s)
  {
    Silent(HtmlComment, s, 0, 0);
  }

  /** Passes 1 to 4 leave a one-line page without comments as it is. */
  lemma FrontKeeps(s: string)
    requires OneLine(s)
    ensures RewriteAll(Front, s) == s
  {
    LineRulesIdle(s);
    CommentIdle(s);
    assert Front == [LineIndent, CommentLine, Newline, HtmlComment];
    RewriteAllClean(Front, s);
  }

  /** A page with no blank, no `!`, no leading `/` and no space marker
      comes out of the compaction unchanged. */
  lemma UnmarkedKept(t: string)
    requires forall k :: 0 <= k < |t| ==> !IsWs(t[k]) && !IsTrimmed(t[k]) && t[k] != '!'
    requires |t| > 0 ==> t[0] != '/'
    requires forall i :: !IsAt(t, SpaceMark, i)
    ensures MinifyHtml(t) == t
  {
    forall rule | rule in Table ensures Clean(rule, t) {
      if rule == Unmark {
        assert Clean(Unmark, t);
      } else {
        Silent(rule, t, 0, 0);
      }
    }
    RewriteAllClean(Table, t);
    TrimKeeps(t);
  }

  /** Pass 5 on one run of spaces: it becomes a single space. */
  lemma SpacesShrink(a: string, ws: string, b: string)
    requires Plain(a) && Plain(b) && Spaces(ws)
    ensures Rewrite(HorizontalSpace, a + ws + b) == a + " " + b
  {
    var s := a + ws + b;
    assert SpaceEnd(s, |a|) == |a| + |ws| by {
      assert |a| + |ws| == |s| || s[|a| + |ws|] != ' ';
    }
    Pass(HorizontalSpace, s, |a|, |a| + |ws|, " ");
    assert s[..|a|] == a && s[|a| + |ws|..] == b;
  }

  /** Outside the two tabs, pass 5 finds nothing. */
  lemma TabsAlone(a: string, b: string)
    requires Plain(a) && Plain(b)
    ensures forall i :: 0 <= i < |a| + 2 + |b| && (i < |a| || |a| + 2 <= i) ==>
      MatchAt(HorizontalSpace, a + "\t\t" + b, i).None?
  {
    var s := a + "\t\t" + b;
    forall i | 0 <= i < |s| && (i < |a| || |a| + 2 <= i) ensures MatchAt(HorizontalSpace, s, i).None? {
      if i < |a| { assert s[i] == a[i]; } else { assert s[i] == b[i - |a| - 2]; }
    }
  }

  /** From the first tab on, pass 5 writes one space per tab. */
  lemma TabsEach(a: string, b: string)
    requires Plain(a) && Plain(b)
    ensures Apply(HorizontalSpace, a + "\t\t" + b, |a|) == "  " + b
  {
    var s := a + "\t\t" + b;
    assert s[|a|] == '\t' && s[|a| + 1] == '\t' && s[|a| + 2..] == b;
    TabsAlone(a, b);
    TwoTabs(s, |a|);
  }

  /** Two tabs with nothing for pass 5 after them become two spaces. */
  lemma TwoTabs(s: string, p: nat)
    requires p + 2 <= |s| && s[p] == '\t' && s[p + 1] == '\t'
    requires forall i :: p + 2 <= i < |s| ==> MatchAt(HorizontalSpace, s, i).None?
    ensures Apply(HorizontalSpace, s, p) == "  " + s[p + 2..]
  {
    TabStep(s, p);
    TabStep(s, p + 1);
    ApplyNoMatch(HorizontalSpace, s, p + 2);
  }

  /** Pass 5 turns a tab into one space and goes on after it. */
  lemma TabStep(s: string, p: nat)
    requires p < |s| && s[p] == '\t'
    ensures Apply(HorizontalSpace, s, p) == " " + Apply(HorizontalSpace, s, p + 1)
  {
    ApplyStep(HorizontalSpace, s, p);
  }

  /** Pass 5 on two tabs: each one becomes its own space. */
  lemma TabsShrink(a: string, b: string)
    requires Plain(a) && Plain(b)
    ensures Rewrite(HorizontalSpace, a + "\t\t" + b) == a + "  " + b
  {
    var s := a + "\t\t" + b;
    TabsAlone(a, b);
    CopyUntil(HorizontalSpace, s, 0, |a|);
    TabsEach(a, b);
    assert s[0..|a|] == a;
    TabsGlue(Apply(HorizontalSpace, s, 0), a, Apply(HorizontalSpace, s, |a|), b);
  }

  /** The copied text, then the two spaces and the rest. */
  lemma TabsGlue(out: string, a: string, mid: string, b: string)
    requires out == a + mid && mid == "  " + b
    ensures out == a + "  " + b
  {
  }

  // Blanks between two ordinary tags.

  lemma AfterIdle(tag: string, a: string, b: string)
    requires Plain(a) && Plain(b) && !EndsWith(a, tag)
    ensures Clean(WsAfter(tag), a + " " + b)
  {
    var t := a + " " + b;
    forall i | 0 <= i < |t| && |a| <= i + |tag| < |a| + 1 ensures MatchAt(WsAfter(tag), t, i).None? {
    }
    Silent(WsAfter(tag), t, |a|, |a| + 1);
  }

  lemma BeforeIdle(tag: string, a: string, b: string)
    requires Plain(a) && Plain(b) && !IsAt(b, tag, 0)
    ensures Clean(WsBefore(tag), a + " " + b)
  {
    var t := a + " " + b;
    assert WsEnd(t, |a|) == |a| + 1 by {
      assert |a| + 1 == |t| || !IsWs(t[|a| + 1]);
    }
    IsAtShift(a + " ", b, tag, 0);
    assert t == (a + " ") + b;
    Silent(WsBefore(tag), t, |a|, |a| + 1);
  }

  /** Passes 6 to 9 leave a space alone that is not next to a span or
      button tag. */
  lemma TagsIdle(a: string, b: string)
    requires Plain(a) && Plain(b)
    requires !EndsWith(a, "span>") && !EndsWith(a, "button>")
    requires !IsAt(b, "<span", 0) && !IsAt(b, "<button", 0)
    ensures RewriteAll(TagRules, a + " " + b) == a + " " + b
  {
    AfterIdle("span>", a, b);
    AfterIdle("button>", a, b);
    BeforeIdle("<span", a, b);
    BeforeIdle("<button", a, b);
    RewriteAllClean(TagRules, a + " " + b);
  }

  /** Pass 10 drops a space between `>` and `<`. */
  lemma TagsJoin(a: string, b: string)
    requires Plain(a) && Plain(b)
    requires |a| > 0 && a[|a| - 1] == '>' && |b| > 0 && b[0] == '<'
    ensures Rewrite(BetweenTags, a + " " + b) == a + b
  {
    var t := a + " " + b;
    assert WsEnd(t, |a|) == |a| + 1 by {
      assert !IsWs(t[|a| + 1]);
    }
    assert MatchAt(BetweenTags, t, |a| - 1) == Some(Step(|a| + 2, "><"));
    Pass(BetweenTags, t, |a| - 1, |a| + 2, "><");
    assert t[..|a| - 1] + "><" + t[|a| + 2..] == a + b;
  }

  lemma ClosedUp(a: string, b: string)
    requires Plain(a) && Plain(b)
    requires |a| > 0 && a[|a| - 1] == '>' && |b| > 0 && b[0] == '<'
    ensures RewriteAll(Closing, a + " " + b) == a + b
  {
    TagsJoin(a, b);
    var u := a + b;
    Silent(QuoteThenClose, u, 0, 0);
    Silent(EqualsThenQuote, u, 0, 0);
    RewriteAllClean([QuoteThenClose, EqualsThenQuote], u);
    assert Closing[1..] == [QuoteThenClose, EqualsThenQuote];
  }

  lemma TagGapLater(a: string, b: string)
    requires Plain(a) && Plain(b)
    requires |a| > 0 && a[|a| - 1] == '>' && |b| > 0 && b[0] == '<'
    requires !EndsWith(a, "span>") && !EndsWith(a, "button>")
    requires !IsAt(b, "<span", 0) && !IsAt(b, "<button", 0)
    ensures Later(a + " " + b) == a + b
  {
    TagsIdle(a, b);
    ClosedUp(a, b);
    Silent(Unmark, a + b, 0, 0);
    ApplyNoMatch(Unmark, a + b, 0);
    TrimKeeps(a + b);
  }

  /** Spaces between a tag's `>` and the next `<` disappear, unless one of
      the two is a span or button tag. */
  lemma BlanksBetweenTagsVanish(a: string, ws: string, b: string)
    requires Plain(a) && Plain(b) && Spaces(ws)
    requires |a| > 0 && a[0] != '/' && a[|a| - 1] == '>' && |b| > 0 && b[0] == '<'
    requires !EndsWith(a, "span>") && !EndsWith(a, "button>")
    requires !IsAt(b, "<span", 0) && !IsAt(b, "<button", 0)
    ensures MinifyHtml(a + ws + b) == a + b
  {
    var s := a + ws + b;
    assert OneLine(s);
    FrontKeeps(s);
    SpacesShrink(a, ws, b);
    Stages(s);
    TagGapLater(a, b);
  }

  // Blanks after a span tag.

  /** Pass 6 turns the space after a span tag into a marker. */
  lemma MarkAfterSpan(a: string, b: string)
    requires Plain(a) && Plain(b) && EndsWith(a, "span>")
    ensures Rewrite(WsAfter("span>"), a + " " + b) == a + SpaceMark + b
  {
    var t := a + " " + b;
    assert t[|a| - 5..|a|] == a[|a| - 5..];
    assert WsEnd(t, |a|) == |a| + 1 by {
      assert |a| + 1 == |t| || !IsWs(t[|a| + 1]);
    }
    Pass(WsAfter("span>"), t, |a| - 5, |a| + 1, "span>" + SpaceMark);
    assert t[..|a| - 5] + ("span>" + SpaceMark) + t[|a| + 1..] == a + SpaceMark + b;
  }

  /** Pass 13 turns the marker back into a space. */
  lemma MarkerBack(a: string, b: string)
    requires Plain(a) && Plain(b)
    ensures Rewrite(Unmark, a + SpaceMark + b) == a + " " + b
  {
    var v := a + SpaceMark + b;
    assert v[|a|..|a| + 9] == SpaceMark;
    Pass(Unmark, v, |a|, |a| + 9, " ");
    assert v[..|a|] == a && v[|a| + 9..] == b;
  }

  predicate Blankless(v: string) {
    forall k :: 0 <= k < |v| ==> !IsWs(v[k])
  }

  lemma BlanklessClean(rule: Rule, v: string)
    requires Blankless(v) && !rule.Literal? && !rule.HtmlComment? && !rule.CommentLine?
    ensures Clean(rule, v)
  {
    Silent(rule, v, 0, 0);
  }

  lemma MarkedBlankless(a: string, b: string)
    requires Plain(a) && Plain(b)
    ensures Blankless(a + SpaceMark + b)
  {
    var v := a + SpaceMark + b;
    forall k | 0 <= k < |v| ensures !IsWs(v[k]) {
      if |a| <= k < |a| + 9 { assert v[k] == SpaceMark[k - |a|]; }
    }
  }

  /** Passes 7 to 12 find nothing once the blank has become a marker. */
  lemma MarkedIdle(a: string, b: string)
    requires Plain(a) && Plain(b)
    ensures RewriteAll(TagRules[1..], a + SpaceMark + b) == a + SpaceMark + b
    ensures RewriteAll(Closing, a + SpaceMark + b) == a + SpaceMark + b
  {
    var v := a + SpaceMark + b;
    MarkedBlankless(a, b);
    BlanklessClean(WsBefore("<span"), v);
    BlanklessClean(WsAfter("button>"), v);
    BlanklessClean(WsBefore("<button"), v);
    assert TagRules[1..] == [WsBefore("<span"), WsAfter("button>"), WsBefore("<button")];
    RewriteAllClean(TagRules[1..], v);
    BlanklessClean(BetweenTags, v);
    BlanklessClean(QuoteThenClose, v);
    BlanklessClean(EqualsThenQuote, v);
    RewriteAllClean(Closing, v);
  }

  lemma SpanLater(a: string, b: string)
    requires Plain(a) && Plain(b) && EndsWith(a, "span>") && |b| > 0
    ensures Later(a + " " + b) == a + " " + b
  {
    MarkAfterSpan(a, b);
    MarkedIdle(a, b);
    MarkerBack(a, b);
    TrimKeeps(a + " " + b);
  }

  /** Spaces after `span>`, the end of an opening or a closing span tag,
      survive as one space, even before another tag, as long as text follows
      them. */
  lemma BlankAfterSpanKept(a: string, ws: string, b: string)
    requires Plain(a) && Plain(b) && Spaces(ws)
    requires EndsWith(a, "span>") && a[0] != '/' && |b| > 0
    ensures MinifyHtml(a + ws + b) == a + " " + b
  {
    var s := a + ws + b;
    assert OneLine(s);
    FrontKeeps(s);
    SpacesShrink(a, ws, b);
    Stages(s);
    SpanLater(a, b);
  }

  // Blanks between words.

  /** `a`, a run of spaces, `b`, where nothing next to the run is a
      character a pass looks for: not `>`, a quote or `=` before it, not
      `<` after it. */
  predicate Words(a: string, ws: string, b: string) {
    && Plain(a) && Plain(b) && Spaces(ws) && |a| > 0 && |b| > 0
    && a[|a| - 1] != '>' && !IsQuote(a[|a| - 1]) && a[|a| - 1] != '=' && b[0] != '<'
  }

  lemma WordsRunEnd(a: string, ws: string, b: string, i: nat)
    requires Words(a, ws, b) && |a| <= i < |a| + |ws|
    ensures WsEnd(a + ws + b, i) == |a| + |ws|
  {
    var t := a + ws + b;
    assert !IsWs(t[|a| + |ws|]);
  }

  lemma WordsAfterIdle(tag: string, a: string, ws: string, b: string)
    requires Words(a, ws, b) && |tag| > 0 && tag[|tag| - 1] == '>'
    ensures Clean(WsAfter(tag), a + ws + b)
  {
    var t := a + ws + b;
    forall i | 0 <= i < |t| && |a| <= i + |tag| < |a| + |ws| ensures MatchAt(WsAfter(tag), t, i).None? {
    }
    Silent(WsAfter(tag), t, |a|, |a| + |ws|);
  }

  lemma WordsBeforeIdle(tag: string, a: string, ws: string, b: string)
    requires Words(a, ws, b) && |tag| > 0 && tag[0] == '<'
    ensures Clean(WsBefore(tag), a + ws + b)
  {
    var t := a + ws + b;
    forall i | 0 <= i < |t| && |a| <= i < |a| + |ws| ensures MatchAt(WsBefore(tag), t, i).None? {
      WordsRunEnd(a, ws, b, i);
      if IsAt(t, tag, |a| + |ws|) {
        assert t[|a| + |ws|..|a| + |ws| + |tag|][0] == '<';
      }
    }
    Silent(WsBefore(tag), t, |a|, |a| + |ws|);
  }

  lemma WordsTagsIdle(a: string, ws: string, b: string)
    requires Words(a, ws, b)
    ensures RewriteAll(TagRules, a + ws + b) == a + ws + b
  {
    WordsAfterIdle("span>", a, ws, b);
    WordsBeforeIdle("<span", a, ws, b);
    WordsAfterIdle("button>", a, ws, b);
    WordsBeforeIdle("<button", a, ws, b);
    RewriteAllClean(TagRules, a + ws + b);
  }

  lemma WordsClosingIdle(a: string, ws: string, b: string)
    requires Words(a, ws, b)
    ensures RewriteAll(Closing, a + ws + b) == a + ws + b
  {
    var t := a + ws + b;
    assert forall i :: |a| - 1 <= i < |a| + |ws| - 1 ==> t[i] != '>' && !IsQuote(t[i]) && t[i] != '=';
    Silent(BetweenTags, t, |a|, |a| + |ws|);
    Silent(QuoteThenClose, t, |a|, |a| + |ws|);
    Silent(EqualsThenQuote, t, |a|, |a| + |ws|);
    RewriteAllClean(Closing, t);
  }

  /** Passes 6 to 13 and the trim leave any run of spaces between words
      alone: only pass 5 shortens it. */
  lemma WordsLater(a: string, ws: string, b: string)
    requires Words(a, ws, b)
    ensures Later(a + ws + b) == a + ws + b
  {
    var t := a + ws + b;
    WordsTagsIdle(a, ws, b);
    WordsClosingIdle(a, ws, b);
    Silent(Unmark, t, 0, 0);
    ApplyNoMatch(Unmark, t, 0);
    TrimKeeps(t);
  }

  /** Spaces between two words become one space. */
  lemma WordsKeepOneSpace(a: string, ws: string, b: string)
    requires Words(a, ws, b) && a[0] != '/'
    ensures MinifyHtml(a + ws + b) == a + " " + b
  {
    var s := a + ws + b;
    assert OneLine(s);
    FrontKeeps(s);
    SpacesShrink(a, ws, b);
    Stages(s);
    WordsLater(a, " ", b);
  }

  /** Two tabs between two words become two spaces, which no later pass
      merges. */
  lemma TabsBecomeTwoSpaces(a: string, b: string)
    requires Words(a, "  ", b) && a[0] != '/'
    ensures MinifyHtml(a + "\t\t" + b) == a + "  " + b
  {
    var s := a + "\t\t" + b;
    assert OneLine(s);
    FrontKeeps(s);
    TabsShrink(a, b);
    Stages(s);
    WordsLater(a, "  ", b);
  }

  // Whole pages.

  /** Markup made of lower-case letters and tag brackets is plain. */
  lemma TagText(t: string)
    requires forall k :: 0 <= k < |t| ==> 'a' <= t[k] <= 'z' || t[k] == '<' || t[k] == '/' || t[k] == '>'
    ensures Plain(t)
  {
  }

  /** The blank between two span elements is kept. */
  lemma SpanExample()
    ensures MinifyHtml("<span>hello</span> <span>world</span>") == "<span>hello</span> <span>world</span>"
  {
    SpanParts();
    BlankAfterSpanKept("<span>hello</span>", " ", "<span>world</span>");
    assert "<span>hello</span>" + " " + "<span>world</span>" == "<span>hello</span> <span>world</span>";
  }

  /** What the span example needs of its two halves. */
  lemma SpanParts()
    ensures Plain("<span>hello</span>") && Plain("<span>world</span>") && Spaces(" ")
    ensures EndsWith("<span>hello</span>", "span>")
  {
    TagText("<span>hello</span>");
    TagText("<span>world</span>");
    assert "<span>hello</span>"[13..] == "span>";
  }

  /** The blanks inside an empty div are dropped. */
  lemma DivExample()
    ensures MinifyHtml("<div>  </div>") == "<div></div>"
  {
    DivParts();
    BlanksBetweenTagsVanish("<div>", "  ", "</div>");
    assert "<div>" + "  " + "</div>" == "<div>  </div>";
    assert "<div>" + "</div>" == "<div></div>";
  }

  /** What the div example needs of its two halves. */
  lemma DivParts()
    ensures Plain("<div>") && Plain("</div>") && Spaces("  ")
    ensures !EndsWith("<div>", "span>") && !EndsWith("<div>", "button>")
    ensures !IsAt("</div>", "<span", 0) && !IsAt("</div>", "<button", 0)
  {
    TagText("<div>");
    TagText("</div>");
    assert "<div>"[0] != "span>"[0];
    assert "</div>"[..5][1] != "<span"[1];
  }

  /** The compaction is not idempotent: two tabs come out as two spaces,
      and compacting again merges them. */
  lemma NotIdempotent()
    ensures MinifyHtml("a\t\tb") == "a  b"
    ensures MinifyHtml(MinifyHtml("a\t\tb")) == "a b"
  {
    assert Plain("a") && Plain("b");
    assert Words("a", "  ", "b");
    assert "a" + "\t\t" + "b" == "a\t\tb";
    TabsBecomeTwoSpaces("a", "b");
    assert "a" + "  " + "b" == "a  b";
    WordsKeepOneSpace("a", "  ", "b");
  }

  /** Passes 1 to 3 on a comment split over two lines: the line break
      becomes a space. */
  lemma CommentJoined()
    ensures RewriteAll(LineRules + [JoinLines], "<!--\n-->") == "<!-- -->"
  {
    var s := "<!--\n-->";
    CommentLinesIdle();
    RewriteAllClean(LineRules, s);
    CommentBreakJoined();
    RewriteAllAppend(LineRules, [JoinLines], s);
    Single(JoinLines, s);
  }

  /** Passes 1 and 2 find nothing in that comment. */
  lemma CommentLinesIdle()
    ensures Clean(LineIndent, "<!--\n-->") && Clean(CommentLine, "<!--\n-->")
  {
    var s := "<!--\n-->";
    OnlyBreak(s);
    Silent(LineIndent, s, 4, 5);
    Silent(CommentLine, s, 4, 5);
  }

  /** That comment's one newline starts no match of passes 1 and 2. */
  lemma OnlyBreak(s: string)
    requires s == "<!--\n-->"
    ensures forall j :: 0 <= j < |s| && s[j] == '\n' ==> j == 4
    ensures s[0] != '/' && MatchAt(LineIndent, s, 4).None? && MatchAt(CommentLine, s, 4).None?
  {
    assert s[5..7][0] != "//"[0];
  }

  /** Pass 3 on that comment. */
  lemma CommentBreakJoined()
    ensures Rewrite(Newline, "<!--\n-->") == "<!-- -->"
  {
    var s := "<!--\n-->";
    Pass(Newline, s, 4, 5, " ");
    assert s[..4] + " " + s[5..] == "<!-- -->";
  }

  /** Pass 4 removes the comment once it is on one line. */
  lemma CommentGone()
    ensures Rewrite(HtmlComment, "<!-- -->") == ""
  {
    var u := "<!-- -->";
    assert u[4..7][0] != "-->"[0];
    assert u[5..8] == "-->";
    assert Find(u, "-->", 4) == Some(5);
    Pass(HtmlComment, u, 0, 8, "");
  }

  /** An HTML comment over two lines is removed: pass 3 joins the lines
      before pass 4 looks for comments. */
  lemma CommentOverTwoLines()
    ensures MinifyHtml("<!--\n-->") == ""
  {
    var s := "<!--\n-->";
    CommentJoined();
    CommentGone();
    RewriteAllAppend(LineRules + [JoinLines], [HtmlComment], s);
    assert Front == (LineRules + [JoinLines]) + [HtmlComment];
    Single(HtmlComment, "<!-- -->");
    Stages(s);
    RewriteAllClean(TagRules, "");
    RewriteAllClean(Closing, "");
  }

  /** Text that may stand inside a one-line comment: no blank, no `!` and
      no `-`. */
  predicate Inert(m: string) {
    forall k :: 0 <= k < |m| ==> !IsWs(m[k]) && m[k] != '!' && m[k] != '-'
  }

  /** The characters of a one-line comment around such text: no blank, and
      its one `!` second. */
  lemma CommentChars(m: string)
    requires Inert(m)
    ensures var c := "<!--" + m + "-->";
      forall k :: 0 <= k < |c| ==> !IsWs(c[k]) && (c[k] == '!' ==> k == 1)
  {
    var c := "<!--" + m + "-->";
    forall k | 0 <= k < |c| ensures !IsWs(c[k]) && (c[k] == '!' ==> k == 1) {
      if k < 4 {
        assert c[k] == "<!--"[k];
      } else if k < 4 + |m| {
        assert c[k] == m[k - 4];
      } else {
        assert c[k] == "-->"[k - 4 - |m|];
      }
    }
  }

  /** Pass 4 finds the comment whole: its end is the first `-->`. */
  lemma CommentMatch(g: string, m: string)
    requires Inert(m)
    ensures var s := g + "<!--" + m + "-->";
      MatchAt(HtmlComment, s, |g|) == Some(Step(|s|, ""))
  {
    var s := g + "<!--" + m + "-->";
    var b, e := |g| + 4, |g| + 4 + |m|;
    assert s[|g|..b] == "<!--" && s[b..e] == m && s[e..|s|] == "-->";
    forall j | b <= j < e ensures !IsAt(s, "-->", j) && s[j] != '\n' {
      assert s[j] == m[j - b];
      CharDiffers(s, "-->", j, 0);
    }
    FindFirst(s, "-->", b, e);
  }

  /** Passes 1 to 4 on a text followed by a one-line comment: only the
      text is left. */
  lemma CommentFront(g: string, m: string)
    requires Plain(g) && (|g| > 0 ==> g[0] != '/') && Inert(m)
    ensures RewriteAll(Front, g + "<!--" + m + "-->") == g
  {
    var c := "<!--" + m + "-->";
    var s := g + c;
    assert s == g + "<!--" + m + "-->";
    CommentChars(m);
    forall j | 0 <= j < |s| ensures !IsWs(s[j]) && (s[j] == '!' ==> j == |g| + 1) {
      if j < |g| { assert s[j] == g[j]; } else { assert s[j] == c[j - |g|]; }
    }
    assert |s| > 0 ==> s[0] != '/' by {
      if |g| == 0 { assert s[0] == c[0]; }
    }
    Silent(LineIndent, s, 0, 0);
    Silent(CommentLine, s, 0, 0);
    Silent(Newline, s, 0, 0);
    RewriteAllClean(LineRules + [JoinLines], s);
    assert Front == (LineRules + [JoinLines]) + [HtmlComment];
    RewriteAllAppend(LineRules + [JoinLines], [HtmlComment], s);
    Single(HtmlComment, s);
    CommentMatch(g, m);
    Pass(HtmlComment, s, |g|, |s|, "");
    assert s[..|g|] == g;
  }

  /** A one-line comment at the end of the page is removed with
      everything inside it, and the text before it is kept. */
  lemma CommentTakesAll(g: string, m: string)
    requires Plain(g) && (|g| > 0 ==> g[0] != '/') && Inert(m)
    ensures MinifyHtml(g + "<!--" + m + "-->") == g
  {
    var s := g + "<!--" + m + "-->";
    var rest := [HorizontalSpace] + (TagRules + (Closing + [Unmark]));
    assert Table == Front + rest;
    CommentFront(g, m);
    FrontKeeps(g);
    RewriteAllAppend(Front, rest, s);
    RewriteAllAppend(Front, rest, g);
    forall i ensures !IsAt(g, SpaceMark, i) {
      MissingChar(g, SpaceMark, i, 0);
    }
    UnmarkedKept(g);
  }
}
