/** The response listener's rewrite of an HTML body: strip the default type
    attributes, pull the bare inline scripts out, hand their concatenation
    to the JavaScript minifier, compact the page, and put the minified
    script back where the first one was. The JavaScript minifier is a
    parameter: any function from text to text. */
module Pipeline {
  import opened Text
  import opened Patterns
  import opened RuleFacts
  import SourceTypes
  import Extraction
  import Compactor
  import Spacing

  /** The replacement that puts the minified script back: every placeholder
      becomes one script element holding it (`str_replace`). */
  function Restore(js: string): Rule {
    Literal(Extraction.Placeholder, Extraction.ScriptOpen + js + Extraction.ScriptClose)
  }

  /** The whole rewrite of a response body. */
  function Minify(content: string, jsmin: string -> string): string {
    var typed := SourceTypes.MinifySourceTypes(content);
    var parts := Extraction.Extract(typed);
    Rewrite(Restore(jsmin(parts.scripts)), Compactor.MinifyHtml(parts.doc))
  }

  /** The listener's steps on the body, in order, each one replacing the
      body it is given. */
  method MinifyResponse(content: string, jsmin: string -> string) returns (body: string)
    ensures body == Minify(content, jsmin)
  {
    body := SourceTypes.MinifySourceTypes(content);
    var javascripts;
    body, javascripts := Extraction.ExtractCombinedInlineScripts(body);
    javascripts := jsmin(javascripts);
    body := Compactor.MinifyHtml(body);
    body := Rewrite(Restore(javascripts), body);
  }

  /** A pass of a literal replacement over a text that holds the pattern
      writes the replacement somewhere: the leftmost match is replaced, and
      everything before it is copied. */
  lemma {:induction false} ReplacementAppears(pat: string, rep: string, s: string, p: nat, i: nat) returns (k: nat)
    requires p <= i && |pat| > 0 && IsAt(s, pat, i)
    ensures IsAt(Apply(Literal(pat, rep), s, p), rep, k)
    decreases i - p
  {
    var rule := Literal(pat, rep);
    ApplyStep(rule, s, p);
    var out := Apply(rule, s, p);
    if IsAt(s, pat, p) {
      assert out == rep + Apply(rule, s, p + |pat|);
      assert out[0..|rep|] == rep;
      k := 0;
    } else {
      var tail := Apply(rule, s, p + 1);
      var j := ReplacementAppears(pat, rep, s, p + 1, i);
      assert out == [s[p]] + tail;
      assert out[j + 1..j + 1 + |rep|] == tail[j..j + |rep|];
      k := j + 1;
    }
  }

  /** If the compacted page still holds the placeholder, the result holds
      the minified combined script inside one script element. */
  lemma ScriptsPutBack(content: string, jsmin: string -> string, i: nat)
    requires IsAt(Compactor.MinifyHtml(Extraction.Extract(SourceTypes.MinifySourceTypes(content)).doc), Extraction.Placeholder, i)
    ensures exists k :: IsAt(Minify(content, jsmin),
      Extraction.ScriptOpen + jsmin(Extraction.Extract(SourceTypes.MinifySourceTypes(content)).scripts) + Extraction.ScriptClose, k)
  {
    var parts := Extraction.Extract(SourceTypes.MinifySourceTypes(content));
    var js := jsmin(parts.scripts);
    var rep := Extraction.ScriptOpen + js + Extraction.ScriptClose;
    var html := Compactor.MinifyHtml(parts.doc);
    var k := ReplacementAppears(Extraction.Placeholder, rep, html, 0, i);
    assert Minify(content, jsmin) == Apply(Literal(Extraction.Placeholder, rep), html, 0);
    assert IsAt(Minify(content, jsmin), rep, k);
  }

  /** The script that the listener hands to the minifier. */
  function Scripts(content: string): string {
    Extraction.Extract(SourceTypes.MinifySourceTypes(content)).scripts
  }

  /** Putting back a script that holds no placeholder is a self-cleaning
      replacement: the script element starts with `<` and ends with `>`,
      and the placeholder holds neither, nor any letter of the tags. */
  lemma RestoreSelfClean(js: string)
    requires Extraction.Lacks(js, Extraction.Placeholder)
    ensures SelfClean(Restore(js))
  {
    var pat, open, close := Extraction.Placeholder, Extraction.ScriptOpen, Extraction.ScriptClose;
    var rep := open + js + close;
    assert forall k :: 0 <= k < |pat| ==> pat[k] == '#' || 'A' <= pat[k] <= 'Z';
    assert forall k :: 0 <= k < |open| ==> open[k] != '#' && !('A' <= open[k] <= 'Z');
    forall i | 0 <= i < |rep| ensures !IsAt(rep, pat, i) {
      if IsAt(rep, pat, i) {
        if i < |open| {
          OccurrenceCovers(rep, pat, i, i);
        } else if i + |pat| <= |open| + |js| {
          assert rep == open + (js + close);
          IsAtShift(open, js + close, pat, i - |open|);
          IsAtPrefix(js, close, pat, i - |open|);
        } else {
          OccurrenceCovers(rep, pat, i, |open| + |js|);
        }
      }
    }
  }

  /** When the minified script holds no placeholder, none is left in the
      result: the final replacement settles in one pass. */
  lemma NoPlaceholderLeft(content: string, jsmin: string -> string)
    requires Extraction.Lacks(jsmin(Scripts(content)), Extraction.Placeholder)
    ensures forall i: nat :: !IsAt(Minify(content, jsmin), Extraction.Placeholder, i)
  {
    var parts := Extraction.Extract(SourceTypes.MinifySourceTypes(content));
    var rule := Restore(jsmin(parts.scripts));
    var html := Compactor.MinifyHtml(parts.doc);
    RestoreSelfClean(jsmin(parts.scripts));
    NoneLeft(rule, html, 0);
    forall i: nat ensures !IsAt(Minify(content, jsmin), Extraction.Placeholder, i) {
      if i < |Minify(content, jsmin)| {
        assert MatchAt(rule, Minify(content, jsmin), i).None?;
      }
    }
  }

  /** A character absent from the page, the script and both tags is absent
      after the script is put back. */
  lemma RestoreAvoids(js: string, html: string, x: char)
    requires x !in html && x !in js && x !in Extraction.ScriptOpen && x !in Extraction.ScriptClose
    ensures x !in Rewrite(Restore(js), html)
  {
    ApplyChars(Restore(js), html, 0);
    assert html[0..] == html;
  }

  /** When the minified script holds no newline, the result is one line. */
  lemma SingleLine(content: string, jsmin: string -> string)
    requires '\n' !in jsmin(Scripts(content))
    ensures '\n' !in Minify(content, jsmin)
  {
    var parts := Extraction.Extract(SourceTypes.MinifySourceTypes(content));
    var js := jsmin(parts.scripts);
    var html := Compactor.MinifyHtml(parts.doc);
    assert '\n' !in html by { Compactor.NoNewlineOut(parts.doc); }
    RestoreAvoids(js, html, '\n');
  }

  /** No pass of the compaction writes a capital R. */
  lemma CompactionWritesNoR()
    ensures forall rule :: rule in Compactor.Table ==> 'R' !in Inserted(rule)
  {
    Compactor.InlineRulesAvoid('R');
  }

  /** A page without inline scripts is only compacted: with no bare script
      pair, nothing is extracted, and since the placeholder holds a capital
      R that no pass writes, a page without one cannot have gained a
      placeholder for the final replacement to find. */
  lemma NoScriptsOnlyCompacted(content: string, jsmin: string -> string)
    requires !Extraction.HasPair(SourceTypes.MinifySourceTypes(content))
    requires 'R' !in content
    ensures Minify(content, jsmin) == Compactor.MinifyHtml(SourceTypes.MinifySourceTypes(content))
  {
    var typed := SourceTypes.MinifySourceTypes(content);
    SourceTypes.NeverLonger(content);
    Extraction.NoPairUnchanged(typed);
    var html := Compactor.MinifyHtml(typed);
    assert 'R' !in html by {
      CompactionWritesNoR();
      Compactor.RewriteAllAvoids(Compactor.Table, typed, 'R');
      Compactor.TrimSlice(RewriteAll(Compactor.Table, typed));
    }
    var rule := Restore(jsmin(""));
    forall i | 0 <= i < |html| ensures MatchAt(rule, html, i).None? {
      if i + |Extraction.Placeholder| <= |html| {
        assert html[i + 4] == html[i..i + |Extraction.Placeholder|][4];
      }
    }
    ApplyNoMatch(rule, html, 0);
    assert html[0..] == html;
  }

  /** The placeholder alone is a page the compaction leaves as it is. */
  lemma PlaceholderKept()
    ensures Compactor.MinifyHtml(Extraction.Placeholder) == Extraction.Placeholder
  {
    var p := Extraction.Placeholder;
    assert forall k :: 0 <= k < |p| ==> p[k] == '#' || 'A' <= p[k] <= 'Z';
    assert forall k :: 0 <= k < |p| ==> p[k] != 'A';
    forall i | 0 <= i ensures !IsAt(p, SpaceMark, i) {
      MissingChar(p, SpaceMark, i, 4);
    }
    Spacing.UnmarkedKept(p);
  }

  /** Putting the script back into a page that is only the placeholder
      gives the script element alone. */
  lemma RestoreAlone(js: string)
    ensures Rewrite(Restore(js), Extraction.Placeholder) == Extraction.ScriptOpen + js + Extraction.ScriptClose
  {
    var rep := Extraction.ScriptOpen + js + Extraction.ScriptClose;
    var p := Extraction.Placeholder;
    assert MatchAt(Restore(js), p, 0) == Some(Step(|p|, rep));
    Pass(Restore(js), p, 0, |p|, rep);
    assert p[..0] + rep + p[|p|..] == rep;
  }

  /** A page that is one bare inline script without a type attribute
      comes out as that script, minified with a line end after it, in one
      script element. */
  lemma ScriptOnlyPage(a: string, jsmin: string -> string)
    requires Extraction.Lacks(a, Extraction.ScriptClose)
    requires forall i :: !IsAt(Extraction.ScriptOpen + a + Extraction.ScriptClose, " type=", i)
    ensures Minify(Extraction.ScriptOpen + a + Extraction.ScriptClose, jsmin)
         == Extraction.ScriptOpen + jsmin(a + Extraction.Eol) + Extraction.ScriptClose
  {
    SourceTypes.NoLowerCaseTypeUnchanged(Extraction.ScriptOpen + a + Extraction.ScriptClose);
    Extraction.OneScript(a);
    PlaceholderKept();
    RestoreAlone(jsmin(a + Extraction.Eol));
  }

  /** The page `<script>1;</script>`. */
  lemma OneScriptPage(jsmin: string -> string)
    ensures Minify("<script>1;</script>", jsmin) == "<script>" + jsmin("1;\n") + "</script>"
  {
    var c := "<script>1;</script>";
    assert c == Extraction.ScriptOpen + "1;" + Extraction.ScriptClose;
    assert forall k :: 0 <= k < |c| ==> c[k] != ' ';
    forall i | 0 <= i ensures !IsAt(c, " type=", i) {
      MissingChar(c, " type=", i, 0);
    }
    forall i | 0 <= i ensures !IsAt("1;", Extraction.ScriptClose, i) {
      MissingChar("1;", Extraction.ScriptClose, i, 0);
    }
    ScriptOnlyPage("1;", jsmin);
    assert "1;" + Extraction.Eol == "1;\n";
  }

  /** The characters of a page that is the marker between two texts that
      give no pass a foothold: no blank, nothing `trim` removes, no `!`,
      every `#` inside the marker and no `A` there. */
  lemma MarkedChars(g: string, h: string)
    requires Spacing.Plain(g) && Spacing.Plain(h)
    ensures var p := Extraction.Placeholder; var t := g + p + h;
      forall k :: 0 <= k < |t| ==>
        && !IsWs(t[k]) && !Compactor.IsTrimmed(t[k]) && t[k] != '!'
        && (t[k] == '#' ==> |g| <= k < |g| + |p|)
        && (|g| <= k < |g| + |p| ==> t[k] != 'A')
  {
    var p := Extraction.Placeholder;
    var t := g + p + h;
    assert forall k :: 0 <= k < |p| ==> p[k] == '#' || 'B' <= p[k] <= 'Z';
    forall k | 0 <= k < |t|
      ensures && !IsWs(t[k]) && !Compactor.IsTrimmed(t[k]) && t[k] != '!'
              && (t[k] == '#' ==> |g| <= k < |g| + |p|)
              && (|g| <= k < |g| + |p| ==> t[k] != 'A')
    {
      if k < |g| {
        assert t[k] == g[k];
      } else if k < |g| + |p| {
        assert t[k] == p[k - |g|];
      } else {
        assert t[k] == h[k - |g| - |p|];
      }
    }
  }

  /** The space marker cannot occur in such a page: its `#`s would all
      fall inside the script marker, which has no `A`. */
  lemma MarkedNoSpaceMark(g: string, h: string)
    requires Spacing.Plain(g) && Spacing.Plain(h)
    ensures forall i :: !IsAt(g + Extraction.Placeholder + h, SpaceMark, i)
  {
    var t := g + Extraction.Placeholder + h;
    MarkedChars(g, h);
    forall i: nat ensures !IsAt(t, SpaceMark, i) {
      if i + |SpaceMark| <= |t| {
        if t[i] != '#' {
          CharDiffers(t, SpaceMark, i, 0);
        } else if t[i + 4] != 'A' {
          CharDiffers(t, SpaceMark, i, 4);
        } else {
          CharDiffers(t, SpaceMark, i, 8);
        }
      }
    }
  }

  /** The compaction leaves the marker, and the page around it, as they
      are when the text on either side gives no pass a foothold. */
  lemma MarkedPageKept(g: string, h: string)
    requires Spacing.Plain(g) && Spacing.Plain(h) && (|g| > 0 ==> g[0] != '/')
    ensures Compactor.MinifyHtml(g + Extraction.Placeholder + h) == g + Extraction.Placeholder + h
  {
    var t := g + Extraction.Placeholder + h;
    MarkedChars(g, h);
    MarkedNoSpaceMark(g, h);
    assert |t| > 0 ==> t[0] != '/' by {
      if |g| == 0 { assert t[0] == Extraction.Placeholder[0]; }
    }
    Spacing.UnmarkedKept(t);
  }

  /** The final replacement puts the script element where the marker
      stands, and nowhere else, when no other `#` is in the page. */
  lemma RestoreInPlace(js: string, g: string, h: string)
    requires '#' !in g && '#' !in h
    ensures Rewrite(Restore(js), g + Extraction.Placeholder + h)
         == g + Extraction.ScriptOpen + js + Extraction.ScriptClose + h
  {
    var p := Extraction.Placeholder;
    var rep := Extraction.ScriptOpen + js + Extraction.ScriptClose;
    var t := g + p + h;
    var hi := |g| + |p|;
    assert t[|g|..hi] == p && t[..|g|] == g && t[hi..] == h;
    assert MatchAt(Restore(js), t, |g|) == Some(Step(hi, rep));
    assert forall k :: 0 <= k < |g| ==> t[k] == g[k];
    assert forall k :: hi <= k < |t| ==> t[k] == h[k - hi];
    Pass(Restore(js), t, |g|, hi, rep);
  }

  /** When the extracted page is the marker between two texts that give no
      pass a foothold, the result is those texts with the minified combined
      script in one script element between them: the scripts are put back
      exactly once, where the first one stood. */
  lemma ScriptsBackInPlace(content: string, jsmin: string -> string, g: string, h: string)
    requires Extraction.Extract(SourceTypes.MinifySourceTypes(content)).doc == g + Extraction.Placeholder + h
    requires Spacing.Plain(g) && Spacing.Plain(h) && (|g| > 0 ==> g[0] != '/')
    ensures Minify(content, jsmin)
         == g + Extraction.ScriptOpen + jsmin(Scripts(content)) + Extraction.ScriptClose + h
  {
    MarkedPageKept(g, h);
    RestoreInPlace(jsmin(Scripts(content)), g, h);
  }

  /** A bare inline script inside a one-line HTML comment: it is extracted,
      the marker goes with the comment, and the final replacement finds
      nothing, so the page comes out without the comment and without any
      script. */
  lemma ScriptInCommentLost(g: string, a: string, jsmin: string -> string)
    requires Spacing.Plain(g) && (|g| > 0 ==> g[0] != '/') && Extraction.Lacks(g, Extraction.ScriptOpen)
    requires Extraction.Lacks(a, Extraction.ScriptClose) && ' ' !in a
    ensures var page := g + "<!--" + Extraction.ScriptOpen + a + Extraction.ScriptClose + "-->";
      && Scripts(page) == a + Extraction.Eol
      && Minify(page, jsmin) == g
  {
    var front := g + "<!--";
    var page := front + Extraction.ScriptOpen + a + Extraction.ScriptClose + "-->";
    assert page == g + "<!--" + Extraction.ScriptOpen + a + Extraction.ScriptClose + "-->";
    CommentPageUntyped(g, a);
    CommentedLacks(g);
    Extraction.EnclosedScript(front, a, "-->");
    assert front + Extraction.Placeholder + "-->" == g + "<!--" + Extraction.Placeholder + "-->";
    MarkerInert();
    Spacing.CommentTakesAll(g, Extraction.Placeholder);
    forall i | 0 <= i < |g| ensures !IsAt(g, Extraction.Placeholder, i) {
      MissingChar(g, Extraction.Placeholder, i, 0);
    }
    RestoreIdle(jsmin(a + Extraction.Eol), g);
  }

  /** The marker may stand inside a comment that pass 4 removes. */
  lemma MarkerInert()
    ensures Spacing.Inert(Extraction.Placeholder)
  {
    var p := Extraction.Placeholder;
    assert forall k :: 0 <= k < |p| ==> p[k] == '#' || 'A' <= p[k] <= 'Z';
  }

  /** The text before the comment and the comment's opening hold no
      opening script tag, and neither does the comment's end. */
  lemma CommentedLacks(g: string)
    requires Extraction.Lacks(g, Extraction.ScriptOpen)
    ensures Extraction.Lacks(g + "<!--", Extraction.ScriptOpen)
    ensures Extraction.Lacks("-->", Extraction.ScriptOpen)
  {
    forall i ensures !IsAt("<!--", Extraction.ScriptOpen, i) {
      MissingChar("<!--", Extraction.ScriptOpen, i, 1);
    }
    Extraction.LacksBeforeTag(g, "<!--");
  }

  /** A page with a script in a comment, and no blank, has no type
      attribute for the first pass to remove. */
  lemma CommentPageUntyped(g: string, a: string)
    requires Spacing.Plain(g) && ' ' !in a
    ensures var page := g + "<!--" + Extraction.ScriptOpen + a + Extraction.ScriptClose + "-->";
      SourceTypes.MinifySourceTypes(page) == page
  {
    var page := g + "<!--" + Extraction.ScriptOpen + a + Extraction.ScriptClose + "-->";
    assert ' ' !in g;
    assert ' ' !in page;
    forall i ensures !IsAt(page, " type=", i) {
      MissingChar(page, " type=", i, 0);
    }
    SourceTypes.NoLowerCaseTypeUnchanged(page);
  }

  /** A page without the marker is left alone by the final replacement. */
  lemma RestoreIdle(js: string, t: string)
    requires '#' !in t
    ensures Rewrite(Restore(js), t) == t
  {
    Silent(Restore(js), t, 0, 0);
    ApplyNoMatch(Restore(js), t, 0);
  }

  /** The page `x<!--<script>a</script>-->` comes out as `x`: the script
      in the comment is lost. */
  lemma CommentedScriptPage(jsmin: string -> string)
    ensures Minify("x<!--<script>a</script>-->", jsmin) == "x"
  {
    assert "x<!--<script>a</script>-->"
        == "x" + "<!--" + Extraction.ScriptOpen + "a" + Extraction.ScriptClose + "-->";
    assert Spacing.Plain("x");
    ScriptInCommentLost("x", "a", jsmin);
  }
}

