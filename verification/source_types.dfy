/** The type-attribute pass: ` type="text/javascript"` and
    ` type="text/css"` are dropped from every tag, the JavaScript pattern
    first and the stylesheet pattern on what it left. */
module SourceTypes {
  import opened Text
  import opened Patterns
  import opened RuleFacts

  const JsType: Rule := TypeAttr("text/javascript")
  const CssType: Rule := TypeAttr("text/css")

  /** Both patterns, in the order they are handed to the replacement. */
  function MinifySourceTypes(s: string): string {
    RewriteAll([JsType, CssType], s)
  }

  /** The pass is the JavaScript pass followed by the stylesheet pass. */
  lemma TwoPasses(s: string)
    ensures MinifySourceTypes(s) == Rewrite(CssType, Rewrite(JsType, s))
  {
    var t := Rewrite(JsType, s);
    assert [JsType, CssType][1..] == [CssType];
    assert RewriteAll([CssType], t) == RewriteAll([], Rewrite(CssType, t));
  }

  /** The pass only deletes: the page never grows, and every character left
      was in the page. */
  lemma NeverLonger(s: string)
    ensures |MinifySourceTypes(s)| <= |s|
    ensures forall c :: c in MinifySourceTypes(s) ==> c in s
  {
    TwoPasses(s);
    var t := Rewrite(JsType, s);
    ErasingShrinks(JsType, s, 0);
    ErasingShrinks(CssType, t, 0);
    ApplyChars(JsType, s, 0);
    ApplyChars(CssType, t, 0);
  }

  /** The page comes out unchanged exactly when neither attribute occurs in
      it. */
  lemma UnchangedIff(s: string)
    ensures MinifySourceTypes(s) == s <==>
      forall i :: 0 <= i < |s| ==> MatchAt(JsType, s, i).None? && MatchAt(CssType, s, i).None?
  {
    TwoPasses(s);
    var t := Rewrite(JsType, s);
    ErasingUnchangedIff(JsType, s);
    ErasingUnchangedIff(CssType, t);
    ErasingShrinks(JsType, s, 0);
    ErasingShrinks(CssType, t, 0);
  }

  /** The attribute name is matched in lower case only: a page without the
      exact text ` type=` is left alone. */
  lemma NoLowerCaseTypeUnchanged(s: string)
    requires forall i :: !IsAt(s, " type=", i)
    ensures MinifySourceTypes(s) == s
  {
    UnchangedIff(s);
  }

  /** Either quote is accepted at either end, independently: the attribute
      with any pair of quotes is removed in full. */
  lemma AnyQuotes(mime: string, open: char, close: char)
    requires IsQuote(open) && IsQuote(close)
    ensures Rewrite(TypeAttr(mime), " type=" + [open] + mime + [close]) == ""
  {
    var s := " type=" + [open] + mime + [close];
    assert s[0..6] == " type=" && s[6] == open && s[7..7 + |mime|] == mime && s[7 + |mime|] == close;
    assert MatchAt(TypeAttr(mime), s, 0) == Some(Step(|s|, ""));
    ApplyStep(TypeAttr(mime), s, 0);
  }

  /** The text `a` and `b` hold no blank at all. */
  predicate Unspaced(t: string) {
    forall k :: 0 <= k < |t| ==> !IsWs(t[k])
  }

  /** Two blank-free texts put together hold no blank either. */
  lemma UnspacedJoin(a: string, b: string)
    requires Unspaced(a) && Unspaced(b)
    ensures Unspaced(a + b)
  {
    assert forall k :: 0 <= k < |a| ==> (a + b)[k] == a[k];
    assert forall k :: |a| <= k < |a| + |b| ==> (a + b)[k] == b[k - |a|];
  }

  /** Neither type the patterns name holds a blank. */
  lemma MimesUnspaced()
    ensures Unspaced("text/javascript") && Unspaced("text/css")
  {
  }

  /** The attribute as the patterns spell it, with the quotes given. */
  function Attr(open: char, mime: string, close: char): string {
    " type=" + [open] + mime + [close]
  }

  /** Everything after the leading blank of the attribute is blank-free. */
  lemma AttrTail(open: char, mime: string, close: char, b: string)
    requires IsQuote(open) && IsQuote(close) && Unspaced(mime) && Unspaced(b)
    ensures Unspaced(Attr(open, mime, close)[1..] + b)
  {
    assert Attr(open, mime, close)[1..] == "type=" + [open] + mime + [close];
    assert Unspaced("type=") && Unspaced([open]) && Unspaced([close]);
    UnspacedJoin("type=", [open]);
    UnspacedJoin("type=" + [open], mime);
    UnspacedJoin("type=" + [open] + mime, [close]);
    UnspacedJoin("type=" + [open] + mime + [close], b);
  }

  /** The pattern matches the attribute where it stands. */
  lemma AttrMatches(mime: string, a: string, open: char, close: char, b: string)
    requires IsQuote(open) && IsQuote(close)
    ensures MatchAt(TypeAttr(mime), a + Attr(open, mime, close) + b, |a|)
            == Some(Step(|a| + |Attr(open, mime, close)|, ""))
  {
    var attr := Attr(open, mime, close);
    var s := a + attr + b;
    assert s == a + (attr + b);
    assert attr[0..6] == " type=" && attr[7..7 + |mime|] == mime;
    IsAtPrefix(attr, b, " type=", 0);
    IsAtPrefix(attr, b, mime, 7);
    IsAtShift(a, attr + b, " type=", 0);
    IsAtShift(a, attr + b, mime, 7);
    assert s[|a| + 6] == attr[6] == open;
    assert s[|a| + 7 + |mime|] == attr[7 + |mime|] == close;
  }

  /** Around one blank, two blank-free texts. */
  lemma OneBlank(a: string, rest: string)
    requires Unspaced(a) && Unspaced(rest)
    ensures forall j :: 0 <= j < |a| + 1 + |rest| && j != |a| ==> !IsWs((a + " " + rest)[j])
  {
    var s := a + " " + rest;
    forall j | 0 <= j < |s| && j != |a| ensures !IsWs(s[j]) {
      if j < |a| {
        assert s[j] == a[j];
      } else {
        assert s[j] == rest[j - |a| - 1];
      }
    }
  }

  /** A pattern whose one match covers the only blank removes that match. */
  lemma DropAt(mime: string, s: string, lo: nat, hi: nat)
    requires lo < hi <= |s| && MatchAt(TypeAttr(mime), s, lo) == Some(Step(hi, ""))
    requires forall j :: 0 <= j < |s| && j != lo ==> !IsWs(s[j])
    ensures Rewrite(TypeAttr(mime), s) == s[..lo] + s[hi..]
  {
    Pass(TypeAttr(mime), s, lo, hi, "");
  }

  /** One pattern removes its attribute from between two blank-free texts,
      and nothing else. */
  lemma DropOne(mime: string, a: string, open: char, close: char, b: string)
    requires IsQuote(open) && IsQuote(close) && Unspaced(mime)
    requires Unspaced(a) && Unspaced(b)
    ensures Rewrite(TypeAttr(mime), a + Attr(open, mime, close) + b) == a + b
  {
    var attr := Attr(open, mime, close);
    var rest := attr[1..] + b;
    var s := a + attr + b;
    var hi := |a| + |attr|;
    assert s == a + " " + rest;
    AttrTail(open, mime, close, b);
    OneBlank(a, rest);
    AttrMatches(mime, a, open, close, b);
    DropAt(mime, s, |a|, hi);
    assert s[..|a|] == a && s[hi..] == b;
  }

  /** A pattern leaves alone a text with no blank in it. */
  lemma UnspacedIdle(mime: string, t: string)
    requires Unspaced(t)
    ensures Rewrite(TypeAttr(mime), t) == t
  {
    Silent(TypeAttr(mime), t, 0, 0);
    ApplyNoMatch(TypeAttr(mime), t, 0);
  }

  /** The JavaScript pattern leaves alone a text whose one blank is not
      followed, twelve characters on, by the `j` of its type. */
  lemma JsIdle(s: string, lo: nat)
    requires lo + 12 < |s| && s[lo + 12] != 'j'
    requires forall j :: 0 <= j < |s| && j != lo ==> !IsWs(s[j])
    ensures Rewrite(JsType, s) == s
  {
    CharDiffers(s, "text/javascript", lo + 7, 5);
    Silent(JsType, s, lo, lo + 1);
    ApplyNoMatch(JsType, s, 0);
  }

  /** The JavaScript pattern does not match the stylesheet attribute. */
  lemma CssNotJs(a: string, open: char, close: char, b: string)
    requires IsQuote(open) && IsQuote(close) && Unspaced(a) && Unspaced(b)
    ensures Rewrite(JsType, a + Attr(open, "text/css", close) + b) == a + Attr(open, "text/css", close) + b
  {
    var rest := "type=" + [open] + "text/css" + [close] + b;
    var s := a + " " + rest;
    assert s == a + Attr(open, "text/css", close) + b;
    assert Unspaced("type=") && Unspaced([open]) && Unspaced([close]);
    MimesUnspaced();
    UnspacedJoin("type=", [open]);
    UnspacedJoin("type=" + [open], "text/css");
    UnspacedJoin("type=" + [open] + "text/css", [close]);
    UnspacedJoin("type=" + [open] + "text/css" + [close], b);
    forall j | 0 <= j < |s| && j != |a| ensures !IsWs(s[j]) {
      if j < |a| {
        assert s[j] == a[j];
      } else {
        assert s[j] == rest[j - |a| - 1];
      }
    }
    assert s[|a| + 12] == rest[11] == 'c';
    JsIdle(s, |a|);
  }

  /** Inside a page, either attribute is removed whole, with either quote
      at either end, and the text around it is kept: the tag closes up
      where the attribute stood. */
  lemma AttributeRemoved(a: string, open: char, mime: string, close: char, b: string)
    requires IsQuote(open) && IsQuote(close)
    requires mime == "text/javascript" || mime == "text/css"
    requires Unspaced(a) && Unspaced(b)
    ensures MinifySourceTypes(a + " type=" + [open] + mime + [close] + b) == a + b
  {
    var s := a + " type=" + [open] + mime + [close] + b;
    assert s == a + Attr(open, mime, close) + b;
    TwoPasses(s);
    UnspacedJoin(a, b);
    MimesUnspaced();
    if mime == "text/javascript" {
      DropOne(mime, a, open, close, b);
      UnspacedIdle("text/css", a + b);
    } else {
      CssNotJs(a, open, close, b);
      DropOne(mime, a, open, close, b);
    }
  }

  /** The commonest case: a script tag with the JavaScript type written
      out loses it. */
  lemma ScriptTagLosesType()
    ensures MinifySourceTypes("<script type=\"text/javascript\">") == "<script>"
  {
    var a, b := "<script", ">";
    assert Unspaced(a) && Unspaced(b);
    ScriptTagSpelled();
    AttributeRemoved(a, '"', "text/javascript", '"', b);
  }

  /** The tag of the example, taken apart at the attribute. */
  lemma ScriptTagSpelled()
    ensures "<script" + " type=" + ['"'] + "text/javascript" + ['"'] + ">" == "<script type=\"text/javascript\">"
  {
  }
}
