# HTML minifier response listener, modelled in Dafny

This project models the text rewriting done by the storefront HTML minifier's response
listener (`src/Listener/ResponseListener.php`). The listener runs on an HTML response body
and does five things in order:

1. It deletes every ` type="text/javascript"` and ` type="text/css"` attribute
   (`minifySourceTypes`).
2. It cuts every bare `<script>…</script>` element out of the page. The bodies are joined,
   each followed by a line end, into one combined script. The first element becomes the
   marker `##SCRIPTPOSITION##` and every later one is dropped (`extractCombinedInlineScripts`).
3. It hands the combined script to the JavaScript minifier.
4. It compacts the page with thirteen ordered pattern replacements and a final `trim`
   (`minifyHtml`).
5. It replaces every marker with `<script>` + minified script + `</script>`.

The model is split into modules:

- `Text`: literal occurrence, PCRE's `\s` class, blank runs, and left-to-right search.
- `Patterns`: each regular expression the listener uses, written as a matcher `MatchAt` with
  PCRE's semantics for that one pattern. It also defines the left-to-right, non-overlapping
  replacement scan `Apply` that `preg_replace` performs and `str_replace` performs for a
  literal. `RewriteAll` is `preg_replace` with an array of patterns, where each pattern
  works on the previous one's output.
- `RuleFacts`: which replacements settle in one pass, so that a second pass changes nothing.
- `SourceTypes`: the type-attribute pass.
- `Extraction`: the callback-driven scan. It is an imperative method with a loop, proved
  against the specification function `Extract`, which is defined by the cut `Split` of the
  page at each match.
- `Compactor`: the thirteen-pass table, PHP's `trim`, and what the passes guarantee.
- `Spacing`: what the thirteen passes and the `trim`, taken together, do to a run of blanks
  on a one-line page, with the pages `<span>hello</span> <span>world</span>`,
  `<div>  </div>`, `a\t\tb` and `<!--\n-->` worked through.
- `Pipeline`: the whole body rewrite. The JavaScript minifier is a parameter `jsmin`: any
  function from text to text.

### Behaviour of the code worth knowing

- The type attribute is matched case-sensitively: the patterns have no `i` flag, so only the
  lower-case ` type=` is removed (`SourceTypes.NoLowerCaseTypeUnchanged`).
- Pass 5 replaces a run of spaces with one space, but replaces each tab with its own space.
  Two tabs between two words therefore come out of the whole compaction as two spaces, and
  compacting that output again gives one space: the compaction is not idempotent
  (`Spacing.TabsBecomeTwoSpaces`, `Spacing.NotIdempotent`).
- Pass 1 removes one tab after a newline, not all the indentation (`Compactor.OneTabPerLine`).
- Pass 2 consumes the newline that ends a `//` line. Of consecutive `//` lines, every second
  one is therefore kept (`Compactor.CommentLinesAlternate`).
- Pass 4's `.` does not match a newline, but pass 3 has already turned every newline into a
  space, so pass 4 sees the page as one line (`Compactor.CommentsSeeOneLine`). A comment over
  several lines is therefore removed too (`Spacing.CommentOverTwoLines`).
- `trim` does not remove form feed, although `\s` matches it (`Compactor.IsTrimmed`).
- The marker is written where the first bare script stood, even inside an HTML comment. Pass 4
  then removes the comment with the marker in it, the final replacement finds nothing, and
  every inline script of the page is lost (`Pipeline.ScriptInCommentLost`,
  `Pipeline.CommentedScriptPage`). When the marker is not in a comment and the text around it
  gives the passes nothing to change, the scripts come back exactly once, in its place
  (`Pipeline.ScriptsBackInPlace`).
- Blanks between two ordinary tags are removed (`Spacing.BlanksBetweenTagsVanish`). Blanks
  after `span>`, the end of an opening or a closing span tag
  (`Spacing.BlankAfterSpanKept`), and between two words (`Spacing.WordsKeepOneSpace`) come
  out as one space.

## Model

| member | source | states |
|---|---|---|
| Text.WsEnd | src/Listener/ResponseListener.php:79-85 | the end of the greedy `\s+` run: every character in between is blank and the one after it is not |
| Text.SpaceEnd | src/Listener/ResponseListener.php:74 | the end of the greedy run of 0x20 spaces: all spaces in between, the next character not a space |
| Text.Find | src/Listener/ResponseListener.php:113 | `strpos`: the result is an occurrence with no occurrence before it, and `None` means no occurrence from `from` on |
| Patterns.MatchAt | src/Listener/ResponseListener.php:73-86 | a match at `p` covers `s[p..end]` and writes only matched characters or the rule's literal text; a non-empty replacement starts with one of the rule's leading characters; an erasing rule writes nothing |
| Patterns.MatchTypeAttr | src/Listener/ResponseListener.php:127-128 | a match (` type=`, either quote, the MIME type, either quote) is removed whole and writes nothing |
| Patterns.MatchLineIndent | src/Listener/ResponseListener.php:74 | a match (a newline or the subject start, then its indentation) is replaced by one newline |
| Patterns.MatchCommentLine | src/Listener/ResponseListener.php:75 | a match (a `//` line with the newline that ends it) is replaced by one newline |
| Patterns.MatchNewline | src/Listener/ResponseListener.php:76 | a match (one newline) is replaced by one space |
| Patterns.MatchHtmlComment | src/Listener/ResponseListener.php:77 | a match (a one-line `<!-- … -->` comment) is removed and writes nothing |
| Patterns.MatchHorizontalSpace | src/Listener/ResponseListener.php:78 | a match (a run of spaces, or one tab) is replaced by one space |
| Patterns.MatchWsAfter | src/Listener/ResponseListener.php:79-81 | a match (the tag, then blanks) is replaced by the tag followed by the space marker |
| Patterns.MatchWsBefore | src/Listener/ResponseListener.php:80-82 | a match (blanks, then the tag) is replaced by the space marker followed by the tag |
| Patterns.MatchBetweenTags | src/Listener/ResponseListener.php:83 | a match (`>`, blanks, `<`) is replaced by `><` |
| Patterns.MatchQuoteThenClose | src/Listener/ResponseListener.php:84 | a match starts with a quote and is replaced by that quote followed by `>` |
| Patterns.MatchEqualsThenQuote | src/Listener/ResponseListener.php:85 | a match ends with a quote and is replaced by `=` followed by that quote |
| Patterns.MatchLiteral | src/Listener/ResponseListener.php:86 | a match (one occurrence of the literal) is replaced by the given text |
| Patterns.ApplyChars | src/Listener/ResponseListener.php:105 | every character a pass outputs was in its input or in the rule's literal replacement text |
| Patterns.ApplyNoMatch | src/Listener/ResponseListener.php:105 | where the pattern matches nowhere, the pass returns its input unchanged |
| Patterns.CopyUntil | src/Listener/ResponseListener.php:105 | where the pattern matches nowhere in a stretch, the pass copies the stretch and goes on after it |
| Patterns.CopiedPrefix | src/Listener/ResponseListener.php:105 | up to the first character a replacement can start with, the output is a copy of the input |
| Patterns.ApplyCopies | src/Listener/ResponseListener.php:105 | the output copies the input up to the first replacement |
| Patterns.ErasingShrinks | src/Listener/ResponseListener.php:130-131 | a pass that replaces with nothing never lengthens the text, and shortens it whenever it matches |
| Patterns.ErasingUnchangedIff | src/Listener/ResponseListener.php:130-131 | an erasing pass leaves the text as it was if and only if the pattern matches nowhere |
| RuleFacts.MatchShift | src/Listener/ResponseListener.php:76-86 | a rule without anchors matches at an index of `a + b` exactly when it matches at the same index of `b` |
| RuleFacts.ReplacementClean | src/Listener/ResponseListener.php:92-102 | a replacement written by a settling rule starts no new match, whatever text follows it |
| RuleFacts.HeadClean | src/Listener/ResponseListener.php:76-86 | where a settling rule fails to match, it does not match at the start of the output either |
| RuleFacts.CleanBehind | src/Listener/ResponseListener.php:76-86 | a settling rule that matches nowhere in `b` matches nowhere inside `b` with text in front of it |
| RuleFacts.PrefixClean | src/Listener/ResponseListener.php:76-86 | text put in front of a clean string keeps it clean when the rule matches nowhere in the new text |
| RuleFacts.NoneLeft | src/Listener/ResponseListener.php:76-86 | after one pass of a settling rule, the rule matches nowhere in the output |
| RuleFacts.Idempotent | src/Listener/ResponseListener.php:76-86 | a second pass of a settling rule changes nothing |
| RuleFacts.MatchSign | src/Listener/ResponseListener.php:74-86 | every match has its signal character at a fixed offset: a blank for the blank patterns, `!` for comments, `#` for the marker, a newline or a leading `/` for `//` lines |
| RuleFacts.Silent | src/Listener/ResponseListener.php:74-86 | a pattern matches nowhere when every signal character lies in a stretch where no attempt matches |
| RuleFacts.Pass | src/Listener/ResponseListener.php:105 | a pass whose only possible match is at `lo` replaces `s[lo..hi]` and copies everything else |
| SourceTypes.TwoPasses | src/Listener/ResponseListener.php:126-131 | the JavaScript pattern runs first, and the stylesheet pattern runs on its output |
| SourceTypes.NeverLonger | src/Listener/ResponseListener.php:126-131 | the page never grows, and every character left was in the page |
| SourceTypes.UnchangedIff | src/Listener/ResponseListener.php:126-131 | the page is unchanged if and only if neither attribute matches anywhere |
| SourceTypes.NoLowerCaseTypeUnchanged | src/Listener/ResponseListener.php:127-128 | a page without the exact lower-case text ` type=` is left alone |
| SourceTypes.AnyQuotes | src/Listener/ResponseListener.php:127-128 | the attribute is removed whole, whichever quote is used at either end |
| SourceTypes.DropOne | src/Listener/ResponseListener.php:127-128 | between two texts without blanks, one pattern removes its attribute, with either quote at either end, and keeps both texts |
| SourceTypes.CssNotJs | src/Listener/ResponseListener.php:127 | the JavaScript pattern leaves the stylesheet attribute, and the blank-free text around it, alone |
| SourceTypes.AttributeRemoved | src/Listener/ResponseListener.php:126-131 | inside a page, ` type=` + quote + `text/javascript` or `text/css` + quote between two blank-free texts is removed and the texts close up around it |
| SourceTypes.ScriptTagLosesType | src/Listener/ResponseListener.php:127 | `<script type="text/javascript">` becomes `<script>` |
| Extraction.NextPair | src/Listener/ResponseListener.php:114 | a match lies at or after the scan position, its closing tag after its opening tag, both inside the page |
| Extraction.NextPairSpec | src/Listener/ResponseListener.php:114 | the match is a bare opening tag with no opening tag before it, and the first closing tag after it (lazy body); with no match, no complete pair exists from the position on |
| Extraction.Split | src/Listener/ResponseListener.php:114-118 | the cut has one more gap than bodies |
| Extraction.SplitShape | src/Listener/ResponseListener.php:114 | no body holds a closing tag, no gap before a match holds an opening tag, and the last gap holds no complete element |
| Extraction.LastGapClean | src/Listener/ResponseListener.php:114 | the text after the last match holds no complete element |
| Extraction.JoinSnoc | src/Listener/ResponseListener.php:116 | one more body extends the combined script by that body and a line end |
| Extraction.LeadingSnoc | src/Listener/ResponseListener.php:117 | one more match extends the page by its gap, preceded by the marker only for the first match |
| Extraction.ExtractCombinedInlineScripts | src/Listener/ResponseListener.php:108-122 | the scan returns exactly `Extract`: the gaps with the first match turned into the marker and the later matches removed, and the bodies each followed by a line end, in document order |
| Extraction.Reassemble | src/Listener/ResponseListener.php:114 | putting every body back between its gaps, inside its tags, gives the page again, so nothing outside the matches is lost |
| Extraction.GuardRedundant | src/Listener/ResponseListener.php:113 | the closing-tag test before the scan never changes the outcome |
| Extraction.NoPairUnchanged | src/Listener/ResponseListener.php:110-121 | the combined script is empty if and only if the page holds no complete bare element, and then the page is unchanged |
| Extraction.NoBareTagUnchanged | src/Listener/ResponseListener.php:114 | a page whose script tags all carry attributes is left alone |
| Extraction.GapsAvoid | src/Listener/ResponseListener.php:114 | a character absent from the page is absent from every gap |
| Extraction.ConcatAvoids | src/Listener/ResponseListener.php:117 | a character absent from every gap is absent from their concatenation |
| Extraction.HashOnlyInMarker | src/Listener/ResponseListener.php:117 | in a text of the form gap, marker, rest, with no `#` in the gap or the rest, every `#` is inside the marker |
| Extraction.MarkerOnce | src/Listener/ResponseListener.php:117 | between two texts without `#`, the marker occurs exactly once |
| Extraction.OnePlaceholder | src/Listener/ResponseListener.php:114-118 | a page without `#` that holds a bare element comes out with exactly one marker, where the first element was |
| Extraction.DocShape | src/Listener/ResponseListener.php:117 | with at least one match, the page is the first gap, the marker, and the other gaps in order |
| Extraction.PairHere | src/Listener/ResponseListener.php:114 | a bare element whose body has no closing tag, starting at the scan position, is the next match |
| Extraction.OneScript | src/Listener/ResponseListener.php:110-121 | a page that is one bare inline script `a` becomes the marker alone, and the script `a` + line end |
| Extraction.EnclosedPairs | src/Listener/ResponseListener.php:114 | in a page with one bare element between texts without an opening tag, that element is the first match and there is none after it |
| Extraction.OneSplit | src/Listener/ResponseListener.php:114-118 | such a page cuts into the two texts around the one body |
| Extraction.OneBodyOnly | src/Listener/ResponseListener.php:110-121 | one body between two gaps gives the first gap, the marker and the last gap, and the body + line end as the combined script |
| Extraction.EnclosedScript | src/Listener/ResponseListener.php:110-121 | a page `g` + bare script `a` + `h`, with no opening tag in `g` or `h`, becomes `g` + marker + `h`, with `a` + line end as the combined script |
| Extraction.LacksBeforeTag | src/Listener/ResponseListener.php:114 | a text without opening tag, followed by one that starts with `<` and holds none, holds none |
| Extraction.TwoPairs | src/Listener/ResponseListener.php:114 | in two adjacent bare elements, the two matches are exactly the two elements |
| Extraction.TwoSplit | src/Listener/ResponseListener.php:114-118 | two adjacent elements cut into three empty gaps around the two bodies |
| Extraction.TwoBodiesOnly | src/Listener/ResponseListener.php:114-118 | two bodies between empty gaps give the marker alone and both bodies in the combined script |
| Extraction.TwoScripts | src/Listener/ResponseListener.php:114-118 | two adjacent inline scripts `a` and `b` give the page `##SCRIPTPOSITION##` and the script `a` + line end + `b` + line end |
| Compactor.TrimLo | src/Listener/ResponseListener.php:105 | the index of the first character `trim` keeps: everything before it is a trim character |
| Compactor.TrimHi | src/Listener/ResponseListener.php:105 | the index just past the last character `trim` keeps: everything after it is a trim character |
| Compactor.Trim | src/Listener/ResponseListener.php:105 | the result is no longer than the input and neither starts nor ends with a trim character |
| Compactor.TrimKeeps | src/Listener/ResponseListener.php:105 | `trim` leaves a text alone that neither starts nor ends with a trim character |
| Compactor.TrimSlice | src/Listener/ResponseListener.php:105 | `trim` returns a slice of its input, and everything it drops is a trim character |
| Compactor.RewriteAllAppend | src/Listener/ResponseListener.php:105 | running two tables one after the other is running their concatenation |
| Compactor.RewriteAllClean | src/Listener/ResponseListener.php:105 | passes that each match nowhere leave the text as it is |
| Compactor.RewriteAllAvoids | src/Listener/ResponseListener.php:105 | a character the input lacks and no replacement writes is absent after every pass |
| Compactor.CommentsSeeOneLine | src/Listener/ResponseListener.php:74-77 | after passes 1 to 3 no newline is left, so pass 4 sees the page as one line |
| Compactor.JoinedStaysJoined | src/Listener/ResponseListener.php:76 | after the newline pass, passes that write no newline leave none |
| Compactor.TagRulesAvoid | src/Listener/ResponseListener.php:95-98 | a character in neither the marker nor the four tags is written by none of passes 6 to 9 |
| Compactor.InlineRulesAvoid | src/Listener/ResponseListener.php:93-101 | a character outside ` <>=`, the marker and the tags is written by none of passes 4 to 12 |
| Compactor.LaterPassesWriteNoNewline | src/Listener/ResponseListener.php:93-102 | no pass after the third writes a newline |
| Compactor.NoNewlineOut | src/Listener/ResponseListener.php:72-106 | the compacted page contains no newline |
| Compactor.UnmarkedAtEnd | src/Listener/ResponseListener.php:86 | after a final marker pass, no space marker is left |
| Compactor.NoMarkerOut | src/Listener/ResponseListener.php:86-105 | the compacted page contains no space marker, and trimming cannot create one |
| Compactor.AfterTagSettles | src/Listener/ResponseListener.php:79 | a blanks-after rule for a tag whose lower-case first letter is not repeated settles in one pass |
| Compactor.BeforeTagSettles | src/Listener/ResponseListener.php:80 | a blanks-before rule for a tag without blanks or `#` settles in one pass |
| Compactor.SettlingRules | src/Listener/ResponseListener.php:76-102 | passes 3 and 6 to 13 each settle in one pass |
| Compactor.BlanksAfterTagMarked | src/Listener/ResponseListener.php:79-81 | after `span>` or `button>`, the whole run of blanks becomes one marker |
| Compactor.BlanksBeforeTagMarked | src/Listener/ResponseListener.php:80-82 | before `<span` or `<button`, the whole run of blanks becomes one marker |
| Compactor.BlanksBetweenTagsDropped | src/Listener/ResponseListener.php:83 | blanks between `>` and `<` are removed |
| Compactor.BlanksBeforeCloseDropped | src/Listener/ResponseListener.php:84 | blanks between a quote and `>` are removed, and the quote is kept |
| Compactor.BlanksAfterEqualsDropped | src/Listener/ResponseListener.php:85 | blanks between `=` and a quote are removed, and the quote is kept |
| Compactor.MarkerShields | src/Listener/ResponseListener.php:83 | a `>` followed by a marker starts no match of pass 10, so a protected blank is not removed |
| Compactor.MarkerBecomesSpace | src/Listener/ResponseListener.php:86 | each marker becomes exactly one space |
| Compactor.TabsBecomeSpaces | src/Listener/ResponseListener.php:78 | two tabs become two spaces, which a second pass would merge into one |
| Compactor.OneTabPerLine | src/Listener/ResponseListener.php:74 | after a newline, only one of two tabs is removed |
| Compactor.CommentLinesAlternate | src/Listener/ResponseListener.php:75 | the `//` line right after a removed one no longer follows a newline, so it is kept |
| Spacing.Stages | src/Listener/ResponseListener.php:72-105 | the compaction is passes 1 to 4, then pass 5, then passes 6 to 13 and `trim` |
| Spacing.FrontKeeps | src/Listener/ResponseListener.php:74-77 | passes 1 to 4 leave a one-line page without `!` and without a leading blank or `/` alone |
| Spacing.UnmarkedKept | src/Listener/ResponseListener.php:72-105 | a page with no blank, no `!`, no leading `/` and no space marker comes out of the compaction unchanged |
| Spacing.SpacesShrink | src/Listener/ResponseListener.php:78 | pass 5 turns one run of spaces into one space |
| Spacing.TabsShrink | src/Listener/ResponseListener.php:78 | pass 5 turns two tabs into two spaces |
| Spacing.TagsIdle | src/Listener/ResponseListener.php:79-82 | passes 6 to 9 leave a space alone that is not next to a span or button tag |
| Spacing.TagsJoin | src/Listener/ResponseListener.php:83 | pass 10 drops the space between `>` and `<` |
| Spacing.BlanksBetweenTagsVanish | src/Listener/ResponseListener.php:72-105 | spaces between a `>` and a `<` disappear from the page, unless one of the two tags is a span or button tag |
| Spacing.MarkAfterSpan | src/Listener/ResponseListener.php:79 | pass 6 turns the space after `span>` into the space marker |
| Spacing.MarkedIdle | src/Listener/ResponseListener.php:80-85 | passes 7 to 12 find nothing once that space is a marker |
| Spacing.MarkerBack | src/Listener/ResponseListener.php:86 | pass 13 turns the marker back into a space |
| Spacing.BlankAfterSpanKept | src/Listener/ResponseListener.php:72-105 | spaces after `span>` (the end of an opening or a closing span tag) come out as one space, even before another tag, when text follows |
| Spacing.WordsLater | src/Listener/ResponseListener.php:79-105 | passes 6 to 13 and `trim` leave a run of spaces between two words alone |
| Spacing.WordsKeepOneSpace | src/Listener/ResponseListener.php:72-105 | spaces between two words come out as one space |
| Spacing.TabsBecomeTwoSpaces | src/Listener/ResponseListener.php:72-105 | two tabs between two words come out as two spaces |
| Spacing.SpanExample | src/Listener/ResponseListener.php:72-105 | `<span>hello</span> <span>world</span>` comes out unchanged |
| Spacing.DivExample | src/Listener/ResponseListener.php:72-105 | `<div>  </div>` comes out as `<div></div>` |
| Spacing.NotIdempotent | src/Listener/ResponseListener.php:72-105 | `a\t\tb` comes out as `a  b`, and that comes out as `a b`: compacting twice differs from compacting once |
| Spacing.CommentJoined | src/Listener/ResponseListener.php:74-76 | passes 1 to 3 turn `<!--\n-->` into `<!-- -->` |
| Spacing.CommentGone | src/Listener/ResponseListener.php:77 | pass 4 removes `<!-- -->` |
| Spacing.CommentOverTwoLines | src/Listener/ResponseListener.php:72-105 | `<!--\n-->` comes out empty: a comment over two lines is removed |
| Spacing.CommentMatch | src/Listener/ResponseListener.php:77 | pass 4 matches a one-line comment whose text has no `-` from its `<!--` to its `-->` |
| Spacing.CommentFront | src/Listener/ResponseListener.php:74-77 | passes 1 to 4 reduce a blank-free text followed by such a comment to the text |
| Spacing.CommentTakesAll | src/Listener/ResponseListener.php:72-105 | such a comment at the end of the page is removed with everything inside it, and the text before it comes out unchanged |
| Pipeline.MinifyResponse | src/Listener/ResponseListener.php:46-56 | the listener's steps, each replacing the body in turn, compute `Minify`: types stripped, scripts extracted, the script minified, the page compacted, the marker replaced |
| Pipeline.ReplacementAppears | src/Listener/ResponseListener.php:56 | where the marker occurs, the literal replacement writes the script element |
| Pipeline.PlaceholderKept | src/Listener/ResponseListener.php:72-106 | a page that is only the marker comes out of the compaction unchanged |
| Pipeline.RestoreAlone | src/Listener/ResponseListener.php:56 | putting the script back into a page that is only the marker gives `<script>` + script + `</script>` |
| Pipeline.ScriptOnlyPage | src/Listener/ResponseListener.php:46-56 | a page that is one bare inline script `a` without a type attribute comes out as `<script>` + `jsmin(a + "\n")` + `</script>` |
| Pipeline.OneScriptPage | src/Listener/ResponseListener.php:46-56 | `<script>1;</script>` comes out as `<script>` + `jsmin("1;\n")` + `</script>` |
| Pipeline.ScriptsPutBack | src/Listener/ResponseListener.php:56 | if the compacted page keeps the marker, the result holds `<script>` + minified script + `</script>` |
| Pipeline.MarkedChars | src/Listener/ResponseListener.php:117 | the marker between two texts that give no pass a foothold leaves no blank, no `!`, and every `#` inside the marker |
| Pipeline.MarkedNoSpaceMark | src/Listener/ResponseListener.php:79-86 | such a page holds no space marker |
| Pipeline.MarkedPageKept | src/Listener/ResponseListener.php:72-106 | the compaction leaves such a page, marker included, as it is |
| Pipeline.RestoreInPlace | src/Listener/ResponseListener.php:56 | the final replacement writes the script element where the marker stands and changes nothing else |
| Pipeline.RestoreIdle | src/Listener/ResponseListener.php:56 | a page without `#` is left alone by the final replacement |
| Pipeline.ScriptsBackInPlace | src/Listener/ResponseListener.php:45-56 | when the extracted page is `g` + marker + `h` with texts that give no pass a foothold, the result is `g` + `<script>` + minified combined script + `</script>` + `h`: the scripts come back exactly once, where the first one stood |
| Pipeline.ScriptInCommentLost | src/Listener/ResponseListener.php:45-56 | a bare script inside a one-line comment after blank-free text `g` is extracted (the combined script is its body + line end), but the page comes out as `g` alone: the script is lost |
| Pipeline.CommentedScriptPage | src/Listener/ResponseListener.php:45-56 | `x<!--<script>a</script>-->` comes out as `x`, whatever the JavaScript minifier returns |
| Pipeline.CommentPageUntyped | src/Listener/ResponseListener.php:126-131 | a blank-free page with a script in a comment is left alone by the type pass |
| Pipeline.CommentedLacks | src/Listener/ResponseListener.php:114 | the text before the comment and the comment's ends hold no opening script tag |
| Pipeline.RestoreSelfClean | src/Listener/ResponseListener.php:56 | putting back a script that holds no marker creates no marker: the element starts with `<` and ends with `>`, which the marker lacks |
| Pipeline.NoPlaceholderLeft | src/Listener/ResponseListener.php:56 | when the minified script itself holds no marker, no marker is left in the result |
| Pipeline.RestoreAvoids | src/Listener/ResponseListener.php:56 | a character absent from the page, the script and both tags is absent after the script is put back |
| Pipeline.SingleLine | src/Listener/ResponseListener.php:49-56 | when the minified script holds no newline, the result is one line |
| Pipeline.CompactionWritesNoR | src/Listener/ResponseListener.php:73-103 | no compaction pass writes a capital `R`, a letter the marker contains |
| Pipeline.NoScriptsOnlyCompacted | src/Listener/ResponseListener.php:49-56 | a page without inline scripts and without `R` comes out compacted and otherwise untouched |

## Left out

- Request and response gating is not modelled: the main-request check, file and streamed
  responses, and the content-type test (`ResponseListener.php:23-36`). This is framework plumbing.
- The class-loader re-registration (`ResponseListener.php:38-44`) is runtime class loading.
- The timing and size header (`ResponseListener.php:21, 47, 58-62`) is left out. It needs
  clocks, floating point and response headers.
- The JavaScript minifier's internals (`ResponseListener.php:67-70`) are not modelled. The
  minifier is a foreign library, so the model takes it as a function parameter `jsmin`.
- PCRE in general is not modelled. Only the patterns the listener uses are written
  out. `preg_replace`'s error result (`null`, for example when the backtracking limit is
  reached) is left out, so every pass is taken to succeed.
- `PHP_EOL` is taken to be `"\n"`.
- Patterns.MatchAt and the other matchers (Patterns.MatchTypeAttr to Patterns.MatchLiteral):
  their contracts state where a match lies and what it writes. Which text matches is given
  only by their definitions, which spell out each pattern.
- Compactor.SettlingRules covers only the passes that settle in one run. Passes 1, 2, 4 and
  5 are not proved to settle. For pass 5 the opposite is shown, and pass 4 can create a new
  comment by joining the text around the one it removed.
- The `Spacing` lemmas follow one run of blanks on a one-line page through all thirteen
  passes and `trim`. Pages with several runs, runs that mix newlines, tabs and spaces, and
  blanks at either end of the page are not characterised as a whole. At the page ends `trim`
  undoes what passes 6 to 9 protect (a blank before a leading `<span` is removed), and a
  general statement would have to follow every pass over pages of any shape; the per-pass
  lemmas of `Compactor` state what each pass does at one place instead.
- Pipeline.MinifyResponse: the listener's behaviour on an empty result is not modelled. Line 59
  divides by the length of the final page. In PHP 8, or under an error handler that turns
  warnings into exceptions, a page that comes out empty (only blanks, or only a comment)
  stops the listener there, before the header at line 62 and the body at line 64. In PHP 7
  the division only raises a warning and yields INF or NAN; the header is added with that
  value and the empty page is set at line 64, which is what `Minify` gives. The model always
  delivers `Minify`, and the size header is not modelled.
- Extraction.OnePlaceholder is stated for pages without `#`. A page may itself contain the
  marker text, and the listener does not guard against that.
- Pipeline.NoScriptsOnlyCompacted is stated for pages without a capital `R`, so that no
  marker can already be in the page.
- The text is modelled as a sequence of characters. The byte-level behaviour of `mb_strlen`
  is used only by the size header, which is left out.
