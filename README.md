# WP-GeSHi-Highlight, modelled in Dafny

WP-GeSHi-Highlight is a WordPress plugin that highlights source code in
posts and comments with GeSHi. A code snippet is written as
`<pre lang="..." line="..." escaped="..." cssfile="...">code</pre>`.

One request goes through these steps (`wp-geshi-highlight.php`):

1. **Reset and detect.** `wp_geshi_main` resets the per-run globals and draws
   a token (the MD5 of a unique ID). It then sends every post of the query,
   and every approved comment of each post, through
   `wp_geshi_filter_replace_code`.
2. **Protect.** That function finds the snippets with one regular expression
   (flags `s`, `i`, `U`). Each snippet is replaced by a placeholder
   `"\n<p>" + token + "_" + sprintf("%06d", index) + "</p>\n"`. The captured
   groups are stored under the index.
3. **Highlight.** If anything was found, `wp_geshi_highlight_and_generate_css`
   goes over the stored groups:
   - it normalises them and trims the code (`wp_geshi_code_trim`);
   - it decodes the code's HTML entities when `escaped="true"`;
   - GeSHi renders the code, and the output is wrapped in six `div`s named
     after the requested CSS file;
   - it collects the stylesheet of every language used for the first time,
     and the list of requested CSS files.
4. **Register hooks.** `wp_geshi_main` then adds a `wp_head` action and three
   filters:
   - `wp_geshi_add_css_to_head` writes a banner comment, one `<link>` per
     requested CSS file that exists, and the collected CSS in a `<style>`
     block;
   - `wp_geshi_insert_comments_with_uuid` gives comments read a second time
     the text they had after protection;
   - `wp_geshi_insert_highlighted_code_filter` finds each placeholder and puts
     the stored output for its index in its place.

## How the model is organised

The model follows the plugin's structure:

- **`chars.dfy`:** character classes, PHP `trim`/`ltrim`/`rtrim`, and ASCII
  case folding.
- **`pretag.dfy`:** the snippet pattern. It is written out as the
  backtracking search PCRE performs under `/siU`:
  - every quantifier is lazy;
  - a group inside the repeated attribute item keeps the value of its last
    iteration;
  - caseless matching is exact matching over the lower-cased text.
- **`reinsertion.dfy`:** the placeholder, `%06d` and `intval`, and the
  reinsertion filter with its own pattern.
- **`snippets.dfy`:** protection of a whole text, and the round trip through
  both filters.
- **`highlight.dfy`:** one pass of the highlight loop, as values:
  normalisation, `wp_geshi_code_trim`, the wrapper and the CSS string.
- **`head.dfy`:** the head output.
- **`lists.dfy`:** first-occurrence lists (`in_array` appends, `array_unique`).
- **`run.dfy`:**
  - The class `RunContext` holds the plugin's globals. Its methods update
    them as the PHP functions do, and each method is proved against a
    function of the old state.
  - The functions and lemmas in the same file state what a whole run
    computes.

GeSHi and `htmlspecialchars_decode` are not looked into. They are the fields
of a `Library` value: `parse` (code, language, numbering), `sheet`
(language, full or economy mode) and `decode`. `get_approved_comments` and
`file_exists` are function parameters. So are `WP_PLUGIN_DIR` and
`WP_PLUGIN_URL`, each with `/wp-geshi-highlight/` appended. The token is the
parameter `newToken` of `RunMain`, which stores it as given. `RunMain`,
`InsertHighlightedCodeFilter` and the round-trip lemmas
(`Snippets.ReinsertUndoesProtect`, `Run.PostReadsBack`,
`Run.CommentReadsBack`) require it to be 32 lower-case hexadecimal digits, as
`md5()` returns. Whether the stylesheets are GeSHi's economy ones (what
line 314 asks for) or the full ones (what the comment at lines 307-311
describes) is the parameter `economy` of `RunMain`. `economy` true is the
code as written.

Three points where the code does not do what a reader of its comments or of
the pattern might expect. The model follows the code in all three:

- **White space after `</pre>` is kept.** The trailing `\s*` is lazy under
  `U`, so it matches nothing. The leading `\s*` does take the white space in
  front of `<pre`, because start positions are tried from left to right.
- **A missing index gives the empty string.** Reinsertion of a placeholder
  whose index has no stored output yields `""`, since PHP turns the null it
  reads into an empty string. The pattern also matches `<p> TOKEN_NNNNNN </p>`
  with any white space and in any case.
- **`escaped="TRUE"` is not decoded.** The pattern accepts it caselessly, but
  the comparison `== "true"` is exact, so the code is not decoded.

## Model

| member | source | states |
|---|---|---|
| Chars.TrimCuts | wp-geshi-highlight.php:283-286 | PHP `trim` cuts only white space, from both ends. What is left starts and ends with a non-space and is a contiguous slice of the input. |
| Chars.RTrimCuts | wp-geshi-highlight.php:365 | `rtrim` keeps a prefix that ends in a non-space, and everything it cut is white space. |
| Chars.Trim | wp-geshi-highlight.php:283-286 | PHP `trim`; its contract is stated by TrimCuts. |
| Chars.RTrim | wp-geshi-highlight.php:365 | PHP `rtrim`; its contract is stated by RTrimCuts. |
| PreTag.FirstClose | wp-geshi-highlight.php:229 | The lazy body `(.*)` ends at the first `</pre>`, in any case, at or after the `>`. No `</pre>` occurs before it, and when there is none the pattern cannot close. |
| PreTag.Items | wp-geshi-highlight.php:227-228 | A successful run of the lazy attribute loop ends at a `>` followed by a body and `</pre>`. The groups it captured stay within the tag and hold what their sub-patterns allow. (Which items it read is stated by ItemsSound.) |
| PreTag.ItemsSound | wp-geshi-highlight.php:227-228 | Whatever the attribute loop accepts reads as a sequence of `lang=`, `line=`, `escaped=`, `cssfile=` and white-space items, declared apart from the loop (`ItemsFrom`). The groups it returns are the ones those items set, each group the value of the last item that set it. |
| PreTag.ItemsComplete | wp-geshi-highlight.php:227-229 | The converse: when the text reads as such items up to a `>` with a `</pre>` after it, the loop succeeds (at that `>` or an earlier one, as the lazy loop may stop there). |
| PreTag.LangItem | wp-geshi-highlight.php:227 | A `lang=` item consumes input, and its group is a non-empty run of word characters and `-` between quotes. |
| PreTag.LineItem | wp-geshi-highlight.php:227 | A `line=` item consumes input, and its group is a run of digits between quotes. |
| PreTag.EscapedItem | wp-geshi-highlight.php:228 | An `escaped=` item consumes input, and its group is absent or reads `true` or `false` in any case. |
| PreTag.CssfileValue | wp-geshi-highlight.php:228 | The lazy `[\S]+` of `cssfile=`, tried quote by quote, succeeds only with a successful rest of the pattern, and the value it captures holds no white space. |
| PreTag.AttemptAt | wp-geshi-highlight.php:227-229 | A match tried at a start position begins there, with white space up to `<pre`. Its attribute text reads as items of the grammar, its groups are the ones those items set, and the first `</pre>` after its `>` closes it. |
| PreTag.AttemptAtExactly | wp-geshi-highlight.php:227-229 | The attempt at a position succeeds exactly when the text there reads as the pattern: white space, `<pre`, one or more items, a `>`, and a `</pre>` after it. |
| PreTag.FindFrom | wp-geshi-highlight.php:226-229 | The match found from a position starts at or after it, satisfies the pattern's grammar as AttemptAt states, and is the attempt at its own start. |
| PreTag.FindFromLeftmost | wp-geshi-highlight.php:226-229 | The match found is the leftmost. The pattern fails at every earlier start, and at every start when nothing is found. |
| PreTag.LeftmostPattern | wp-geshi-highlight.php:226-229 | The same, stated against the grammar: the text reads as the pattern where the match is found, at no earlier start, and nowhere when nothing is found. |
| PreTag.Scan | wp-geshi-highlight.php:226-232 | `preg_replace_callback`'s matches lie one after another without overlap, each search resuming where the last match ended. |
| PreTag.ScanMatches | wp-geshi-highlight.php:226-232 | Every match the scan reports is a match of the pattern, found at or after the starting point. |
| PreTag.MatchesFrom | wp-geshi-highlight.php:226-232 | The callback is handed one match array per snippet found. |
| PreTag.MatchesFromFields | wp-geshi-highlight.php:226-232 | The i-th match array handed to the callback is the array of the i-th match the scan finds, and that match is well formed. |
| PreTag.Fields | wp-geshi-highlight.php:218-229 | The match array of one match: the whole match and the five groups, unset groups as `""`. Its contract is stated by FieldsShape and FieldsBodyClean. |
| PreTag.FieldsShape | wp-geshi-highlight.php:218-229 | Element 0 of the match array is the whole match. Element 5 is the snippet's body as written. The language holds only `[\w-]` characters, the line only digits, the escaped flag is empty or reads true/false, and the CSS file name holds no white space. |
| PreTag.FieldsBodyClean | wp-geshi-highlight.php:229 | The body handed on never contains `</pre>` in any case. |
| PreTag.BarePreNeverCaptured | wp-geshi-highlight.php:227-228 | A bare `<pre>` is never captured, because the attribute item must match at least once. |
| PreTag.ScanIgnoresCase | wp-geshi-highlight.php:229 | The `i` flag: two texts that differ only in letter case have the same snippets at the same places. |
| Reinsertion.Pad6 | wp-geshi-highlight.php:255 | `sprintf("%06d")` gives decimal digits, at least six of them. |
| Reinsertion.DecimalRoundTrip | wp-geshi-highlight.php:356 | `intval` reads back the number whose digits were written. |
| Reinsertion.IntValLeadingZeros | wp-geshi-highlight.php:356 | Leading zeros do not change what `intval` reads. |
| Reinsertion.Pad6RoundTrip | wp-geshi-highlight.php:255 | Below one million, the padded index has exactly six digits and `intval` reads it back. |
| Reinsertion.Pad6TooWide | wp-geshi-highlight.php:255 | From one million on, the padded index is wider than the six digits the reinsertion pattern reads. |
| Reinsertion.IntVal | wp-geshi-highlight.php:356 | `intval` of a digit string; its contract is stated by DecimalRoundTrip, IntValLeadingZeros and Pad6RoundTrip. |
| Reinsertion.Placeholder | wp-geshi-highlight.php:254-255 | The placeholder of an index: its length is the token's plus the padded index's plus ten characters of markup. PlaceholderParts gives its parts. |
| Reinsertion.PlaceholderParts | wp-geshi-highlight.php:254-255 | For an index below one million, the placeholder is 48 characters: `\n<p>`, the 32-character token, `_`, the six-digit index, `</p>` and `\n`. |
| Reinsertion.PlaceholderAt | wp-geshi-highlight.php:346 | A match of the reinsertion pattern starts with `<p>`, followed after white space by the token. It ends within the text, past the token and the markup around it. |
| Reinsertion.MatchShape | wp-geshi-highlight.php:346 | A match is `<p>`, then white space only, then the token's hexadecimal digits. |
| Reinsertion.GetHighlightedCode | wp-geshi-highlight.php:353-359 | The stored output of the index, or `""` when none is stored. |
| Reinsertion.ReinsertCopies | wp-geshi-highlight.php:345-349 | A stretch where the pattern matches nowhere is copied unchanged. |
| Reinsertion.Reinsert | wp-geshi-highlight.php:345-349 | The reinsertion filter from a position on; its contract is stated by ReinsertCopies and ReinsertPlaceholder. |
| Reinsertion.ReinsertText | wp-geshi-highlight.php:343-350 | `wp_geshi_insert_highlighted_code_filter` over a whole text; its contract is stated by NoTokenNoChange and Snippets.ReinsertUndoesProtect. |
| Reinsertion.PlaceholderRecognised | wp-geshi-highlight.php:346 | The pattern finds a placeholder at its `<p>`, reads back its index and ends at its `</p>`. |
| Reinsertion.ReinsertPlaceholder | wp-geshi-highlight.php:343-359 | A placeholder is turned into the stored output of its index, between the two newlines around it. |
| Reinsertion.NoTokenNoChange | wp-geshi-highlight.php:343-350 | A text that does not contain the token, in any case, passes the filter unchanged. |
| Snippets.ReinsertUndoesProtect | wp-geshi-highlight.php:343-359 | Round trip: protection (lines 225-256) and then reinsertion put each snippet's stored output, between two newlines, exactly where the snippet and the white space before it were. This holds when the text does not contain the token and the run has at most one million snippets. |
| Snippets.NoSnippetNoChange | wp-geshi-highlight.php:225-233 | A text without snippets passes protection and rendering unchanged. |
| Snippets.ProtectText | wp-geshi-highlight.php:225-233 | `wp_geshi_filter_replace_code` over a whole text, each snippet replaced by its placeholder; its contract is stated by ReinsertUndoesProtect and NoSnippetNoChange. |
| Snippets.RenderText | wp-geshi-highlight.php:225-233 | The text with each snippet, and the white space before it, replaced by its stored output between two newlines; it is the reference ReinsertUndoesProtect compares against. |
| Highlight.BlankLineFound | wp-geshi-highlight.php:364 | `^\s*\n` (lazy) ends just after the first newline that only white space precedes. It matches nothing when no such newline exists. |
| Highlight.CodeTrimCuts | wp-geshi-highlight.php:362-367 | The trimmed code is a slice of the code after the cut first line, ends in a non-space, and only white space was cut from the end. |
| Highlight.CodeTrimDropsBlankLine | wp-geshi-highlight.php:364-365 | A blank first line is removed with its newline, and nothing else is removed from the front. |
| Highlight.CodeTrimKeepsIndentation | wp-geshi-highlight.php:363-365 | A first line with content keeps its leading white space. Only trailing white space is cut. |
| Highlight.NumberingCases | wp-geshi-highlight.php:299-301 | Line numbers are off exactly when the trimmed `line` is `""` or `"0"` (PHP falsiness). Otherwise GeSHi starts at the trimmed value. |
| Highlight.LanguageNormalForm | wp-geshi-highlight.php:283 | The language handed to GeSHi has no capitals and no white space at either end, and normalising it again changes nothing. |
| Highlight.DecodedOnlyWhenTrue | wp-geshi-highlight.php:285-289 | Entities are decoded exactly when the trimmed `escaped` group is `true` in lower case. |
| Highlight.CodeTrim | wp-geshi-highlight.php:362-367 | `wp_geshi_code_trim`; its contract is stated by CodeTrimCuts, CodeTrimDropsBlankLine and CodeTrimKeepsIndentation. |
| Highlight.Numbering | wp-geshi-highlight.php:299-301 | The line-numbering setting from the `line` group; its contract is stated by NumberingCases. |
| Highlight.Normalise | wp-geshi-highlight.php:283-289 | The settings of one match array; its contract is stated by LanguageNormalForm, DecodedOnlyWhenTrue and NumberingCases. |
| Highlight.CssName | wp-geshi-highlight.php:318-322 | `none` means no wrapper. `""` and `"0"` (PHP `empty`) mean the default file `wp-geshi-highlight`. Any other name is kept as given. |
| Highlight.Requested | wp-geshi-highlight.php:319-324 | A snippet adds exactly one CSS file to the requested list, unless it says `none`: the default file for `""` and `"0"`, otherwise the name as given. |
| Highlight.UnwrapWrap | wp-geshi-highlight.php:325-334 | GeSHi's output sits in the wrapper untouched. It can be cut out again, and the wrapper around it does not depend on it. |
| Highlight.WrapTailCloses | wp-geshi-highlight.php:334 | The wrapper closes exactly the six `div`s it opens. |
| Highlight.InnermostClass | wp-geshi-highlight.php:330 | The CSS file's name is the class of the innermost `div`. |
| Highlight.OutputHoldsHighlightedCode | wp-geshi-highlight.php:317-335 | The stored output is GeSHi's output as is for `none`. Otherwise it is GeSHi's output wrapped in the `div`s of the requested file, from which it can be cut out again. |
| Highlight.Output | wp-geshi-highlight.php:317-335 | The HTML stored for one snippet; its contract is stated by OutputHoldsHighlightedCode. |
| Highlight.Css | wp-geshi-highlight.php:307-315 | The CSS string after a sequence of snippets, in economy or full mode; its contract is stated by FullCssIsNewLanguages, FullCssDependsOnlyOnLanguages, EconomyCssDependsOnOrder and SameLanguageTwice. |
| Highlight.FullCssIsNewLanguages | wp-geshi-highlight.php:307-315 | With full stylesheets, the CSS string is the stylesheet of each newly used language, once each, in order of first use. |
| Highlight.FullCssDependsOnlyOnLanguages | wp-geshi-highlight.php:307-311 | With full stylesheets, the CSS string depends only on the sequence of languages. |
| Highlight.EconomyCssDependsOnOrder | wp-geshi-highlight.php:314 | As written, in economy mode: one language used with and without line numbers gets different CSS depending on which snippet comes first (see Findings). |
| Highlight.SameLanguageTwice | wp-geshi-highlight.php:312-315 | Of two snippets of one language, only the first one's stylesheet is added. |
| Lists.AppendNewGrows | wp-geshi-highlight.php:312-313 | The used-languages list only grows, holds exactly the languages met, and never holds one twice. |
| Lists.DedupKeepsDistinct | wp-geshi-highlight.php:383 | `array_unique` leaves a list without repetitions unchanged. |
| Lists.DedupDropsRepeat | wp-geshi-highlight.php:383 | `array_unique` keeps the first copy: requesting a file again changes nothing. |
| Lists.AppendNew | wp-geshi-highlight.php:312-313 | The `in_array` test and append over a list of languages; its contract is stated by AppendNewGrows. |
| Lists.Dedup | wp-geshi-highlight.php:383 | `array_unique`; its contract is stated by DedupKeepsDistinct and DedupDropsRepeat. |
| Head.LinkedFilters | wp-geshi-highlight.php:394-400 | A file is linked exactly when its path exists, and a list without repetitions stays so. |
| Head.LinkedOnce | wp-geshi-highlight.php:383-386 | Every requested file that exists is linked, and none is linked twice, however often it was requested. |
| Head.StyleTag | wp-geshi-highlight.php:389-390 | The `<style>` element holds the CSS string unchanged. |
| Head.StyleBlock | wp-geshi-highlight.php:388-390 | The style block is written exactly when the CSS string is not empty. |
| Head.LinksHoldTags | wp-geshi-highlight.php:384-386 | The links hold each listed file's `<link>` tag, at the offset the tags of the files before it take up. |
| Head.HeadShape | wp-geshi-highlight.php:370-391 | The head starts with the banner, followed by the link tags of the existing requested files. It ends with the style element exactly when the CSS string is not empty, and ends after the links otherwise. |
| Head.HeadHtml | wp-geshi-highlight.php:370-391 | The head output of `wp_geshi_add_css_to_head`; its contract is stated by HeadShape, LinksHoldTags, LinkedOnce and StyleBlock. |
| Run.Stored | wp-geshi-highlight.php:249-250 | The match arrays of one text are stored in order, each under the next index, with that index appended. |
| Run.MatchesOf | wp-geshi-highlight.php:226-232 | One match array per snippet of the text. |
| Run.MatchesOfFields | wp-geshi-highlight.php:226-232 | The match arrays of a text are those of the matches the scan of its lower-cased text finds, one for one and in order. |
| Run.StoringKeepsDense | wp-geshi-highlight.php:242-250 | Since each index is the count of entries so far, the store's indices stay 0 to N-1. |
| Run.DetectionAppends | wp-geshi-highlight.php:179-194 | Detection over posts and comments only appends to the store, and the indices stay dense. |
| Run.CommentsAppend | wp-geshi-highlight.php:188-192 | The same for the approved comments of one post. |
| Run.AfterComments | wp-geshi-highlight.php:188-192 | The store and the comments map after the approved comments of one post; its contract is stated by CommentsAppend, CommentSnippetStored and CommentKept. |
| Run.AfterPosts | wp-geshi-highlight.php:179-194 | The store and the comments map after detection over the posts; its contract is stated by DetectionAppends, PostSnippetStored and CommentKept. |
| Run.PostSnippetStored | wp-geshi-highlight.php:242-255 | Snippet j of post k is stored under the index its placeholder carries: the post's first index plus j. |
| Run.PostReadsBack | wp-geshi-highlight.php:343-359 | After a run, each snippet of a post reads back as the output of that snippet's own groups, and the reinsertion filter turns the replaced post into the post with every snippet filled in. This holds when the post does not contain the token and the run has at most one million snippets. |
| Run.CommentSnippetStored | wp-geshi-highlight.php:188-192 | Snippet i of comment j of post k is stored under the index its placeholder carries: the comment's first index plus i. |
| Run.CommentKept | wp-geshi-highlight.php:188-192 | At the end of detection the comments map holds, under a comment's ID, the text kept for it, when no comment stored later has the same ID. |
| Run.CommentReadsBack | wp-geshi-highlight.php:199-212 | The comment counterpart of PostReadsBack: each snippet of an approved comment reads back as the output of its own groups, and the reinsertion filter turns the kept comment text into the comment with every snippet filled in. This holds when the comment does not contain the token and the run has at most one million snippets. |
| Run.OutputsAt | wp-geshi-highlight.php:335 | After the loop, exactly the stored indices have an output, each that of its own snippet. |
| Run.RoundStep | wp-geshi-highlight.php:280-336 | One round of the highlight loop takes its state after i snippets to its state after i+1, with the stylesheet in the given mode (economy or full), and the used languages stay distinct. |
| Run.AccumulatedAll | wp-geshi-highlight.php:280-336 | After the loop: the languages in order of first use, their stylesheets in the given mode, the requested files, and every snippet's output. |
| Run.HighlightOnce | wp-geshi-highlight.php:312-335 | One round of the highlight loop on the accumulated globals; RoundStep ties it to Accumulated. |
| Run.Accumulated | wp-geshi-highlight.php:280-336 | The globals after the first n rounds of the highlight loop; RoundStep and AccumulatedAll state its contract. |
| Run.RenderSnippet | wp-geshi-highlight.php:317-335 | The loop body yields the snippet's output and the CSS file it requests. |
| Run.EchoLinks | wp-geshi-highlight.php:384-386 | The loop over the requested files writes one link tag for each file whose path exists, in order. |
| Run.RunContext.StoreAndSubstitute | wp-geshi-highlight.php:237-256 | The groups are stored under the next index, the placeholder of that index is returned, and nothing else changes. |
| Run.RunContext.ReplaceNext | wp-geshi-highlight.php:226-232 | One callback round: the next snippet is stored and its placeholder written, preserving the replace invariants. |
| Run.RunContext.FilterReplaceCode | wp-geshi-highlight.php:225-233 | The returned text is the protected text, and the store gains the text's match arrays under the next indices. |
| Run.RunContext.FilterAndReplaceCodeSnippets | wp-geshi-highlight.php:179-194 | Every post's content is replaced in place. The store and the comments map end as detection over the posts and their approved comments prescribes. |
| Run.RunContext.ReplaceInComments | wp-geshi-highlight.php:188-192 | The replaced text of each approved comment is kept under its ID, and its snippets are stored. |
| Run.RunContext.HighlightAndGenerateCss | wp-geshi-highlight.php:263-340 | After the loop, the globals hold the languages, CSS (economy or full stylesheets, by the `economy` parameter), requested files and outputs of all stored snippets, and the used languages stay distinct. |
| Run.RunContext.HighlightRound | wp-geshi-highlight.php:280-336 | One iteration of the loop over stored match i, proved against the loop's specification function. |
| Run.RunContext.HighlightMatch | wp-geshi-highlight.php:312-335 | A new language is recorded with its stylesheet in the mode asked for (economy as written), the requested file is appended, and the output is stored under the match's index. |
| Run.RunContext.ResetAndDetect | wp-geshi-highlight.php:124-140 | The per-run lists are reset, the token is set, and the posts and comments are searched. |
| Run.RunContext.HighlightAndAddHooks | wp-geshi-highlight.php:147-170 | The snippets are highlighted, then the action and filters are added. |
| Run.RunContext.RunMain | wp-geshi-highlight.php:124-171 | Hooks are added exactly when a snippet was found. In that case the globals hold the highlight results of all snippets, with economy stylesheets when `economy` is true as the code is written; otherwise nothing was highlighted. |
| Run.RunContext.InsertCommentsWithUuid | wp-geshi-highlight.php:199-212 | A re-read comment whose ID was kept gets its kept text, and every other comment stays as it was. |
| Run.RunContext.InsertHighlightedCodeFilter | wp-geshi-highlight.php:343-350 | For the run's md5 token, the loop computes exactly the reinsertion filter over the content. |
| Run.RunContext.AddCssToHead | wp-geshi-highlight.php:370-391 | The requested list loses its repetitions. The head written is the banner, the links of the existing requested files, and the style block. |

## Left out

- GeSHi itself (`parse_code`, `get_stylesheet`, `enable_classes` and the other
  settings calls) and `htmlspecialchars_decode`: they are opaque functions of
  the `Library` parameter. The model never looks inside GeSHi.
- The WordPress hooks: `add_action` and `add_filter` are modelled as one
  `hooksAdded` flag. Filter priorities and the order in which WordPress calls
  the filters are not modelled, and nor are `get_approved_comments`,
  `file_exists`, `WP_PLUGIN_DIR` and `WP_PLUGIN_URL`, which are parameters.
- `md5(uniqid(rand()))`: the randomness is not modelled. The token is a
  parameter. `RunMain`, `InsertHighlightedCodeFilter` and the round-trip
  lemmas require it to be 32 lower-case hexadecimal digits, as `md5()`
  returns.
- Reinsertion.PlaceholderAt, Reinsertion.Reinsert and Reinsertion.ReinsertText:
  they match the token as a lower-case literal. Line 346 puts the token into
  the pattern unescaped and under `/i`. The two agree only for tokens with no
  capitals and no regex metacharacters, as `md5()` tokens are. For other
  tokens these functions do not model PHP.
- `include_once("geshi/geshi.php")` and its `class_exists` guard: loading
  code is outside the model.
- `unset($wp_geshi_codesnipmatch_arrays)` at the end of the highlight loop
  removes only the function's local alias of the global. The store survives,
  as in the model.
- `echo`: the head output is returned as a string.
- The `allowedposttags`/`allowedtags` configuration at the end of the file:
  it is configuration for WordPress' HTML filter, not behaviour of the plugin.
- PCRE's backtracking and recursion limits: the model matches as if there
  were none. PHP's `count` of an unset global is modelled as 0.
- Characters are Dafny `char`s. Multi-byte UTF-8 and locale-dependent case
  folding are not modelled; folding is ASCII.
- `$post` objects are modelled as values in an array. The plugin changes
  them through object handles; aliasing between posts is not modelled.
- Run.RunContext.RunMain: it requires a fresh state, so it models the first
  call of a request only. Globals left over from an earlier call in the same
  request are not modelled.
- Run.RunContext.HighlightMatch, Run.RunContext.RunMain, Highlight.Css and
  Lists.AppendNew: languages are compared exactly. PHP's `in_array` at
  line 312 compares loosely, so two numeric language names such as `10` and
  `1e1` would count as one language there. PHP's numeric-string rules are not
  modelled.
- Run.CommentKept: it is stated for a comment whose ID no comment stored
  later carries. With a repeated ID, the later comment's text overwrites the
  earlier one in the comments map, as the array assignment at line 190 does.
- Snippets.ReinsertUndoesProtect: it is stated only for texts that do not
  contain the token and for runs of at most one million snippets. A
  seven-digit index is not read back by `\d{6}` (Pad6TooWide), and a token in
  the original text could be mistaken for a placeholder.
- Run.RunContext.ReplaceNext, Run.RunContext.HighlightRound,
  Run.RunContext.ResetAndDetect and Run.RunContext.HighlightAndAddHooks:
  these are loop bodies and method halves split out of one PHP function, so
  that each proof stays small.

## Findings

| source | as written | input that shows it | evidently intended | confidence | as-written member | corrected member |
|---|---|---|---|---|---|---|
| wp-geshi-highlight.php:314 | `$geshi->get_stylesheet()` is called with its default argument, which is economy mode. The comment at lines 307-311 says `get_stylesheet(false)` is used, to get the full CSS that serves every block of the language. | Two snippets of one language, one without `line` and one with `line="1"`, in either order. Only the first snippet's stylesheet is added, and in economy mode it depends on that snippet's line numbering, so the order decides whether the line-number rules are there. | `get_stylesheet(false)`: the full stylesheet of each language, so the CSS string depends only on the languages used. | not executed; medium (depends on GeSHi's economy mode leaving out rules that the current settings do not use) | Highlight.EconomyCssDependsOnOrder | Highlight.FullCssDependsOnlyOnLanguages |
