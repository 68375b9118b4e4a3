/**
  One pass of `wp_geshi_highlight_and_generate_css` over a snippet, as values:
  the captured groups are normalised, the code is trimmed (and decoded when
  the snippet says it is escaped), GeSHi renders it, the output is wrapped in
  the six `div`s named after the CSS file, and the stylesheet of every language
  met for the first time is added to the CSS string.

  GeSHi and `htmlspecialchars_decode` are functions this model does not look
  into; they are fields of `Library`.
*/
module Highlight {
  import opened Wrappers
  import opened Chars
  import opened Lists
  import opened PreTag

  /** The `line` attribute: no line numbers, or numbers starting at a value. */
  datatype LineNumbering = NoLineNumbers | NumbersFrom(start: string)

  /** What `get_stylesheet` is asked for: the full stylesheet of the language,
      or the economy one, which leaves out the rules the current settings of the
      GeSHi object do not use (the line-number rules among them). */
  datatype StyleMode = Full | Economy(numbering: LineNumbering)

  /** GeSHi's `parse_code` (code, language, numbering), its `get_stylesheet`,
      and PHP's `htmlspecialchars_decode`. */
  datatype Library = Library(
    parse: (string, string, LineNumbering) -> string,
    sheet: (string, StyleMode) -> string,
    decode: string -> string)

  /** A snippet after normalisation of its groups. */
  datatype Settings = Settings(language: string, numbering: LineNumbering, code: string, cssfile: string)

  // ---------------------------------------------------------------------------
  // wp_geshi_code_trim

  /** `code[..k]` is white space on one line. */
  predicate BlankBefore(code: string, k: nat)
    requires k <= |code|
  {
    forall i :: 0 <= i < k ==> IsSpace(code[i]) && code[i] != '\n'
  }

  /** The end of the text `^\s*\n` matches lazily, searching on from `i`, or 0
      when it does not match. */
  function BlankLineFrom(code: string, i: nat): (c: nat)
    requires i <= |code|
    ensures c == 0 || i < c <= |code|
    decreases |code| - i
  {
    if i == |code| then 0
    else if code[i] == '\n' then i + 1
    else if IsSpace(code[i]) then BlankLineFrom(code, i + 1)
    else 0
  }

  /** The match ends just after a newline that only white space precedes, and
      there is no match only when no such newline follows. */
  lemma {:induction false} BlankLineFound(code: string, i: nat)
    requires i <= |code| && BlankBefore(code, i)
    ensures var c := BlankLineFrom(code, i);
      && (c == 0 || (code[c - 1] == '\n' && BlankBefore(code, c - 1)))
      && (c == 0 ==> forall k :: i <= k < |code| && code[k] == '\n' ==> !BlankBefore(code, k))
    decreases |code| - i
  {
    if i < |code| && code[i] != '\n' && IsSpace(code[i]) {
      BlankLineFound(code, i + 1);
    }
  }

  /** How much of the front `preg_replace("/^\s*\n/siU", "", ...)` removes:
      the first line when it is blank, with its newline, and nothing else. */
  function FirstLineCut(code: string): (c: nat)
    ensures c <= |code|
  {
    BlankLineFrom(code, 0)
  }

  /** `wp_geshi_code_trim`: a blank first line goes, then trailing white space. */
  function CodeTrim(code: string): string {
    RTrim(code[FirstLineCut(code)..])
  }

  /** The trimmed code is a slice of the code after the cut first line, ends
      without white space, and only white space is cut from its end. */
  lemma CodeTrimCuts(code: string)
    ensures var r := CodeTrim(code);
      && (r == [] || !IsPhpSpace(r[|r| - 1]))
      && FirstLineCut(code) + |r| <= |code|
      && r == code[FirstLineCut(code)..FirstLineCut(code) + |r|]
      && (forall i :: FirstLineCut(code) + |r| <= i < |code| ==> IsPhpSpace(code[i]))
  {
    var c := FirstLineCut(code);
    var t := code[c..];
    RTrimCuts(t);
    forall i | c + |RTrim(t)| <= i < |code| ensures IsPhpSpace(code[i]) {
      assert code[i] == t[i - c];
    }
  }

  /** A blank first line is removed with its newline, and only that line. */
  lemma CodeTrimDropsBlankLine(blank: string, rest: string)
    requires forall i :: 0 <= i < |blank| ==> IsSpace(blank[i]) && blank[i] != '\n'
    ensures CodeTrim(blank + "\n" + rest) == RTrim(rest)
  {
    var code := blank + "\n" + rest;
    assert BlankBefore(code, |blank|) && code[|blank|] == '\n';
    BlankLineFound(code, 0);
    var c := FirstLineCut(code);
    assert c == |blank| + 1;
    assert code[c..] == rest;
  }

  /** A first line that holds more than white space keeps its indentation:
      only trailing white space is cut. */
  lemma CodeTrimKeepsIndentation(code: string, j: nat)
    requires j < |code| && !IsSpace(code[j])
    requires forall i :: 0 <= i < j ==> code[i] != '\n'
    ensures CodeTrim(code) == RTrim(code)
  {
    assert !BlankBefore(code, j + 1);
    BlankLineFound(code, 0);
  }

  // ---------------------------------------------------------------------------
  // Normalising the groups

  /** `if ($line)`: PHP takes "" and "0" as false. */
  function Numbering(line: string): LineNumbering {
    var t := Trim(line);
    if t == "" || t == "0" then NoLineNumbers else NumbersFrom(t)
  }

  /** Numbering is off exactly when the trimmed attribute is "" or "0";
      otherwise GeSHi is given the trimmed attribute, which is not empty and
      has no white space at either end. */
  lemma NumberingCases(line: string)
    ensures Numbering(line).NoLineNumbers? <==> Trim(line) == "" || Trim(line) == "0"
    ensures Numbering(line).NumbersFrom? ==>
      var st := Numbering(line).start;
      st == Trim(line) && st != [] && !IsPhpSpace(st[0]) && !IsPhpSpace(st[|st| - 1])
  {
    TrimCuts(line);
  }

  /** The groups of one stored match as the loop uses them: the language
      trimmed and lower-cased, the code trimmed and decoded only when the
      trimmed `escaped` group is exactly `true`. */
  function Normalise(m: RawMatch, decode: string -> string): Settings {
    var code := CodeTrim(m.code);
    Settings(LowerAll(Trim(m.lang)), Numbering(m.line), if Trim(m.escaped) == "true" then decode(code) else code, Trim(m.cssfile))
  }

  /** The language GeSHi is given is in normal form: no capital letters, no
      white space at either end, and normalising it again changes nothing. */
  lemma LanguageNormalForm(m: RawMatch, decode: string -> string)
    ensures var l := Normalise(m, decode).language;
      && (forall i :: 0 <= i < |l| ==> !IsUpper(l[i]))
      && (l == [] || (!IsPhpSpace(l[0]) && !IsPhpSpace(l[|l| - 1])))
      && LowerAll(Trim(l)) == l
  {
    var t := Trim(m.lang);
    var l := LowerAll(t);
    TrimCuts(m.lang);
    forall i | 0 <= i < |l| ensures !IsUpper(l[i]) && IsPhpSpace(l[i]) == IsPhpSpace(t[i]) && Lower(l[i]) == l[i] {
      LowerKeepsPhpSpace(t[i]);
    }
    TrimOfTrimmed(l);
    assert LowerAll(l) == l;
  }

  /** Lower-casing keeps PHP white space and is done after one step. */
  lemma LowerKeepsPhpSpace(c: char)
    ensures !IsUpper(Lower(c)) && IsPhpSpace(Lower(c)) == IsPhpSpace(c) && Lower(Lower(c)) == Lower(c)
  {
  }

  /** Trimming a text without white space at its ends changes nothing. */
  lemma TrimOfTrimmed(s: string)
    requires s == [] || (!IsPhpSpace(s[0]) && !IsPhpSpace(s[|s| - 1]))
    ensures Trim(s) == s
  {
    if s != [] {
      assert LTrim(s) == s;
      assert RTrim(s) == s;
    }
  }

  /** Entities are decoded exactly when the `escaped` group, trimmed, is
      `true` in lower case; `escaped="TRUE"` is accepted by the pattern but
      leaves the code as it is. */
  lemma DecodedOnlyWhenTrue(m: RawMatch, decode: string -> string)
    requires decode(CodeTrim(m.code)) != CodeTrim(m.code)
    ensures Normalise(m, decode).code != CodeTrim(m.code) <==> Trim(m.escaped) == "true"
  {
  }

  // ---------------------------------------------------------------------------
  // Wrapping

  const DefaultCssFile: string := "wp-geshi-highlight"

  /** The CSS file a snippet asks for: none for `none`, the default for what
      PHP's `empty` holds true ("" and "0"), the given name otherwise. */
  function CssName(cssfile: string): (r: Option<string>)
    ensures r.None? <==> cssfile == "none"
    ensures r.Some? ==> r.value != "" && r.value != "0"
    ensures r.Some? && cssfile != "" && cssfile != "0" ==> r.value == cssfile
    ensures cssfile == "" || cssfile == "0" ==> r == Some(DefaultCssFile)
  {
    if cssfile == "none" then None
    else if cssfile == "" || cssfile == "0" then Some(DefaultCssFile)
    else Some(cssfile)
  }

  /** What the six nested `div`s append to the CSS file's name for their
      class, outermost first: the innermost one's class is the name itself. */
  const WrapSuffixes: seq<string> := ["-wrap5", "-wrap4", "-wrap3", "-wrap2", "-wrap", ""]

  /** Opening `div`s whose classes are `name` with the given suffixes, in order. */
  function OpenDivs(name: string, suffixes: seq<string>): string
    decreases |suffixes|
  {
    if suffixes == [] then "" else "<div class=\"" + name + suffixes[0] + "\">" + OpenDivs(name, suffixes[1..])
  }

  /** `n` closing `div`s. */
  function CloseDivs(n: nat): (r: string)
    ensures |r| == 6 * n
  {
    if n == 0 then "" else "</div>" + CloseDivs(n - 1)
  }

  /** What comes before the highlighted code. */
  function WrapHead(name: string): string {
    "\n\n" + OpenDivs(name, WrapSuffixes)
  }

  /** What comes after it. */
  const WrapTail: string := "</div></div></div></div></div></div>\n\n"

  /** The highlighted code in the wrapper named `name`. */
  function Wrap(name: string, body: string): (r: string)
    ensures |r| == |WrapHead(name)| + |body| + |WrapTail|
  {
    WrapHead(name) + body + WrapTail
  }

  /** Cutting the wrapper off again. */
  function Unwrap(name: string, out: string): string {
    var a := |WrapHead(name)|;
    var b := |WrapTail|;
    if a + b <= |out| then out[a..|out| - b] else out
  }

  /** The highlighted code sits in the wrapper untouched: it can be cut out
      again, and the wrapper around it does not depend on it. */
  lemma UnwrapWrap(name: string, body: string)
    ensures Unwrap(name, Wrap(name, body)) == body
    ensures Wrap(name, body)[..|WrapHead(name)|] == WrapHead(name)
    ensures Wrap(name, body)[|WrapHead(name)| + |body|..] == WrapTail
  {
    var r := Wrap(name, body);
    assert r == WrapHead(name) + body + WrapTail;
    assert r[|WrapHead(name)|..|r| - |WrapTail|] == body;
  }

  /** The wrapper closes exactly the six `div`s it opens, and the CSS file's
      name is the class of the innermost one. */
  lemma WrapTailCloses()
    ensures WrapTail == CloseDivs(|WrapSuffixes|) + "\n\n"
  {
    assert CloseDivs(2) == "</div></div>" by { assert CloseDivs(1) == "</div>"; }
    assert CloseDivs(4) == "</div></div></div></div>" by { assert CloseDivs(3) == "</div>" + CloseDivs(2); }
    assert CloseDivs(6) == "</div></div></div></div></div></div>" by { assert CloseDivs(5) == "</div>" + CloseDivs(4); }
  }

  /** The CSS file's name is the class of the innermost `div`. */
  lemma InnermostClass(name: string)
    ensures OpenDivs(name, WrapSuffixes[5..]) == "<div class=\"" + name + "\">"
  {
    assert WrapSuffixes[5..][1..] == [];
    assert name + WrapSuffixes[5..][0] == name;
  }

  /** The HTML stored for one snippet. */
  function Output(s: Settings, lib: Library): string {
    var body := lib.parse(s.code, s.language, s.numbering);
    match CssName(s.cssfile)
    case None => body
    case Some(name) => Wrap(name, body)
  }

  /** GeSHi's output is stored as it is for `cssfile="none"`, and in the
      wrapper of the requested CSS file otherwise, from which it can be cut out
      again. */
  lemma OutputHoldsHighlightedCode(s: Settings, lib: Library)
    ensures s.cssfile == "none" ==> Output(s, lib) == lib.parse(s.code, s.language, s.numbering)
    ensures s.cssfile != "none"
        ==> Output(s, lib) == Wrap(CssName(s.cssfile).value, lib.parse(s.code, s.language, s.numbering))
    ensures s.cssfile != "none"
        ==> Unwrap(CssName(s.cssfile).value, Output(s, lib)) == lib.parse(s.code, s.language, s.numbering)
  {
    if s.cssfile != "none" {
      UnwrapWrap(CssName(s.cssfile).value, lib.parse(s.code, s.language, s.numbering));
    }
  }

  /** The CSS files a snippet adds to the requested list: its name, or
      nothing for `none`. */
  function Requested(s: Settings): (r: seq<string>)
    ensures |r| <= 1
    ensures r == [] <==> s.cssfile == "none"
    ensures s.cssfile != "none"
        ==> r == [if s.cssfile == "" || s.cssfile == "0" then DefaultCssFile else s.cssfile]
  {
    match CssName(s.cssfile)
    case None => []
    case Some(name) => [name]
  }

  /** The requested list after the loop has seen `items`. */
  function RequestedFiles(items: seq<Settings>): seq<string>
    decreases |items|
  {
    if items == [] then [] else RequestedFiles(items[..|items| - 1]) + Requested(items[|items| - 1])
  }

  // ---------------------------------------------------------------------------
  // The CSS string

  /** The languages of the snippets, in order. */
  function Languages(items: seq<Settings>): (ls: seq<string>)
    ensures |ls| == |items| && forall i :: 0 <= i < |items| ==> ls[i] == items[i].language
  {
    seq(|items|, i requires 0 <= i < |items| => items[i].language)
  }

  /** The stylesheet asked for: the economy one (what `get_stylesheet()`
      returns, its argument defaulting to economy mode) or the full one. */
  function Mode(s: Settings, economy: bool): StyleMode {
    if economy then Economy(s.numbering) else Full
  }

  /** The CSS string after the loop has seen `items`, `used` being the
      languages seen before: the stylesheet of a language is added when the
      language is not yet in the list. */
  function Css(used: seq<string>, items: seq<Settings>, lib: Library, economy: bool): string
    decreases |items|
  {
    if items == [] then ""
    else
      var init := items[..|items| - 1];
      var s := items[|items| - 1];
      Css(used, init, lib, economy)
        + (if s.language in AppendNew(used, Languages(init)) then "" else lib.sheet(s.language, Mode(s, economy)))
  }

  /** The full stylesheets of the given languages, in order. */
  function FullSheets(languages: seq<string>, lib: Library): string
    decreases |languages|
  {
    if languages == [] then ""
    else FullSheets(languages[..|languages| - 1], lib) + lib.sheet(languages[|languages| - 1], Full)
  }

  /** With full stylesheets, the CSS string is the stylesheet of every newly
      used language, each once, in the order of first use. */
  lemma {:induction false} FullCssIsNewLanguages(used: seq<string>, items: seq<Settings>, lib: Library)
    ensures var ls := AppendNew(used, Languages(items));
      |used| <= |ls| && Css(used, items, lib, false) == FullSheets(ls[|used|..], lib)
    decreases |items|
  {
    AppendNewGrows(used, Languages(items));
    if items != [] {
      var init := items[..|items| - 1];
      var s := items[|items| - 1];
      FullCssIsNewLanguages(used, init, lib);
      var r := AppendNew(used, Languages(init));
      AppendNewGrows(used, Languages(init));
      assert Languages(items)[..|items| - 1] == Languages(init);
      if s.language !in r {
        assert (r + [s.language])[|used|..] == r[|used|..] + [s.language];
        assert (r[|used|..] + [s.language])[..|r| - |used|] == r[|used|..];
      }
    }
  }

  /** The stylesheets are added in the order of first use, one per language:
      the CSS string depends only on the sequence of languages, not on the
      line numbering of the snippets that use them. */
  lemma FullCssDependsOnlyOnLanguages(used: seq<string>, a: seq<Settings>, b: seq<Settings>, lib: Library)
    requires Languages(a) == Languages(b)
    ensures Css(used, a, lib, false) == Css(used, b, lib, false)
  {
    FullCssIsNewLanguages(used, a, lib);
    FullCssIsNewLanguages(used, b, lib);
  }

  /** As the loop is written (`get_stylesheet()` in economy mode), the rules
      a language gets depend on the first snippet of that language: a snippet
      without line numbers followed by one with them yields different CSS than
      the same two snippets the other way round, whenever the economy
      stylesheets of the two numberings differ. */
  lemma EconomyCssDependsOnOrder(lib: Library, language: string, code: string, cssfile: string)
    requires lib.sheet(language, Economy(NoLineNumbers)) != lib.sheet(language, Economy(NumbersFrom("1")))
    ensures var plain := Settings(language, NoLineNumbers, code, cssfile);
      var numbered := Settings(language, NumbersFrom("1"), code, cssfile);
      && Languages([plain, numbered]) == Languages([numbered, plain])
      && Css([], [plain, numbered], lib, true) != Css([], [numbered, plain], lib, true)
  {
    var plain := Settings(language, NoLineNumbers, code, cssfile);
    var numbered := Settings(language, NumbersFrom("1"), code, cssfile);
    SameLanguageTwice(plain, numbered, lib);
    SameLanguageTwice(numbered, plain, lib);
  }

  /** Two snippets of one language: only the first one's stylesheet is added. */
  lemma SameLanguageTwice(a: Settings, b: Settings, lib: Library)
    requires a.language == b.language
    ensures Languages([a, b]) == [a.language, a.language]
    ensures Css([], [a, b], lib, true) == lib.sheet(a.language, Mode(a, true))
  {
    assert [a, b][..1] == [a];
    assert [a][..0] == [];
    assert Css([], [a], lib, true) == lib.sheet(a.language, Mode(a, true));
    assert Languages([a]) == [a.language];
    assert AppendNew([], [a.language]) == [a.language] by {
      assert [a.language][..0] == [];
    }
  }
}
