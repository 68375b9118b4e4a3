/**
  The snippet recogniser of `wp_geshi_filter_replace_code`: the pattern

      \s*<pre(?:lang=["']([\w-]+)["']|line=["'](\d*)["']
         |escaped=["'](true|false)?["']|cssfile=["']([\S]+)["']|\s)+>(.*)<\/pre>\s*

  with the flags `s` (dot matches newline), `i` (caseless) and `U` (every
  quantifier lazy), written out as the backtracking search PCRE performs.

  Caseless matching: every class in the pattern (`\s`, `\d`, `[\w-]`, `\S`,
  the quotes) holds a letter exactly when it holds the other case of it, so
  matching caselessly is the same as matching the lower-cased text exactly
  against the lower-cased pattern. The recogniser therefore reads the folded
  text `f == LowerAll(s)`, and the captured groups are cut out of `s` itself.

  Because of `U`:
  - the leading `\s*?` still swallows the whole run of white space in front of
    `<pre`, since the search tries start positions from left to right;
  - the repeated attribute group is `+?`: after every item the closing `>` and
    the body are tried before another item;
  - the body `.*?` ends at the first `</pre>`;
  - the trailing `\s*?` matches nothing, so white space after `</pre>` stays.
  The four attribute items start with different literals, so at any position
  at most one of them applies; the only choice point left is the lazy
  `[\S]+?` of `cssfile`, whose value may itself contain quotes.
*/
module PreTag {
  import opened Wrappers
  import opened Chars

  datatype Span = Span(lo: nat, hi: nat)

  /** Capture groups 1 to 4: lang, line, escaped, cssfile. A group inside the
      repeated item keeps the value of the last iteration that set it. */
  datatype Groups = Groups(lang: Option<Span>, line: Option<Span>, escaped: Option<Span>, cssfile: Option<Span>)

  const NoGroups := Groups(None, None, None, None)

  /** The part of a match after `<pre`: the tag's closing `>`, the position of `</pre>`, the groups. */
  datatype TagRest = TagRest(gt: nat, close: nat, groups: Groups)

  /** One match: its start (leading white space included), `<pre`, the tag's `>`, `</pre>`, the groups. */
  datatype Match = Match(start: nat, tag: nat, gt: nat, close: nat, groups: Groups) {
    /** The match ends right after `</pre>`. */
    function End(): nat { close + 6 }
  }

  /** The fields `preg_replace_callback` hands to the callback: the whole match and groups 1 to 5. */
  datatype RawMatch = RawMatch(whole: string, lang: string, line: string, escaped: string, cssfile: string, code: string)

  predicate CloseAt(f: string, i: nat) {
    At(f, i, "</pre>")
  }

  predicate Within(o: Option<Span>, lo: nat, hi: nat) {
    o.Some? ==> lo <= o.value.lo <= o.value.hi <= hi
  }

  /** What each group can hold: `[\w-]+`, `\d*`, `true|false`, `[\S]+`. */
  predicate GroupsOk(f: string, g: Groups, lo: nat, hi: nat) {
    && hi <= |f|
    && Within(g.lang, lo, hi) && Within(g.line, lo, hi) && Within(g.escaped, lo, hi) && Within(g.cssfile, lo, hi)
    && (g.lang.Some? ==>
          (g.lang.value.lo < g.lang.value.hi && forall i :: g.lang.value.lo <= i < g.lang.value.hi ==> IsLangChar(f[i])))
    && (g.line.Some? ==> forall i :: g.line.value.lo <= i < g.line.value.hi ==> IsDigit(f[i]))
    && (g.escaped.Some? ==>
          || (g.escaped.value.hi == g.escaped.value.lo + 4 && At(f, g.escaped.value.lo, "true"))
          || (g.escaped.value.hi == g.escaped.value.lo + 5 && At(f, g.escaped.value.lo, "false")))
    && (g.cssfile.Some? ==>
          (g.cssfile.value.lo < g.cssfile.value.hi && forall i :: g.cssfile.value.lo <= i < g.cssfile.value.hi ==> !IsSpace(f[i])))
  }

  /** A successful rest of the pattern, entered at `k`: a `>` at or after `k`
      (strictly after when no item has been read yet), and the first `</pre>`
      after it. */
  predicate RestOk(f: string, k: nat, started: bool, t: TagRest) {
    && k <= t.gt < t.close && t.close + 6 <= |f|
    && (!started ==> k < t.gt && f[k] != '>')
    && f[t.gt] == '>'
    && CloseAt(f, t.close)
    && (forall i: nat :: t.gt < i < t.close ==> !CloseAt(f, i))
  }

  /** The lazy `(.*)<\/pre>`: the first `</pre>` at or after `p`. */
  function FirstClose(f: string, p: nat): (r: Option<nat>)
    requires p <= |f|
    ensures r.Some? ==> p <= r.value && r.value + 6 <= |f| && CloseAt(f, r.value)
    ensures r.Some? ==> forall i: nat :: p <= i < r.value ==> !CloseAt(f, i)
    ensures r.None? ==> forall i: nat :: p <= i ==> !CloseAt(f, i)
    decreases |f| - p
  {
    if p + 6 > |f| then None
    else if CloseAt(f, p) then Some(p)
    else FirstClose(f, p + 1)
  }

  /** The lazy item loop `(?:lang=…|line=…|escaped=…|cssfile=…|\s)+?>(.*?)<\/pre>`,
      entered at `k`; `started` says whether an item has been read already,
      `lo` is where the tag's attributes begin. */
  function Items(f: string, ghost lo: nat, k: nat, started: bool, g: Groups): (r: Option<TagRest>)
    requires lo <= k <= |f|
    ensures r.Some? ==> RestOk(f, k, started, r.value)
    ensures r.Some? && GroupsOk(f, g, lo, k) ==> GroupsOk(f, r.value.groups, lo, r.value.gt)
    decreases |f| - k, 2
  {
    if k == |f| then None
    else if f[k] == '>' then
      // The loop may stop only after one item; a `>` is no item, so a bare `<pre>` fails here.
      if started then
        match FirstClose(f, k + 1)
        case Some(c) => Some(TagRest(k, c, g))
        case None => None
      else None
    else if At(f, k, "lang=") then LangItem(f, lo, k, g)
    else if At(f, k, "line=") then LineItem(f, lo, k, g)
    else if At(f, k, "escaped=") then EscapedItem(f, lo, k, g)
    else if At(f, k, "cssfile=") then
      if k + 9 < |f| && IsQuote(f[k + 8]) then CssfileValue(f, lo, k + 9, k + 10, g) else None
    else if IsSpace(f[k]) then Items(f, lo, k + 1, true, g)
    else None
  }

  /** `lang=["']([\w-]+?)["']` at `k`, then the rest of the loop. */
  function LangItem(f: string, ghost lo: nat, k: nat, g: Groups): (r: Option<TagRest>)
    requires lo <= k && k + 5 <= |f|
    ensures r.Some? ==> k < r.value.gt && RestOk(f, k, true, r.value)
    ensures r.Some? && GroupsOk(f, g, lo, k) ==> GroupsOk(f, r.value.groups, lo, r.value.gt)
    decreases |f| - k, 1
  {
    if k + 5 < |f| && IsQuote(f[k + 5]) then
      var j := LangRunEnd(f, k + 6);
      if k + 6 < j < |f| && IsQuote(f[j]) then Items(f, lo, j + 1, true, g.(lang := Some(Span(k + 6, j))))
      else None
    else None
  }

  /** `line=["'](\d*?)["']` at `k`, then the rest of the loop. */
  function LineItem(f: string, ghost lo: nat, k: nat, g: Groups): (r: Option<TagRest>)
    requires lo <= k && k + 5 <= |f|
    ensures r.Some? ==> k < r.value.gt && RestOk(f, k, true, r.value)
    ensures r.Some? && GroupsOk(f, g, lo, k) ==> GroupsOk(f, r.value.groups, lo, r.value.gt)
    decreases |f| - k, 1
  {
    if k + 5 < |f| && IsQuote(f[k + 5]) then
      var j := DigitRunEnd(f, k + 6);
      if j < |f| && IsQuote(f[j]) then Items(f, lo, j + 1, true, g.(line := Some(Span(k + 6, j))))
      else None
    else None
  }

  /** `escaped=["'](true|false)??["']` at `k`, then the rest of the loop. The
      empty choice comes first; when it is taken the group stays as it was. */
  function EscapedItem(f: string, ghost lo: nat, k: nat, g: Groups): (r: Option<TagRest>)
    requires lo <= k && k + 8 <= |f|
    ensures r.Some? ==> k < r.value.gt && RestOk(f, k, true, r.value)
    ensures r.Some? && GroupsOk(f, g, lo, k) ==> GroupsOk(f, r.value.groups, lo, r.value.gt)
    decreases |f| - k, 1
  {
    if k + 8 < |f| && IsQuote(f[k + 8]) then
      if k + 9 < |f| && IsQuote(f[k + 9]) then
        GroupsWiden(f, g, lo, k, k + 10);
        Items(f, lo, k + 10, true, g)
      else if At(f, k + 9, "true") && k + 13 < |f| && IsQuote(f[k + 13]) then
        GroupsEscaped(f, g, lo, k, k + 9, k + 13);
        Items(f, lo, k + 14, true, g.(escaped := Some(Span(k + 9, k + 13))))
      else if At(f, k + 9, "false") && k + 14 < |f| && IsQuote(f[k + 14]) then
        GroupsEscaped(f, g, lo, k, k + 9, k + 14);
        Items(f, lo, k + 15, true, g.(escaped := Some(Span(k + 9, k + 14))))
      else None
    else None
  }

  /** The groups read so far stay well formed when the attribute text grows. */
  lemma GroupsWiden(f: string, g: Groups, lo: nat, k: nat, k2: nat)
    requires k <= k2 <= |f|
    ensures GroupsOk(f, g, lo, k) ==> GroupsOk(f, g, lo, k2)
  {
  }

  /** Setting the escaped group to a `true` or `false` read between `k` and
      the quote after it keeps the groups well formed. */
  lemma GroupsEscaped(f: string, g: Groups, lo: nat, k: nat, a: nat, b: nat)
    requires k <= a && b < |f|
    requires (b == a + 4 && At(f, a, "true")) || (b == a + 5 && At(f, a, "false"))
    ensures GroupsOk(f, g, lo, k) && lo <= a ==> GroupsOk(f, g.(escaped := Some(Span(a, b))), lo, b + 1)
  {
  }

  /** The lazy `[\S]+?["']` of a `cssfile` value starting at `v`: the closing
      quote is tried at `j`, then further right as long as no white space is
      crossed; the first choice with which the rest of the pattern succeeds wins. */
  function CssfileValue(f: string, ghost lo: nat, v: nat, j: nat, g: Groups): (r: Option<TagRest>)
    requires lo <= v < j <= |f|
    requires forall i :: v <= i < j - 1 ==> !IsSpace(f[i])
    ensures r.Some? ==> RestOk(f, v, true, r.value)
    ensures r.Some? && GroupsOk(f, g, lo, v) ==> GroupsOk(f, r.value.groups, lo, r.value.gt)
    decreases |f| - j, 0
  {
    if j == |f| || IsSpace(f[j - 1]) then None
    else if IsQuote(f[j]) then
      var r := Items(f, lo, j + 1, true, g.(cssfile := Some(Span(v, j))));
      if r.Some? then r else CssfileValue(f, lo, v, j + 1, g)
    else CssfileValue(f, lo, v, j + 1, g)
  }

  // ---------------------------------------------------------------------------
  // The attribute grammar, stated without the search

  /** One attribute item occupies exactly `f[a..b]`: one white-space character,
      `lang=` with one or more language characters between quotes, `line=`
      with digits only, `escaped=` with nothing, `true` or `false`, or
      `cssfile=` with one or more characters that are not white space (quotes
      among them). Either quote may open or close a value. */
  predicate ItemAt(f: string, a: nat, b: nat) {
    && a < b <= |f|
    && (|| (b == a + 1 && IsSpace(f[a]))
        || (&& At(f, a, "lang=") && a + 7 < b && IsQuote(f[a + 5]) && IsQuote(f[b - 1])
            && forall i :: a + 6 <= i < b - 1 ==> IsLangChar(f[i]))
        || (&& At(f, a, "line=") && a + 7 <= b && IsQuote(f[a + 5]) && IsQuote(f[b - 1])
            && forall i :: a + 6 <= i < b - 1 ==> IsDigit(f[i]))
        || (&& At(f, a, "escaped=") && a + 10 <= b && IsQuote(f[a + 8]) && IsQuote(f[b - 1])
            && (|| b == a + 10
                || (b == a + 14 && At(f, a + 9, "true"))
                || (b == a + 15 && At(f, a + 9, "false"))))
        || (&& At(f, a, "cssfile=") && a + 10 < b && IsQuote(f[a + 8]) && IsQuote(f[b - 1])
            && forall i :: a + 9 <= i < b - 1 ==> !IsSpace(f[i])))
  }

  /** The groups after the item `f[a..b]`: the item's own group takes its
      value; white space and an empty `escaped` leave the groups as they were. */
  function ItemGroups(f: string, a: nat, b: nat, g: Groups): Groups
    requires a < b
  {
    if At(f, a, "lang=") then g.(lang := Some(Span(a + 6, b - 1)))
    else if At(f, a, "line=") then g.(line := Some(Span(a + 6, b - 1)))
    else if At(f, a, "escaped=") then
      (if b == a + 10 then g else g.(escaped := Some(Span(a + 9, b - 1))))
    else if At(f, a, "cssfile=") then g.(cssfile := Some(Span(a + 9, b - 1)))
    else g
  }

  /** `f[a..b]` is one or more items, read one after the other, which take
      the groups from `g` to `g2`. */
  predicate ItemsFrom(f: string, a: nat, b: nat, g: Groups, g2: Groups)
    decreases b - a, 1
  {
    FirstItem(f, a, b, g, g2)
  }

  /** The first of the items in `ItemsFrom` ends at some `m`, and the rest follows. */
  predicate FirstItem(f: string, a: nat, b: nat, g: Groups, g2: Groups)
    decreases b - a, 0
  {
    exists m: nat :: a < m <= b && ItemAt(f, a, m) &&
      (|| (m == b && ItemGroups(f, a, m, g) == g2)
       || ItemsFrom(f, m, b, ItemGroups(f, a, m, g), g2))
  }

  /** What the item loop entered at `k` has read when it stops at the `>` of
      `t`: nothing (allowed once an item was read before `k`), or items. */
  predicate ReadItems(f: string, k: nat, started: bool, g: Groups, t: TagRest) {
    (started && k == t.gt && t.groups == g) || ItemsFrom(f, k, t.gt, g, t.groups)
  }

  /** A `>` at `b` and a closing tag somewhere after it. */
  predicate TagClosed(f: string, b: nat) {
    b < |f| && f[b] == '>' && exists c: nat :: b < c < |f| && CloseAt(f, c)
  }

  /** The attribute names begin with different letters (`lang=` and `line=`
      differ in the second), none of them white space or `>`. */
  lemma ItemStart(f: string, k: nat)
    ensures At(f, k, "lang=") ==> f[k] == 'l' && f[k + 1] == 'a'
    ensures At(f, k, "line=") ==> f[k] == 'l' && f[k + 1] == 'i'
    ensures At(f, k, "escaped=") ==> f[k] == 'e'
    ensures At(f, k, "cssfile=") ==> f[k] == 'c'
  {
    if At(f, k, "lang=") {
      assert f[k + 0] == "lang="[0] && f[k + 1] == "lang="[1];
    }
    if At(f, k, "line=") {
      assert f[k + 0] == "line="[0] && f[k + 1] == "line="[1];
    }
    if At(f, k, "escaped=") {
      assert f[k + 0] == "escaped="[0];
    }
    if At(f, k, "cssfile=") {
      assert f[k + 0] == "cssfile="[0];
    }
  }

  /** Whatever the item loop accepts is a sequence of items of the grammar,
      and the groups it returns are the ones those items set. */
  lemma {:induction false} ItemsSound(f: string, lo: nat, k: nat, started: bool, g: Groups)
    requires lo <= k <= |f|
    ensures Items(f, lo, k, started, g).Some? ==> ReadItems(f, k, started, g, Items(f, lo, k, started, g).value)
    decreases |f| - k, 2
  {
    if k == |f| || f[k] == '>' {
    } else if At(f, k, "lang=") {
      LangSound(f, lo, k, g);
    } else if At(f, k, "line=") {
      LineSound(f, lo, k, g);
    } else if At(f, k, "escaped=") {
      EscapedSound(f, lo, k, g);
    } else if At(f, k, "cssfile=") {
      if k + 9 < |f| && IsQuote(f[k + 8]) {
        CssfileSound(f, lo, k + 9, k + 10, g);
      }
    } else if IsSpace(f[k]) {
      ItemsSound(f, lo, k + 1, true, g);
      if Items(f, lo, k + 1, true, g).Some? {
        assert ItemAt(f, k, k + 1) && ItemGroups(f, k, k + 1, g) == g;
      }
    }
  }

  lemma {:induction false} LangSound(f: string, lo: nat, k: nat, g: Groups)
    requires lo <= k && At(f, k, "lang=")
    ensures LangItem(f, lo, k, g).Some? ==> ItemsFrom(f, k, LangItem(f, lo, k, g).value.gt, g, LangItem(f, lo, k, g).value.groups)
    decreases |f| - k, 1
  {
    if k + 5 < |f| && IsQuote(f[k + 5]) {
      var j := LangRunEnd(f, k + 6);
      if k + 6 < j < |f| && IsQuote(f[j]) {
        var g2 := g.(lang := Some(Span(k + 6, j)));
        ItemsSound(f, lo, j + 1, true, g2);
        LangItemAt(f, k, j, g);
      }
    }
  }

  /** A `lang` value read up to the quote at `j`: an item, and the groups after it. */
  lemma LangItemAt(f: string, k: nat, j: nat, g: Groups)
    requires At(f, k, "lang=") && k + 6 < j < |f| && IsQuote(f[k + 5]) && IsQuote(f[j]) && j == LangRunEnd(f, k + 6)
    ensures ItemAt(f, k, j + 1) && ItemGroups(f, k, j + 1, g) == g.(lang := Some(Span(k + 6, j)))
  {
    ItemStart(f, k);
  }

  lemma {:induction false} LineSound(f: string, lo: nat, k: nat, g: Groups)
    requires lo <= k && At(f, k, "line=")
    ensures LineItem(f, lo, k, g).Some? ==> ItemsFrom(f, k, LineItem(f, lo, k, g).value.gt, g, LineItem(f, lo, k, g).value.groups)
    decreases |f| - k, 1
  {
    if k + 5 < |f| && IsQuote(f[k + 5]) {
      var j := DigitRunEnd(f, k + 6);
      if j < |f| && IsQuote(f[j]) {
        var g2 := g.(line := Some(Span(k + 6, j)));
        ItemsSound(f, lo, j + 1, true, g2);
        LineItemAt(f, k, j, g);
      }
    }
  }

  /** A `line` value read up to the quote at `j`: an item, and the groups after it. */
  lemma LineItemAt(f: string, k: nat, j: nat, g: Groups)
    requires At(f, k, "line=") && k + 6 <= j < |f| && IsQuote(f[k + 5]) && IsQuote(f[j]) && j == DigitRunEnd(f, k + 6)
    ensures ItemAt(f, k, j + 1) && ItemGroups(f, k, j + 1, g) == g.(line := Some(Span(k + 6, j)))
  {
    ItemStart(f, k);
  }

  lemma {:induction false} EscapedSound(f: string, lo: nat, k: nat, g: Groups)
    requires lo <= k && At(f, k, "escaped=")
    ensures EscapedItem(f, lo, k, g).Some? ==> ItemsFrom(f, k, EscapedItem(f, lo, k, g).value.gt, g, EscapedItem(f, lo, k, g).value.groups)
    decreases |f| - k, 1
  {
    ItemStart(f, k);
    if k + 8 < |f| && IsQuote(f[k + 8]) {
      if k + 9 < |f| && IsQuote(f[k + 9]) {
        ItemsSound(f, lo, k + 10, true, g);
        assert ItemAt(f, k, k + 10) && ItemGroups(f, k, k + 10, g) == g;
      } else if At(f, k + 9, "true") && k + 13 < |f| && IsQuote(f[k + 13]) {
        var g2 := g.(escaped := Some(Span(k + 9, k + 13)));
        ItemsSound(f, lo, k + 14, true, g2);
        assert ItemAt(f, k, k + 14) && ItemGroups(f, k, k + 14, g) == g2;
      } else if At(f, k + 9, "false") && k + 14 < |f| && IsQuote(f[k + 14]) {
        var g2 := g.(escaped := Some(Span(k + 9, k + 14)));
        ItemsSound(f, lo, k + 15, true, g2);
        assert ItemAt(f, k, k + 15) && ItemGroups(f, k, k + 15, g) == g2;
      }
    }
  }

  lemma {:induction false} CssfileSound(f: string, lo: nat, v: nat, j: nat, g: Groups)
    requires lo <= v < j <= |f| && 9 <= v
    requires forall i :: v <= i < j - 1 ==> !IsSpace(f[i])
    requires At(f, v - 9, "cssfile=") && IsQuote(f[v - 1])
    ensures CssfileValue(f, lo, v, j, g).Some? ==>
      ItemsFrom(f, v - 9, CssfileValue(f, lo, v, j, g).value.gt, g, CssfileValue(f, lo, v, j, g).value.groups)
    decreases |f| - j, 0
  {
    if j == |f| || IsSpace(f[j - 1]) {
    } else if IsQuote(f[j]) {
      var g2 := g.(cssfile := Some(Span(v, j)));
      ItemsSound(f, lo, j + 1, true, g2);
      if Items(f, lo, j + 1, true, g2).Some? {
        CssfileParts(f, v, j, g);
      } else {
        CssfileSound(f, lo, v, j + 1, g);
      }
    } else {
      CssfileSound(f, lo, v, j + 1, g);
    }
  }

  /** A `cssfile` value from `v` closed by the quote at `j`: an item, and the groups after it. */
  lemma CssfileParts(f: string, v: nat, j: nat, g: Groups)
    requires 9 <= v < j < |f| && At(f, v - 9, "cssfile=") && IsQuote(f[v - 1]) && IsQuote(f[j])
    requires forall i :: v <= i < j ==> !IsSpace(f[i])
    ensures ItemAt(f, v - 9, j + 1) && ItemGroups(f, v - 9, j + 1, g) == g.(cssfile := Some(Span(v, j)))
  {
    ItemStart(f, v - 9);
  }

  /** The item loop misses nothing: when the text from `k` reads as items up
      to a `>` with a closing tag after it, the loop succeeds (possibly
      stopping at an earlier `>`, as the lazy loop does). */
  lemma {:induction false} ItemsComplete(f: string, lo: nat, k: nat, started: bool, g: Groups, b: nat, g2: Groups)
    requires lo <= k <= b && TagClosed(f, b)
    requires (started && k == b) || ItemsFrom(f, k, b, g, g2)
    ensures Items(f, lo, k, started, g).Some?
    decreases |f| - k, 3
  {
    if started && k == b {
      var c: nat :| b < c < |f| && CloseAt(f, c);
      assert FirstClose(f, k + 1).Some?;
    } else {
      var m: nat :| k < m <= b && ItemAt(f, k, m) &&
        ((m == b && ItemGroups(f, k, m, g) == g2) || ItemsFrom(f, m, b, ItemGroups(f, k, m, g), g2));
      ItemComplete(f, lo, k, started, g, m, b, g2);
    }
  }

  /** The same, for a text that reads as a first item from `k` to `m` and
      more items after it. */
  lemma {:induction false} ItemComplete(f: string, lo: nat, k: nat, started: bool, g: Groups, m: nat, b: nat, g2: Groups)
    requires lo <= k < m <= b && TagClosed(f, b) && ItemAt(f, k, m)
    requires (m == b && ItemGroups(f, k, m, g) == g2) || ItemsFrom(f, m, b, ItemGroups(f, k, m, g), g2)
    ensures Items(f, lo, k, started, g).Some?
    decreases |f| - k, 2
  {
    ItemStart(f, k);
    if m == k + 1 && IsSpace(f[k]) {
      SpaceStep(f, lo, k, started, g);
      ItemsComplete(f, lo, k + 1, true, g, b, g2);
    } else if At(f, k, "lang=") {
      LangStep(f, lo, k, started, g);
      LangComplete(f, lo, k, g, m, b, g2);
    } else if At(f, k, "line=") {
      LineStep(f, lo, k, started, g);
      LineComplete(f, lo, k, g, m, b, g2);
    } else if At(f, k, "escaped=") {
      EscapedStep(f, lo, k, started, g);
      EscapedComplete(f, lo, k, g, m, b, g2);
    } else {
      CssfileStep(f, lo, k, started, g);
      CssfileComplete(f, lo, k + 9, k + 10, g, m, b, g2);
    }
  }

  /** Which step the item loop takes at `k`, by the text there: white space,
      then each attribute name. */
  lemma SpaceStep(f: string, lo: nat, k: nat, started: bool, g: Groups)
    requires lo <= k < |f| && IsSpace(f[k])
    ensures Items(f, lo, k, started, g) == Items(f, lo, k + 1, true, g)
  {
    ItemStart(f, k);
    assert f[k] != '>' && !At(f, k, "lang=") && !At(f, k, "line=") && !At(f, k, "escaped=") && !At(f, k, "cssfile=");
  }

  lemma LangStep(f: string, lo: nat, k: nat, started: bool, g: Groups)
    requires lo <= k < |f| && At(f, k, "lang=")
    ensures Items(f, lo, k, started, g) == LangItem(f, lo, k, g)
  {
    ItemStart(f, k);
  }

  lemma LineStep(f: string, lo: nat, k: nat, started: bool, g: Groups)
    requires lo <= k < |f| && At(f, k, "line=")
    ensures Items(f, lo, k, started, g) == LineItem(f, lo, k, g)
  {
    ItemStart(f, k);
  }

  lemma EscapedStep(f: string, lo: nat, k: nat, started: bool, g: Groups)
    requires lo <= k < |f| && At(f, k, "escaped=")
    ensures Items(f, lo, k, started, g) == EscapedItem(f, lo, k, g)
  {
    ItemStart(f, k);
  }

  lemma CssfileStep(f: string, lo: nat, k: nat, started: bool, g: Groups)
    requires lo <= k && k + 9 < |f| && At(f, k, "cssfile=") && IsQuote(f[k + 8])
    ensures Items(f, lo, k, started, g) == CssfileValue(f, lo, k + 9, k + 10, g)
  {
    ItemStart(f, k);
  }

  lemma {:induction false} LangComplete(f: string, lo: nat, k: nat, g: Groups, m: nat, b: nat, g2: Groups)
    requires lo <= k < m <= b && TagClosed(f, b) && At(f, k, "lang=") && ItemAt(f, k, m)
    requires (m == b && ItemGroups(f, k, m, g) == g2) || ItemsFrom(f, m, b, ItemGroups(f, k, m, g), g2)
    ensures LangItem(f, lo, k, g).Some?
    decreases |f| - k, 1
  {
    ItemsComplete(f, lo, m, true, ItemGroups(f, k, m, g), b, g2);
    LangParts(f, k, m, g);
  }

  /** A `lang` item from `k` to `m`: where its value ends, and the groups after it. */
  lemma LangParts(f: string, k: nat, m: nat, g: Groups)
    requires At(f, k, "lang=") && ItemAt(f, k, m)
    ensures k + 6 < m - 1 < |f| && IsQuote(f[k + 5]) && IsQuote(f[m - 1]) && LangRunEnd(f, k + 6) == m - 1
    ensures ItemGroups(f, k, m, g) == g.(lang := Some(Span(k + 6, m - 1)))
  {
    ItemStart(f, k);
    LangRunEndAt(f, k + 6, m - 1);
  }

  lemma {:induction false} LineComplete(f: string, lo: nat, k: nat, g: Groups, m: nat, b: nat, g2: Groups)
    requires lo <= k < m <= b && TagClosed(f, b) && At(f, k, "line=") && ItemAt(f, k, m)
    requires (m == b && ItemGroups(f, k, m, g) == g2) || ItemsFrom(f, m, b, ItemGroups(f, k, m, g), g2)
    ensures LineItem(f, lo, k, g).Some?
    decreases |f| - k, 1
  {
    LineParts(f, k, m, g);
    ItemsComplete(f, lo, m, true, g.(line := Some(Span(k + 6, m - 1))), b, g2);
  }

  /** A `line` item from `k` to `m`: where its value ends, and the groups after it. */
  lemma LineParts(f: string, k: nat, m: nat, g: Groups)
    requires At(f, k, "line=") && ItemAt(f, k, m)
    ensures k + 6 <= m - 1 < |f| && IsQuote(f[k + 5]) && IsQuote(f[m - 1]) && DigitRunEnd(f, k + 6) == m - 1
    ensures ItemGroups(f, k, m, g) == g.(line := Some(Span(k + 6, m - 1)))
  {
    ItemStart(f, k);
    DigitRunEndAt(f, k + 6, m - 1);
  }

  lemma {:induction false} EscapedComplete(f: string, lo: nat, k: nat, g: Groups, m: nat, b: nat, g2: Groups)
    requires lo <= k < m <= b && TagClosed(f, b) && At(f, k, "escaped=") && ItemAt(f, k, m)
    requires (m == b && ItemGroups(f, k, m, g) == g2) || ItemsFrom(f, m, b, ItemGroups(f, k, m, g), g2)
    ensures EscapedItem(f, lo, k, g).Some?
    decreases |f| - k, 1
  {
    ItemStart(f, k);
    AtHead(f, k + 9, "true");
    AtHead(f, k + 9, "false");
    ItemsComplete(f, lo, m, true, ItemGroups(f, k, m, g), b, g2);
  }

  /** The lazy `cssfile` value misses nothing either: trying closing quotes
      from `j` on, it reaches at the latest the quote at `m - 1` after which
      the rest of the text reads as items. */
  lemma {:induction false} CssfileComplete(f: string, lo: nat, v: nat, j: nat, g: Groups, m: nat, b: nat, g2: Groups)
    requires 9 <= v && lo <= v < j < m <= b && TagClosed(f, b)
    requires forall i :: v <= i < j - 1 ==> !IsSpace(f[i])
    requires At(f, v - 9, "cssfile=") && ItemAt(f, v - 9, m)
    requires m == b || ItemsFrom(f, m, b, g.(cssfile := Some(Span(v, m - 1))), g2)
    ensures CssfileValue(f, lo, v, j, g).Some?
    decreases |f| - j, 0
  {
    CssfileItemParts(f, v, m);
    assert j < |f| && !IsSpace(f[j - 1]);
    if j == m - 1 {
      ItemsComplete(f, lo, m, true, g.(cssfile := Some(Span(v, j))), b, g2);
      assert IsQuote(f[j]);
    } else {
      CssfileComplete(f, lo, v, j + 1, g, m, b, g2);
    }
  }

  /** A `cssfile` item from `v - 9` to `m`: its value runs from `v` to the quote at `m - 1`. */
  lemma CssfileItemParts(f: string, v: nat, m: nat)
    requires 9 <= v && At(f, v - 9, "cssfile=") && ItemAt(f, v - 9, m)
    ensures v < m - 1 < |f| && IsQuote(f[m - 1]) && forall i :: v <= i < m - 1 ==> !IsSpace(f[i])
  {
    ItemStart(f, v - 9);
  }

  /** A well-formed match of the whole pattern. */
  predicate MatchOk(f: string, m: Match) {
    && m.start <= m.tag
    && At(f, m.tag, "<pre")
    && (forall i :: m.start <= i < m.tag ==> IsSpace(f[i]))
    && RestOk(f, m.tag + 4, false, TagRest(m.gt, m.close, m.groups))
    && ItemsFrom(f, m.tag + 4, m.gt, NoGroups, m.groups)
    && GroupsOk(f, m.groups, m.tag + 4, m.gt)
  }

  /** The pattern tried at start position `p`. */
  function AttemptAt(f: string, p: nat): (r: Option<Match>)
    requires p <= |f|
    ensures r.Some? ==> r.value.start == p && MatchOk(f, r.value)
  {
    var q := SpaceRunEnd(f, p);
    if At(f, q, "<pre") then
      ItemsSound(f, q + 4, q + 4, false, NoGroups);
      match Items(f, q + 4, q + 4, false, NoGroups)
      case Some(t) => Some(Match(p, q, t.gt, t.close, t.groups))
      case None => None
    else None
  }

  /** The pattern read as a grammar, at start position `p`: white space,
      `<pre`, one or more items ending at a `>`, and a closing tag after it. */
  ghost predicate PatternAt(f: string, p: nat) {
    exists a: nat, b: nat, g: Groups ::
      && p + 4 <= a && At(f, a - 4, "<pre") && (forall i :: p <= i < a - 4 ==> IsSpace(f[i]))
      && ItemsFrom(f, a, b, NoGroups, g) && TagClosed(f, b)
  }

  /** The search at `p` succeeds exactly when the text there reads as the pattern. */
  lemma AttemptAtExactly(f: string, p: nat)
    requires p <= |f|
    ensures AttemptAt(f, p).Some? <==> PatternAt(f, p)
  {
    if AttemptAt(f, p).Some? {
      AttemptAtReads(f, p, AttemptAt(f, p).value);
    }
    if PatternAt(f, p) {
      var a: nat, b: nat, g: Groups :|
        && p + 4 <= a && At(f, a - 4, "<pre") && (forall i :: p <= i < a - 4 ==> IsSpace(f[i]))
        && ItemsFrom(f, a, b, NoGroups, g) && TagClosed(f, b);
      AttemptAtFinds(f, p, a, b, g);
    }
  }

  lemma AttemptAtReads(f: string, p: nat, m: Match)
    requires m.start == p && MatchOk(f, m)
    ensures PatternAt(f, p)
  {
    var a := m.tag + 4;
    assert a - 4 == m.tag;
    assert TagClosed(f, m.gt);
    assert p + 4 <= a && At(f, a - 4, "<pre") && (forall i :: p <= i < a - 4 ==> IsSpace(f[i]))
      && ItemsFrom(f, a, m.gt, NoGroups, m.groups) && TagClosed(f, m.gt);
  }

  lemma AttemptAtFinds(f: string, p: nat, a: nat, b: nat, g: Groups)
    requires p <= |f| && p + 4 <= a && At(f, a - 4, "<pre") && (forall i :: p <= i < a - 4 ==> IsSpace(f[i]))
    requires ItemsFrom(f, a, b, NoGroups, g) && TagClosed(f, b)
    ensures AttemptAt(f, p).Some?
  {
    AtHead(f, a - 4, "<pre");
    assert SpaceRunEnd(f, p) == a - 4;
    assert a <= b;
    ItemsComplete(f, a, a, false, NoGroups, b, g);
  }

  /** The leftmost match at or after `p`. */
  function FindFrom(f: string, p: nat): (r: Option<Match>)
    requires p <= |f|
    ensures r.Some? ==> p <= r.value.start && MatchOk(f, r.value) && AttemptAt(f, r.value.start) == r
    decreases |f| - p
  {
    var a := AttemptAt(f, p);
    if a.Some? then a
    else if p == |f| then None
    else FindFrom(f, p + 1)
  }

  /** The match found is the leftmost: the pattern fails at every start `i`
      before it, and at every start from `p` on when nothing is found. */
  lemma {:induction false} FindFromLeftmost(f: string, p: nat, i: nat)
    requires p <= i <= |f|
    ensures FindFrom(f, p).Some? && i < FindFrom(f, p).value.start ==> AttemptAt(f, i).None?
    ensures FindFrom(f, p).None? ==> AttemptAt(f, i).None?
    decreases |f| - p
  {
    if AttemptAt(f, p).None? && p < i {
      assert FindFrom(f, p) == FindFrom(f, p + 1);
      FindFromLeftmost(f, p + 1, i);
    }
  }

  /** Stated against the grammar: the match found is where the pattern first
      reads from `p` on, and nothing is found only when it reads nowhere. */
  lemma LeftmostPattern(f: string, p: nat, i: nat)
    requires p <= i <= |f|
    ensures FindFrom(f, p).Some? ==> PatternAt(f, FindFrom(f, p).value.start)
    ensures FindFrom(f, p).Some? && i < FindFrom(f, p).value.start ==> !PatternAt(f, i)
    ensures FindFrom(f, p).None? ==> !PatternAt(f, i)
  {
    FindFromLeftmost(f, p, i);
    AttemptAtExactly(f, i);
    if FindFrom(f, p).Some? {
      AttemptAtExactly(f, FindFrom(f, p).value.start);
    }
  }

  /** Matches that lie one after the other between `p` and `n`, without overlap. */
  predicate Spaced(n: nat, p: nat, ms: seq<Match>)
    decreases |ms|
  {
    ms == [] || (p <= ms[0].start < ms[0].End() <= n && Spaced(n, ms[0].End(), ms[1..]))
  }

  /** All matches from `p` on, as `preg_replace_callback` finds them: each
      search resumes where the previous match ended. */
  function Scan(f: string, p: nat): (ms: seq<Match>)
    requires p <= |f|
    ensures Spaced(|f|, p, ms)
    decreases |f| - p
  {
    match FindFrom(f, p)
    case None => []
    case Some(m) => [m] + Scan(f, m.End())
  }

  /** Every match the scan reports is a match of the pattern, found at or after `p`. */
  lemma {:induction false} ScanMatches(f: string, p: nat)
    requires p <= |f|
    ensures forall i :: 0 <= i < |Scan(f, p)| ==> MatchOk(f, Scan(f, p)[i]) && p <= Scan(f, p)[i].start
    decreases |f| - p
  {
    match FindFrom(f, p)
    case None =>
    case Some(m) =>
      var ms := Scan(f, p);
      assert ms == [m] + Scan(f, m.End());
      ScanMatches(f, m.End());
      forall i | 0 < i < |ms| ensures MatchOk(f, ms[i]) && p <= ms[i].start {
        assert ms[i] == Scan(f, m.End())[i - 1];
      }
  }

  /** A captured group, or "" for a group that did not take part. */
  function Group(s: string, o: Option<Span>): string {
    if o.Some? && o.value.lo <= o.value.hi <= |s| then s[o.value.lo..o.value.hi] else ""
  }

  /** The snippet's body in `s`: what stands between the `>` of the opening
      tag and the closing tag. */
  function Body(s: string, m: Match): string
    requires m.gt < m.close <= |s|
  {
    s[m.gt + 1..m.close]
  }

  /** The match array the callback receives (groups 0 to 5), cut from the original text `s`. */
  function Fields(s: string, f: string, m: Match): RawMatch
    requires f == LowerAll(s) && MatchOk(f, m)
  {
    MatchGroups(s, f, m);
    RawMatch(s[m.start..m.End()], Group(s, m.groups.lang), Group(s, m.groups.line),
             Group(s, m.groups.escaped), Group(s, m.groups.cssfile), Body(s, m))
  }

  /** The match array holds the whole match and the snippet's body as they
      stand in `s`; the language is made of language characters, the line
      number of digits, the escaped flag is empty or reads true or false in
      any case, and the file name holds no white space. */
  lemma FieldsShape(s: string, f: string, m: Match)
    requires f == LowerAll(s) && MatchOk(f, m)
    ensures var r := Fields(s, f, m);
      && r.whole == s[m.start..m.End()] && r.code == s[m.gt + 1..m.close]
      && (forall i :: 0 <= i < |r.lang| ==> IsLangChar(r.lang[i]))
      && (forall i :: 0 <= i < |r.line| ==> IsDigit(r.line[i]))
      && (r.escaped == [] || LowerAll(r.escaped) == "true" || LowerAll(r.escaped) == "false")
      && (forall i :: 0 <= i < |r.cssfile| ==> !IsSpace(r.cssfile[i]))
  {
    MatchGroups(s, f, m);
  }

  /** The body handed to the highlighter holds no closing tag, in any case. */
  lemma FieldsBodyClean(s: string, f: string, m: Match)
    requires f == LowerAll(s) && MatchOk(f, m)
    ensures !ContainsCI(Fields(s, f, m).code, "</pre>")
  {
    BodyBetweenTags(f, m);
    BodyHasNoClose(s, f, m);
  }

  /** The body of a match lies between the `>` and the first closing tag after it. */
  lemma BodyBetweenTags(f: string, m: Match)
    requires MatchOk(f, m)
    ensures m.gt < m.close && m.close + 6 <= |f|
    ensures forall i: nat :: m.gt + 1 <= i < m.close ==> !CloseAt(f, i)
  {
  }

  /** No closing tag, in any case, inside a body the folded text has none in. */
  lemma BodyHasNoClose(s: string, f: string, m: Match)
    requires f == LowerAll(s) && m.gt < m.close <= |s|
    requires forall i: nat :: m.gt + 1 <= i < m.close ==> !CloseAt(f, i)
    ensures !ContainsCI(Body(s, m), "</pre>")
  {
    SliceHasNoClose(s, f, m.gt + 1, m.close);
  }

  /** What a well-formed match guarantees about the groups cut from `s`. */
  lemma MatchGroups(s: string, f: string, m: Match)
    requires f == LowerAll(s) && MatchOk(f, m)
    ensures m.End() <= |s| && m.gt + 1 <= m.close
    ensures forall i :: 0 <= i < |Group(s, m.groups.lang)| ==> IsLangChar(Group(s, m.groups.lang)[i])
    ensures forall i :: 0 <= i < |Group(s, m.groups.line)| ==> IsDigit(Group(s, m.groups.line)[i])
    ensures var e := Group(s, m.groups.escaped); e == [] || LowerAll(e) == "true" || LowerAll(e) == "false"
    ensures forall i :: 0 <= i < |Group(s, m.groups.cssfile)| ==> !IsSpace(Group(s, m.groups.cssfile)[i])
  {
    GroupClasses(s, f, m.groups, m.tag + 4, m.gt);
    EscapedGroupText(s, f, m.groups, m.tag + 4, m.gt);
  }

  /** The character classes of the groups hold in the original text as in the folded one. */
  lemma GroupClasses(s: string, f: string, g: Groups, lo: nat, hi: nat)
    requires f == LowerAll(s) && GroupsOk(f, g, lo, hi)
    ensures forall i :: 0 <= i < |Group(s, g.lang)| ==> IsLangChar(Group(s, g.lang)[i])
    ensures forall i :: 0 <= i < |Group(s, g.line)| ==> IsDigit(Group(s, g.line)[i])
    ensures forall i :: 0 <= i < |Group(s, g.cssfile)| ==> !IsSpace(Group(s, g.cssfile)[i])
  {
    forall i | 0 <= i < |s| {
      LowerKeepsClasses(s[i]);
    }
  }

  lemma EscapedGroupText(s: string, f: string, g: Groups, lo: nat, hi: nat)
    requires f == LowerAll(s) && GroupsOk(f, g, lo, hi)
    ensures var e := Group(s, g.escaped); e == [] || LowerAll(e) == "true" || LowerAll(e) == "false"
  {
    if g.escaped.Some? {
      var sp := g.escaped.value;
      LowerAllSlice(s, sp.lo, sp.hi);
      if sp.hi == sp.lo + 4 && At(f, sp.lo, "true") {
        assert f[sp.lo..sp.hi] == "true";
      } else {
        assert f[sp.lo..sp.hi] == "false";
      }
    }
  }

  /** A stretch of `s` whose folded text has no closing tag starting in it
      contains none, in any case. */
  lemma SliceHasNoClose(s: string, f: string, a: nat, b: nat)
    requires f == LowerAll(s) && a <= b <= |s|
    requires forall i: nat :: a <= i < b ==> !CloseAt(f, i)
    ensures !ContainsCI(s[a..b], "</pre>")
  {
    LowerAllSlice(s, a, b);
    forall i: nat | i <= b - a ensures !At(f[a..b], i, "</pre>") {
      if At(f[a..b], i, "</pre>") {
        AtSlice(f, a, b, i, "</pre>");
        assert a + i < b && CloseAt(f, a + i);
      }
    }
    NotOccursFrom(f[a..b], 0, "</pre>");
  }

  /** The match arrays of every snippet in `s[p..]`, in the order they are found. */
  function MatchesFrom(s: string, f: string, p: nat): (rs: seq<RawMatch>)
    requires f == LowerAll(s) && p <= |f|
    ensures |rs| == |Scan(f, p)|
    decreases |f| - p
  {
    match FindFrom(f, p)
    case None => []
    case Some(m) => [Fields(s, f, m)] + MatchesFrom(s, f, m.End())
  }

  /** The `i`-th match array is the one of the `i`-th match the scan finds. */
  lemma {:induction false} MatchesFromFields(s: string, f: string, p: nat)
    requires f == LowerAll(s) && p <= |f|
    ensures forall i :: 0 <= i < |MatchesFrom(s, f, p)| ==>
      MatchOk(f, Scan(f, p)[i]) && MatchesFrom(s, f, p)[i] == Fields(s, f, Scan(f, p)[i])
    decreases |f| - p
  {
    match FindFrom(f, p)
    case None =>
    case Some(m) =>
      MatchesFromFields(s, f, m.End());
      var rs := MatchesFrom(s, f, p);
      var ms := Scan(f, p);
      assert rs == [Fields(s, f, m)] + MatchesFrom(s, f, m.End());
      assert ms == [m] + Scan(f, m.End());
      forall i | 0 <= i < |rs| ensures MatchOk(f, ms[i]) && rs[i] == Fields(s, f, ms[i]) {
        if i > 0 {
          assert rs[i] == MatchesFrom(s, f, m.End())[i - 1] && ms[i] == Scan(f, m.End())[i - 1];
        }
      }
  }

  // ---------------------------------------------------------------------------
  // Properties of the recogniser

  /** A `<pre` directly followed by `>` is never captured: the attribute group
      needs at least one item, and `>` is none. */
  lemma BarePreNeverCaptured(f: string, p: nat)
    requires p <= |f|
    ensures forall i :: 0 <= i < |Scan(f, p)| ==> !At(f, Scan(f, p)[i].tag, "<pre>")
  {
    var ms := Scan(f, p);
    ScanMatches(f, p);
    forall i | 0 <= i < |ms| ensures !At(f, ms[i].tag, "<pre>") {
      MatchNotBare(f, ms[i]);
    }
  }

  /** The tag of a match is never a bare `<pre>`. */
  lemma MatchNotBare(f: string, m: Match)
    requires MatchOk(f, m)
    ensures !At(f, m.tag, "<pre>")
  {
    assert f[m.tag + 4] != '>' && "<pre>"[4] == '>';
  }

  /** The `i` flag: texts that differ only in the case of letters have their
      snippets found at exactly the same places, with the same groups. */
  lemma ScanIgnoresCase(s: string, t: string)
    requires SameFoldText(s, t)
    ensures |LowerAll(s)| == |LowerAll(t)|
    ensures Scan(LowerAll(s), 0) == Scan(LowerAll(t), 0)
  {
    SameFoldTextFolds(s, t);
  }
}
