/**
  `wp_geshi_filter_replace_code` as a text transformation: every snippet the
  recogniser finds, with the white space before it, is replaced by the
  placeholder of the next match index. The filter at the other end of the
  run, `wp_geshi_insert_highlighted_code_filter`, undoes exactly this: it puts
  each snippet's stored output where the snippet was, between two newlines.
*/
module Snippets {
  import opened Chars
  import opened PreTag
  import opened Reinsertion

  /** `s[p..]` with the matches `ms` replaced by placeholders numbered from `base` on. */
  function Splice(s: string, p: nat, ms: seq<Match>, token: string, base: nat): string
    requires p <= |s| && Spaced(|s|, p, ms)
    decreases |ms|
  {
    if ms == [] then s[p..]
    else s[p..ms[0].start] + Placeholder(token, base) + Splice(s, ms[0].End(), ms[1..], token, base + 1)
  }

  /** `s[p..]` with the matches `ms` replaced by their stored output, between
      the two newlines of the placeholder: what the reader is meant to get. */
  function Fill(s: string, p: nat, ms: seq<Match>, base: nat, highlighted: map<nat, string>): string
    requires p <= |s| && Spaced(|s|, p, ms)
    decreases |ms|
  {
    if ms == [] then s[p..]
    else s[p..ms[0].start] + ("\n" + GetHighlightedCode(highlighted, base) + "\n" + Fill(s, ms[0].End(), ms[1..], base + 1, highlighted))
  }

  /** `wp_geshi_filter_replace_code`: every snippet of `s` replaced by a
      placeholder, numbered from `base` on. */
  function ProtectText(s: string, token: string, base: nat): string {
    Splice(s, 0, Scan(LowerAll(s), 0), token, base)
  }

  /** Every snippet of `s` replaced by its stored output. */
  function RenderText(s: string, base: nat, highlighted: map<nat, string>): string {
    Fill(s, 0, Scan(LowerAll(s), 0), base, highlighted)
  }

  /** How many snippets `s` holds. */
  function SnippetCount(s: string): nat {
    |Scan(LowerAll(s), 0)|
  }

  /** A stretch of `x` copied from `s` lower-cases to the same characters. */
  lemma CopiedStretchFolds(s: string, p: nat, stop: nat, x: string, a: nat)
    requires p <= stop <= |s| && a + (stop - p) <= |x| && x[a..a + (stop - p)] == s[p..stop]
    ensures forall i :: a <= i < a + (stop - p) ==> LowerAll(x)[i] == LowerAll(s)[i - a + p]
  {
    forall i | a <= i < a + (stop - p) ensures LowerAll(x)[i] == LowerAll(s)[i - a + p] {
      assert x[a..a + (stop - p)][i - a] == s[p..stop][i - a];
    }
  }

  /** An occurrence of the token in a stretch of `x` copied from `s` is one in `s`. */
  lemma CopiedOccurrence(s: string, p: nat, stop: nat, x: string, a: nat, token: string, q: nat)
    requires p <= stop <= |s| && a + (stop - p) <= |x| && x[a..a + (stop - p)] == s[p..stop]
    requires a <= q && q + |token| <= a + (stop - p) && At(LowerAll(x), q, token)
    ensures At(LowerAll(s), q - a + p, token)
  {
    var f := LowerAll(s);
    var fx := LowerAll(x);
    var c := q - a + p;
    CopiedStretchFolds(s, p, stop, x, a);
    forall j | 0 <= j < |token| ensures f[c + j] == token[j] {
      assert fx[q + j] == token[j];
      assert fx[q + j] == f[q + j - a + p];
    }
  }

  /** A stretch of `x` copied from `s` carries the token only where `s` does. */
  lemma CopiedStretchHasNoToken(s: string, p: nat, stop: nat, x: string, a: nat, token: string)
    requires p <= stop <= |s| && a + (stop - p) <= |x| && x[a..a + (stop - p)] == s[p..stop]
    requires !ContainsCI(s, token)
    ensures TokenFree(LowerAll(x), a, a + (stop - p), token)
  {
    forall q | a <= q && q + |token| <= a + (stop - p) ensures !At(LowerAll(x), q, token) {
      if At(LowerAll(x), q, token) {
        CopiedOccurrence(s, p, stop, x, a, token, q);
        OccursFromAt(LowerAll(s), 0, q - a + p, token);
      }
    }
  }

  /** The placeholder is left alone by lower-casing. */
  lemma FoldedPlaceholder(x: string, b: nat, token: string, i: nat)
    requires ValidToken(token)
    requires b + |Placeholder(token, i)| <= |x| && x[b..b + |Placeholder(token, i)|] == Placeholder(token, i)
    ensures LowerAll(x)[b..b + |Placeholder(token, i)|] == Placeholder(token, i)
  {
    var ph := Placeholder(token, i);
    PlaceholderFolded(token, i);
    LowerAllSlice(x, b, b + |ph|);
    assert forall j :: 0 <= j < |ph| ==> LowerAll(ph)[j] == ph[j];
  }

  /** One step of the round trip: a token-free stretch followed by the
      placeholder of index `i` reinserts as the stretch, then the stored output
      between two newlines. */
  lemma ReinsertStretchAndPlaceholder(x: string, a: nat, b: nat, c: nat, token: string, i: nat, highlighted: map<nat, string>)
    requires ValidToken(token) && i < Limit
    requires a <= b && b + |Placeholder(token, i)| == c <= |x|
    requires x[b..b + |Placeholder(token, i)|] == Placeholder(token, i)
    requires TokenFree(LowerAll(x), a, b, token)
    ensures Reinsert(x, LowerAll(x), a, token, highlighted)
         == x[a..b] + ("\n" + GetHighlightedCode(highlighted, i) + "\n" + Reinsert(x, LowerAll(x), c, token, highlighted))
  {
    var fx := LowerAll(x);
    var ph := Placeholder(token, i);
    PlaceholderParts(token, i);
    FoldedPlaceholder(x, b, token, i);
    assert fx[b..b + |ph|][0] == '\n' && fx[b..b + |ph|][1] == '<';
    NoMatchInCleanStretch(fx, a, b, token);
    ReinsertCopies(x, fx, a, b, token, highlighted);
    ReinsertPlaceholder(x, fx, b, token, i, highlighted);
  }

  /** `Fill` with at least one snippet, seen from its first stretch. */
  lemma FillFirst(s: string, p: nat, ms: seq<Match>, base: nat, highlighted: map<nat, string>, u: string, r: string)
    requires p <= |s| && Spaced(|s|, p, ms) && ms != []
    requires u == s[p..ms[0].start] && r == Fill(s, ms[0].End(), ms[1..], base + 1, highlighted)
    ensures u + ("\n" + GetHighlightedCode(highlighted, base) + "\n" + r) == Fill(s, p, ms, base, highlighted)
  {
  }

  /** The last stretch: no placeholder is left, and the rest is copied. */
  lemma ReinsertTail(s: string, p: nat, token: string, highlighted: map<nat, string>, x: string, a: nat)
    requires p <= |s| && ValidToken(token) && !ContainsCI(s, token)
    requires a <= |x| && x[a..] == s[p..]
    ensures Reinsert(x, LowerAll(x), a, token, highlighted) == s[p..]
  {
    assert x[a..a + (|s| - p)] == s[p..|s|];
    CopiedStretchHasNoToken(s, p, |s|, x, a, token);
    NoMatchInCleanStretch(LowerAll(x), a, |x|, token);
    ReinsertCopies(x, LowerAll(x), a, |x|, token, highlighted);
  }

  /** The pieces of a splice with at least one snippet: the copied stretch
      before the first snippet, which carries no token, its placeholder, and
      the splice of the rest. */
  lemma SpliceParts(s: string, p: nat, ms: seq<Match>, token: string, base: nat, x: string, a: nat)
    returns (b: nat, a2: nat)
    requires p <= |s| && Spaced(|s|, p, ms) && ms != [] && !ContainsCI(s, token)
    requires a <= |x| && x[a..] == Splice(s, p, ms, token, base)
    ensures a <= b && b + |Placeholder(token, base)| == a2 <= |x|
    ensures x[a..b] == s[p..ms[0].start]
    ensures x[b..b + |Placeholder(token, base)|] == Placeholder(token, base)
    ensures TokenFree(LowerAll(x), a, b, token)
    ensures x[a2..] == Splice(s, ms[0].End(), ms[1..], token, base + 1)
  {
    var seg := s[p..ms[0].start];
    var ph := Placeholder(token, base);
    SplitThree(x, a, seg, ph, Splice(s, ms[0].End(), ms[1..], token, base + 1));
    b := a + |seg|;
    a2 := b + |ph|;
    CopiedStretchHasNoToken(s, p, ms[0].start, x, a, token);
  }

  /** The first snippet of a splice: the copied stretch before it comes back,
      then its stored output, then whatever the rest reinserts as. */
  lemma ReinsertFirst(s: string, p: nat, ms: seq<Match>, token: string, base: nat,
                      highlighted: map<nat, string>, x: string, a: nat, b: nat, a2: nat)
    requires p <= |s| && Spaced(|s|, p, ms) && ms != []
    requires ValidToken(token) && base < Limit
    requires a <= b && b + |Placeholder(token, base)| == a2 <= |x|
    requires x[a..b] == s[p..ms[0].start]
    requires x[b..b + |Placeholder(token, base)|] == Placeholder(token, base)
    requires TokenFree(LowerAll(x), a, b, token)
    requires Reinsert(x, LowerAll(x), a2, token, highlighted) == Fill(s, ms[0].End(), ms[1..], base + 1, highlighted)
    ensures Reinsert(x, LowerAll(x), a, token, highlighted) == Fill(s, p, ms, base, highlighted)
  {
    ReinsertStretchAndPlaceholder(x, a, b, a2, token, base, highlighted);
    FillFirst(s, p, ms, base, highlighted, x[a..b], Reinsert(x, LowerAll(x), a2, token, highlighted));
  }

  /** Reinsertion over a text with placeholders spliced in yields the filled
      text, stated for a spliced suffix `x[a..]`. */
  lemma {:induction false} ReinsertSpliced(s: string, p: nat, ms: seq<Match>, token: string, base: nat,
                                           highlighted: map<nat, string>, x: string, a: nat)
    requires p <= |s| && Spaced(|s|, p, ms)
    requires ValidToken(token) && !ContainsCI(s, token) && base + |ms| <= Limit
    requires a <= |x| && x[a..] == Splice(s, p, ms, token, base)
    ensures Reinsert(x, LowerAll(x), a, token, highlighted) == Fill(s, p, ms, base, highlighted)
    decreases |ms|
  {
    if ms == [] {
      ReinsertTail(s, p, token, highlighted, x, a);
    } else {
      var b, a2 := SpliceParts(s, p, ms, token, base, x, a);
      ReinsertSpliced(s, ms[0].End(), ms[1..], token, base + 1, highlighted, x, a2);
      ReinsertFirst(s, p, ms, token, base, highlighted, x, a, b, a2);
    }
  }

  /** The round trip for whole texts: with a token that the text does not
      contain and fewer than one million snippets in the run, reinsertion puts
      every snippet's stored output exactly where the snippet was. */
  lemma ReinsertUndoesProtect(s: string, token: string, base: nat, highlighted: map<nat, string>)
    requires ValidToken(token) && !ContainsCI(s, token) && base + SnippetCount(s) <= Limit
    ensures ReinsertText(ProtectText(s, token, base), token, highlighted) == RenderText(s, base, highlighted)
  {
    var x := ProtectText(s, token, base);
    ReinsertSpliced(s, 0, Scan(LowerAll(s), 0), token, base, highlighted, x, 0);
  }

  /** A text without snippets goes through both filters unchanged. */
  lemma NoSnippetNoChange(s: string, token: string, base: nat, highlighted: map<nat, string>)
    requires SnippetCount(s) == 0
    ensures ProtectText(s, token, base) == s && RenderText(s, base, highlighted) == s
  {
  }
}
