/**
  Character classes and string helpers shared by the two regular expressions
  and the PHP string functions of the plugin.

  PHP strings are byte strings and the patterns run without the `u` flag, so
  every class below is decided on ASCII: a character outside ASCII is never a
  space, a digit or a word character, and case folding leaves it alone. This
  agrees with what PCRE does on the bytes of UTF-8 text.
*/
module Chars {

  /** PCRE's `\s`: space, tab, newline, vertical tab, form feed, carriage return. */
  predicate IsSpace(c: char) {
    c == ' ' || c == '\t' || c == '\n' || c == '\U{B}' || c == '\U{C}' || c == '\r'
  }

  /** The characters PHP's trim, ltrim and rtrim strip by default (no form feed, but NUL). */
  predicate IsPhpSpace(c: char) {
    c == ' ' || c == '\t' || c == '\n' || c == '\r' || c == '\0' || c == '\U{B}'
  }

  predicate IsDigit(c: char) {
    '0' <= c <= '9'
  }

  predicate IsUpper(c: char) {
    'A' <= c <= 'Z'
  }

  predicate IsLetter(c: char) {
    IsUpper(c) || 'a' <= c <= 'z'
  }

  /** PCRE's `\w` on ASCII. */
  predicate IsWordChar(c: char) {
    IsLetter(c) || IsDigit(c) || c == '_'
  }

  /** The class `[\w-]` of the `lang` attribute. */
  predicate IsLangChar(c: char) {
    IsWordChar(c) || c == '-'
  }

  /** The class `["']` that opens and closes every attribute value. */
  predicate IsQuote(c: char) {
    c == '"' || c == '\''
  }

  /** ASCII lower-casing, as PCRE's caseless matching and PHP's strtolower do it. */
  function Lower(c: char): char
  {
    if IsUpper(c) then (c as int + 32) as char else c
  }

  function LowerAll(s: string): (r: string)
    ensures |r| == |s|
    ensures forall i :: 0 <= i < |s| ==> r[i] == Lower(s[i])
  {
    if s == [] then [] else [Lower(s[0])] + LowerAll(s[1..])
  }

  /** Two characters that caseless matching cannot tell apart. */
  predicate SameFold(c: char, d: char) {
    Lower(c) == Lower(d)
  }

  /** Two texts that differ at most in the case of their ASCII letters. */
  predicate SameFoldText(s: string, t: string) {
    |s| == |t| && forall i :: 0 <= i < |s| ==> SameFold(s[i], t[i])
  }

  /** Texts that differ only in case fold to the same text. */
  lemma SameFoldTextFolds(s: string, t: string)
    requires SameFoldText(s, t)
    ensures LowerAll(s) == LowerAll(t)
  {
    assert forall i :: 0 <= i < |s| ==> LowerAll(s)[i] == LowerAll(t)[i];
  }

  /** Every class used by the patterns is blind to case: a character and its
      lower-case form fall in the same classes. */
  lemma LowerKeepsClasses(c: char)
    ensures IsSpace(Lower(c)) == IsSpace(c) && IsDigit(Lower(c)) == IsDigit(c)
    ensures IsLangChar(Lower(c)) == IsLangChar(c) && IsQuote(Lower(c)) == IsQuote(c)
  {
  }

  /** Lower-casing commutes with cutting a slice. */
  lemma LowerAllSlice(s: string, a: nat, b: nat)
    requires a <= b <= |s|
    ensures LowerAll(s[a..b]) == LowerAll(s)[a..b]
  {
    var l := LowerAll(s[a..b]);
    var r := LowerAll(s)[a..b];
    forall i | 0 <= i < b - a
      ensures l[i] == r[i]
    {
      assert l[i] == Lower(s[a..b][i]) == Lower(s[a + i]);
      assert r[i] == LowerAll(s)[a + i] == Lower(s[a + i]);
    }
    assert l == r;
  }

  /** The literal `lit` occurs at position `p` of `s`, character for character. */
  predicate At(s: string, p: nat, lit: string) {
    p + |lit| <= |s| && forall i :: 0 <= i < |lit| ==> s[p + i] == lit[i]
  }

  /** The three pieces of a suffix that is a concatenation. */
  lemma SplitThree(x: string, a: nat, u: string, v: string, w: string)
    requires a <= |x| && x[a..] == u + v + w
    ensures a + |u| + |v| <= |x|
    ensures x[a..a + |u|] == u && x[a + |u|..a + |u| + |v|] == v && x[a + |u| + |v|..] == w
  {
    assert x[a..][..|u|] == u;
    assert x[a..][|u|..|u| + |v|] == v;
    assert x[a..][|u| + |v|..] == w;
  }

  /** An occurrence starts with the literal's first character. */
  lemma AtHead(s: string, p: nat, lit: string)
    requires |lit| > 0
    ensures At(s, p, lit) ==> s[p] == lit[0]
  {
    if At(s, p, lit) {
      assert s[p + 0] == lit[0];
    }
  }

  /** A piece of a literal found in a text is found at the matching offset. */
  lemma AtInside(s: string, a: nat, whole: string, o: nat, lit: string)
    requires a + |whole| <= |s| && s[a..a + |whole|] == whole
    requires o + |lit| <= |whole| && whole[o..o + |lit|] == lit
    ensures At(s, a + o, lit) && s[a + o..a + o + |lit|] == lit
  {
    forall j | 0 <= j < |lit| ensures s[a + o + j] == lit[j] {
      assert s[a..a + |whole|][o + j] == s[a + o + j];
      assert whole[o..o + |lit|][j] == whole[o + j];
    }
  }

  /** `s` contains the lower-case literal `lit` somewhere, compared without regard to case. */
  predicate ContainsCI(s: string, lit: string) {
    OccursFrom(LowerAll(s), 0, lit)
  }

  /** `lit` occurs in `f` at some position from `p` on. */
  predicate OccursFrom(f: string, p: nat, lit: string)
    decreases |f| - p
  {
    p <= |f| && (At(f, p, lit) || OccursFrom(f, p + 1, lit))
  }

  /** An occurrence at `q` is an occurrence from any `p` up to `q`. */
  lemma {:induction false} OccursFromAt(f: string, p: nat, q: nat, lit: string)
    requires p <= q <= |f| && At(f, q, lit)
    ensures OccursFrom(f, p, lit)
    decreases q - p
  {
    if p < q {
      OccursFromAt(f, p + 1, q, lit);
    }
  }

  /** No occurrence at any position from `p` on is no occurrence from `p`. */
  lemma {:induction false} NotOccursFrom(f: string, p: nat, lit: string)
    requires forall q :: p <= q <= |f| ==> !At(f, q, lit)
    ensures !OccursFrom(f, p, lit)
    decreases |f| - p
  {
    if p < |f| {
      NotOccursFrom(f, p + 1, lit);
    }
  }

  /** An occurrence inside a slice is an occurrence in the whole text. */
  lemma AtSlice(s: string, a: nat, b: nat, i: nat, lit: string)
    requires a <= b <= |s| && At(s[a..b], i, lit)
    ensures At(s, a + i, lit)
  {
    forall j | 0 <= j < |lit| ensures s[a + i + j] == lit[j] {
      assert s[a..b][i + j] == s[a + i + j];
    }
  }

  /** End of the run of PCRE spaces that starts at `p` (PCRE's greedy `\s*`). */
  function SpaceRunEnd(s: string, p: nat): (r: nat)
    requires p <= |s|
    ensures p <= r <= |s|
    ensures forall i :: p <= i < r ==> IsSpace(s[i])
    ensures r == |s| || !IsSpace(s[r])
    decreases |s| - p
  {
    if p < |s| && IsSpace(s[p]) then SpaceRunEnd(s, p + 1) else p
  }

  /** End of the run of `[\w-]` characters that starts at `p`. */
  function LangRunEnd(s: string, p: nat): (r: nat)
    requires p <= |s|
    ensures p <= r <= |s|
    ensures forall i :: p <= i < r ==> IsLangChar(s[i])
    ensures r == |s| || !IsLangChar(s[r])
    decreases |s| - p
  {
    if p < |s| && IsLangChar(s[p]) then LangRunEnd(s, p + 1) else p
  }

  /** The run of name characters from `p` ends at the first other character. */
  lemma LangRunEndAt(s: string, p: nat, q: nat)
    requires p <= q < |s| && !IsLangChar(s[q])
    requires forall i :: p <= i < q ==> IsLangChar(s[i])
    ensures LangRunEnd(s, p) == q
  {
  }

  /** End of the run of digits that starts at `p`. */
  function DigitRunEnd(s: string, p: nat): (r: nat)
    requires p <= |s|
    ensures p <= r <= |s|
    ensures forall i :: p <= i < r ==> IsDigit(s[i])
    ensures r == |s| || !IsDigit(s[r])
    decreases |s| - p
  {
    if p < |s| && IsDigit(s[p]) then DigitRunEnd(s, p + 1) else p
  }

  /** The run of digits from `p` ends at the first other character. */
  lemma DigitRunEndAt(s: string, p: nat, q: nat)
    requires p <= q < |s| && !IsDigit(s[q])
    requires forall i :: p <= i < q ==> IsDigit(s[i])
    ensures DigitRunEnd(s, p) == q
  {
  }

  /** PHP's ltrim with the default character list. */
  function LTrim(s: string): (r: string)
    ensures |r| <= |s|
    decreases |s|
  {
    if s != [] && IsPhpSpace(s[0]) then LTrim(s[1..]) else s
  }

  /** ltrim cuts a run of PHP white space from the front, all of it, and
      nothing else. */
  lemma {:induction false} LTrimCuts(s: string)
    ensures |LTrim(s)| <= |s| && LTrim(s) == s[|s| - |LTrim(s)|..]
    ensures LTrim(s) == [] || !IsPhpSpace(LTrim(s)[0])
    ensures forall i :: 0 <= i < |s| - |LTrim(s)| ==> IsPhpSpace(s[i])
    decreases |s|
  {
    if s != [] && IsPhpSpace(s[0]) {
      var t := s[1..];
      LTrimCuts(t);
      assert LTrim(s) == LTrim(t);
      forall i | 1 <= i < |s| - |LTrim(s)| ensures IsPhpSpace(s[i]) {
        assert s[i] == t[i - 1];
      }
    }
  }

  /** PHP's rtrim with the default character list. */
  function RTrim(s: string): string
    decreases |s|
  {
    if s != [] && IsPhpSpace(s[|s| - 1]) then RTrim(s[..|s| - 1]) else s
  }

  /** rtrim cuts a run of PHP white space from the back, all of it, and
      nothing else. */
  lemma {:induction false} RTrimCuts(s: string)
    ensures |RTrim(s)| <= |s| && RTrim(s) == s[..|RTrim(s)|]
    ensures RTrim(s) == [] || !IsPhpSpace(RTrim(s)[|RTrim(s)| - 1])
    ensures forall i :: |RTrim(s)| <= i < |s| ==> IsPhpSpace(s[i])
    decreases |s|
  {
    if s != [] && IsPhpSpace(s[|s| - 1]) {
      var t := s[..|s| - 1];
      RTrimCuts(t);
      assert RTrim(s) == RTrim(t);
      forall i | |RTrim(s)| <= i < |s| - 1 ensures IsPhpSpace(s[i]) {
        assert s[i] == t[i];
      }
    }
  }

  /** How many characters trim cuts from the front. */
  function TrimStart(s: string): nat {
    |s| - |LTrim(s)|
  }

  /** PHP's trim with the default character list. */
  function Trim(s: string): string {
    RTrim(LTrim(s))
  }

  /** trim leaves a slice of its input with no PHP white space at either end,
      and cuts only PHP white space. */
  lemma TrimCuts(s: string)
    ensures var r := Trim(s);
      && (r == [] || (!IsPhpSpace(r[0]) && !IsPhpSpace(r[|r| - 1])))
      && TrimStart(s) + |r| <= |s| && r == s[TrimStart(s)..TrimStart(s) + |r|]
      && (forall i :: 0 <= i < TrimStart(s) ==> IsPhpSpace(s[i]))
      && (forall i :: TrimStart(s) + |r| <= i < |s| ==> IsPhpSpace(s[i]))
  {
    var l := LTrim(s);
    var r := RTrim(l);
    LTrimCuts(s);
    RTrimCuts(l);
    CutBothEnds(s, l, r, TrimStart(s));
  }

  /** A prefix `r` of the suffix `l` of `s` from `a` on is the slice of `s`
      from `a`, and what follows it in `l` follows it in `s`. */
  lemma CutBothEnds(s: string, l: string, r: string, a: nat)
    requires a <= |s| && l == s[a..] && |r| <= |l| && r == l[..|r|]
    requires forall i :: |r| <= i < |l| ==> IsPhpSpace(l[i])
    ensures a + |r| <= |s| && r == s[a..a + |r|]
    ensures r != [] ==> r[0] == l[0]
    ensures forall i :: a + |r| <= i < |s| ==> IsPhpSpace(s[i])
  {
    forall i | a + |r| <= i < |s| ensures IsPhpSpace(s[i]) {
      assert s[i] == l[i - a];
    }
  }
}
