/**
  The placeholder a protected snippet leaves behind,
  `"\n<p>" + token + "_" + sprintf("%06d", index) + "</p>\n"`, and the
  reinsertion filter that finds `<p>\s*TOKEN_(\d{6})\s*<\/p>` (caseless) in a
  text and puts the stored output for `intval` of the six digits in its place.

  The token is the 32 lower-case hexadecimal digits of an MD5 sum. As with the
  snippet recogniser, the caseless search runs as an exact search over the
  lower-cased text: the pattern has no upper-case letter and `\s`, `\d` are
  blind to case. Both `\s*` of the pattern are followed by a character that is
  no white space (a hex digit, `<`), so the search never backtracks.
*/
module Reinsertion {
  import opened Wrappers
  import opened Chars

  /** The field width of `%06d`. */
  const Width: nat := 6

  /** The first index whose padded form no longer has six digits. */
  const Limit: nat := 1000000

  predicate AllDigits(d: string) {
    forall i :: 0 <= i < |d| ==> IsDigit(d[i])
  }

  function DigitChar(n: nat): (c: char)
    requires n < 10
    ensures IsDigit(c)
  {
    ('0' as int + n) as char
  }

  function DigitValue(c: char): (n: nat)
    requires IsDigit(c)
    ensures n < 10 && DigitChar(n) == c
  {
    c as int - '0' as int
  }

  /** The decimal digits of `n`, without leading zeros (`0` is `"0"`). */
  function Decimal(n: nat): (r: string)
    ensures 1 <= |r| && AllDigits(r)
    ensures |r| > 1 ==> r[0] != '0'
  {
    if n < 10 then [DigitChar(n)] else Decimal(n / 10) + [DigitChar(n % 10)]
  }

  function Zeros(k: nat): (r: string)
    ensures |r| == k && forall i :: 0 <= i < k ==> r[i] == '0'
  {
    if k == 0 then [] else Zeros(k - 1) + ['0']
  }

  /** `sprintf("%06d", n)`: the decimal digits of `n`, padded on the left with
      zeros to six characters; a wider number is not cut. */
  function Pad6(n: nat): (r: string)
    ensures AllDigits(r) && Width <= |r|
  {
    var d := Decimal(n);
    if |d| < Width then Zeros(Width - |d|) + d else d
  }

  /** PHP's `intval` on a string of decimal digits. */
  function IntVal(d: string): nat
    requires AllDigits(d)
  {
    if d == [] then 0 else IntVal(d[..|d| - 1]) * 10 + DigitValue(d[|d| - 1])
  }

  function Pow10(k: nat): (r: nat)
    ensures r >= 1
  {
    if k == 0 then 1 else 10 * Pow10(k - 1)
  }

  /** Reading the decimal digits of `n` gives back `n`. */
  lemma {:induction false} DecimalRoundTrip(n: nat)
    ensures IntVal(Decimal(n)) == n
  {
    if n >= 10 {
      DecimalRoundTrip(n / 10);
      var d := Decimal(n);
      assert d[..|d| - 1] == Decimal(n / 10);
    }
  }

  /** `n` has at most `k` decimal digits exactly when it is below `10^k`. */
  lemma {:induction false} DecimalWidth(n: nat, k: nat)
    requires k >= 1
    ensures |Decimal(n)| <= k <==> n < Pow10(k)
  {
    if n >= 10 && k >= 2 {
      DecimalWidth(n / 10, k - 1);
    } else if n >= 10 {
      assert |Decimal(n)| == |Decimal(n / 10)| + 1;
    }
  }

  /** Leading zeros do not change the value `intval` reads. */
  lemma {:induction false} IntValLeadingZeros(k: nat, d: string)
    requires AllDigits(d)
    ensures AllDigits(Zeros(k) + d) && IntVal(Zeros(k) + d) == IntVal(d)
  {
    var z := Zeros(k) + d;
    if d == [] {
      assert z == Zeros(k);
      ZerosValue(k);
    } else {
      assert z[..|z| - 1] == Zeros(k) + d[..|d| - 1];
      IntValLeadingZeros(k, d[..|d| - 1]);
    }
  }

  lemma {:induction false} ZerosValue(k: nat)
    ensures AllDigits(Zeros(k)) && IntVal(Zeros(k)) == 0
  {
    if k > 0 {
      assert Zeros(k)[..k - 1] == Zeros(k - 1);
      ZerosValue(k - 1);
    }
  }

  /** Below one million the padded index has exactly six digits, and `intval`
      of them is the index again. */
  lemma Pad6RoundTrip(n: nat)
    requires n < Limit
    ensures |Pad6(n)| == Width && IntVal(Pad6(n)) == n
  {
    DecimalWidth(n, Width);
    DecimalRoundTrip(n);
    IntValLeadingZeros(Width - |Decimal(n)|, Decimal(n));
  }

  /** From one million on the padded index is wider than the six digits the
      reinsertion pattern reads. */
  lemma Pad6TooWide(n: nat)
    requires n >= Limit
    ensures |Pad6(n)| > Width
  {
    DecimalWidth(n, Width);
  }

  // ---------------------------------------------------------------------------
  // The token and the placeholder

  predicate IsLowerHex(c: char) {
    IsDigit(c) || 'a' <= c <= 'f'
  }

  /** What `md5()` returns: 32 lower-case hexadecimal digits. */
  predicate ValidToken(t: string) {
    |t| == 32 && forall i :: 0 <= i < |t| ==> IsLowerHex(t[i])
  }

  /** The text `wp_geshi_store_and_substitute` puts in place of snippet `i`. */
  function Placeholder(token: string, i: nat): (r: string)
    ensures |r| == |token| + |Pad6(i)| + 10
  {
    "\n<p>" + token + "_" + Pad6(i) + "</p>\n"
  }

  /** The reinsertion pattern tried at `x` of the lower-cased text `f`: the end
      of the match and the index `intval` reads, or None. */
  function PlaceholderAt(f: string, x: nat, token: string): (r: Option<(nat, nat)>)
    requires x <= |f|
    ensures r.Some? ==> x + |token| + 13 <= r.value.0 <= |f|
    ensures r.Some? ==> At(f, x, "<p>") && At(f, SpaceRunEnd(f, x + 3), token)
  {
    if At(f, x, "<p>") then
      var q := SpaceRunEnd(f, x + 3);
      var d := q + |token| + 1;
      if At(f, q, token) && At(f, q + |token|, "_") && d + Width <= |f| && AllDigits(f[d..d + Width]) then
        var e := SpaceRunEnd(f, d + Width);
        if At(f, e, "</p>") then Some((e + 4, IntVal(f[d..d + Width]))) else None
      else None
    else None
  }

  /** `wp_geshi_get_highlighted_code`: the stored output for the index; an
      index with no entry reads as PHP's null, which the replacement turns into "". */
  function GetHighlightedCode(highlighted: map<nat, string>, i: nat): (r: string)
    ensures i in highlighted ==> r == highlighted[i]
    ensures i !in highlighted ==> r == ""
  {
    if i in highlighted then highlighted[i] else ""
  }

  /** `preg_replace_callback` with the reinsertion pattern, from position `p`
      of `x` on; `f` is the lower-cased `x`. */
  function Reinsert(x: string, f: string, p: nat, token: string, highlighted: map<nat, string>): string
    requires |f| == |x| && p <= |x|
    decreases |x| - p
  {
    if p == |x| then []
    else
      var m := PlaceholderAt(f, p, token);
      if m.Some? then GetHighlightedCode(highlighted, m.value.1) + Reinsert(x, f, m.value.0, token, highlighted)
      else [x[p]] + Reinsert(x, f, p + 1, token, highlighted)
  }

  /** The reinsertion filter applied to a whole text. */
  function ReinsertText(x: string, token: string, highlighted: map<nat, string>): string {
    Reinsert(x, LowerAll(x), 0, token, highlighted)
  }

  // ---------------------------------------------------------------------------
  // Properties of the reinsertion

  /** Where the pattern does not match, reinsertion copies one character. */
  lemma ReinsertStep(x: string, f: string, p: nat, token: string, highlighted: map<nat, string>)
    requires |f| == |x| && p < |x| && PlaceholderAt(f, p, token).None?
    ensures Reinsert(x, f, p, token, highlighted) == [x[p]] + Reinsert(x, f, p + 1, token, highlighted)
  {
  }

  /** The pattern matches nowhere from `p` up to `q`. */
  predicate NoPlaceholderIn(f: string, p: nat, q: nat, token: string)
    requires q <= |f|
    decreases q - p
  {
    p >= q || (PlaceholderAt(f, p, token).None? && NoPlaceholderIn(f, p + 1, q, token))
  }

  /** A stretch where the pattern matches nowhere is copied unchanged. */
  lemma {:induction false} ReinsertCopies(x: string, f: string, p: nat, q: nat, token: string, highlighted: map<nat, string>)
    requires |f| == |x| && p <= q <= |x| && NoPlaceholderIn(f, p, q, token)
    ensures Reinsert(x, f, p, token, highlighted) == x[p..q] + Reinsert(x, f, q, token, highlighted)
    decreases q - p
  {
    if p < q {
      ReinsertStep(x, f, p, token, highlighted);
      ReinsertCopies(x, f, p + 1, q, token, highlighted);
      assert x[p..q] == [x[p]] + x[p + 1..q];
    }
  }

  /** Characters that lower-casing leaves alone. */
  predicate Folded(s: string) {
    forall i :: 0 <= i < |s| ==> !IsUpper(s[i])
  }

  lemma PlaceholderFolded(token: string, i: nat)
    requires ValidToken(token)
    ensures Folded(Placeholder(token, i))
  {
  }

  /** What a match of the reinsertion pattern at `y` is made of: `<p>`, white
      space, then the token's hexadecimal digits. */
  lemma MatchShape(f: string, y: nat, token: string)
    requires ValidToken(token) && y <= |f| && PlaceholderAt(f, y, token).Some?
    ensures y + 3 <= SpaceRunEnd(f, y + 3) && SpaceRunEnd(f, y + 3) + |token| <= |f|
    ensures f[y] == '<' && f[y + 1] == 'p' && f[y + 2] == '>'
    ensures forall i :: y + 3 <= i < SpaceRunEnd(f, y + 3) ==> IsSpace(f[i])
    ensures forall i :: SpaceRunEnd(f, y + 3) <= i < SpaceRunEnd(f, y + 3) + |token| ==> IsLowerHex(f[i])
  {
    var q := SpaceRunEnd(f, y + 3);
    assert f[y + 0] == "<p>"[0] && f[y + 1] == "<p>"[1] && f[y + 2] == "<p>"[2];
    forall i | q <= i < q + |token| ensures IsLowerHex(f[i]) {
      assert f[q + (i - q)] == token[i - q];
    }
  }

  /** No occurrence of the token lies wholly inside `f[a..b]`. */
  predicate TokenFree(f: string, a: nat, b: nat, token: string) {
    forall q :: a <= q && q + |token| <= b ==> !At(f, q, token)
  }

  /** Matching nowhere at each position is matching nowhere in the stretch. */
  lemma {:induction false} NoPlaceholderFromAll(f: string, p: nat, q: nat, token: string)
    requires q <= |f| && forall y :: p <= y < q ==> PlaceholderAt(f, y, token).None?
    ensures NoPlaceholderIn(f, p, q, token)
    decreases q - p
  {
    if p < q {
      NoPlaceholderFromAll(f, p + 1, q, token);
    }
  }

  /** The pattern cannot match anywhere in a stretch `f[a..b]` that holds no
      occurrence of the token and is followed by the end of the text or by a
      placeholder (which begins with a newline and `<`). */
  lemma NoMatchInCleanStretch(f: string, a: nat, b: nat, token: string)
    requires ValidToken(token) && a <= b <= |f|
    requires b == |f| || (b + 1 < |f| && f[b] == '\n' && f[b + 1] == '<')
    requires TokenFree(f, a, b, token)
    ensures NoPlaceholderIn(f, a, b, token)
  {
    forall y | a <= y < b ensures PlaceholderAt(f, y, token).None? {
      if PlaceholderAt(f, y, token).Some? {
        // The token would reach the newline at `b`, or white space would reach the `<` after it.
        MatchShape(f, y, token);
        assert false;
      }
    }
    NoPlaceholderFromAll(f, a, b, token);
  }

  /** The pieces of a placeholder, at their offsets. */
  lemma PlaceholderParts(token: string, i: nat)
    requires ValidToken(token) && i < Limit
    ensures |Pad6(i)| == Width && |Placeholder(token, i)| == 48
    ensures Placeholder(token, i)[..4] == "\n<p>"
    ensures Placeholder(token, i)[4..36] == token
    ensures Placeholder(token, i)[36..37] == "_"
    ensures Placeholder(token, i)[37..43] == Pad6(i)
    ensures Placeholder(token, i)[43..47] == "</p>"
    ensures Placeholder(token, i)[47] == '\n'
  {
    Pad6RoundTrip(i);
    var ph := Placeholder(token, i);
    assert ph == "\n<p>" + token + "_" + Pad6(i) + "</p>\n";
  }

  /** The pattern finds a placeholder at its `<p>` and reads back its index. */
  lemma PlaceholderRecognised(f: string, a: nat, token: string, i: nat)
    requires ValidToken(token) && i < Limit
    requires a + |Placeholder(token, i)| <= |f| && f[a..a + |Placeholder(token, i)|] == Placeholder(token, i)
    ensures PlaceholderAt(f, a + 1, token) == Some((a + |Placeholder(token, i)| - 1, i))
  {
    var ph := Placeholder(token, i);
    PlaceholderParts(token, i);
    Pad6RoundTrip(i);
    assert ph[1..4] == "<p>";
    AtInside(f, a, ph, 1, "<p>");
    AtInside(f, a, ph, 4, token);
    assert f[a + 4 + 0] == token[0];
    assert SpaceRunEnd(f, a + 4) == a + 4;
    AtInside(f, a, ph, 36, "_");
    AtInside(f, a, ph, 37, Pad6(i));
    AtInside(f, a, ph, 43, "</p>");
    assert f[a + 43 + 0] == '<';
    assert SpaceRunEnd(f, a + 43) == a + 43;
  }

  /** The pattern never matches at a newline. */
  lemma NewlineNoMatch(f: string, y: nat, token: string)
    requires y < |f| && f[y] == '\n'
    ensures PlaceholderAt(f, y, token).None?
  {
    AtHead(f, y, "<p>");
  }

  /** Where the pattern matches, reinsertion puts the stored output and goes on after the match. */
  lemma ReinsertMatch(x: string, f: string, p: nat, token: string, e: nat, i: nat, highlighted: map<nat, string>)
    requires |f| == |x| && p < |x| && PlaceholderAt(f, p, token) == Some((e, i))
    ensures e <= |x|
    ensures Reinsert(x, f, p, token, highlighted) == GetHighlightedCode(highlighted, i) + Reinsert(x, f, e, token, highlighted)
  {
  }

  /** Two newlines around a piece, regrouped. */
  lemma NewlinesAround(c: string, g: string, d: string, r: string)
    requires c == "\n" && d == "\n"
    ensures c + (g + (d + r)) == "\n" + g + "\n" + r
  {
  }

  /** Reinsertion turns a placeholder into the stored output between the two newlines around it. */
  lemma ReinsertPlaceholder(x: string, f: string, a: nat, token: string, i: nat, highlighted: map<nat, string>)
    requires |f| == |x| && ValidToken(token) && i < Limit
    requires a + |Placeholder(token, i)| <= |f| && f[a..a + |Placeholder(token, i)|] == Placeholder(token, i)
    requires x[a..a + |Placeholder(token, i)|] == Placeholder(token, i)
    ensures Reinsert(x, f, a, token, highlighted)
         == "\n" + GetHighlightedCode(highlighted, i) + "\n" + Reinsert(x, f, a + |Placeholder(token, i)|, token, highlighted)
  {
    var ph := Placeholder(token, i);
    var n := |ph|;
    PlaceholderParts(token, i);
    assert f[a] == f[a..a + n][0] && x[a] == x[a..a + n][0];
    assert f[a + n - 1] == f[a..a + n][n - 1] && x[a + n - 1] == x[a..a + n][n - 1];
    NewlineNoMatch(f, a, token);
    NewlineNoMatch(f, a + n - 1, token);
    PlaceholderRecognised(f, a, token, i);
    ReinsertStep(x, f, a, token, highlighted);
    ReinsertMatch(x, f, a + 1, token, a + n - 1, i, highlighted);
    ReinsertStep(x, f, a + n - 1, token, highlighted);
    NewlinesAround([x[a]], GetHighlightedCode(highlighted, i), [x[a + n - 1]], Reinsert(x, f, a + n, token, highlighted));
  }

  /** A text that holds no occurrence of the token comes back unchanged. */
  lemma NoTokenNoChange(x: string, token: string, highlighted: map<nat, string>)
    requires ValidToken(token) && !ContainsCI(x, token)
    ensures ReinsertText(x, token, highlighted) == x
  {
    var f := LowerAll(x);
    forall q | 0 <= q && q + |token| <= |f| ensures !At(f, q, token) {
      if At(f, q, token) {
        OccursFromAt(f, 0, q, token);
      }
    }
    NoMatchInCleanStretch(f, 0, |f|, token);
    ReinsertCopies(x, f, 0, |x|, token, highlighted);
  }
}
