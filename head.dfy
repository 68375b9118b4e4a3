/**
  What `wp_geshi_add_css_to_head` writes into the page head: a banner
  comment, a `<link>` for every requested CSS file that exists (each file
  once, in the order first requested), and the generated CSS in a `<style>`
  block when there is any.
*/
module Head {
  import opened Lists

  const Banner: string := "\n<!-- WP-GeSHi-Highlight plugin by Jan-Philip Gehrcke: http://gehrcke.de -->\n"
  const CssSuffix: string := ".css"

  /** The tag `wp_geshi_echo_cssfile` writes for a stylesheet URL. */
  function LinkTag(url: string): string {
    "<link rel=\"stylesheet\" href=\"" + url + "\" type=\"text/css\" media=\"screen\" />\n"
  }

  /** The files among `files` whose path exists, in order. */
  function Linked(files: seq<string>, dir: string, fileExists: string -> bool): seq<string>
    decreases |files|
  {
    if files == [] then []
    else
      var f := files[|files| - 1];
      Linked(files[..|files| - 1], dir, fileExists) + (if fileExists(dir + f + CssSuffix) then [f] else [])
  }

  /** Exactly the files whose path exists are kept, and a list without
      repetitions stays without. */
  lemma {:induction false} LinkedFilters(files: seq<string>, dir: string, fileExists: string -> bool)
    ensures forall f :: f in Linked(files, dir, fileExists) <==> f in files && fileExists(dir + f + CssSuffix)
    ensures NoDup(files) ==> NoDup(Linked(files, dir, fileExists))
    decreases |files|
  {
    if files != [] {
      var init := files[..|files| - 1];
      var f := files[|files| - 1];
      LinkedFilters(init, dir, fileExists);
      assert files == init + [f];
      assert NoDup(files) ==> NoDup(init) && f !in init;
    }
  }

  /** The `<link>` tags for the given files, in order. */
  function Links(files: seq<string>, url: string): string
    decreases |files|
  {
    if files == [] then "" else Links(files[..|files| - 1], url) + LinkTag(url + files[|files| - 1] + CssSuffix)
  }

  /** The `<style>` element around the CSS string. */
  function StyleTag(css: string): (r: string)
    ensures |r| == 27 + |css| + 14 && r[27..27 + |css|] == css
  {
    "<style type=\"text/css\"><!--" + css + "//--></style>\n"
  }

  /** The `<style>` block, written only when the CSS string is not empty. */
  function StyleBlock(css: string): (r: string)
    ensures r == [] <==> |css| == 0
  {
    if |css| > 0 then StyleTag(css) else ""
  }

  /** One more file's tag at the end. */
  lemma LinksSnoc(files: seq<string>, f: string, url: string)
    ensures Links(files + [f], url) == Links(files, url) + LinkTag(url + f + CssSuffix)
  {
    assert (files + [f])[..|files|] == files;
  }

  /** One more requested file: linked when its path exists. */
  lemma LinkedSnoc(files: seq<string>, f: string, dir: string, fileExists: string -> bool)
    ensures Linked(files + [f], dir, fileExists)
         == if fileExists(dir + f + CssSuffix) then Linked(files, dir, fileExists) + [f] else Linked(files, dir, fileExists)
  {
    assert (files + [f])[..|files|] == files;
    assert Linked(files, dir, fileExists) + [] == Linked(files, dir, fileExists);
  }

  /** The head output for the requested files and the CSS string. */
  function HeadHtml(requested: seq<string>, css: string, dir: string, url: string, fileExists: string -> bool): string {
    Banner + Links(Linked(Dedup(requested), dir, fileExists), url) + StyleBlock(css)
  }

  /** Every requested file that exists is linked, and none twice, however
      often the snippets asked for it. */
  lemma LinkedOnce(requested: seq<string>, dir: string, fileExists: string -> bool)
    ensures var r := Linked(Dedup(requested), dir, fileExists);
      NoDup(r) && forall f :: f in r <==> f in requested && fileExists(dir + f + CssSuffix)
  {
    AppendNewGrows([], requested);
    LinkedFilters(Dedup(requested), dir, fileExists);
  }

  /** The link tags, one requested file further. */
  lemma LinksStep(files: seq<string>, i: nat, dir: string, url: string, fileExists: string -> bool)
    requires i < |files|
    ensures Links(Linked(files[..i + 1], dir, fileExists), url)
         == if fileExists(dir + files[i] + CssSuffix)
            then Links(Linked(files[..i], dir, fileExists), url) + LinkTag(url + files[i] + CssSuffix)
            else Links(Linked(files[..i], dir, fileExists), url)
  {
    assert files[..i + 1] == files[..i] + [files[i]];
    LinkedSnoc(files[..i], files[i], dir, fileExists);
    if fileExists(dir + files[i] + CssSuffix) {
      LinksSnoc(Linked(files[..i], dir, fileExists), files[i], url);
    }
  }

  /** The links of the first `j` files begin the links of all of them. */
  lemma {:induction false} LinksPrefix(files: seq<string>, url: string, j: nat)
    requires j <= |files|
    ensures Links(files[..j], url) <= Links(files, url)
    decreases |files|
  {
    if j < |files| {
      var init := files[..|files| - 1];
      LinksPrefix(init, url, j);
      assert init[..j] == files[..j];
    } else {
      assert files[..j] == files;
    }
  }

  /** Each file's link tag sits in the links at the offset the tags of the
      files before it take up. */
  lemma LinksHoldTags(files: seq<string>, url: string, i: nat)
    requires i < |files|
    ensures var a := |Links(files[..i], url)|; var t := LinkTag(url + files[i] + CssSuffix);
      a + |t| <= |Links(files, url)| && Links(files, url)[a..a + |t|] == t
  {
    assert files[..i + 1][..i] == files[..i];
    LinksPrefix(files, url, i + 1);
    SliceOfPrefix(Links(files[..i], url), LinkTag(url + files[i] + CssSuffix), Links(files, url));
  }

  /** When `x + t` begins `w`, `t` sits in `w` just after `x`. */
  lemma SliceOfPrefix(x: string, t: string, w: string)
    requires x + t <= w
    ensures |x| + |t| <= |w| && w[|x|..|x| + |t|] == t
  {
    assert w[..|x| + |t|] == x + t;
    assert (x + t)[|x|..] == t;
  }

  /** The head starts with the banner, holds the link tags of the existing
      requested files after it (see LinkedOnce and LinksHoldTags), and ends
      with the style element exactly when the CSS string is not empty. */
  lemma HeadShape(requested: seq<string>, css: string, dir: string, url: string, fileExists: string -> bool)
    ensures var h := HeadHtml(requested, css, dir, url, fileExists);
      var links := Links(Linked(Dedup(requested), dir, fileExists), url);
      && |Banner| + |links| <= |h| && h[..|Banner|] == Banner && h[|Banner|..|Banner| + |links|] == links
      && (|css| > 0 ==> h[|Banner| + |links|..] == StyleTag(css))
      && (|css| == 0 ==> |h| == |Banner| + |links|)
  {
    ThreeParts(Banner, Links(Linked(Dedup(requested), dir, fileExists), url), StyleBlock(css));
  }

  /** The three parts of a concatenation can be cut out again. */
  lemma ThreeParts(x: string, y: string, z: string)
    ensures var w := x + y + z;
      && w[..|x|] == x && w[|x|..|x| + |y|] == y && w[|x| + |y|..] == z && |w| == |x| + |y| + |z|
  {
  }

  /** The head is the banner and the links, then the style element when there is CSS. */
  lemma HeadParts(requested: seq<string>, css: string, dir: string, url: string, fileExists: string -> bool)
    ensures HeadHtml(requested, css, dir, url, fileExists)
         == if |css| > 0 then Banner + Links(Linked(Dedup(requested), dir, fileExists), url) + StyleTag(css)
            else Banner + Links(Linked(Dedup(requested), dir, fileExists), url)
  {
    AppendNil(Banner + Links(Linked(Dedup(requested), dir, fileExists), url));
  }
}
