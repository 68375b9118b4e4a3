/**
  The state the plugin keeps in PHP globals during one request, as one
  object, and the functions of the plugin that read and update it:
  detection and substitution over the posts and their approved comments,
  the highlight loop, the rehydration of re-read comments, the reinsertion
  filter and the head output.
*/
module Run {
  import opened Wrappers
  import opened Chars
  import opened Lists
  import opened PreTag
  import opened Reinsertion
  import opened Snippets
  import opened Highlight
  import opened Head

  /** An entry of the match-array store: the groups, with the entry's own
      index appended. */
  datatype StoredMatch = StoredMatch(groups: RawMatch, index: nat)

  /** A post of the query, and a comment. Only the fields the plugin uses. */
  datatype Post = Post(id: nat, content: string)
  datatype Comment = Comment(id: nat, content: string)

  /** The match arrays of one text, stored from index `base` on. */
  function Stored(rs: seq<RawMatch>, base: nat): (r: seq<StoredMatch>)
    ensures |r| == |rs| && forall i :: 0 <= i < |r| ==> r[i] == StoredMatch(rs[i], base + i)
  {
    seq(|rs|, i requires 0 <= i < |rs| => StoredMatch(rs[i], base + i))
  }

  /** The match arrays of a text, in the order the snippets occur. */
  function MatchesOf(s: string): (rs: seq<RawMatch>)
    ensures |rs| == SnippetCount(s)
  {
    MatchesFrom(s, LowerAll(s), 0)
  }

  /** The match arrays of a text are those of the matches the scan of its
      folded text finds, one for one and in order. */
  lemma MatchesOfFields(s: string)
    ensures |MatchesOf(s)| == |Scan(LowerAll(s), 0)|
    ensures forall i :: 0 <= i < |MatchesOf(s)| ==>
      MatchOk(LowerAll(s), Scan(LowerAll(s), 0)[i]) && MatchesOf(s)[i] == Fields(s, LowerAll(s), Scan(LowerAll(s), 0)[i])
  {
    MatchesFromFields(s, LowerAll(s), 0);
  }

  /** Every entry's index is its position: the indices are 0 to N-1. */
  predicate Dense(pending: seq<StoredMatch>) {
    forall i :: 0 <= i < |pending| ==> pending[i].index == i
  }

  /** Storing the match arrays of a text at the end of a dense store keeps it dense. */
  lemma StoringKeepsDense(pending: seq<StoredMatch>, rs: seq<RawMatch>)
    requires Dense(pending)
    ensures Dense(pending + Stored(rs, |pending|))
  {
  }

  // ---------------------------------------------------------------------------
  // Detection over a whole query, as a function

  /** The match store and the comments map during detection. */
  datatype Detected = Detected(pending: seq<StoredMatch>, comments: map<nat, string>)

  /** After one more text has been through `wp_geshi_filter_replace_code`. */
  function AfterText(d: Detected, s: string): Detected {
    Detected(d.pending + Stored(MatchesOf(s), |d.pending|), d.comments)
  }

  /** After the given approved comments, one after the other; each comment's
      replaced text is stored under its ID. */
  function AfterComments(d: Detected, cs: seq<Comment>, token: string): Detected
    decreases |cs|
  {
    if cs == [] then d
    else
      var e := AfterComments(d, cs[..|cs| - 1], token);
      var c := cs[|cs| - 1];
      Detected(AfterText(e, c.content).pending, e.comments[c.id := ProtectText(c.content, token, |e.pending|)])
  }

  /** After the given posts, one after the other: each post's content, then its approved comments. */
  function AfterPosts(d: Detected, ps: seq<Post>, approved: nat -> seq<Comment>, token: string): Detected
    decreases |ps|
  {
    if ps == [] then d
    else
      var e := AfterPosts(d, ps[..|ps| - 1], approved, token);
      var p := ps[|ps| - 1];
      AfterComments(AfterText(e, p.content), approved(p.id), token)
  }

  /** The first match index the snippets of post `k` get. */
  function PostBase(d: Detected, ps: seq<Post>, k: nat, approved: nat -> seq<Comment>, token: string): nat
    requires k <= |ps|
  {
    |AfterPosts(d, ps[..k], approved, token).pending|
  }

  /** A post with its content replaced at its own base index. */
  function ProtectedPost(d: Detected, ps: seq<Post>, k: nat, approved: nat -> seq<Comment>, token: string): Post
    requires k < |ps|
  {
    ps[k].(content := ProtectText(ps[k].content, token, PostBase(d, ps, k, approved, token)))
  }

  /** Every post with its content replaced, each at its own base index. */
  function ProtectedPosts(d: Detected, ps: seq<Post>, approved: nat -> seq<Comment>, token: string): (r: seq<Post>)
    ensures |r| == |ps|
  {
    seq(|ps|, k requires 0 <= k < |ps| => ProtectedPost(d, ps, k, approved, token))
  }

  /** The posts before `i` are replaced and the others are as they were. */
  predicate PostsDone(d: Detected, ps: seq<Post>, i: nat, approved: nat -> seq<Comment>, token: string, cur: seq<Post>) {
    && i <= |ps| == |cur|
    && (forall k :: 0 <= k < i ==> cur[k] == ProtectedPost(d, ps, k, approved, token))
    && (forall k :: i <= k < |ps| ==> cur[k] == ps[k])
  }

  /** One more post replaced. */
  lemma PostsDoneStep(d: Detected, ps: seq<Post>, i: nat, approved: nat -> seq<Comment>, token: string,
                      cur: seq<Post>, content: string)
    requires i < |ps| && PostsDone(d, ps, i, approved, token, cur)
    requires content == ProtectText(ps[i].content, token, PostBase(d, ps, i, approved, token))
    ensures PostsDone(d, ps, i + 1, approved, token, cur[i := cur[i].(content := content)])
  {
  }

  /** All posts replaced. */
  lemma PostsDoneAll(d: Detected, ps: seq<Post>, approved: nat -> seq<Comment>, token: string, cur: seq<Post>)
    requires PostsDone(d, ps, |ps|, approved, token, cur)
    ensures cur == ProtectedPosts(d, ps, approved, token)
  {
  }

  /** Detection only appends to the store: the indices stay dense, and what
      was stored before stays where it was. */
  lemma {:induction false} DetectionAppends(d: Detected, ps: seq<Post>, approved: nat -> seq<Comment>, token: string)
    ensures d.pending <= AfterPosts(d, ps, approved, token).pending
    ensures Dense(d.pending) ==> Dense(AfterPosts(d, ps, approved, token).pending)
    decreases |ps|
  {
    if ps != [] {
      var e := AfterPosts(d, ps[..|ps| - 1], approved, token);
      var p := ps[|ps| - 1];
      DetectionAppends(d, ps[..|ps| - 1], approved, token);
      CommentsAppend(AfterText(e, p.content), approved(p.id), token);
    }
  }

  /** The same for the comments of one post. */
  lemma {:induction false} CommentsAppend(d: Detected, cs: seq<Comment>, token: string)
    ensures d.pending <= AfterComments(d, cs, token).pending
    ensures Dense(d.pending) ==> Dense(AfterComments(d, cs, token).pending)
    decreases |cs|
  {
    if cs != [] {
      CommentsAppend(d, cs[..|cs| - 1], token);
    }
  }

  // ---------------------------------------------------------------------------
  // The highlight loop, as a function

  /** The normalised settings of the stored matches, in index order. */
  function SettingsOf(pending: seq<StoredMatch>, decode: string -> string): (r: seq<Settings>)
    ensures |r| == |pending|
  {
    MapSeq((e: StoredMatch) => Normalise(e.groups, decode), pending)
  }

  /** Entry `i` holds the normalised settings of stored match `i`. */
  lemma SettingsAt(pending: seq<StoredMatch>, decode: string -> string, i: nat)
    requires i < |pending|
    ensures SettingsOf(pending, decode)[i] == Normalise(pending[i].groups, decode)
  {
    MapSeqAt((e: StoredMatch) => Normalise(e.groups, decode), pending, i);
  }

  /** The stored output of every index below `n`. */
  function Outputs(items: seq<Settings>, n: nat, lib: Library): map<nat, string>
    requires n <= |items|
  {
    if n == 0 then map[] else Outputs(items, n - 1, lib)[n - 1 := Output(items[n - 1], lib)]
  }

  /** Exactly the indexes below `n` have an output, each that of its snippet. */
  lemma {:induction false} OutputsAt(items: seq<Settings>, n: nat, lib: Library, i: nat)
    requires n <= |items|
    ensures i in Outputs(items, n, lib) <==> i < n
    ensures i < n ==> Outputs(items, n, lib)[i] == Output(items[i], lib)
    decreases n
  {
    if n > 0 && i != n - 1 {
      OutputsAt(items, n - 1, lib, i);
    }
  }

  // ---------------------------------------------------------------------------
  // From a snippet of a post to its output

  /** The store after the first `i` posts is the start of the store after all of them. */
  lemma {:induction false} AfterPostsPrefix(d: Detected, ps: seq<Post>, i: nat, approved: nat -> seq<Comment>, token: string)
    requires i <= |ps|
    ensures AfterPosts(d, ps[..i], approved, token).pending <= AfterPosts(d, ps, approved, token).pending
    decreases |ps|
  {
    if i < |ps| {
      var init := ps[..|ps| - 1];
      assert init[..i] == ps[..i];
      AfterPostsPrefix(d, init, i, approved, token);
      var e := AfterPosts(d, init, approved, token);
      CommentsAppend(AfterText(e, ps[|ps| - 1].content), approved(ps[|ps| - 1].id), token);
    } else {
      assert ps[..i] == ps;
    }
  }

  /** Snippet `j` of post `k` is stored under the index its placeholder
      carries: the post's base index plus `j`. */
  lemma PostSnippetStored(d: Detected, ps: seq<Post>, k: nat, j: nat, approved: nat -> seq<Comment>, token: string)
    requires k < |ps| && j < SnippetCount(ps[k].content)
    ensures var pending := AfterPosts(d, ps, approved, token).pending;
      var b := PostBase(d, ps, k, approved, token);
      b + j < |pending| && pending[b + j] == StoredMatch(MatchesOf(ps[k].content)[j], b + j)
  {
    var e := AfterPosts(d, ps[..k], approved, token);
    var t := AfterText(e, ps[k].content);
    TakeOneMore(ps, k);
    CommentsAppend(t, approved(ps[k].id), token);
    AfterPostsPrefix(d, ps, k + 1, approved, token);
    assert t.pending[|e.pending| + j] == StoredMatch(MatchesOf(ps[k].content)[j], |e.pending| + j);
  }

  /** Snippet `j` of a text goes to the store at the store's old length plus
      `j`, and stays there in any store that starts with that one. */
  lemma TextStored(e: Detected, s: string, j: nat, final: seq<StoredMatch>)
    requires j < SnippetCount(s) && AfterText(e, s).pending <= final
    ensures |e.pending| + j < |final| && final[|e.pending| + j] == StoredMatch(MatchesOf(s)[j], |e.pending| + j)
  {
    assert AfterText(e, s).pending[|e.pending| + j] == StoredMatch(MatchesOf(s)[j], |e.pending| + j);
  }

  /** A stored match brings back, under its index, the output of its own groups. */
  lemma StoredOutput(pending: seq<StoredMatch>, i: nat, groups: RawMatch, lib: Library)
    requires i < |pending| && pending[i] == StoredMatch(groups, i)
    ensures GetHighlightedCode(Outputs(SettingsOf(pending, lib.decode), |pending|, lib), i) == Output(Normalise(groups, lib.decode), lib)
  {
    var n: nat := |pending|;
    SettingsAt(pending, lib.decode, i);
    OutputsAt(SettingsOf(pending, lib.decode), n, lib, i);
  }

  /** Snippet `j` of post `k`: its placeholder's index brings back its output. */
  lemma PostSnippetOutput(ps: seq<Post>, k: nat, j: nat, approved: nat -> seq<Comment>, token: string, lib: Library,
                          pending: seq<StoredMatch>, highlighted: map<nat, string>)
    requires k < |ps| && j < SnippetCount(ps[k].content)
    requires pending == AfterPosts(Detected([], map[]), ps, approved, token).pending
    requires highlighted == Outputs(SettingsOf(pending, lib.decode), |pending|, lib)
    ensures GetHighlightedCode(highlighted, PostBase(Detected([], map[]), ps, k, approved, token) + j)
         == Output(Normalise(MatchesOf(ps[k].content)[j], lib.decode), lib)
  {
    PostSnippetStored(Detected([], map[]), ps, k, j, approved, token);
    StoredOutput(pending, PostBase(Detected([], map[]), ps, k, approved, token) + j, MatchesOf(ps[k].content)[j], lib);
  }

  /** The snippets of post `k` fit below the end of the store. */
  lemma PostSnippetsFit(d: Detected, ps: seq<Post>, k: nat, approved: nat -> seq<Comment>, token: string)
    requires k < |ps|
    ensures PostBase(d, ps, k, approved, token) + SnippetCount(ps[k].content) <= |AfterPosts(d, ps, approved, token).pending|
  {
    AfterPostsPrefix(d, ps, k, approved, token);
    if SnippetCount(ps[k].content) > 0 {
      PostSnippetStored(d, ps, k, SnippetCount(ps[k].content) - 1, approved, token);
    }
  }

  /** After a run over `ps`, the reader of post `k` gets the output of each of
      its snippets in place of that snippet: the placeholder of snippet `j`
      brings back the output of snippet `j`'s own groups, and reinsertion
      over the replaced content yields the content with every snippet filled
      in, given a content without the token and fewer than one million
      snippets in the run. */
  lemma PostReadsBack(ps: seq<Post>, k: nat, approved: nat -> seq<Comment>, token: string, lib: Library,
                      pending: seq<StoredMatch>, highlighted: map<nat, string>)
    requires k < |ps| && ValidToken(token) && !ContainsCI(ps[k].content, token)
    requires pending == AfterPosts(Detected([], map[]), ps, approved, token).pending && |pending| <= Limit
    requires highlighted == Outputs(SettingsOf(pending, lib.decode), |pending|, lib)
    ensures var b := PostBase(Detected([], map[]), ps, k, approved, token);
      && (forall j :: 0 <= j < SnippetCount(ps[k].content) ==>
            GetHighlightedCode(highlighted, b + j) == Output(Normalise(MatchesOf(ps[k].content)[j], lib.decode), lib))
      && ReinsertText(ProtectedPost(Detected([], map[]), ps, k, approved, token).content, token, highlighted)
         == RenderText(ps[k].content, b, highlighted)
  {
    var d := Detected([], map[]);
    var b := PostBase(d, ps, k, approved, token);
    forall j | 0 <= j < SnippetCount(ps[k].content)
      ensures GetHighlightedCode(highlighted, PostBase(Detected([], map[]), ps, k, approved, token) + j)
           == Output(Normalise(MatchesOf(ps[k].content)[j], lib.decode), lib)
    {
      PostSnippetOutput(ps, k, j, approved, token, lib, pending, highlighted);
    }
    PostSnippetsFit(d, ps, k, approved, token);
    ReinsertUndoesProtect(ps[k].content, token, b, highlighted);
  }

  // ---------------------------------------------------------------------------
  // From a snippet of a comment to its output

  /** The store when the comments of post `k` begin: the posts before it, then its own text. */
  function CommentsStart(d: Detected, ps: seq<Post>, k: nat, approved: nat -> seq<Comment>, token: string): Detected
    requires k < |ps|
  {
    AfterText(AfterPosts(d, ps[..k], approved, token), ps[k].content)
  }

  /** The first match index the snippets of comment `j` of post `k` get. */
  function CommentBase(d: Detected, ps: seq<Post>, k: nat, j: nat, approved: nat -> seq<Comment>, token: string): nat
    requires k < |ps| && j <= |approved(ps[k].id)|
  {
    |AfterComments(CommentsStart(d, ps, k, approved, token), approved(ps[k].id)[..j], token).pending|
  }

  /** The text kept for comment `j` of post `k`: its content with every
      snippet replaced, numbered from the comment's base index on. */
  function KeptComment(d: Detected, ps: seq<Post>, k: nat, j: nat, approved: nat -> seq<Comment>, token: string): string
    requires k < |ps| && j < |approved(ps[k].id)|
  {
    ProtectText(approved(ps[k].id)[j].content, token, CommentBase(d, ps, k, j, approved, token))
  }

  /** The store after the first `i` comments is the start of the store after all of them. */
  lemma {:induction false} AfterCommentsPrefix(d: Detected, cs: seq<Comment>, i: nat, token: string)
    requires i <= |cs|
    ensures AfterComments(d, cs[..i], token).pending <= AfterComments(d, cs, token).pending
    decreases |cs|
  {
    if i < |cs| {
      var init := cs[..|cs| - 1];
      assert init[..i] == cs[..i];
      AfterCommentsPrefix(d, init, i, token);
    } else {
      assert cs[..i] == cs;
    }
  }

  /** The store after the comments of post `k` is the start of the final store. */
  lemma CommentsOfPostKept(d: Detected, ps: seq<Post>, k: nat, approved: nat -> seq<Comment>, token: string)
    requires k < |ps|
    ensures AfterComments(CommentsStart(d, ps, k, approved, token), approved(ps[k].id), token) == AfterPosts(d, ps[..k + 1], approved, token)
    ensures AfterPosts(d, ps[..k + 1], approved, token).pending <= AfterPosts(d, ps, approved, token).pending
  {
    TakeOneMore(ps, k);
    AfterPostsPrefix(d, ps, k + 1, approved, token);
  }

  /** Snippet `i` of comment `j` of post `k` is stored under the index its
      placeholder carries: the comment's base index plus `i`. */
  lemma CommentSnippetStored(d: Detected, ps: seq<Post>, k: nat, j: nat, i: nat, approved: nat -> seq<Comment>, token: string,
                             final: seq<StoredMatch>)
    requires k < |ps| && j < |approved(ps[k].id)| && i < SnippetCount(approved(ps[k].id)[j].content)
    requires final == AfterPosts(d, ps, approved, token).pending
    ensures var b := CommentBase(d, ps, k, j, approved, token);
      b + i < |final| && final[b + i] == StoredMatch(MatchesOf(approved(ps[k].id)[j].content)[i], b + i)
  {
    var e := AfterComments(CommentsStart(d, ps, k, approved, token), approved(ps[k].id)[..j], token);
    assert CommentBase(d, ps, k, j, approved, token) == |e.pending|;
    CommentTextKept(d, ps, k, j, approved, token);
    TextStored(e, approved(ps[k].id)[j].content, i, final);
  }

  /** What comment `j` of post `k` stores stays in the final store. */
  lemma CommentTextKept(d: Detected, ps: seq<Post>, k: nat, j: nat, approved: nat -> seq<Comment>, token: string)
    requires k < |ps| && j < |approved(ps[k].id)|
    ensures AfterText(AfterComments(CommentsStart(d, ps, k, approved, token), approved(ps[k].id)[..j], token),
                      approved(ps[k].id)[j].content).pending
         <= AfterPosts(d, ps, approved, token).pending
  {
    var cs := approved(ps[k].id);
    var t := CommentsStart(d, ps, k, approved, token);
    TakeOneMore(cs, j);
    assert AfterComments(t, cs[..j + 1], token).pending == AfterText(AfterComments(t, cs[..j], token), cs[j].content).pending;
    AfterCommentsPrefix(t, cs, j + 1, token);
    CommentsOfPostKept(d, ps, k, approved, token);
  }

  /** The snippets of comment `j` of post `k` fit below the end of the store. */
  lemma CommentSnippetsFit(d: Detected, ps: seq<Post>, k: nat, j: nat, approved: nat -> seq<Comment>, token: string)
    requires k < |ps| && j < |approved(ps[k].id)|
    ensures CommentBase(d, ps, k, j, approved, token) + SnippetCount(approved(ps[k].id)[j].content)
         <= |AfterPosts(d, ps, approved, token).pending|
  {
    var n := SnippetCount(approved(ps[k].id)[j].content);
    if n > 0 {
      CommentSnippetStored(d, ps, k, j, n - 1, approved, token, AfterPosts(d, ps, approved, token).pending);
    } else {
      AfterCommentsPrefix(CommentsStart(d, ps, k, approved, token), approved(ps[k].id), j, token);
      CommentsOfPostKept(d, ps, k, approved, token);
    }
  }

  /** After a run over `ps`, the reader of comment `j` of post `k` gets the
      output of each of its snippets in place of that snippet: reinsertion
      over the text kept for the comment yields its content with every
      snippet filled in, given a content without the token and at most one
      million snippets in the run. */
  lemma CommentReadsBack(ps: seq<Post>, k: nat, j: nat, approved: nat -> seq<Comment>, token: string, lib: Library,
                         pending: seq<StoredMatch>, highlighted: map<nat, string>)
    requires k < |ps| && j < |approved(ps[k].id)| && ValidToken(token)
    requires !ContainsCI(approved(ps[k].id)[j].content, token)
    requires pending == AfterPosts(Detected([], map[]), ps, approved, token).pending && |pending| <= Limit
    requires highlighted == Outputs(SettingsOf(pending, lib.decode), |pending|, lib)
    ensures var b := CommentBase(Detected([], map[]), ps, k, j, approved, token);
      && (forall i :: 0 <= i < SnippetCount(approved(ps[k].id)[j].content) ==>
            GetHighlightedCode(highlighted, b + i) == Output(Normalise(MatchesOf(approved(ps[k].id)[j].content)[i], lib.decode), lib))
      && ReinsertText(KeptComment(Detected([], map[]), ps, k, j, approved, token), token, highlighted)
         == RenderText(approved(ps[k].id)[j].content, b, highlighted)
  {
    var d := Detected([], map[]);
    forall i | 0 <= i < SnippetCount(approved(ps[k].id)[j].content)
      ensures GetHighlightedCode(highlighted, CommentBase(Detected([], map[]), ps, k, j, approved, token) + i)
           == Output(Normalise(MatchesOf(approved(ps[k].id)[j].content)[i], lib.decode), lib)
    {
      CommentSnippetStored(Detected([], map[]), ps, k, j, i, approved, token, pending);
      StoredOutput(pending, CommentBase(Detected([], map[]), ps, k, j, approved, token) + i,
                   MatchesOf(approved(ps[k].id)[j].content)[i], lib);
    }
    CommentSnippetsFit(d, ps, k, j, approved, token);
    ReinsertUndoesProtect(approved(ps[k].id)[j].content, token, CommentBase(d, ps, k, j, approved, token), highlighted);
  }

  /** No comment from the `i`-th on carries `id`. */
  predicate IdUnusedFrom(cs: seq<Comment>, i: nat, id: nat) {
    forall n :: i <= n < |cs| ==> cs[n].id != id
  }

  /** Comments that do not carry `id` leave the kept text under `id` alone. */
  lemma {:induction false} CommentsKeepId(d: Detected, cs: seq<Comment>, i: nat, id: nat, token: string)
    requires i <= |cs| && IdUnusedFrom(cs, i, id)
    ensures var a := AfterComments(d, cs[..i], token).comments; var z := AfterComments(d, cs, token).comments;
      (id in z <==> id in a) && (id in a ==> z[id] == a[id])
    decreases |cs|
  {
    if i < |cs| {
      var init := cs[..|cs| - 1];
      assert init[..i] == cs[..i];
      CommentsKeepId(d, init, i, id, token);
    } else {
      assert cs[..i] == cs;
    }
  }

  /** Posts none of whose comments carry `id` leave the kept text under `id` alone. */
  lemma {:induction false} PostsKeepId(d: Detected, ps: seq<Post>, i: nat, id: nat, approved: nat -> seq<Comment>, token: string)
    requires i <= |ps| && forall n :: i <= n < |ps| ==> IdUnusedFrom(approved(ps[n].id), 0, id)
    ensures var a := AfterPosts(d, ps[..i], approved, token).comments; var z := AfterPosts(d, ps, approved, token).comments;
      (id in z <==> id in a) && (id in a ==> z[id] == a[id])
    decreases |ps|
  {
    if i < |ps| {
      var init := ps[..|ps| - 1];
      var p := ps[|ps| - 1];
      assert init[..i] == ps[..i];
      PostsKeepId(d, init, i, id, approved, token);
      var t := AfterText(AfterPosts(d, init, approved, token), p.content);
      CommentsKeepId(t, approved(p.id), 0, id, token);
      assert approved(p.id)[..0] == [];
    } else {
      assert ps[..i] == ps;
    }
  }

  /** At the end of detection, the comments map holds under a comment's id
      the text kept for it, when no comment stored later carries the same id
      (a later one would overwrite it, as the array assignment does). */
  lemma CommentKept(d: Detected, ps: seq<Post>, k: nat, j: nat, approved: nat -> seq<Comment>, token: string)
    requires k < |ps| && j < |approved(ps[k].id)|
    requires IdUnusedFrom(approved(ps[k].id), j + 1, approved(ps[k].id)[j].id)
    requires forall n :: k < n < |ps| ==> IdUnusedFrom(approved(ps[n].id), 0, approved(ps[k].id)[j].id)
    ensures var z := AfterPosts(d, ps, approved, token).comments;
      approved(ps[k].id)[j].id in z && z[approved(ps[k].id)[j].id] == KeptComment(d, ps, k, j, approved, token)
  {
    var cs := approved(ps[k].id);
    var t := CommentsStart(d, ps, k, approved, token);
    CommentStoredUnderId(d, ps, k, j, approved, token);
    CommentsKeepId(t, cs, j + 1, cs[j].id, token);
    CommentsOfPostKept(d, ps, k, approved, token);
    PostsKeepId(d, ps, k + 1, cs[j].id, approved, token);
  }

  /** Right after comment `j` of post `k`, its id maps to the text kept for it. */
  lemma CommentStoredUnderId(d: Detected, ps: seq<Post>, k: nat, j: nat, approved: nat -> seq<Comment>, token: string)
    requires k < |ps| && j < |approved(ps[k].id)|
    ensures var a := AfterComments(CommentsStart(d, ps, k, approved, token), approved(ps[k].id)[..j + 1], token).comments;
      approved(ps[k].id)[j].id in a && a[approved(ps[k].id)[j].id] == KeptComment(d, ps, k, j, approved, token)
  {
    TakeOneMore(approved(ps[k].id), j);
  }

  // ---------------------------------------------------------------------------
  // Steps of the loops

  /** One snippet found at `m`: the replaced text, and the match arrays, one step on. */
  lemma ScanStep(s: string, f: string, p: nat, m: Match, token: string, b: nat)
    requires f == LowerAll(s) && p <= |f| && FindFrom(f, p) == Some(m)
    ensures p <= m.start < m.End() <= |s|
    ensures Splice(s, p, Scan(f, p), token, b)
         == s[p..m.start] + Placeholder(token, b) + Splice(s, m.End(), Scan(f, m.End()), token, b + 1)
    ensures Stored(MatchesFrom(s, f, p), b) == [StoredMatch(Fields(s, f, m), b)] + Stored(MatchesFrom(s, f, m.End()), b + 1)
  {
    var rest := Scan(f, m.End());
    assert Scan(f, p) == [m] + rest;
    assert ([m] + rest)[1..] == rest;
    assert MatchesFrom(s, f, p) == [Fields(s, f, m)] + MatchesFrom(s, f, m.End());
    StoredCons(Fields(s, f, m), MatchesFrom(s, f, m.End()), b);
  }

  /** Storing a first match array, then the rest one index on. */
  lemma StoredCons(x: RawMatch, later: seq<RawMatch>, b: nat)
    ensures Stored([x] + later, b) == [StoredMatch(x, b)] + Stored(later, b + 1)
  {
    var l := Stored([x] + later, b);
    var r := [StoredMatch(x, b)] + Stored(later, b + 1);
    assert |l| == |r|;
    forall i | 0 <= i < |l| ensures l[i] == r[i] {
      if i > 0 {
        assert r[i] == Stored(later, b + 1)[i - 1];
      }
    }
  }

  /** The two invariants of the replace loop, one snippet further. */
  lemma ReplaceStep(s: string, f: string, p: nat, m: Match, token: string, r: string,
                    pending: seq<StoredMatch>, text: string, store: seq<StoredMatch>)
    requires f == LowerAll(s) && p <= |f| && FindFrom(f, p) == Some(m)
    requires r + Splice(s, p, Scan(f, p), token, |pending|) == text
    requires pending + Stored(MatchesFrom(s, f, p), |pending|) == store
    ensures p <= m.start < m.End() <= |s| && MatchOk(f, m)
    ensures r + s[p..m.start] + Placeholder(token, |pending|) + Splice(s, m.End(), Scan(f, m.End()), token, |pending| + 1) == text
    ensures pending + [StoredMatch(Fields(s, f, m), |pending|)] + Stored(MatchesFrom(s, f, m.End()), |pending| + 1) == store
  {
    var b := |pending|;
    ScanStep(s, f, p, m, token, b);
    AppendAssoc(pending, [StoredMatch(Fields(s, f, m), b)], Stored(MatchesFrom(s, f, m.End()), b + 1));
    Regroup(r, s[p..m.start], Placeholder(token, b), Splice(s, m.End(), Scan(f, m.End()), token, b + 1));
  }

  /** No snippet from `p` on: the rest is copied and nothing is stored. */
  lemma ScanDone(s: string, f: string, p: nat, token: string, b: nat)
    requires f == LowerAll(s) && p <= |f| && FindFrom(f, p).None?
    ensures Splice(s, p, Scan(f, p), token, b) == s[p..]
    ensures Stored(MatchesFrom(s, f, p), b) == []
  {
  }

  /** The store and the comments map one comment further. */
  lemma CommentsStep(d: Detected, cs: seq<Comment>, j: nat, token: string)
    requires j < |cs|
    ensures var e := AfterComments(d, cs[..j], token);
      AfterComments(d, cs[..j + 1], token)
        == Detected(e.pending + Stored(MatchesOf(cs[j].content), |e.pending|),
                    e.comments[cs[j].id := ProtectText(cs[j].content, token, |e.pending|)])
  {
    assert cs[..j + 1][..j] == cs[..j];
  }

  /** The store and the comments map one post further. */
  lemma PostsStep(d: Detected, ps: seq<Post>, i: nat, approved: nat -> seq<Comment>, token: string)
    requires i < |ps|
    ensures AfterPosts(d, ps[..i + 1], approved, token)
         == AfterComments(AfterText(AfterPosts(d, ps[..i], approved, token), ps[i].content), approved(ps[i].id), token)
  {
    assert ps[..i + 1][..i] == ps[..i];
  }

  /** The used-languages list and the CSS string one snippet further: the
      snippet's language and its stylesheet, in the given mode, are added
      when the language is new. */
  lemma LanguageStep(used0: seq<string>, items: seq<Settings>, i: nat, lib: Library, economy: bool, used: seq<string>, css: string)
    requires i < |items| && NoDup(used)
    requires used == AppendNew(used0, Languages(items[..i])) && css == Css(used0, items[..i], lib, economy)
    ensures var l := items[i].language;
      && AppendNew(used0, Languages(items[..i + 1])) == (if l in used then used else used + [l])
      && Css(used0, items[..i + 1], lib, economy) == (if l in used then css else css + lib.sheet(l, Mode(items[i], economy)))
      && NoDup(if l in used then used else used + [l])
  {
    var l := items[i].language;
    assert items[..i + 1][..i] == items[..i];
    assert Languages(items[..i + 1])[..i] == Languages(items[..i]);
    if l in used {
      AppendNil(css);
    } else {
      NoDupSnoc(used, l);
    }
  }

  /** The requested list one snippet further. */
  lemma RequestStep(r0: seq<string>, items: seq<Settings>, i: nat, requested: seq<string>)
    requires i < |items| && requested == r0 + RequestedFiles(items[..i])
    ensures r0 + RequestedFiles(items[..i + 1]) == requested + Requested(items[i])
  {
    assert items[..i + 1][..i] == items[..i];
    AppendAssoc(r0, RequestedFiles(items[..i]), Requested(items[i]));
  }

  /** The stored outputs one index further. */
  lemma OutputsStep(before: map<nat, string>, items: seq<Settings>, i: nat, lib: Library)
    requires i < |items|
    ensures (before + Outputs(items, i, lib))[i := Output(items[i], lib)] == before + Outputs(items, i + 1, lib)
  {
  }

  /** What the highlight loop accumulates: the used languages, the CSS
      string, the requested CSS files and the stored outputs. */
  datatype Tally = Tally(used: seq<string>, css: string, requested: seq<string>, highlighted: map<nat, string>)

  /** One round of the highlight loop: language `l` and its stylesheet in
      `mode` are added when the language is new, the CSS files `request` are
      recorded, and `output` is stored under `key`. */
  function HighlightOnce(t: Tally, key: nat, l: string, mode: StyleMode, output: string, request: seq<string>, lib: Library): Tally {
    Tally(if l in t.used then t.used else t.used + [l],
          if l in t.used then t.css else t.css + lib.sheet(l, mode),
          t.requested + request,
          t.highlighted[key := output])
  }

  /** What the loop holds after the first `n` rounds, starting from `t0`:
      the languages of those snippets appended, each once; the stylesheet
      (economy or full) of each language new when met; the CSS files asked
      for; and the output of snippet `i` under `i`. */
  function Accumulated(t0: Tally, items: seq<Settings>, n: nat, lib: Library, economy: bool): Tally
    requires n <= |items|
  {
    Tally(AppendNew(t0.used, Languages(items[..n])),
          t0.css + Css(t0.used, items[..n], lib, economy),
          t0.requested + RequestedFiles(items[..n]),
          t0.highlighted + Outputs(items, n, lib))
  }

  /** One round of the loop, on snippet `i`, takes what it holds after `i`
      rounds to what it holds after `i + 1`, and the languages stay distinct. */
  lemma RoundStep(t0: Tally, items: seq<Settings>, i: nat, lib: Library, economy: bool)
    requires i < |items| && NoDup(Accumulated(t0, items, i, lib, economy).used)
    ensures HighlightOnce(Accumulated(t0, items, i, lib, economy), i, items[i].language, Mode(items[i], economy),
                          Output(items[i], lib), Requested(items[i]), lib)
         == Accumulated(t0, items, i + 1, lib, economy)
    ensures NoDup(Accumulated(t0, items, i + 1, lib, economy).used)
  {
    var t := Accumulated(t0, items, i, lib, economy);
    var css := Css(t0.used, items[..i], lib, economy);
    LanguageStep(t0.used, items, i, lib, economy, t.used, css);
    if items[i].language !in t.used {
      AppendAssoc(t0.css, css, lib.sheet(items[i].language, Mode(items[i], economy)));
    }
    RequestStep(t0.requested, items, i, t.requested);
    OutputsStep(t0.highlighted, items, i, lib);
  }

  /** The body of the highlight loop for one snippet: GeSHi's output, in the
      wrapper of the CSS file unless that is `none`, and the CSS file asked for
      (the default one for an empty or `0` attribute). */
  method RenderSnippet(s: Settings, lib: Library) returns (output: string, request: seq<string>)
    ensures output == Output(s, lib) && request == Requested(s)
  {
    var cssfile := s.cssfile;
    output := lib.parse(s.code, s.language, s.numbering);
    request := [];
    if cssfile != "none" {
      if cssfile == "" || cssfile == "0" {
        cssfile := DefaultCssFile;
      }
      request := [cssfile];
      output := WrapHead(cssfile) + output + WrapTail;
    }
  }

  /** After every round the loop holds the spec functions of all the snippets. */
  lemma AccumulatedAll(t0: Tally, items: seq<Settings>, lib: Library, economy: bool)
    ensures Accumulated(t0, items, |items|, lib, economy)
         == Tally(AppendNew(t0.used, Languages(items)), t0.css + Css(t0.used, items, lib, economy),
                  t0.requested + RequestedFiles(items), t0.highlighted + Outputs(items, |items|, lib))
  {
    assert items[..|items|] == items;
  }

  /** The loop of `wp_geshi_add_css_to_head` over the requested files: a
      link tag for each one whose path exists, written by
      `wp_geshi_echo_cssfile`. */
  method EchoLinks(files: seq<string>, dir: string, url: string, fileExists: string -> bool) returns (out: string)
    ensures out == Links(Linked(files, dir, fileExists), url)
  {
    out := "";
    for i := 0 to |files|
      invariant out == Links(Linked(files[..i], dir, fileExists), url)
    {
      LinksStep(files, i, dir, url, fileExists);
      if fileExists(dir + files[i] + CssSuffix) {
        out := out + LinkTag(url + files[i] + CssSuffix);
      }
    }
    assert files[..|files|] == files;
  }

  // ---------------------------------------------------------------------------
  // The run

  class RunContext {
    /** The token of the run (`$wp_geshi_run_token`). */
    var token: string
    /** The match-array store (`$wp_geshi_codesnipmatch_arrays`), in index order. */
    var pending: seq<StoredMatch>
    /** The output of each match index (`$wp_geshi_highlighted_matches`). */
    var highlighted: map<nat, string>
    /** The languages whose stylesheet is in the CSS string. */
    var usedLanguages: seq<string>
    /** The CSS string (`$wp_geshi_css_code`). */
    var cssCode: string
    /** The CSS files the snippets asked for, with repetitions. */
    var requestedCssFiles: seq<string>
    /** The replaced text of each approved comment, by comment ID. */
    var comments: map<nat, string>
    /** Whether `wp_geshi_main` added its action and filters. */
    var hooksAdded: bool

    predicate Valid()
      reads this
    {
      Dense(pending) && NoDup(usedLanguages)
    }

    /** The globals before `wp_geshi_main` runs: nothing set. */
    constructor ()
      ensures Valid() && Fresh()
    {
      token := "";
      pending := [];
      highlighted := map[];
      usedLanguages := [];
      cssCode := "";
      requestedCssFiles := [];
      comments := map[];
      hooksAdded := false;
    }

    /** Nothing stored, nothing highlighted, no filter added yet. */
    predicate Fresh()
      reads this
    {
      pending == [] && highlighted == map[] && cssCode == "" && !hooksAdded
    }

    /** `wp_geshi_store_and_substitute`: the groups are stored under the next
        index, and the placeholder of that index replaces the snippet. */
    method StoreAndSubstitute(groups: RawMatch) returns (placeholder: string)
      requires Valid()
      modifies this
      ensures Valid()
      ensures pending == old(pending) + [StoredMatch(groups, |old(pending)|)]
      ensures placeholder == Placeholder(token, |old(pending)|)
      ensures token == old(token) && highlighted == old(highlighted) && usedLanguages == old(usedLanguages)
      ensures cssCode == old(cssCode) && requestedCssFiles == old(requestedCssFiles)
      ensures comments == old(comments) && hooksAdded == old(hooksAdded)
    {
      var matchIndex := |pending|;
      pending := pending + [StoredMatch(groups, matchIndex)];
      placeholder := Placeholder(token, matchIndex);
    }

    /** One round of `wp_geshi_filter_replace_code`'s callback: the match
        found from `p` on is stored and the text up to its end is written out
        with the placeholder in place of the snippet. */
    method ReplaceNext(s: string, f: string, p: nat, r: string, ghost text: string, ghost store: seq<StoredMatch>)
      returns (p': nat, r': string, next: Option<Match>)
      requires Valid() && f == LowerAll(s) && p <= |f| && FindFrom(f, p).Some?
      requires r + Splice(s, p, Scan(f, p), token, |pending|) == text
      requires pending + Stored(MatchesFrom(s, f, p), |pending|) == store
      modifies this
      ensures Valid() && p < p' <= |s| && next == FindFrom(f, p')
      ensures r' + Splice(s, p', Scan(f, p'), token, |pending|) == text
      ensures pending + Stored(MatchesFrom(s, f, p'), |pending|) == store
      ensures token == old(token) && highlighted == old(highlighted) && usedLanguages == old(usedLanguages)
      ensures cssCode == old(cssCode) && requestedCssFiles == old(requestedCssFiles)
      ensures comments == old(comments) && hooksAdded == old(hooksAdded)
    {
      var m := FindFrom(f, p).value;
      ReplaceStep(s, f, p, m, token, r, pending, text, store);
      var groups := Fields(s, f, m);
      var placeholder := StoreAndSubstitute(groups);
      r' := r + s[p..m.start] + placeholder;
      p' := m.End();
      next := FindFrom(f, p');
    }

    /** `wp_geshi_filter_replace_code`: every snippet of `s` is stored and
        replaced by its placeholder. */
    method FilterReplaceCode(s: string) returns (r: string)
      requires Valid()
      modifies this
      ensures Valid()
      ensures r == ProtectText(s, token, |old(pending)|)
      ensures pending == old(pending) + Stored(MatchesOf(s), |old(pending)|)
      ensures token == old(token) && highlighted == old(highlighted) && usedLanguages == old(usedLanguages)
      ensures cssCode == old(cssCode) && requestedCssFiles == old(requestedCssFiles)
      ensures comments == old(comments) && hooksAdded == old(hooksAdded)
    {
      var f := LowerAll(s);
      ghost var text := Splice(s, 0, Scan(f, 0), token, |pending|);
      ghost var store := pending + Stored(MatchesFrom(s, f, 0), |pending|);
      var p := 0;
      r := "";
      var next := FindFrom(f, p);
      while next.Some?
        invariant p <= |s| && next == FindFrom(f, p)
        invariant Valid()
        invariant r + Splice(s, p, Scan(f, p), token, |pending|) == text
        invariant pending + Stored(MatchesFrom(s, f, p), |pending|) == store
        invariant token == old(token) && highlighted == old(highlighted) && usedLanguages == old(usedLanguages)
        invariant cssCode == old(cssCode) && requestedCssFiles == old(requestedCssFiles)
        invariant comments == old(comments) && hooksAdded == old(hooksAdded)
        decreases |s| - p
      {
        p, r, next := ReplaceNext(s, f, p, r, text, store);
      }
      ScanDone(s, f, p, token, |pending|);
      AppendNil(pending);
      r := r + s[p..];
    }

    /** `wp_geshi_filter_and_replace_code_snippets`: each post's content is
        replaced, then the replaced text of each of its approved comments is
        kept under the comment's ID. `approved` stands for
        `get_approved_comments`. */
    method FilterAndReplaceCodeSnippets(posts: array<Post>, approved: nat -> seq<Comment>)
      requires Valid()
      modifies this, posts
      ensures Valid()
      ensures Detected(pending, comments) == AfterPosts(Detected(old(pending), old(comments)), old(posts[..]), approved, token)
      ensures posts[..] == ProtectedPosts(Detected(old(pending), old(comments)), old(posts[..]), approved, token)
      ensures token == old(token) && highlighted == old(highlighted) && usedLanguages == old(usedLanguages)
      ensures cssCode == old(cssCode) && requestedCssFiles == old(requestedCssFiles) && hooksAdded == old(hooksAdded)
    {
      ghost var d0 := Detected(pending, comments);
      ghost var ps := posts[..];
      for i := 0 to posts.Length
        invariant Valid()
        invariant Detected(pending, comments) == AfterPosts(d0, ps[..i], approved, token)
        invariant PostsDone(d0, ps, i, approved, token, posts[..])
        invariant token == old(token) && highlighted == old(highlighted) && usedLanguages == old(usedLanguages)
        invariant cssCode == old(cssCode) && requestedCssFiles == old(requestedCssFiles) && hooksAdded == old(hooksAdded)
      {
        var post := posts[i];
        var content := FilterReplaceCode(post.content);
        PostsDoneStep(d0, ps, i, approved, token, posts[..], content);
        posts[i] := post.(content := content);
        ReplaceInComments(approved(post.id));
        PostsStep(d0, ps, i, approved, token);
      }
      assert ps[..posts.Length] == ps;
      PostsDoneAll(d0, ps, approved, token, posts[..]);
    }

    /** The inner loop of `wp_geshi_filter_and_replace_code_snippets`: the
        replaced text of each comment is kept under the comment's ID. */
    method ReplaceInComments(cs: seq<Comment>)
      requires Valid()
      modifies this
      ensures Valid()
      ensures Detected(pending, comments) == AfterComments(Detected(old(pending), old(comments)), cs, token)
      ensures token == old(token) && highlighted == old(highlighted) && usedLanguages == old(usedLanguages)
      ensures cssCode == old(cssCode) && requestedCssFiles == old(requestedCssFiles) && hooksAdded == old(hooksAdded)
    {
      ghost var t := Detected(pending, comments);
      for j := 0 to |cs|
        invariant Valid()
        invariant Detected(pending, comments) == AfterComments(t, cs[..j], token)
        invariant token == old(token) && highlighted == old(highlighted) && usedLanguages == old(usedLanguages)
        invariant cssCode == old(cssCode) && requestedCssFiles == old(requestedCssFiles) && hooksAdded == old(hooksAdded)
      {
        CommentsStep(t, cs, j, token);
        var replaced := FilterReplaceCode(cs[j].content);
        comments := comments[cs[j].id := replaced];
      }
      assert cs[..|cs|] == cs;
    }

    /** `wp_geshi_highlight_and_generate_css`: every stored match gets its
        output under its index, the stylesheet of each language not used yet is
        added to the CSS string (the economy one as the code is written, the
        full one with `economy` false), and the CSS files the snippets ask for
        are recorded. */
    method HighlightAndGenerateCss(lib: Library, economy: bool)
      requires Valid()
      modifies this
      ensures Valid()
      ensures Snapshot() == Accumulated(Tally(old(usedLanguages), "", old(requestedCssFiles), old(highlighted)),
                                        SettingsOf(pending, lib.decode), |pending|, lib, economy)
      ensures token == old(token) && pending == old(pending) && comments == old(comments) && hooksAdded == old(hooksAdded)
    {
      ghost var items := SettingsOf(pending, lib.decode);
      ghost var t0 := Tally(usedLanguages, "", requestedCssFiles, highlighted);
      cssCode := "";
      for i := 0 to |pending|
        invariant Snapshot() == Accumulated(t0, items, i, lib, economy) && NoDup(usedLanguages) && Dense(pending)
        invariant token == old(token) && pending == old(pending) && comments == old(comments) && hooksAdded == old(hooksAdded)
      {
        HighlightRound(i, lib, economy, items, t0);
      }
    }

    /** One round of the highlight loop: match `i` is normalised, highlighted
        and recorded. */
    method HighlightRound(i: nat, lib: Library, economy: bool, ghost items: seq<Settings>, ghost t0: Tally)
      requires i < |pending| && Dense(pending) && items == SettingsOf(pending, lib.decode)
      requires Snapshot() == Accumulated(t0, items, i, lib, economy) && NoDup(usedLanguages)
      modifies this
      ensures Snapshot() == Accumulated(t0, items, i + 1, lib, economy) && NoDup(usedLanguages)
      ensures token == old(token) && pending == old(pending) && comments == old(comments) && hooksAdded == old(hooksAdded)
    {
      var s := Normalise(pending[i].groups, lib.decode);
      SettingsAt(pending, lib.decode, i);
      RoundStep(t0, items, i, lib, economy);
      var output, request := RenderSnippet(s, lib);
      HighlightMatch(i, s.language, Mode(s, economy), output, request, lib);
    }

    /** The globals the highlight loop accumulates. */
    function Snapshot(): Tally
      reads this
    {
      Tally(usedLanguages, cssCode, requestedCssFiles, highlighted)
    }

    /** One round of the highlight loop: match `i` is highlighted, its output
        stored under its index, its language's stylesheet in `mode` added
        when the language is new, and its CSS file recorded. */
    method HighlightMatch(i: nat, language: string, mode: StyleMode, output: string, request: seq<string>, lib: Library)
      requires i < |pending| && Dense(pending)
      modifies this
      ensures Snapshot() == HighlightOnce(old(Snapshot()), i, language, mode, output, request, lib)
      ensures token == old(token) && pending == old(pending) && comments == old(comments) && hooksAdded == old(hooksAdded)
    {
      if language !in usedLanguages {
        usedLanguages := usedLanguages + [language];
        cssCode := cssCode + lib.sheet(language, mode);
      }
      requestedCssFiles := requestedCssFiles + request;
      highlighted := highlighted[pending[i].index := output];
    }

    /** The first half of `wp_geshi_main`: the per-run lists are reset, the
        token is set, and the posts and comments are searched. */
    method ResetAndDetect(newToken: string, posts: array<Post>, approved: nat -> seq<Comment>)
      requires Valid() && Fresh()
      modifies this, posts
      ensures Valid() && token == newToken
      ensures Detected(pending, comments) == AfterPosts(Detected([], map[]), old(posts[..]), approved, newToken)
      ensures posts[..] == ProtectedPosts(Detected([], map[]), old(posts[..]), approved, newToken)
      ensures Snapshot() == Tally([], "", [], map[]) && !hooksAdded
    {
      ghost var ps := posts[..];
      requestedCssFiles := [];
      comments := map[];
      usedLanguages := [];
      token := newToken;
      assert posts[..] == ps;
      FilterAndReplaceCodeSnippets(posts, approved);
    }

    /** The second half of `wp_geshi_main`, reached when a snippet was found:
        the snippets are highlighted, then the head action and the filters
        are added. */
    method HighlightAndAddHooks(lib: Library, economy: bool)
      requires Valid() && Snapshot() == Tally([], "", [], map[])
      modifies this
      ensures Valid() && hooksAdded
      ensures Snapshot() == Accumulated(Tally([], "", [], map[]), SettingsOf(pending, lib.decode), |pending|, lib, economy)
      ensures token == old(token) && pending == old(pending) && comments == old(comments)
    {
      HighlightAndGenerateCss(lib, economy);
      hooksAdded := true;
    }

    /** `wp_geshi_main`: the per-run lists are reset and the token set; the
        posts and comments are searched; when no snippet was found the run
        ends there, and otherwise the snippets are highlighted and the head
        action and the filters are added. With `economy` true the stylesheets
        are the economy ones `get_stylesheet()` returns by default, as the code
        is written; with `economy` false they are the full ones. The token is
        an `md5()` digest. */
    method RunMain(newToken: string, posts: array<Post>, approved: nat -> seq<Comment>, lib: Library, economy: bool)
      requires Valid() && Fresh() && ValidToken(newToken)
      modifies this, posts
      ensures Valid()
      ensures token == newToken
      ensures Detected(pending, comments) == AfterPosts(Detected([], map[]), old(posts[..]), approved, newToken)
      ensures posts[..] == ProtectedPosts(Detected([], map[]), old(posts[..]), approved, newToken)
      ensures hooksAdded <==> |pending| > 0
      ensures hooksAdded ==> Snapshot() == Accumulated(Tally([], "", [], map[]), SettingsOf(pending, lib.decode), |pending|, lib, economy)
      ensures !hooksAdded ==> Snapshot() == Tally([], "", [], map[])
    {
      ResetAndDetect(newToken, posts, approved);
      if |pending| == 0 {
        return;
      }
      HighlightAndAddHooks(lib, economy);
    }

    /** `wp_geshi_insert_comments_with_uuid`: a re-read comment whose ID has a
        kept text gets that text; everything else stays as it was. */
    method InsertCommentsWithUuid(secondRead: array<Comment>)
      modifies secondRead
      ensures forall k :: 0 <= k < secondRead.Length ==>
        secondRead[k] == (if old(secondRead[k]).id in comments
                          then old(secondRead[k]).(content := comments[old(secondRead[k]).id])
                          else old(secondRead[k]))
    {
      for i := 0 to secondRead.Length
        invariant forall k :: 0 <= k < i ==>
          secondRead[k] == (if old(secondRead[k]).id in comments
                            then old(secondRead[k]).(content := comments[old(secondRead[k]).id])
                            else old(secondRead[k]))
        invariant forall k :: i <= k < secondRead.Length ==> secondRead[k] == old(secondRead[k])
      {
        if secondRead[i].id in comments {
          secondRead[i] := secondRead[i].(content := comments[secondRead[i].id]);
        }
      }
    }

    /** `wp_geshi_insert_highlighted_code_filter`: each placeholder of the
        run's token becomes the stored output of its index. The token goes
        into the pattern unescaped and under `/i`; it reads as a literal
        matched against the lower-cased text because an `md5()` token has no
        capitals and no pattern metacharacters. */
    method InsertHighlightedCodeFilter(content: string) returns (r: string)
      requires ValidToken(token)
      ensures r == ReinsertText(content, token, highlighted)
    {
      var f := LowerAll(content);
      var p := 0;
      r := "";
      while p < |content|
        invariant p <= |content|
        invariant r + Reinsert(content, f, p, token, highlighted) == ReinsertText(content, token, highlighted)
        decreases |content| - p
      {
        var m := PlaceholderAt(f, p, token);
        if m.Some? {
          var piece := GetHighlightedCode(highlighted, m.value.1);
          AppendAssoc(r, piece, Reinsert(content, f, m.value.0, token, highlighted));
          r := r + piece;
          p := m.value.0;
        } else {
          ReinsertStep(content, f, p, token, highlighted);
          AppendAssoc(r, [content[p]], Reinsert(content, f, p + 1, token, highlighted));
          r := r + [content[p]];
          p := p + 1;
        }
      }
      AppendNil(r);
    }

    /** `wp_geshi_add_css_to_head`: the requested list loses its repetitions;
        the banner, a link to each requested file that exists and the style
        block are written. `fileExists` stands for `file_exists`. */
    method AddCssToHead(pluginDir: string, pluginUrl: string, fileExists: string -> bool) returns (head: string)
      modifies this
      ensures requestedCssFiles == Dedup(old(requestedCssFiles))
      ensures head == HeadHtml(old(requestedCssFiles), cssCode, pluginDir, pluginUrl, fileExists)
      ensures token == old(token) && pending == old(pending) && highlighted == old(highlighted)
      ensures usedLanguages == old(usedLanguages) && cssCode == old(cssCode) && comments == old(comments)
      ensures hooksAdded == old(hooksAdded)
    {
      var files := Dedup(requestedCssFiles);
      HeadParts(requestedCssFiles, cssCode, pluginDir, pluginUrl, fileExists);
      requestedCssFiles := files;
      var links := EchoLinks(files, pluginDir, pluginUrl, fileExists);
      head := Banner + links;
      if |cssCode| > 0 {
        head := head + StyleTag(cssCode);
      }
    }
  }
}
