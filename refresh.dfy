/** Clearing an element and refreshing the feed: deleteChildElements and refreshPosts of
    js/main.js. A refresh unbinds (to no effect), empties `main`, renders the posts into it and
    binds the buttons under `main` again. Because `main` was emptied first, every button that is
    bound was created by this very refresh, so each ends up with exactly one click listener. */
module Refresh {
  import opened Dom
  import opened Layout
  import opened Builders
  import opened Listeners

  /** `parentElement instanceof HTMLElement`: an element of the page that is not a fragment. */
  predicate IsHTMLElement(h: seq<Element>, r: Ref) {
    r < |h| && h[r].tag != FragmentTag
  }

  /** `main` always passes the test, so refreshPosts's deleteChildElements(main) clears it. */
  lemma MainIsHTMLElement(h: seq<Element>)
    requires PageOk(h)
    ensures IsHTMLElement(h, Main)
    ensures !IsHTMLElement(h, |h|)
  {
  }

  /** The page once `p` has lost all its children; nothing else differs. */
  function Cleared(h: seq<Element>, p: Ref): (g: seq<Element>)
    requires p < |h|
    ensures |g| == |h| && g[p].children == []
    ensures forall d :: !IsDescendant(g, p, d)
    ensures forall i | 0 <= i < |h| && i != p :: g[i] == h[i]
  {
    h[p := h[p].(children := [])]
  }

  /** `lastElementChild`. */
  function LastChild(children: seq<Ref>): (r: Option<Ref>)
    ensures r.Some? <==> children != []
    ensures r.Some? ==> r.value in children
  {
    if children == [] then None else Some(children[|children| - 1])
  }

  /** deleteChildElements(parentElement), js/main.js:94-112: `None` stands for any argument
      that is not an element. Each turn removes the last child, so the number of children
      strictly decreases and the loop ends with none. */
  method DeleteChildElements(doc: Document, parent: Option<Ref>) returns (r: Option<Ref>)
    requires doc.Valid()
    modifies doc
    ensures doc.Valid() && doc.pass == old(doc.pass)
    ensures parent.None? || !IsHTMLElement(old(doc.nodes), parent.value) ==>
      r.None? && doc.nodes == old(doc.nodes)
    ensures parent.Some? && IsHTMLElement(old(doc.nodes), parent.value) ==>
      r == parent && doc.nodes == Cleared(old(doc.nodes), parent.value)
  {
    if parent.None? || !IsHTMLElement(doc.nodes, parent.value) {
      return None;
    }
    var p := parent.value;
    ghost var h := doc.nodes;
    var child := LastChild(doc.nodes[p].children);
    while child.Some?
      invariant doc.Valid() && doc.pass == old(doc.pass)
      invariant |doc.nodes| == |h|
      invariant doc.nodes == h[p := h[p].(children := doc.nodes[p].children)]
      invariant child == LastChild(doc.nodes[p].children)
      decreases |doc.nodes[p].children|
    {
      doc.RemoveChild(p, child.value);
      child := LastChild(doc.nodes[p].children);
    }
    return parent;
  }

  /** The four results refreshPosts returns: the buttons removeButtonListeners found, the
      cleared `main`, the element displayPosts appended, and the buttons addButtonListeners
      bound. */
  datatype Refreshed = Refreshed(removed: seq<Ref>, cleared: Option<Ref>, shown: Ref, added: seq<Ref>)

  /** The page after refreshPosts(posts) returned normally, in call number `pass` of
      addButtonListeners. */
  function RefreshedPage(h: seq<Element>, posts: Option<seq<Post>>, replies: seq<Replies>, pass: nat): (g: seq<Element>)
    requires Main < |h|
    requires HasPosts(posts) ==> |replies| == |posts.value| && AllRender(posts.value, replies)
    ensures |h| < |g|
  {
    var d := Displayed(Cleared(h, Main), posts, replies);
    Bound(d, MainButtons(d), |MainButtons(d)|, pass)
  }

  /** refreshPosts(posts), js/main.js:441-461. `replies` are the data source's answers for
      the posts; an exception from displayPosts propagates, leaving `main` cleared and the
      elements created so far detached. */
  method RefreshPosts(doc: Document, posts: Option<seq<Post>>, replies: seq<Replies>)
    returns (r: Completion<Option<Refreshed>>)
    requires doc.Valid()
    requires posts.Some? ==> |replies| == |posts.value|
    modifies doc
    ensures doc.Valid()
    ensures posts.None? ==> r == Normal(None) && doc.nodes == old(doc.nodes) && doc.pass == old(doc.pass)
    ensures r.Throw? <==> HasPosts(posts) && !AllRender(posts.value, replies)
    ensures r.Throw? ==>
      doc.pass == old(doc.pass)
      && |old(doc.nodes)| <= |doc.nodes| && doc.nodes[..|old(doc.nodes)|] == Cleared(old(doc.nodes), Main)
    ensures r.Normal? && posts.Some? ==>
      var d := Displayed(Cleared(old(doc.nodes), Main), posts, replies);
      && r.value == Some(Refreshed(MainButtons(old(doc.nodes)), Some(Main), |old(doc.nodes)|, MainButtons(d)))
      && doc.nodes == RefreshedPage(old(doc.nodes), posts, replies, old(doc.pass))
      && doc.pass == old(doc.pass) + 1
  {
    if posts.None? {
      return Normal(None);
    }
    var removed := RemoveButtonListeners(doc);
    var cleared := DeleteChildElements(doc, Some(Main));
    var shown := DisplayPosts(doc, posts, replies);
    if shown.Throw? {
      return Throw;
    }
    var added := AddButtonListeners(doc);
    return Normal(Some(Refreshed(removed, cleared, shown.value, added)));
  }

  // ---------------------------------------------------------------- what a refresh leaves

  /** Elements with no click listener. */
  ghost predicate Quiet(es: seq<Element>) {
    forall i | 0 <= i < |es| :: es[i].listeners == []
  }

  /** Pieces that are created without listeners are laid out without listeners. */
  lemma {:induction false} LaidQuiet<T>(b: nat, xs: seq<T>, piece: (nat, T) -> seq<Element>)
    requires forall a: nat, x | x in xs :: Quiet(piece(a, x))
    ensures Quiet(Laid(b, xs, piece))
    decreases |xs|
  {
    if xs != [] {
      var init := xs[..|xs| - 1];
      forall a: nat, x | x in init ensures Quiet(piece(a, x)) {
        assert x in xs;
      }
      LaidQuiet(b, init, piece);
      assert xs[|xs| - 1] in xs;
    }
  }

  /** A rendered post carries no listener yet: createPosts never registers one. */
  lemma CardQuiet(a: Ref, c: Card)
    ensures Quiet(CardNodes(a, c))
  {
    LaidQuiet(a + 9, c.comments, CommentNodes);
    var es := CardNodes(a, c);
    var sec := SectionNodes(a + 7, IdText(c.post.id), c.comments);
    assert es == [CardArticle(a)] + PostLines(c.post) + AuthorLines(c.author) + sec;
    forall i | 0 <= i < |es| ensures es[i].listeners == [] {
      if i >= 9 {
        assert es[i] == Laid(a + 9, c.comments, CommentNodes)[i - 9];
      }
    }
  }

  /** Everything below `main` lies at or after `m` and has no click listener yet. */
  ghost predicate FreshBelowMain(d: seq<Element>, m: nat) {
    forall x | 0 <= x < |d| && IsDescendant(d, Main, x) :: m <= x && d[x].listeners == []
  }

  /** A page whose children of `main` all lie at or after `m`, from where on nothing has a
      listener. */
  lemma FreshFrom(d: seq<Element>, m: nat, tail: seq<Element>)
    requires Main < m < |d| && d[m].listeners == [] && d[m + 1 ..] == tail && Quiet(tail)
    requires forall ch | ch in d[Main].children :: m <= ch
    ensures FreshBelowMain(d, m)
  {
    forall x | 0 <= x < |d| && IsDescendant(d, Main, x) ensures m <= x && d[x].listeners == [] {
      DescendantsFrom(d, Main, x, m);
      if x > m {
        assert d[x] == tail[x - m - 1];
      }
    }
  }

  /** A fragment of pieces created without listeners, appended to an empty `main`: `main`
      holds only the pieces, everything below it is new and has no listener, and every other
      element before the fragment is as it was. */
  lemma FragmentFresh<T>(c: seq<Element>, xs: seq<T>, piece: (nat, T) -> seq<Element>, g: seq<Element>, m: nat)
    requires Main < |c| && c[Main].children == [] && m == |c|
    requires forall a: nat, x | x in xs :: Quiet(piece(a, x))
    requires g == Appended(c + Fragmented(|c|, xs, piece), Main, |c|)
    ensures FreshBelowMain(g, m)
    ensures g[Main] == c[Main].(children := Starts(m + 1, xs, piece))
    ensures forall i | 0 <= i < m && i != Main :: g[i] == c[i]
  {
    FragmentAttached(c, xs, piece, g);
    FragmentAttachedPieces(c, xs, piece, g);
    LaidQuiet(m + 1, xs, piece);
    StartsFrom(m + 1, xs, piece);
    FreshFrom(g, m, Laid(m + 1, xs, piece));
  }

  /** displayPosts into a cleared `main`, with posts: `main` holds only the articles, everything
      below it is new and has no listener, and every other element is as it was. */
  lemma FeedFresh(h: seq<Element>, posts: Option<seq<Post>>, replies: seq<Replies>)
    requires Main < |h| && HasPosts(posts)
    requires |replies| == |posts.value| && AllRender(posts.value, replies)
    ensures var d := Displayed(Cleared(h, Main), posts, replies);
      && FreshBelowMain(d, |h|)
      && |h| <= |d|
      && d[Main] == h[Main].(children := Starts(|h| + 1, CardsOf(posts.value, replies), CardNodes))
      && forall i | 0 <= i < |h| && i != Main :: d[i] == h[i]
  {
    var c := Cleared(h, Main);
    var cards := CardsOf(posts.value, replies);
    forall a: nat, k | k in cards ensures Quiet(CardNodes(a, k)) {
      CardQuiet(a, k);
    }
    FragmentFresh(c, cards, CardNodes, Displayed(c, posts, replies), |h|);
  }

  /** displayPosts into a cleared `main`, without posts: `main` holds only the placeholder,
      which has no listener, and every other element is as it was. */
  lemma PlaceholderFresh(h: seq<Element>, posts: Option<seq<Post>>, replies: seq<Replies>)
    requires Main < |h| && !HasPosts(posts)
    ensures var d := Displayed(Cleared(h, Main), posts, replies);
      && FreshBelowMain(d, |h|)
      && |h| <= |d|
      && d[Main] == h[Main].(children := [|h|])
      && forall i | 0 <= i < |h| && i != Main :: d[i] == h[i]
  {
    var c := Cleared(h, Main);
    var d := Displayed(c, posts, replies);
    DisplayedPlaceholder(c, posts, replies);
    FreshFrom(d, |h|, []);
  }

  /** Binding the buttons under `main` when everything there is fresh: each ends with exactly
      its own closure (or nothing, without a post id), and nothing before `m` changes. */
  lemma BoundFreshBelowMain(d: seq<Element>, m: nat, pass: nat)
    requires FreshBelowMain(d, m)
    ensures var g := Bound(d, MainButtons(d), |MainButtons(d)|, pass);
      && MainButtons(g) == MainButtons(d)
      && (forall x | x in MainButtons(g) ::
           && m <= x < |g|
           && g[x].listeners == if Truthy(g[x].postId) then [Arrow(pass, x, g[x].postId.value)] else [])
      && forall i | 0 <= i < |d| && i < m :: g[i] == d[i]
  {
    var bs := MainButtons(d);
    var g := Bound(d, bs, |bs|, pass);
    BoundShape(d, bs, |bs|, pass);
    SameShapeQuery(d, g, Main, "button", 0);
    assert bs[..|bs|] == bs;
    forall x | 0 <= x < |d|
      ensures x in bs ==> m <= x && g[x].listeners == if Truthy(g[x].postId) then [Arrow(pass, x, g[x].postId.value)] else []
      ensures x < m ==> g[x] == d[x]
    {
      BoundAt(d, bs, |bs|, pass, x);
    }
  }

  /** After refreshPosts, every button under `main` is new and has exactly one click
      listener, the closure of this refresh for its post id, if it carries a post id, and none
      otherwise. */
  lemma RefreshedButtons(h: seq<Element>, posts: Option<seq<Post>>, replies: seq<Replies>, pass: nat)
    requires Main < |h|
    requires HasPosts(posts) ==> |replies| == |posts.value| && AllRender(posts.value, replies)
    ensures var g := RefreshedPage(h, posts, replies, pass);
      forall x | x in MainButtons(g) ::
        && |h| <= x < |g|
        && g[x].listeners == if Truthy(g[x].postId) then [Arrow(pass, x, g[x].postId.value)] else []
  {
    DisplayedFresh(h, posts, replies);
    BoundFreshBelowMain(Displayed(Cleared(h, Main), posts, replies), |h|, pass);
  }

  /** displayPosts into a cleared `main`: `main` holds only the new content, everything below
      it is new and has no listener, and every other element is as it was. */
  lemma DisplayedFresh(h: seq<Element>, posts: Option<seq<Post>>, replies: seq<Replies>)
    requires Main < |h|
    requires HasPosts(posts) ==> |replies| == |posts.value| && AllRender(posts.value, replies)
    ensures var d := Displayed(Cleared(h, Main), posts, replies);
      && FreshBelowMain(d, |h|)
      && |h| <= |d|
      && d[Main] == h[Main].(children :=
           if HasPosts(posts) then Starts(|h| + 1, CardsOf(posts.value, replies), CardNodes) else [|h|])
      && forall i | 0 <= i < |h| && i != Main :: d[i] == h[i]
  {
    if HasPosts(posts) {
      FeedFresh(h, posts, replies);
    } else {
      PlaceholderFresh(h, posts, replies);
    }
  }

  /** After refreshPosts, `main` is the same element with only the new content as its
      children: the articles of the posts in order, or the placeholder. */
  lemma RefreshedMain(h: seq<Element>, posts: Option<seq<Post>>, replies: seq<Replies>, pass: nat)
    requires Main < |h|
    requires HasPosts(posts) ==> |replies| == |posts.value| && AllRender(posts.value, replies)
    ensures RefreshedPage(h, posts, replies, pass)[Main] == h[Main].(children :=
      if HasPosts(posts) then Starts(|h| + 1, CardsOf(posts.value, replies), CardNodes) else [|h|])
  {
    DisplayedFresh(h, posts, replies);
    BoundFreshBelowMain(Displayed(Cleared(h, Main), posts, replies), |h|, pass);
  }

  /** After refreshPosts, every element that existed before, other than `main`, is exactly as
      it was: in particular the detached old buttons keep whatever listeners they had. */
  lemma RefreshedKeeps(h: seq<Element>, posts: Option<seq<Post>>, replies: seq<Replies>, pass: nat)
    requires Main < |h|
    requires HasPosts(posts) ==> |replies| == |posts.value| && AllRender(posts.value, replies)
    ensures forall i | 0 <= i < |h| && i != Main :: RefreshedPage(h, posts, replies, pass)[i] == h[i]
  {
    DisplayedFresh(h, posts, replies);
    BoundFreshBelowMain(Displayed(Cleared(h, Main), posts, replies), |h|, pass);
  }
}
