/** The element builders of js/main.js: createElemWithText, createComments, displayComments,
    createPosts and displayPosts. Each appends freshly created elements to the page; the
    `...Nodes` functions say exactly which elements, and the `Is...` predicates and the lemmas
    below them say what that means for a reader of the page. */
module Builders {
  import opened Dom
  import opened Layout
  import Toggle

  datatype Comment = Comment(name: string, body: string, email: string)
  datatype Company = Company(name: string, catchPhrase: string)
  datatype User = User(id: nat, name: string, company: Company)
  datatype Post = Post(id: nat, title: string, body: string, userId: nat)

  /** What the data source answered while one post was rendered: its author
      (getUser(post.userId)) and its comments (getPostComments(post.id)); `None` is the
      `undefined` that a failed fetch yields. */
  datatype Replies = Replies(author: Option<User>, comments: Option<seq<Comment>>)

  /** A post together with everything needed to render it. */
  datatype Card = Card(post: Post, author: User, comments: seq<Comment>)

  const PlaceholderText := "Select an Employee to display their posts."
  const PlaceholderClass := "default-text"
  const CommentsClass := "comments"

  // ---------------------------------------------------------------- createElemWithText

  /** The element createElemWithText(tag, text, className) creates (js/main.js:8-22); an empty
      `className` stands for the omitted (falsy) argument. */
  function ElemWithText(tag: string := "p", text: string := "", className: string := ""): (e: Element)
    ensures e == Text(tag, text).(classes := e.classes)
    ensures className == "" ==> e.classes == {}
    ensures className != "" && Unspaced(className) ==> e.classes == {className}
  {
    if className == "" then Text(tag, text)
    else
      SingleClassIfUnspaced(className);
      Text(tag, text).(classes := ClassTokens(className))
  }

  lemma SingleClassIfUnspaced(s: string)
    ensures s != [] && Unspaced(s) ==> ClassTokens(s) == {s}
  {
    if s != [] && Unspaced(s) {
      SingleClass(s);
    }
  }

  method CreateElemWithText(doc: Document, tag: string, text: string, className: string) returns (r: Ref)
    requires doc.Valid()
    modifies doc
    ensures doc.Valid() && doc.pass == old(doc.pass)
    ensures r == |old(doc.nodes)| && doc.nodes == old(doc.nodes) + [ElemWithText(tag, text, className)]
  {
    r := doc.CreateElement(ElemWithText(tag, text, className));
  }

  // ---------------------------------------------------------------- createComments

  /** The four elements of one comment, the article at `a`: the article holding the name,
      the body and "From: " email. */
  function CommentNodes(a: Ref, c: Comment): seq<Element> {
    [ Bare("article").(children := [a + 1, a + 2, a + 3]),
      Text("h3", c.name),
      Text("p", c.body),
      Text("p", "From: " + c.email) ]
  }

  /** The comments laid out from `b` take four elements each. */
  lemma {:induction false} CommentsSize(b: Ref, cs: seq<Comment>)
    ensures |Laid(b, cs, CommentNodes)| == 4 * |cs|
    decreases |cs|
  {
    if cs != [] {
      CommentsSize(b, cs[..|cs| - 1]);
    }
  }

  /** The `k`-th comment's article lies `4 * k` elements after the first. */
  lemma {:induction false} CommentStarts(b: Ref, cs: seq<Comment>, k: nat)
    requires k < |cs|
    ensures Starts(b, cs, CommentNodes)[k] == b + 4 * k
  {
    CommentsSize(b, cs[..k]);
  }

  /** One article per comment, three children each: the name, the body and "From: " email. */
  ghost predicate IsCommentArticle(h: seq<Element>, a: Ref, c: Comment) {
    && a < |h| && h[a].tag == "article" && |h[a].children| == 3
    && (forall i | 0 <= i < 3 :: h[a].children[i] < |h|)
    && h[h[a].children[0]].tag == "h3" && h[h[a].children[0]].text == c.name
    && h[h[a].children[1]].tag == "p" && h[h[a].children[1]].text == c.body
    && h[h[a].children[2]].tag == "p" && h[h[a].children[2]].text == "From: " + c.email
  }

  /** Where a comment's nodes lie in a page, its article means what it should. */
  lemma CommentNodesMean(h: seq<Element>, a: Ref, c: Comment)
    requires a + 4 <= |h| && h[a .. a + 4] == CommentNodes(a, c)
    ensures IsCommentArticle(h, a, c)
  {
    var es := CommentNodes(a, c);
    assert h[a] == es[0] && h[a + 1] == es[1] && h[a + 2] == es[2] && h[a + 3] == es[3];
  }

  /** Where the comments' nodes lie in a page, the `k`-th article is the `k`-th comment. */
  lemma CommentsNodesMean(h: seq<Element>, b: Ref, cs: seq<Comment>, k: nat)
    requires b + |Laid(b, cs, CommentNodes)| <= |h|
    requires h[b .. b + |Laid(b, cs, CommentNodes)|] == Laid(b, cs, CommentNodes)
    requires k < |cs|
    ensures IsCommentArticle(h, Starts(b, cs, CommentNodes)[k], cs[k])
  {
    LaidWindow(h, b, cs, CommentNodes, k);
    var a := Starts(b, cs, CommentNodes)[k];
    CommentNodesMean(h, a, cs[k]);
  }

  /** The loop body of createComments (js/main.js:173-190), up to appending the article to the
      fragment: one article with its three children. */
  method NewCommentArticle(doc: Document, c: Comment) returns (a: Ref)
    requires doc.Valid()
    modifies doc
    ensures doc.Valid() && doc.pass == old(doc.pass)
    ensures a == |old(doc.nodes)| && doc.nodes == old(doc.nodes) + CommentNodes(a, c)
  {
    a := doc.CreateElement(Bare("article"));
    var name := CreateElemWithText(doc, "h3", c.name, "");
    var body := CreateElemWithText(doc, "p", c.body, "");
    var email := CreateElemWithText(doc, "p", "From: " + c.email, "");
    ghost var h := doc.nodes;
    AppendEach(doc, a, [name, body, email]);
    CommentAssembled(old(doc.nodes), c, h, doc.nodes);
  }

  /** The four elements of a comment before and after its article receives its children. */
  lemma CommentAssembled(h0: seq<Element>, c: Comment, h: seq<Element>, g: seq<Element>)
    requires h == h0 + [Bare("article"), Text("h3", c.name), Text("p", c.body), Text("p", "From: " + c.email)]
    requires g == h[|h0| := h[|h0|].(children := h[|h0|].children + [|h0| + 1, |h0| + 2, |h0| + 3])]
    ensures g == h0 + CommentNodes(|h0|, c)
  {
    var t := [Bare("article"), Text("h3", c.name), Text("p", c.body), Text("p", "From: " + c.email)];
    var a := |h0|;
    assert h == h0 + t && h[a] == Bare("article");
    assert [] + [a + 1, a + 2, a + 3] == [a + 1, a + 2, a + 3];
    assert g == (h0 + t)[a := CommentNodes(a, c)[0]];
    SetTail(h0, t, 0, CommentNodes(|h0|, c)[0]);
    assert t[0 := CommentNodes(|h0|, c)[0]] == CommentNodes(|h0|, c);
  }

  /** A comment starts with its article, which is not a fragment. */
  lemma CommentLeads(a: Ref, c: Comment)
    ensures |CommentNodes(a, c)| > 0 && CommentNodes(a, c)[0].tag != FragmentTag
  {
  }

  /** createComments(comments), js/main.js:162-194. */
  method CreateComments(doc: Document, comments: Option<seq<Comment>>) returns (r: Option<Ref>)
    requires doc.Valid()
    modifies doc
    ensures doc.Valid() && doc.pass == old(doc.pass)
    ensures comments.None? ==> r.None? && doc.nodes == old(doc.nodes)
    ensures comments.Some? ==>
      r == Some(|old(doc.nodes)|)
      && doc.nodes == old(doc.nodes) + Fragmented(|old(doc.nodes)|, comments.value, CommentNodes)
  {
    if comments.None? {
      return None;
    }
    var cs := comments.value;
    ghost var h0 := doc.nodes;
    var f := doc.CreateElement(Fragment([]));
    FragmentedNone(h0, CommentNodes);
    var k := 0;
    while k < |cs|
      invariant 0 <= k <= |cs|
      invariant doc.Valid() && doc.pass == old(doc.pass)
      invariant doc.nodes == h0 + Fragmented(f, cs[..k], CommentNodes)
    {
      ghost var before := doc.nodes;
      var a := NewCommentArticle(doc, cs[k]);
      ghost var mid := doc.nodes;
      doc.AppendChild(f, a);
      CommentLeads(a, cs[k]);
      FragmentedStep(h0, cs[..k], cs[k], CommentNodes, before, mid, doc.nodes);
      PrefixGrows(cs, k);
      k := k + 1;
    }
    assert cs[..k] == cs;
    return Some(f);
  }

  // ---------------------------------------------------------------- displayComments

  function SectionElem(pid: string, children: seq<Ref>): Element {
    Bare("section").(postId := Some(pid), classes := {CommentsClass, Toggle.HideClass}, children := children)
  }

  /** The section displayComments returns, at `s`: the emptied comment fragment follows it,
      then the comments, whose articles are the section's children. */
  function SectionNodes(s: Ref, pid: string, cs: seq<Comment>): (r: seq<Element>)
    ensures |r| == 2 + 4 * |cs|
  {
    CommentsSize(s + 2, cs);
    [SectionElem(pid, Starts(s + 2, cs, CommentNodes)), Fragment([])] + Laid(s + 2, cs, CommentNodes)
  }

  /** A falsy post id (`undefined` or 0). */
  predicate FalsyId(postId: Option<nat>) {
    postId.None? || postId.value == 0
  }

  /** The section, the comment fragment and the comments before and after the fragment is
      appended to the section. */
  lemma SectionAssembled(h0: seq<Element>, pid: string, cs: seq<Comment>, h: seq<Element>, g: seq<Element>)
    requires h == h0 + [SectionElem(pid, [])] + Fragmented(|h0| + 1, cs, CommentNodes)
    requires g == Appended(h, |h0|, |h0| + 1)
    ensures g == h0 + SectionNodes(|h0|, pid, cs)
  {
    var s := |h0|;
    var refs := Starts(s + 2, cs, CommentNodes);
    var t := [SectionElem(pid, [])] + Fragmented(s + 1, cs, CommentNodes);
    assert h == h0 + t;
    assert h[s] == SectionElem(pid, []) && h[s + 1] == Fragment(refs);
    assert [] + refs == refs;
    assert g == h[s := SectionElem(pid, refs)][s + 1 := Fragment([])];
    SetTail(h0, t, 0, SectionElem(pid, refs));
    SetTail(h0, t[0 := SectionElem(pid, refs)], 1, Fragment([]));
    assert t[0 := SectionElem(pid, refs)][1 := Fragment([])] == SectionNodes(s, pid, cs);
  }

  /** displayComments(postId), js/main.js:315-342; `comments` is what getPostComments(postId)
      answers. Without comments, `section.appendChild(undefined)` throws. */
  method DisplayComments(doc: Document, postId: Option<nat>, comments: Option<seq<Comment>>)
    returns (r: Completion<Option<Ref>>)
    requires doc.Valid()
    modifies doc
    ensures doc.Valid() && doc.pass == old(doc.pass)
    ensures FalsyId(postId) ==> r == Normal(None) && doc.nodes == old(doc.nodes)
    ensures !FalsyId(postId) && comments.None? ==>
      r == Throw && doc.nodes == old(doc.nodes) + [SectionElem(IdText(postId.value), [])]
    ensures !FalsyId(postId) && comments.Some? ==>
      r == Normal(Some(|old(doc.nodes)|))
      && doc.nodes == old(doc.nodes) + SectionNodes(|old(doc.nodes)|, IdText(postId.value), comments.value)
  {
    if FalsyId(postId) {
      return Normal(None);
    }
    var section := doc.CreateElement(SectionElem(IdText(postId.value), []));
    var fragment := CreateComments(doc, comments);
    if fragment.None? {
      return Throw;
    }
    ghost var h := doc.nodes;
    doc.AppendChild(section, fragment.value);
    SectionAssembled(old(doc.nodes), IdText(postId.value), comments.value, h, doc.nodes);
    return Normal(Some(section));
  }

  // ---------------------------------------------------------------- createPosts

  function CardSize(c: Card): nat {
    9 + 4 * |c.comments|
  }

  /** The elements of one rendered post, the article at `a`, in creation order: the article,
      the four elements filled from the post, the two filled from its author, then the
      comment section. */
  function CardNodes(a: Ref, c: Card): (r: seq<Element>)
    ensures |r| == CardSize(c)
  {
    [CardArticle(a)] + PostLines(c.post) + AuthorLines(c.author)
    + SectionNodes(a + 7, IdText(c.post.id), c.comments)
  }

  /** The article of a card at `a`; its children in display order are the title, the body,
      the post id, the author, the catch phrase, the button and the section. */
  function CardArticle(a: Ref): Element {
    Bare("article").(children := [a + 1, a + 2, a + 3, a + 5, a + 6, a + 4, a + 7])
  }

  function PostLines(p: Post): seq<Element> {
    var id := IdText(p.id);
    [ Text("h2", p.title),
      Text("p", p.body),
      Text("p", "Post ID: " + id),
      Text("button", Toggle.ShowLabel).(postId := Some(id)) ]
  }

  function AuthorLines(u: User): seq<Element> {
    [ Text("p", "Author: " + u.name + " with " + u.company.name),
      Text("p", u.company.catchPhrase) ]
  }

  /** Whether the data source's replies let createPosts render this post: the author is
      there, the post id is truthy, and the comments are there. */
  predicate Renders(p: Post, rep: Replies) {
    rep.author.Some? && p.id != 0 && rep.comments.Some?
  }

  predicate AllRender(ps: seq<Post>, rs: seq<Replies>)
    requires |ps| == |rs|
  {
    forall k | 0 <= k < |ps| :: Renders(ps[k], rs[k])
  }

  function CardsOf(ps: seq<Post>, rs: seq<Replies>): (cards: seq<Card>)
    requires |ps| == |rs| && AllRender(ps, rs)
    ensures |cards| == |ps|
    ensures forall k | 0 <= k < |ps| :: cards[k].post == ps[k]
  {
    seq(|ps|, k requires 0 <= k < |ps| => Card(ps[k], rs[k].author.value, rs[k].comments.value))
  }

  /** The cards of one more post: the cards so far and the new post's card. */
  lemma CardsOfGrows(ps: seq<Post>, rs: seq<Replies>, k: nat)
    requires |ps| == |rs| && k < |ps|
    requires AllRender(ps[..k], rs[..k]) && Renders(ps[k], rs[k])
    ensures AllRender(ps[..k + 1], rs[..k + 1])
    ensures CardsOf(ps[..k + 1], rs[..k + 1])
      == CardsOf(ps[..k], rs[..k]) + [Card(ps[k], rs[k].author.value, rs[k].comments.value)]
  {
    forall j | 0 <= j < k ensures Renders(ps[j], rs[j]) {
      assert ps[..k][j] == ps[j] && rs[..k][j] == rs[j];
    }
  }

  /** The six lines of a card, read through its article's children: the title, the body,
      "Post ID: " id, "Author: " name " with " company, the catch phrase, and a
      "Show Comments" button tagged with the post id. */
  ghost predicate ShowsPost(h: seq<Element>, ch: seq<Ref>, c: Card)
    requires |ch| == 7 && forall i | 0 <= i < 7 :: ch[i] < |h|
  {
    var id := IdText(c.post.id);
    && h[ch[0]].tag == "h2" && h[ch[0]].text == c.post.title
    && h[ch[1]].tag == "p" && h[ch[1]].text == c.post.body
    && h[ch[2]].tag == "p" && h[ch[2]].text == "Post ID: " + id
    && h[ch[3]].tag == "p" && h[ch[3]].text == "Author: " + c.author.name + " with " + c.author.company.name
    && h[ch[4]].tag == "p" && h[ch[4]].text == c.author.company.catchPhrase
    && h[ch[5]].tag == "button" && h[ch[5]].text == Toggle.ShowLabel && h[ch[5]].postId == Some(id)
  }

  /** A comment section: tagged with the post id, starting hidden, one article per comment. */
  ghost predicate IsCommentSection(h: seq<Element>, s: Ref, pid: string, cs: seq<Comment>) {
    && s < |h| && h[s].tag == "section" && h[s].postId == Some(pid)
    && h[s].classes == {CommentsClass, Toggle.HideClass}
    && |h[s].children| == |cs|
    && forall k | 0 <= k < |cs| :: IsCommentArticle(h, h[s].children[k], cs[k])
  }

  /** A rendered post: an article with the six lines of the post and, last, its comment
      section, tagged with the same post id as the button. */
  ghost predicate IsCard(h: seq<Element>, a: Ref, c: Card) {
    && a < |h| && h[a].tag == "article" && |h[a].children| == 7
    && (forall i | 0 <= i < 7 :: a < h[a].children[i] < |h|)
    && ShowsPost(h, h[a].children, c)
    && IsCommentSection(h, h[a].children[6], IdText(c.post.id), c.comments)
  }

  /** Where the section nodes lie in a page, they form the comment section. */
  lemma SectionNodesMean(h: seq<Element>, s: Ref, pid: string, cs: seq<Comment>)
    requires s + 2 + 4 * |cs| <= |h| && h[s .. s + 2 + 4 * |cs|] == SectionNodes(s, pid, cs)
    ensures IsCommentSection(h, s, pid, cs)
  {
    var es := SectionNodes(s, pid, cs);
    var refs := Starts(s + 2, cs, CommentNodes);
    assert es[0] == SectionElem(pid, refs);
    Window(h, s, es, 0, 1);
    assert h[s] == SectionElem(pid, refs);
    CommentsSize(s + 2, cs);
    Window(h, s, es, 2, |es|);
    assert es[2..] == Laid(s + 2, cs, CommentNodes);
    forall k | 0 <= k < |cs| ensures IsCommentArticle(h, h[s].children[k], cs[k]) {
      CommentsNodesMean(h, s + 2, cs, k);
    }
  }

  /** Where a post's and its author's lines lie after the article, they show the post. */
  lemma ShowsPostAt(h: seq<Element>, a: Ref, c: Card)
    requires a + 7 < |h| && h[a + 1 .. a + 7] == PostLines(c.post) + AuthorLines(c.author)
    ensures ShowsPost(h, CardArticle(a).children, c)
  {
    var lines := PostLines(c.post) + AuthorLines(c.author);
    assert h[a + 1] == lines[0] && h[a + 2] == lines[1] && h[a + 3] == lines[2];
    assert h[a + 4] == lines[3] && h[a + 5] == lines[4] && h[a + 6] == lines[5];
  }

  /** Where the card nodes lie in a page, they form the card. */
  lemma CardNodesMean(h: seq<Element>, a: Ref, c: Card)
    requires a + CardSize(c) <= |h| && h[a .. a + CardSize(c)] == CardNodes(a, c)
    ensures IsCard(h, a, c)
  {
    var es := CardNodes(a, c);
    var pid := IdText(c.post.id);
    assert es[0] == CardArticle(a);
    assert es[1..7] == PostLines(c.post) + AuthorLines(c.author);
    assert es[7..] == SectionNodes(a + 7, pid, c.comments);
    Window(h, a, es, 0, 7);
    ShowsPostAt(h, a, c);
    Window(h, a, es, 7, |es|);
    SectionNodesMean(h, a + 7, pid, c.comments);
  }

  /** Where the feed's cards lie in a page, the `k`-th article is the card of the `k`-th post. */
  lemma CardsNodesMean(h: seq<Element>, b: Ref, cards: seq<Card>, k: nat)
    requires b <= |h| && h[b..] == Laid(b, cards, CardNodes)
    requires k < |cards|
    ensures IsCard(h, Starts(b, cards, CardNodes)[k], cards[k])
  {
    assert h[b .. b + |Laid(b, cards, CardNodes)|] == h[b..];
    LaidWindow(h, b, cards, CardNodes, k);
    var a := Starts(b, cards, CardNodes)[k];
    ghost var piece: (nat, Card) -> seq<Element> := CardNodes;
    assert piece(a, cards[k]) == CardNodes(a, cards[k]);
    CardNodesMean(h, a, cards[k]);
  }

  /** The article and the four elements filled from the post (js/main.js:359-369). */
  method NewPostElements(doc: Document, p: Post) returns (article: Ref)
    requires doc.Valid()
    modifies doc
    ensures doc.Valid() && doc.pass == old(doc.pass)
    ensures article == |old(doc.nodes)| && doc.nodes == old(doc.nodes) + ([Bare("article")] + PostLines(p))
  {
    var id := IdText(p.id);
    article := doc.CreateElement(Bare("article"));
    var h2 := doc.CreateElement(Text("h2", p.title));
    var pBody := doc.CreateElement(Text("p", p.body));
    var pPostId := doc.CreateElement(Text("p", "Post ID: " + id));
    var button := doc.CreateElement(Text("button", Toggle.ShowLabel).(postId := Some(id)));
  }

  /** The two elements filled from the author (js/main.js:372-378). */
  method NewAuthorElements(doc: Document, u: User) returns (pAuthor: Ref)
    requires doc.Valid()
    modifies doc
    ensures doc.Valid() && doc.pass == old(doc.pass)
    ensures pAuthor == |old(doc.nodes)| && doc.nodes == old(doc.nodes) + AuthorLines(u)
  {
    pAuthor := doc.CreateElement(Text("p", "Author: " + u.name + " with " + u.company.name));
    var pCatchPhrase := doc.CreateElement(Text("p", u.company.catchPhrase));
  }

  /** The seven appendChild calls on a card's article (js/main.js:384-390); the last one
      throws when displayComments gave `undefined`. */
  method AssembleCard(doc: Document, article: Ref, section: Option<Ref>) returns (ok: bool)
    requires doc.Valid() && article + 6 < |doc.nodes| && doc.nodes[article].children == []
    requires forall x | article < x <= article + 6 :: doc.nodes[x].tag != FragmentTag
    requires section.Some? ==> section.value == article + 7
    requires section.Some? ==> article + 7 < |doc.nodes| && doc.nodes[article + 7].tag != FragmentTag
    modifies doc
    ensures doc.Valid() && doc.pass == old(doc.pass)
    ensures ok <==> section.Some?
    ensures ok ==>
      doc.nodes == old(doc.nodes)[article := old(doc.nodes)[article].(children := CardArticle(article).children)]
    ensures !ok ==>
      doc.nodes == old(doc.nodes)[article := old(doc.nodes)[article].(children := CardArticle(article).children[..6])]
  {
    var order := CardArticle(article).children;
    assert doc.nodes[article].children + order[..6] == order[..6];
    AppendEach(doc, article, order[..6]);
    if section.None? {
      return false;
    }
    assert order[..6] + [section.value] == order;
    AppendEach(doc, article, [section.value]);
    return true;
  }

  /** The elements of a card before the appendChild calls: the article is still empty, and
      filling in its children gives the card. */
  lemma CardParts(h: seq<Element>, p: Post, u: User, cs: seq<Comment>)
    ensures var a := |h|;
      var g := h + ([Bare("article")] + PostLines(p) + AuthorLines(u)) + SectionNodes(a + 7, IdText(p.id), cs);
      && a + 7 < |g| && g[a].children == []
      && (forall x | a < x <= a + 6 :: g[x].tag != FragmentTag) && g[a + 7].tag != FragmentTag
      && g[a := g[a].(children := CardArticle(a).children)] == h + CardNodes(a, Card(p, u, cs))
  {
    var a := |h|;
    var tail := [Bare("article")] + PostLines(p) + AuthorLines(u) + SectionNodes(a + 7, IdText(p.id), cs);
    assert h + ([Bare("article")] + PostLines(p) + AuthorLines(u)) + SectionNodes(a + 7, IdText(p.id), cs)
      == h + tail;
    SetTail(h, tail, 0, CardArticle(a));
    assert tail[0 := CardArticle(a)] == CardNodes(a, Card(p, u, cs));
  }

  /** The comment section and the appendChild calls of one card (js/main.js:380-390), once its
      seven text elements exist. */
  method FinishCard(doc: Document, ghost h: seq<Element>, article: Ref, p: Post, u: User,
                    comments: Option<seq<Comment>>)
    returns (r: Completion<Ref>)
    requires doc.Valid() && article == |h|
    requires doc.nodes == h + ([Bare("article")] + PostLines(p) + AuthorLines(u))
    modifies doc
    ensures doc.Valid() && doc.pass == old(doc.pass)
    ensures r.Normal? <==> p.id != 0 && comments.Some?
    ensures r.Normal? ==>
      r.value == article && doc.nodes == h + CardNodes(article, Card(p, u, comments.value))
    ensures r.Throw? ==> |h| <= |doc.nodes| && doc.nodes[..|h|] == h
  {
    var section := DisplayComments(doc, Some(p.id), comments);
    if section.Throw? {
      assert doc.nodes[..|h|] == h;
      return Throw;
    }
    if section.value.None? {
      // appendChild(undefined) throws after the six lines were appended
      ghost var t := doc.nodes;
      var _ := AssembleCard(doc, article, None);
      assert doc.nodes[..|h|] == t[..|h|];
      return Throw;
    }
    CardParts(h, p, u, comments.value);
    var ok := AssembleCard(doc, article, section.value);
    return Normal(article);
  }

  /** The loop body of createPosts: one card, or the TypeError of a missing author, of a falsy
      post id (appendChild(undefined)) or of missing comments. */
  method BuildCard(doc: Document, p: Post, rep: Replies) returns (r: Completion<Ref>)
    requires doc.Valid()
    modifies doc
    ensures doc.Valid() && doc.pass == old(doc.pass)
    ensures r.Normal? <==> Renders(p, rep)
    ensures r.Normal? ==>
      r.value == |old(doc.nodes)|
      && doc.nodes == old(doc.nodes) + CardNodes(r.value, Card(p, rep.author.value, rep.comments.value))
    ensures r.Throw? ==> |old(doc.nodes)| <= |doc.nodes| && doc.nodes[..|old(doc.nodes)|] == old(doc.nodes)
  {
    var article := NewPostElements(doc, p);
    if rep.author.None? {
      // `author.name` throws right after the author paragraph was created
      var _ := doc.CreateElement(Bare("p"));
      assert doc.nodes[..|old(doc.nodes)|] == old(doc.nodes);
      return Throw;
    }
    var pAuthor := NewAuthorElements(doc, rep.author.value);
    r := FinishCard(doc, old(doc.nodes), article, p, rep.author.value, rep.comments);
  }

  /** A card starts with its article, which is not a fragment. */
  lemma CardLeads(a: Ref, c: Card)
    ensures |CardNodes(a, c)| > 0 && CardNodes(a, c)[0].tag != FragmentTag
  {
    assert CardNodes(a, c)[0] == CardArticle(a);
  }

  /** One turn of createPosts' loop (js/main.js:357-395): build the card of post `p` and append
      its article to the fragment at `f`, which already holds `cards`. */
  method AddCard(doc: Document, ghost h0: seq<Element>, f: Ref, ghost cards: seq<Card>, p: Post, rep: Replies)
    returns (ok: bool)
    requires doc.Valid() && f == |h0| && doc.nodes == h0 + Fragmented(f, cards, CardNodes)
    modifies doc
    ensures doc.Valid() && doc.pass == old(doc.pass)
    ensures ok <==> Renders(p, rep)
    ensures ok ==>
      doc.nodes == h0 + Fragmented(f, cards + [Card(p, rep.author.value, rep.comments.value)], CardNodes)
    ensures !ok ==> |h0| <= |doc.nodes| && doc.nodes[..|h0|] == h0
  {
    ghost var before := doc.nodes;
    var card := BuildCard(doc, p, rep);
    if card.Throw? {
      assert doc.nodes[..|h0|] == before[..|h0|];
      return false;
    }
    ghost var c := Card(p, rep.author.value, rep.comments.value);
    ghost var mid := doc.nodes;
    doc.AppendChild(f, card.value);
    CardLeads(card.value, c);
    FragmentedStep(h0, cards, c, CardNodes, before, mid, doc.nodes);
    return true;
  }

  /** createPosts(posts), js/main.js:346-398; `replies[k]` is what the data source answered
      while the `k`-th post was rendered. */
  method CreatePosts(doc: Document, posts: Option<seq<Post>>, replies: seq<Replies>)
    returns (r: Completion<Option<Ref>>)
    requires doc.Valid()
    requires posts.Some? ==> |replies| == |posts.value|
    modifies doc
    ensures doc.Valid() && doc.pass == old(doc.pass)
    ensures posts.None? ==> r == Normal(None) && doc.nodes == old(doc.nodes)
    ensures posts.Some? ==> (r.Normal? <==> AllRender(posts.value, replies))
    ensures posts.Some? && r.Normal? ==>
      r.value == Some(|old(doc.nodes)|)
      && doc.nodes == old(doc.nodes) + Fragmented(|old(doc.nodes)|, CardsOf(posts.value, replies), CardNodes)
    ensures r.Throw? ==> |old(doc.nodes)| <= |doc.nodes| && doc.nodes[..|old(doc.nodes)|] == old(doc.nodes)
  {
    if posts.None? {
      return Normal(None);
    }
    var ps := posts.value;
    ghost var h0 := doc.nodes;
    var f := doc.CreateElement(Fragment([]));
    FragmentedNone(h0, CardNodes);
    var k := 0;
    while k < |ps|
      invariant 0 <= k <= |ps|
      invariant doc.Valid() && doc.pass == old(doc.pass)
      invariant AllRender(ps[..k], replies[..k])
      invariant doc.nodes == h0 + Fragmented(f, CardsOf(ps[..k], replies[..k]), CardNodes)
    {
      var ok := AddCard(doc, h0, f, CardsOf(ps[..k], replies[..k]), ps[k], replies[k]);
      if !ok {
        return Throw;
      }
      CardsOfGrows(ps, replies, k);
      k := k + 1;
    }
    assert ps[..k] == ps && replies[..k] == replies;
    return Normal(Some(f));
  }

  // ---------------------------------------------------------------- displayPosts

  /** `posts && posts.length > 0`. */
  predicate HasPosts(posts: Option<seq<Post>>) {
    posts.Some? && |posts.value| > 0
  }

  function Placeholder(): Element {
    ElemWithText("p", PlaceholderText, PlaceholderClass)
  }

  /** The page after displayPosts(posts) returned normally. */
  function Displayed(h: seq<Element>, posts: Option<seq<Post>>, replies: seq<Replies>): seq<Element>
    requires Main < |h|
    requires HasPosts(posts) ==> |replies| == |posts.value| && AllRender(posts.value, replies)
  {
    if HasPosts(posts) then Appended(h + Fragmented(|h|, CardsOf(posts.value, replies), CardNodes), Main, |h|)
    else Appended(h + [Placeholder()], Main, |h|)
  }

  /** displayPosts(posts), js/main.js:402-417. */
  method DisplayPosts(doc: Document, posts: Option<seq<Post>>, replies: seq<Replies>)
    returns (r: Completion<Ref>)
    requires doc.Valid()
    requires posts.Some? ==> |replies| == |posts.value|
    modifies doc
    ensures doc.Valid() && doc.pass == old(doc.pass)
    ensures r.Throw? <==> HasPosts(posts) && !AllRender(posts.value, replies)
    ensures r.Normal? ==> r.value == |old(doc.nodes)| && doc.nodes == Displayed(old(doc.nodes), posts, replies)
    ensures r.Throw? ==> |old(doc.nodes)| <= |doc.nodes| && doc.nodes[..|old(doc.nodes)|] == old(doc.nodes)
  {
    var element: Ref;
    if HasPosts(posts) {
      var created := CreatePosts(doc, posts, replies);
      if created.Throw? {
        return Throw;
      }
      element := created.value.value;
    } else {
      element := CreateElemWithText(doc, "p", PlaceholderText, PlaceholderClass);
    }
    doc.AppendChild(Main, element);
    return Normal(element);
  }

  /** With no posts, `main` gains exactly one child: the placeholder paragraph, of class
      `default-text`; nothing it had is removed and no other element changes. */
  lemma DisplayedPlaceholder(h: seq<Element>, posts: Option<seq<Post>>, replies: seq<Replies>)
    requires Main < |h| && !HasPosts(posts)
    ensures var g := Displayed(h, posts, replies);
      && |g| == |h| + 1
      && g[Main] == h[Main].(children := h[Main].children + [|h|])
      && g[|h|].tag == "p" && g[|h|].text == PlaceholderText && g[|h|].classes == {PlaceholderClass}
      && g[|h|].children == []
      && forall i | 0 <= i < |h| && i != Main :: g[i] == h[i]
  {
    assert Unspaced(PlaceholderClass);
    assert (h + [Placeholder()])[|h|].tag != FragmentTag;
  }

  /** With posts, `main` gains the feed's articles, one per post, and nothing else of the page
      changes. */
  lemma DisplayedFeed(h: seq<Element>, posts: Option<seq<Post>>, replies: seq<Replies>)
    requires Main < |h| && HasPosts(posts)
    requires |replies| == |posts.value| && AllRender(posts.value, replies)
    ensures Displayed(h, posts, replies)[Main]
      == h[Main].(children := h[Main].children + Starts(|h| + 1, CardsOf(posts.value, replies), CardNodes))
    ensures |Displayed(h, posts, replies)[Main].children| == |h[Main].children| + |posts.value|
    ensures forall i | 0 <= i < |h| && i != Main :: Displayed(h, posts, replies)[i] == h[i]
  {
    FragmentAttached(h, CardsOf(posts.value, replies), CardNodes, Displayed(h, posts, replies));
  }

  /** With posts, the `k`-th article `main` gains is the card of the `k`-th post, in input
      order. */
  lemma DisplayedCard(h: seq<Element>, posts: Option<seq<Post>>, replies: seq<Replies>, k: nat)
    requires Main < |h| && HasPosts(posts)
    requires |replies| == |posts.value| && AllRender(posts.value, replies)
    requires k < |posts.value|
    ensures IsCard(Displayed(h, posts, replies),
                   Starts(|h| + 1, CardsOf(posts.value, replies), CardNodes)[k],
                   CardsOf(posts.value, replies)[k])
    ensures CardsOf(posts.value, replies)[k].post == posts.value[k]
  {
    AttachedCard(h, CardsOf(posts.value, replies), Displayed(h, posts, replies), k);
  }

  /** Once the feed's fragment is appended to `main`, its `k`-th article is the `k`-th card. */
  lemma AttachedCard(h: seq<Element>, cards: seq<Card>, g: seq<Element>, k: nat)
    requires Main < |h| && g == Appended(h + Fragmented(|h|, cards, CardNodes), Main, |h|)
    requires k < |cards|
    ensures IsCard(g, Starts(|h| + 1, cards, CardNodes)[k], cards[k])
  {
    FragmentAttachedPieces(h, cards, CardNodes, g);
    CardsNodesMean(g, |h| + 1, cards, k);
  }
}
