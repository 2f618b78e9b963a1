/** An abstract model of the part of the browser DOM that js/main.js touches.

    The page is a heap of elements indexed by `Ref`: creating an element appends it, and a
    reference stays valid forever (a removed element is merely detached). Every parent/child
    edge points from an earlier element to a later one (`Wf`), which is how every call site of
    `appendChild` in the application builds its trees, and which gives tree walks a measure. */
module Dom {

  type Ref = nat

  datatype Option<T> = None | Some(value: T)

  /** The completion of a JavaScript call: it returned normally, or an exception is in flight. */
  datatype Completion<T> = Normal(value: T) | Throw

  /** What a lookup-style function returns: `undefined`, `null`, or an element. */
  datatype Lookup = Undefined | Null | Found(ref: Ref)

  /** The identity of a click listener. `Arrow` is the closure that addButtonListeners creates
      (one new closure per button per call, capturing the button's post id); `ToggleCommentsFn`
      is the function `toggleComments` itself. */
  datatype Handler =
    | Arrow(pass: nat, button: Ref, postId: string)
    | ToggleCommentsFn

  /** An event object; only its presence and its target are ever looked at. */
  datatype Event = Event(target: Option<Ref>)

  /** One element: tag, textContent, classList, dataset.postId, value, disabled,
      element children (in order) and the click listeners (in registration order). */
  datatype Element = Element(
    tag: string,
    text: string,
    classes: set<string>,
    postId: Option<string>,
    value: string,
    disabled: bool,
    children: seq<Ref>,
    listeners: seq<Handler>)

  const FragmentTag := "#document-fragment"

  /** The three elements of the static page: the document element, the select menu and `main`. */
  const Root: Ref := 0
  const SelectMenu: Ref := 1
  const Main: Ref := 2

  function Bare(tag: string): Element {
    Element(tag, "", {}, None, "", false, [], [])
  }

  /** A fresh element of this tag with this textContent. */
  function Text(tag: string, text: string): Element {
    Bare(tag).(text := text)
  }

  /** A JavaScript string is truthy when it is defined and not empty. */
  predicate Truthy(s: Option<string>) {
    s.Some? && s.value != ""
  }

  // ---------------------------------------------------------------- class lists

  predicate IsSpace(ch: char) {
    ch == ' ' || ch == '\t' || ch == '\n' || ch == '\r' || ch == '\U{C}'
  }

  predicate Unspaced(w: string) {
    forall i | 0 <= i < |w| :: !IsSpace(w[i])
  }

  function Word(w: string): set<string> {
    if w == [] then {} else {w}
  }

  /** The tokens that assigning `className` puts into `classList`: the maximal runs of
      non-whitespace characters. `cur` is the run read so far. */
  function TokensFrom(s: string, cur: string): (r: set<string>)
    requires Unspaced(cur)
    ensures forall t | t in r :: t != [] && Unspaced(t)
    decreases |s|
  {
    if s == [] then Word(cur)
    else if IsSpace(s[0]) then Word(cur) + TokensFrom(s[1..], "")
    else TokensFrom(s[1..], cur + [s[0]])
  }

  function ClassTokens(s: string): (r: set<string>)
    ensures forall t | t in r :: t != [] && Unspaced(t)
  {
    TokensFrom(s, "")
  }

  lemma {:induction false} TokensOfWord(s: string, cur: string)
    requires Unspaced(cur) && Unspaced(s) && cur + s != []
    ensures TokensFrom(s, cur) == {cur + s}
    decreases |s|
  {
    if s == [] {
      assert cur + s == cur;
    } else {
      assert cur + s == (cur + [s[0]]) + s[1..];
      TokensOfWord(s[1..], cur + [s[0]]);
    }
  }

  /** A class name without whitespace becomes exactly one class. */
  lemma SingleClass(s: string)
    requires s != [] && Unspaced(s)
    ensures ClassTokens(s) == {s}
  {
    assert "" + s == s;
    TokensOfWord(s, "");
  }

  /** `classList.toggle(c)`: `c` flips, every other class stays. */
  function ToggleClass(cs: set<string>, c: string): (r: set<string>)
    ensures c in r <==> c !in cs
    ensures r - {c} == cs - {c}
  {
    if c in cs then cs - {c} else cs + {c}
  }

  // ---------------------------------------------------------------- numbers as text

  function Digit(d: nat): char
    requires d < 10
  {
    "0123456789"[d]
  }

  /** The decimal text of a number, as `String(n)` and a template literal give it. */
  function IdText(n: nat): (s: string)
    ensures s != []
    ensures forall i | 0 <= i < |s| :: '0' <= s[i] <= '9'
    decreases n
  {
    if n < 10 then [Digit(n)] else IdText(n / 10) + [Digit(n % 10)]
  }

  // ---------------------------------------------------------------- listener lists

  /** `addEventListener`: a listener that is already registered is not added again. */
  function AddListener(ls: seq<Handler>, hd: Handler): (r: seq<Handler>)
    ensures hd in r
    ensures hd !in ls ==> r == ls + [hd]
    ensures hd in ls ==> r == ls
  {
    if hd in ls then ls else ls + [hd]
  }

  /** `removeEventListener`: every registration of `hd` goes, the others keep their order. */
  function RemoveListener(ls: seq<Handler>, hd: Handler): (r: seq<Handler>)
    ensures forall x :: x in r <==> x in ls && x != hd
    ensures |r| <= |ls|
    decreases |ls|
  {
    if ls == [] then []
    else (if ls[0] == hd then [] else [ls[0]]) + RemoveListener(ls[1..], hd)
  }

  lemma {:induction false} RemoveAbsentListener(ls: seq<Handler>, hd: Handler)
    requires hd !in ls
    ensures RemoveListener(ls, hd) == ls
    decreases |ls|
  {
    if ls != [] {
      RemoveAbsentListener(ls[1..], hd);
      assert [ls[0]] + ls[1..] == ls;
    }
  }

  // ---------------------------------------------------------------- child lists

  /** A child list after `removeChild(c)`. */
  function Without(s: seq<Ref>, c: Ref): (r: seq<Ref>)
    ensures forall x :: x in r <==> x in s && x != c
    ensures c in s ==> |r| < |s|
    ensures |r| <= |s|
    decreases |s|
  {
    if s == [] then []
    else (if s[0] == c then [] else [s[0]]) + Without(s[1..], c)
  }

  // ---------------------------------------------------------------- the tree

  /** Every edge points forward and stays inside the heap. */
  ghost predicate Wf(h: seq<Element>) {
    forall i, j | 0 <= i < |h| && 0 <= j < |h[i].children| :: i < h[i].children[j] < |h|
  }

  /** The invariant of the page: the static elements are in place, the tree is well formed,
      and `toggleComments` itself is never a registered listener (nothing registers it). */
  ghost predicate PageOk(h: seq<Element>) {
    && |h| >= 3
    && h[Root].tag == "html" && h[SelectMenu].tag == "select" && h[Main].tag == "main"
    && Wf(h)
    && forall i | 0 <= i < |h| :: ToggleCommentsFn !in h[i].listeners
  }

  /** `d` lies strictly below `a`. Only forward edges are followed, which under `Wf` are all. */
  predicate IsDescendant(h: seq<Element>, a: Ref, d: Ref)
    decreases |h| - a
  {
    a < |h| &&
    exists j | 0 <= j < |h[a].children| ::
      a < h[a].children[j] && (h[a].children[j] == d || IsDescendant(h, h[a].children[j], d))
  }

  lemma {:induction false} DescendantIsLater(h: seq<Element>, a: Ref, d: Ref)
    requires IsDescendant(h, a, d)
    ensures a < d
    decreases |h| - a
  {
    var j :| 0 <= j < |h[a].children| && a < h[a].children[j] &&
      (h[a].children[j] == d || IsDescendant(h, h[a].children[j], d));
    if h[a].children[j] != d {
      DescendantIsLater(h, h[a].children[j], d);
    }
  }

  /** Everything below an element whose children are all at or after `m` is at or after `m`. */
  lemma DescendantsFrom(h: seq<Element>, a: Ref, d: Ref, m: nat)
    requires IsDescendant(h, a, d)
    requires forall c | c in h[a].children :: m <= c
    ensures m <= d
  {
    var j :| 0 <= j < |h[a].children| && a < h[a].children[j] &&
      (h[a].children[j] == d || IsDescendant(h, h[a].children[j], d));
    assert h[a].children[j] in h[a].children;
    if h[a].children[j] != d {
      DescendantIsLater(h, h[a].children[j], d);
    }
  }

  /** Part of the document: the document element or below it. */
  predicate InDocument(h: seq<Element>, x: Ref) {
    x == Root || IsDescendant(h, Root, x)
  }

  /** Two heaps with the same tags, post ids and child lists: queries cannot tell them apart. */
  ghost predicate SameShape(h: seq<Element>, g: seq<Element>) {
    |h| == |g| &&
    forall i | 0 <= i < |h| ::
      h[i].tag == g[i].tag && h[i].postId == g[i].postId && h[i].children == g[i].children
  }

  lemma {:induction false} SameShapeDescendant(h: seq<Element>, g: seq<Element>, a: Ref, d: Ref)
    requires SameShape(h, g)
    ensures IsDescendant(h, a, d) == IsDescendant(g, a, d)
    decreases |h| - a
  {
    if a < |h| {
      forall j | 0 <= j < |h[a].children| && a < h[a].children[j]
        ensures IsDescendant(h, h[a].children[j], d) == IsDescendant(g, h[a].children[j], d)
      {
        SameShapeDescendant(h, g, h[a].children[j], d);
      }
    }
  }

  /** The selector `tag[data-post-id="pid"]` matches `x` in the document. */
  predicate Matches(h: seq<Element>, x: Ref, tag: string, pid: string) {
    x < |h| && InDocument(h, x) && h[x].tag == tag && h[x].postId == Some(pid)
  }

  /** `document.querySelector(...)`: the first match at or after `i`. */
  function FirstMatchFrom(h: seq<Element>, tag: string, pid: string, i: nat): (r: Option<Ref>)
    ensures r.Some? ==> i <= r.value && Matches(h, r.value, tag, pid)
    ensures r.Some? ==> forall x | i <= x < r.value :: !Matches(h, x, tag, pid)
    ensures r.None? ==> forall x | i <= x :: !Matches(h, x, tag, pid)
    decreases |h| - i
  {
    if i >= |h| then None
    else if Matches(h, i, tag, pid) then Some(i)
    else FirstMatchFrom(h, tag, pid, i + 1)
  }

  function FirstMatch(h: seq<Element>, tag: string, pid: string): Option<Ref> {
    FirstMatchFrom(h, tag, pid, 0)
  }

  lemma {:induction false} SameShapeFirstMatch(h: seq<Element>, g: seq<Element>, tag: string, pid: string, i: nat)
    requires SameShape(h, g)
    ensures FirstMatchFrom(h, tag, pid, i) == FirstMatchFrom(g, tag, pid, i)
    decreases |h| - i
  {
    if i < |h| {
      SameShapeDescendant(h, g, Root, i);
      SameShapeFirstMatch(h, g, tag, pid, i + 1);
    }
  }

  /** `document.querySelectorAll("scope tag")` over the elements at or after `i`. */
  function QueryFrom(h: seq<Element>, scope: Ref, tag: string, i: nat): (r: seq<Ref>)
    ensures forall x :: x in r <==> i <= x < |h| && IsDescendant(h, scope, x) && h[x].tag == tag
    ensures forall p, q | 0 <= p < q < |r| :: r[p] < r[q]
    decreases |h| - i
  {
    if i >= |h| then []
    else
      var rest := QueryFrom(h, scope, tag, i + 1);
      assert forall q | 0 <= q < |rest| :: i < rest[q] by {
        forall q | 0 <= q < |rest| ensures i < rest[q] { assert rest[q] in rest; }
      }
      (if IsDescendant(h, scope, i) && h[i].tag == tag then [i] else []) + rest
  }

  function QueryAll(h: seq<Element>, scope: Ref, tag: string): seq<Ref> {
    QueryFrom(h, scope, tag, 0)
  }

  lemma {:induction false} SameShapeQuery(h: seq<Element>, g: seq<Element>, scope: Ref, tag: string, i: nat)
    requires SameShape(h, g)
    ensures QueryFrom(h, scope, tag, i) == QueryFrom(g, scope, tag, i)
    decreases |h| - i
  {
    if i < |h| {
      SameShapeDescendant(h, g, scope, i);
      SameShapeQuery(h, g, scope, tag, i + 1);
    }
  }

  /** The heap after `appendChild(c)` on `p`: a fragment hands over its children and is left
      empty; any other element becomes the last child. */
  function Appended(h: seq<Element>, p: Ref, c: Ref): seq<Element>
    requires p < |h| && c < |h|
  {
    if h[c].tag == FragmentTag then
      h[p := h[p].(children := h[p].children + h[c].children)][c := h[c].(children := [])]
    else
      h[p := h[p].(children := h[p].children + [c])]
  }

  /** Updating an element of the appended part of a heap. */
  lemma SetTail(h: seq<Element>, t: seq<Element>, i: nat, e: Element)
    requires i < |t|
    ensures (h + t)[|h| + i := e] == h + t[i := e]
  {
  }

  /** Consecutive `appendChild` calls on one parent, none of them passing a fragment: the
      children join in order. */
  method AppendEach(doc: Document, p: Ref, cs: seq<Ref>)
    requires doc.Valid() && p < |doc.nodes|
    requires forall c | c in cs :: p < c < |doc.nodes| && doc.nodes[c].tag != FragmentTag
    modifies doc
    ensures doc.Valid() && doc.pass == old(doc.pass)
    ensures doc.nodes == old(doc.nodes)[p := old(doc.nodes)[p].(children := old(doc.nodes)[p].children + cs)]
  {
    ghost var h := doc.nodes;
    var i := 0;
    assert h[p].children + cs[..0] == h[p].children;
    while i < |cs|
      invariant 0 <= i <= |cs|
      invariant doc.Valid() && doc.pass == old(doc.pass)
      invariant doc.nodes == h[p := h[p].(children := h[p].children + cs[..i])]
    {
      assert cs[i] in cs;
      doc.AppendChild(p, cs[i]);
      assert h[p].children + cs[..i] + [cs[i]] == h[p].children + cs[..i + 1];
      i := i + 1;
    }
    assert cs[..i] == cs;
  }

  /** A window of a heap that holds a layout, read element by element or as a sub-window. */
  lemma Window(h: seq<Element>, a: nat, es: seq<Element>, i: nat, j: nat)
    requires a + |es| <= |h| && h[a .. a + |es|] == es
    requires i <= j <= |es|
    ensures h[a + i .. a + j] == es[i .. j]
    ensures forall x | i <= x < j :: h[a + x] == es[x]
  {
    forall x | i <= x < j ensures h[a + x] == es[x] {
      assert h[a + x] == h[a .. a + |es|][x];
    }
  }

  /** The page, with its element heap. `pass` counts the calls of addButtonListeners; it is
      what tells the closures of different calls apart. */
  class Document {
    var nodes: seq<Element>
    var pass: nat

    ghost predicate Valid()
      reads this
    {
      PageOk(nodes)
    }

    constructor ()
      ensures Valid() && pass == 0
      ensures nodes == [Bare("html").(children := [SelectMenu, Main]), Bare("select"), Bare("main")]
    {
      nodes := [Bare("html").(children := [SelectMenu, Main]), Bare("select"), Bare("main")];
      pass := 0;
    }

    /** `document.createElement` / `createDocumentFragment`, with the fields the caller sets
        right after creation already filled in. */
    method CreateElement(e: Element) returns (r: Ref)
      requires Valid() && e.children == [] && e.listeners == []
      modifies this
      ensures Valid() && pass == old(pass)
      ensures r == |old(nodes)| && nodes == old(nodes) + [e]
    {
      r := |nodes|;
      nodes := nodes + [e];
    }

    method AppendChild(p: Ref, c: Ref)
      requires Valid() && p < c < |nodes|
      modifies this
      ensures Valid() && pass == old(pass)
      ensures nodes == Appended(old(nodes), p, c)
    {
      ghost var h := nodes;
      if nodes[c].tag == FragmentTag {
        var moved := nodes[c].children;
        nodes := nodes[p := nodes[p].(children := nodes[p].children + moved)];
        nodes := nodes[c := nodes[c].(children := [])];
        forall i, j | 0 <= i < |nodes| && 0 <= j < |nodes[i].children|
          ensures i < nodes[i].children[j] < |nodes|
        {
          if i == p && j >= |h[p].children| {
            assert nodes[i].children[j] == h[c].children[j - |h[p].children|];
          }
        }
      } else {
        nodes := nodes[p := nodes[p].(children := nodes[p].children + [c])];
        forall i, j | 0 <= i < |nodes| && 0 <= j < |nodes[i].children|
          ensures i < nodes[i].children[j] < |nodes|
        {
          if i == p && j >= |h[p].children| {
            assert nodes[i].children[j] == c;
          }
        }
      }
    }

    method RemoveChild(p: Ref, c: Ref)
      requires Valid() && p < |nodes|
      modifies this
      ensures Valid() && pass == old(pass)
      ensures nodes == old(nodes)[p := old(nodes)[p].(children := Without(old(nodes)[p].children, c))]
    {
      ghost var h := nodes;
      nodes := nodes[p := nodes[p].(children := Without(nodes[p].children, c))];
      forall i, j | 0 <= i < |nodes| && 0 <= j < |nodes[i].children|
        ensures i < nodes[i].children[j] < |nodes|
      {
        if i == p {
          var x := nodes[i].children[j];
          assert x in Without(h[p].children, c);
          var k :| 0 <= k < |h[p].children| && h[p].children[k] == x;
        }
      }
    }

    method ToggleClassOf(r: Ref, c: string)
      requires Valid() && r < |nodes|
      modifies this
      ensures Valid() && pass == old(pass)
      ensures nodes == old(nodes)[r := old(nodes)[r].(classes := ToggleClass(old(nodes)[r].classes, c))]
    {
      nodes := nodes[r := nodes[r].(classes := ToggleClass(nodes[r].classes, c))];
    }

    method SetText(r: Ref, t: string)
      requires Valid() && r < |nodes|
      modifies this
      ensures Valid() && pass == old(pass)
      ensures nodes == old(nodes)[r := old(nodes)[r].(text := t)]
    {
      nodes := nodes[r := nodes[r].(text := t)];
    }

    method SetDisabled(r: Ref, b: bool)
      requires Valid() && r < |nodes|
      modifies this
      ensures Valid() && pass == old(pass)
      ensures nodes == old(nodes)[r := old(nodes)[r].(disabled := b)]
    {
      nodes := nodes[r := nodes[r].(disabled := b)];
    }

    /** Only closures are ever registered by the application. */
    method AddEventListener(r: Ref, hd: Handler)
      requires Valid() && r < |nodes| && hd.Arrow?
      modifies this
      ensures Valid() && pass == old(pass)
      ensures nodes == old(nodes)[r := old(nodes)[r].(listeners := AddListener(old(nodes)[r].listeners, hd))]
    {
      nodes := nodes[r := nodes[r].(listeners := AddListener(nodes[r].listeners, hd))];
    }

    method RemoveEventListener(r: Ref, hd: Handler)
      requires Valid() && r < |nodes|
      modifies this
      ensures Valid() && pass == old(pass)
      ensures nodes == old(nodes)[r := old(nodes)[r].(listeners := RemoveListener(old(nodes)[r].listeners, hd))]
    {
      nodes := nodes[r := nodes[r].(listeners := RemoveListener(nodes[r].listeners, hd))];
    }

    method NextPass()
      modifies this
      ensures nodes == old(nodes) && pass == old(pass) + 1
    {
      pass := pass + 1;
    }
  }
}
