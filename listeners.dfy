/** The click listeners of the comment buttons: addButtonListeners and removeButtonListeners
    of js/main.js. Each call of addButtonListeners registers a new closure on every button
    under `main` that carries a post id; removeButtonListeners asks to remove the function
    `toggleComments` itself, which was never registered, so it removes nothing. */
module Listeners {
  import opened Dom

  /** The buttons under `main`, in index order (`document.querySelectorAll('main button')`). */
  function MainButtons(h: seq<Element>): (r: seq<Ref>)
    ensures forall i | 0 <= i < |r| :: r[i] < |h|
    ensures forall i, j | 0 <= i < j < |r| :: r[i] < r[j]
  {
    var r := QueryAll(h, Main, "button");
    assert forall i | 0 <= i < |r| :: r[i] in r;
    r
  }

  /** The closure addButtonListeners registers on button `b` in call number `pass`. */
  function Closure(h: seq<Element>, b: Ref, pass: nat): Handler
    requires b < |h| && h[b].postId.Some?
  {
    Arrow(pass, b, h[b].postId.value)
  }

  /** One turn of addButtonListeners' loop: a button with a truthy post id gains the closure. */
  function BindOne(h: seq<Element>, b: Ref, pass: nat): seq<Element>
    requires b < |h|
  {
    if Truthy(h[b].postId) then h[b := h[b].(listeners := AddListener(h[b].listeners, Closure(h, b, pass)))]
    else h
  }

  /** The page after the first `n` buttons of `bs` were bound, in order, in call number `pass`. */
  function Bound(h: seq<Element>, bs: seq<Ref>, n: nat, pass: nat): (g: seq<Element>)
    requires n <= |bs| && forall i | 0 <= i < |bs| :: bs[i] < |h|
    ensures |g| == |h|
  {
    if n == 0 then h
    else BindOne(Bound(h, bs, n - 1, pass), bs[n - 1], pass)
  }

  /** What binding does to one element: a button among the first `n` with a truthy post id
      gains its closure (unless it already has it), every other element is untouched. */
  lemma {:induction false} BoundAt(h: seq<Element>, bs: seq<Ref>, n: nat, pass: nat, x: Ref)
    requires n <= |bs| && forall i | 0 <= i < |bs| :: bs[i] < |h|
    requires forall i, j | 0 <= i < j < |bs| :: bs[i] != bs[j]
    requires x < |h|
    ensures Bound(h, bs, n, pass)[x]
      == if x in bs[..n] && Truthy(h[x].postId)
         then h[x].(listeners := AddListener(h[x].listeners, Closure(h, x, pass)))
         else h[x]
  {
    if n > 0 {
      BoundAt(h, bs, n - 1, pass, x);
      assert bs[..n] == bs[..n - 1] + [bs[n - 1]];
      if x == bs[n - 1] {
        assert x !in bs[..n - 1];
      }
    }
  }

  /** Binding keeps the tree, the tags and the post ids. */
  lemma {:induction false} BoundShape(h: seq<Element>, bs: seq<Ref>, n: nat, pass: nat)
    requires n <= |bs| && forall i | 0 <= i < |bs| :: bs[i] < |h|
    ensures SameShape(h, Bound(h, bs, n, pass))
  {
    if n > 0 {
      BoundShape(h, bs, n - 1, pass);
    }
  }

  /** A button that had no listener ends up with exactly one: the closure of this call. */
  lemma BoundFresh(h: seq<Element>, bs: seq<Ref>, pass: nat, x: Ref)
    requires forall i | 0 <= i < |bs| :: bs[i] < |h|
    requires forall i, j | 0 <= i < j < |bs| :: bs[i] != bs[j]
    requires x < |h| && x in bs && Truthy(h[x].postId) && h[x].listeners == []
    ensures Bound(h, bs, |bs|, pass)[x].listeners == [Arrow(pass, x, h[x].postId.value)]
  {
    BoundAt(h, bs, |bs|, pass, x);
    assert bs[..|bs|] == bs;
  }

  /** addButtonListeners(), js/main.js:116-133: returns the buttons under `main`. */
  method AddButtonListeners(doc: Document) returns (buttons: seq<Ref>)
    requires doc.Valid()
    modifies doc
    ensures doc.Valid() && doc.pass == old(doc.pass) + 1
    ensures buttons == MainButtons(old(doc.nodes))
    ensures doc.nodes == Bound(old(doc.nodes), buttons, |buttons|, old(doc.pass))
  {
    buttons := MainButtons(doc.nodes);
    ghost var h := doc.nodes;
    var pass := doc.pass;
    if |buttons| > 0 {
      var i := 0;
      while i < |buttons|
        invariant 0 <= i <= |buttons|
        invariant doc.Valid() && doc.pass == pass
        invariant doc.nodes == Bound(h, buttons, i, pass)
      {
        var b := buttons[i];
        ghost var before := doc.nodes;
        if Truthy(doc.nodes[b].postId) {
          doc.AddEventListener(b, Arrow(pass, b, doc.nodes[b].postId.value));
        }
        assert doc.nodes == BindOne(before, b, pass);
        i := i + 1;
      }
    }
    doc.NextPass();
  }

  /** removeButtonListeners(), js/main.js:137-157: returns the buttons under `main` and, since
      `toggleComments` is never a registered listener, leaves the page as it was. */
  method RemoveButtonListeners(doc: Document) returns (buttons: seq<Ref>)
    requires doc.Valid()
    modifies doc
    ensures doc.Valid() && doc.pass == old(doc.pass)
    ensures buttons == MainButtons(old(doc.nodes))
    ensures doc.nodes == old(doc.nodes)
  {
    buttons := MainButtons(doc.nodes);
    if |buttons| > 0 {
      var i := 0;
      while i < |buttons|
        invariant 0 <= i <= |buttons|
        invariant doc.Valid() && doc.pass == old(doc.pass)
        invariant doc.nodes == old(doc.nodes)
      {
        var b := buttons[i];
        assert b in buttons;
        if Truthy(doc.nodes[b].postId) {
          RemoveAbsentListener(doc.nodes[b].listeners, ToggleCommentsFn);
          doc.RemoveEventListener(b, ToggleCommentsFn);
        }
        i := i + 1;
      }
    }
  }
}
