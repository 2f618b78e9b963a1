/** Pieces of page laid out one after the other, and a document fragment holding them: the
    shape createComments and createPosts both build, one piece (a comment's article, a post's
    card) per loop turn, appending each piece's first element to the fragment. The lemmas here
    are generic in what a piece is, so that each builder only proves facts about its own
    piece. */
module Layout {
  import opened Dom

  /** A document fragment (createDocumentFragment) with the given children. */
  function Fragment(children: seq<Ref>): Element {
    Bare(FragmentTag).(children := children)
  }

  /** Pieces laid out one after the other from `b`; each piece is told where it starts. */
  function Laid<T>(b: nat, xs: seq<T>, piece: (nat, T) -> seq<Element>): seq<Element>
    decreases |xs|
  {
    if xs == [] then []
    else
      var init := Laid(b, xs[..|xs| - 1], piece);
      init + piece(b + |init|, xs[|xs| - 1])
  }

  /** Where the pieces laid out from `b` start: each after all the pieces before it. */
  function Starts<T>(b: nat, xs: seq<T>, piece: (nat, T) -> seq<Element>): (r: seq<nat>)
    ensures |r| == |xs|
  {
    seq(|xs|, k requires 0 <= k < |xs| => b + |Laid(b, xs[..k], piece)|)
  }

  /** Every piece laid out from `b` starts at or after `b`. */
  lemma StartsFrom<T>(b: nat, xs: seq<T>, piece: (nat, T) -> seq<Element>)
    ensures forall r | r in Starts(b, xs, piece) :: b <= r
  {
  }

  /** The `k`-th piece starts after the first `k` and lies intact inside the layout. */
  lemma {:induction false} LaidAt<T>(b: nat, xs: seq<T>, piece: (nat, T) -> seq<Element>, k: nat)
    requires k < |xs|
    ensures var off := |Laid(b, xs[..k], piece)|;
      var p := piece(b + off, xs[k]);
      && Starts(b, xs, piece)[k] == b + off
      && off + |p| <= |Laid(b, xs, piece)|
      && Laid(b, xs, piece)[off .. off + |p|] == p
    decreases |xs|
  {
    var init := xs[..|xs| - 1];
    var all := Laid(b, xs, piece);
    if k == |xs| - 1 {
      assert xs[..k] == init;
    } else {
      assert init[..k] == xs[..k];
      assert init[k] == xs[k];
      LaidAt(b, init, piece, k);
      var off := |Laid(b, xs[..k], piece)|;
      var p := piece(b + off, xs[k]);
      assert all[off .. off + |p|] == Laid(b, init, piece)[off .. off + |p|];
    }
  }

  lemma LaidGrows<T>(b: nat, xs: seq<T>, piece: (nat, T) -> seq<Element>, x: T)
    ensures Laid(b, xs + [x], piece) == Laid(b, xs, piece) + piece(b + |Laid(b, xs, piece)|, x)
  {
    var ys := xs + [x];
    assert ys[..|ys| - 1] == xs && ys[|ys| - 1] == x;
  }

  lemma StartsGrows<T>(b: nat, xs: seq<T>, piece: (nat, T) -> seq<Element>, x: T)
    ensures Starts(b, xs + [x], piece) == Starts(b, xs, piece) + [b + |Laid(b, xs, piece)|]
  {
    var ys := xs + [x];
    assert ys[..|xs|] == xs;
    forall k | 0 <= k < |xs| ensures ys[..k] == xs[..k] {
    }
  }

  /** A fragment at `f` holding pieces laid out right after it. */
  function Fragmented<T>(f: nat, xs: seq<T>, piece: (nat, T) -> seq<Element>): seq<Element> {
    [Fragment(Starts(f + 1, xs, piece))] + Laid(f + 1, xs, piece)
  }

  /** Appending one more piece to the fragment. */
  lemma FragmentedGrows<T>(f: nat, xs: seq<T>, piece: (nat, T) -> seq<Element>, x: T)
    ensures var a := f + 1 + |Laid(f + 1, xs, piece)|;
      Fragmented(f, xs + [x], piece)
      == (Fragmented(f, xs, piece) + piece(a, x))[0 := Fragment(Starts(f + 1, xs, piece) + [a])]
  {
    LaidGrows(f + 1, xs, piece, x);
    StartsGrows(f + 1, xs, piece, x);
  }

  /** Where a layout lies in a page, each of its pieces lies there at its start. */
  lemma LaidWindow<T>(h: seq<Element>, b: nat, xs: seq<T>, piece: (nat, T) -> seq<Element>, k: nat)
    requires b + |Laid(b, xs, piece)| <= |h| && h[b .. b + |Laid(b, xs, piece)|] == Laid(b, xs, piece)
    requires k < |xs|
    ensures var a := Starts(b, xs, piece)[k];
      a + |piece(a, xs[k])| <= |h| && h[a .. a + |piece(a, xs[k])|] == piece(a, xs[k])
  {
    LaidAt(b, xs, piece, k);
    var off := |Laid(b, xs[..k], piece)|;
    var p := piece(b + off, xs[k]);
    Window(h, b, Laid(b, xs, piece), off, off + |p|);
  }

  /** Appending the next piece to a fragment of pieces: once the piece is laid out after the
      fragment's pieces (`mid`), appending its first element to the fragment (`after`) gives
      the fragment of one more piece. */
  lemma FragmentedStep<T>(h0: seq<Element>, xs: seq<T>, x: T, piece: (nat, T) -> seq<Element>,
                          before: seq<Element>, mid: seq<Element>, after: seq<Element>)
    requires before == h0 + Fragmented(|h0|, xs, piece) && mid == before + piece(|before|, x)
    requires |piece(|before|, x)| > 0 && piece(|before|, x)[0].tag != FragmentTag
    requires |h0| < |before| < |mid| && after == Appended(mid, |h0|, |before|)
    ensures after == h0 + Fragmented(|h0|, xs + [x], piece)
  {
    var f := |h0|;
    var a := |before|;
    assert a == f + 1 + |Laid(f + 1, xs, piece)|;
    var tail := Fragmented(f, xs, piece) + piece(a, x);
    assert mid == h0 + tail;
    assert mid[a] == piece(a, x)[0];
    assert mid[f] == Fragment(Starts(f + 1, xs, piece));
    var e := Fragment(Starts(f + 1, xs, piece) + [a]);
    assert after == mid[f := e];
    SetTail(h0, tail, 0, e);
    FragmentedGrows(f, xs, piece, x);
  }

  /** A fragment of pieces appended to `main`: `main` gains the pieces' first elements, the
      fragment is emptied, and nothing else before it changes. */
  lemma FragmentAttached<T>(h: seq<Element>, xs: seq<T>, piece: (nat, T) -> seq<Element>, g: seq<Element>)
    requires Main < |h| && g == Appended(h + Fragmented(|h|, xs, piece), Main, |h|)
    ensures g[Main] == h[Main].(children := h[Main].children + Starts(|h| + 1, xs, piece))
    ensures forall i | 0 <= i < |h| && i != Main :: g[i] == h[i]
  {
    var m := |h|;
    var e := h + Fragmented(m, xs, piece);
    assert e[m] == Fragment(Starts(m + 1, xs, piece));
    assert g == e[Main := e[Main].(children := e[Main].children + Starts(m + 1, xs, piece))][m := Fragment([])];
  }

  /** The pieces stay where they were laid out when their fragment is appended to `main`. */
  lemma FragmentAttachedPieces<T>(h: seq<Element>, xs: seq<T>, piece: (nat, T) -> seq<Element>, g: seq<Element>)
    requires Main < |h| && g == Appended(h + Fragmented(|h|, xs, piece), Main, |h|)
    ensures |h| + 1 + |Laid(|h| + 1, xs, piece)| == |g|
    ensures g[|h|] == Fragment([])
    ensures g[|h| + 1 ..] == Laid(|h| + 1, xs, piece)
  {
    var m := |h|;
    var e := h + Fragmented(m, xs, piece);
    assert e[m].tag == FragmentTag;
    assert g == e[Main := e[Main].(children := e[Main].children + Starts(m + 1, xs, piece))][m := Fragment([])];
    assert g[m + 1 ..] == e[m + 1 ..];
    assert e[m + 1 ..] == Laid(m + 1, xs, piece);
  }

  /** A prefix one longer is the shorter prefix and the next element. */
  lemma PrefixGrows<T>(s: seq<T>, k: nat)
    requires k < |s|
    ensures s[..k] + [s[k]] == s[..k + 1]
  {
  }

  /** A fresh, empty fragment holds no pieces. */
  lemma FragmentedNone<T>(h0: seq<Element>, piece: (nat, T) -> seq<Element>)
    ensures h0 + [Fragment([])] == h0 + Fragmented(|h0|, [], piece)
  {
  }
}
