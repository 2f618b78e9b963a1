/** The comment toggle of js/main.js: toggleCommentSection, toggleCommentButton and
    toggleComments. Per post id the page holds a two-state machine, Collapsed (section has
    class `hide`, button reads "Show Comments") and Expanded; one toggle moves it to the other
    state, two toggles restore the page, and the label stays in step with the class. */
module Toggle {
  import opened Dom

  const ShowLabel := "Show Comments"
  const HideLabel := "Hide Comments"
  const HideClass := "hide"

  /** The new label of a toggle button: "Show Comments" becomes "Hide Comments", anything
      else becomes "Show Comments". */
  function NextLabel(l: string): (r: string)
    ensures r == HideLabel <==> l == ShowLabel
    ensures r == ShowLabel <==> l != ShowLabel
  {
    if l == ShowLabel then HideLabel else ShowLabel
  }

  /** One of the two labels the machine knows. */
  predicate IsLabel(l: string) {
    l == ShowLabel || l == HideLabel
  }

  lemma NextLabelTwice(l: string)
    requires IsLabel(l)
    ensures NextLabel(NextLabel(l)) == l
  {
  }

  /** The page after toggleCommentSection(pid) found its section. */
  function SectionToggled(h: seq<Element>, pid: string): (g: seq<Element>)
    ensures SameShape(h, g)
  {
    match FirstMatch(h, "section", pid)
    case None => h
    case Some(s) => h[s := h[s].(classes := ToggleClass(h[s].classes, HideClass))]
  }

  /** The page after toggleCommentButton(pid) found its button. */
  function ButtonToggled(h: seq<Element>, pid: string): (g: seq<Element>)
    ensures SameShape(h, g)
  {
    match FirstMatch(h, "button", pid)
    case None => h
    case Some(b) => h[b := h[b].(text := NextLabel(h[b].text))]
  }

  /** The page after toggleComments(event, pid) with both arguments truthy. */
  function CommentsToggled(h: seq<Element>, pid: string): (g: seq<Element>)
    ensures SameShape(h, g)
  {
    ButtonToggled(SectionToggled(h, pid), pid)
  }

  function AsLookup(o: Option<Ref>): Lookup {
    match o
    case None => Null
    case Some(r) => Found(r)
  }

  /** The lock-step invariant for one post id: when both its section and its button exist,
      the button reads "Show Comments" exactly when the section is hidden. */
  ghost predicate Synced(h: seq<Element>, pid: string) {
    match (FirstMatch(h, "section", pid), FirstMatch(h, "button", pid))
    case (Some(s), Some(b)) => (h[b].text == ShowLabel <==> HideClass in h[s].classes)
    case _ => true
  }

  /** The button of a post id, if there is one, carries one of the two labels. */
  ghost predicate LabelKnown(h: seq<Element>, pid: string) {
    match FirstMatch(h, "button", pid)
    case None => true
    case Some(b) => IsLabel(h[b].text)
  }

  /** Only the `hide` class of the one matching section changes; everything else is kept. */
  lemma SectionToggledOnly(h: seq<Element>, pid: string, i: nat)
    requires i < |h|
    ensures var g := SectionToggled(h, pid);
      if FirstMatch(h, "section", pid) == Some(i) then
        g[i] == h[i].(classes := g[i].classes) && (HideClass in g[i].classes <==> HideClass !in h[i].classes)
        && g[i].classes - {HideClass} == h[i].classes - {HideClass}
      else g[i] == h[i]
  {
  }

  lemma {:induction false} SectionToggledTwice(h: seq<Element>, pid: string)
    ensures SectionToggled(SectionToggled(h, pid), pid) == h
  {
    var g := SectionToggled(h, pid);
    SameShapeFirstMatch(h, g, "section", pid, 0);
    match FirstMatch(h, "section", pid)
    case None =>
    case Some(s) =>
      assert g[s].classes == ToggleClass(h[s].classes, HideClass);
      assert ToggleClass(g[s].classes, HideClass) == h[s].classes;
      assert g[s := g[s].(classes := h[s].classes)] == h;
  }

  lemma {:induction false} ButtonToggledTwice(h: seq<Element>, pid: string)
    requires LabelKnown(h, pid)
    ensures ButtonToggled(ButtonToggled(h, pid), pid) == h
  {
    var g := ButtonToggled(h, pid);
    SameShapeFirstMatch(h, g, "button", pid, 0);
    match FirstMatch(h, "button", pid)
    case None =>
    case Some(b) =>
      NextLabelTwice(h[b].text);
      assert g[b := g[b].(text := h[b].text)] == h;
  }

  /** The involution law: two toggles of the same post restore the whole page, provided its
      button carries one of the two labels. */
  lemma {:induction false} CommentsToggledTwice(h: seq<Element>, pid: string)
    requires LabelKnown(h, pid)
    ensures CommentsToggled(CommentsToggled(h, pid), pid) == h
  {
    var s1 := SectionToggled(h, pid);
    var g := ButtonToggled(s1, pid);
    SameShapeFirstMatch(h, s1, "section", pid, 0);
    SameShapeFirstMatch(h, s1, "button", pid, 0);
    SameShapeFirstMatch(s1, g, "section", pid, 0);
    SameShapeFirstMatch(s1, g, "button", pid, 0);
    // the section toggle does not touch buttons, and the button toggle does not touch sections
    var s2 := SectionToggled(g, pid);
    assert s2 == ButtonToggled(h, pid) by {
      match FirstMatch(h, "section", pid)
      case None =>
      case Some(s) =>
        assert s1 == h[s := h[s].(classes := ToggleClass(h[s].classes, HideClass))];
        assert ToggleClass(ToggleClass(h[s].classes, HideClass), HideClass) == h[s].classes;
        match FirstMatch(h, "button", pid)
        case None =>
          assert g == s1;
          assert s2 == s1[s := h[s]];
        case Some(b) =>
          assert s != b;
          assert g == s1[b := h[b].(text := NextLabel(h[b].text))];
          assert s2 == g[s := h[s]];
    }
    ButtonToggledTwice(h, pid);
  }

  /** Toggling any post keeps the lock-step invariant of every post. */
  lemma {:induction false} CommentsToggledKeepsSync(h: seq<Element>, p: string, q: string)
    requires Synced(h, q)
    ensures Synced(CommentsToggled(h, p), q)
  {
    var s1 := SectionToggled(h, p);
    var g := ButtonToggled(s1, p);
    SameShapeFirstMatch(h, s1, "section", q, 0);
    SameShapeFirstMatch(h, s1, "button", q, 0);
    SameShapeFirstMatch(s1, g, "section", q, 0);
    SameShapeFirstMatch(s1, g, "button", q, 0);
    SameShapeFirstMatch(h, s1, "button", p, 0);
    match (FirstMatch(h, "section", q), FirstMatch(h, "button", q))
    case (Some(s), Some(b)) =>
      assert s != b;
      if p == q {
        assert g[s].classes == ToggleClass(h[s].classes, HideClass);
        assert g[b].text == NextLabel(h[b].text);
      } else {
        assert g[s] == h[s] && g[b] == h[b];
      }
    case _ =>
  }

  /** toggleCommentSection(postId), js/main.js:56-72. */
  method ToggleCommentSection(doc: Document, postId: Option<string>) returns (r: Lookup)
    requires doc.Valid()
    modifies doc
    ensures doc.Valid() && doc.pass == old(doc.pass)
    ensures postId.None? ==> r == Undefined && doc.nodes == old(doc.nodes)
    ensures postId.Some? ==> doc.nodes == SectionToggled(old(doc.nodes), postId.value)
    ensures postId.Some? ==> r == AsLookup(FirstMatch(old(doc.nodes), "section", postId.value))
  {
    if postId.None? {
      return Undefined;
    }
    var section := FirstMatch(doc.nodes, "section", postId.value);
    if section.None? {
      return Null;
    }
    doc.ToggleClassOf(section.value, HideClass);
    return Found(section.value);
  }

  /** toggleCommentButton(postId), js/main.js:75-91. */
  method ToggleCommentButton(doc: Document, postId: Option<string>) returns (r: Lookup)
    requires doc.Valid()
    modifies doc
    ensures doc.Valid() && doc.pass == old(doc.pass)
    ensures postId.None? ==> r == Undefined && doc.nodes == old(doc.nodes)
    ensures postId.Some? ==> doc.nodes == ButtonToggled(old(doc.nodes), postId.value)
    ensures postId.Some? ==> r == AsLookup(FirstMatch(old(doc.nodes), "button", postId.value))
  {
    if postId.None? {
      return Undefined;
    }
    var button := FirstMatch(doc.nodes, "button", postId.value);
    if button.None? {
      return Null;
    }
    doc.SetText(button.value, NextLabel(doc.nodes[button.value].text));
    return Found(button.value);
  }

  /** toggleComments(event, postId), js/main.js:421-437: nothing happens unless both arguments
      are truthy; then the section and the button are toggled, and both lookups returned. */
  method ToggleComments(doc: Document, event: Option<Event>, postId: Option<string>)
    returns (r: Option<(Lookup, Lookup)>)
    requires doc.Valid()
    modifies doc
    ensures doc.Valid() && doc.pass == old(doc.pass)
    ensures r.None? <==> event.None? || !Truthy(postId)
    ensures r.None? ==> doc.nodes == old(doc.nodes)
    ensures r.Some? ==> doc.nodes == CommentsToggled(old(doc.nodes), postId.value)
    ensures r.Some? ==> r.value == (AsLookup(FirstMatch(old(doc.nodes), "section", postId.value)),
                                    AsLookup(FirstMatch(old(doc.nodes), "button", postId.value)))
    ensures r.Some? ==> forall q :: Synced(old(doc.nodes), q) ==> Synced(doc.nodes, q)
  {
    if event.None? || !Truthy(postId) {
      return None;
    }
    var section := ToggleCommentSection(doc, postId);
    SameShapeFirstMatch(old(doc.nodes), doc.nodes, "button", postId.value, 0);
    var button := ToggleCommentButton(doc, postId);
    forall q | Synced(old(doc.nodes), q) ensures Synced(doc.nodes, q) {
      CommentsToggledKeepsSync(old(doc.nodes), postId.value, q);
    }
    return Some((section, button));
  }
}
