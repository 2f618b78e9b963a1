/** The select menu of js/main.js: createSelectOptions and populateSelectMenu fill it with one
    option per user, and selectMenuChangeEventHandler picks the user id from the chosen option,
    disables the menu while the feed is refreshed, and enables it again whether or not the
    refresh throws. */
module Select {
  import opened Dom
  import opened Builders
  import opened Listeners
  import opened Refresh

  /** The option createSelectOptions creates for a user: `value` is the user's id as text
      (assigning a number to `option.value` stores its decimal string), the text is the name. */
  function OptionFor(u: User): (e: Element)
    ensures e.tag == "option" && e.value == IdText(u.id) && e.text == u.name
    ensures e.children == [] && e.listeners == [] && e.postId.None?
  {
    Bare("option").(value := IdText(u.id), text := u.name)
  }

  /** The options of the users, in order. */
  function OptionsOf(users: seq<User>): (es: seq<Element>)
    ensures |es| == |users|
  {
    seq(|users|, k requires 0 <= k < |users| => OptionFor(users[k]))
  }

  /** `n` consecutive references from `b`: the elements created one after the other. */
  function Consecutive(b: nat, n: nat): (rs: seq<Ref>)
    ensures |rs| == n
  {
    seq(n, k requires 0 <= k < n => b + k)
  }

  lemma OptionsGrow(users: seq<User>, k: nat)
    requires k < |users|
    ensures OptionsOf(users[..k + 1]) == OptionsOf(users[..k]) + [OptionFor(users[k])]
  {
  }

  lemma ConsecutiveGrows(b: nat, n: nat)
    ensures Consecutive(b, n + 1) == Consecutive(b, n) + [b + n]
  {
  }

  /** createSelectOptions(usersData), js/main.js:27-53: `None` is a falsy argument. */
  method CreateSelectOptions(doc: Document, users: Option<seq<User>>) returns (r: Option<seq<Ref>>)
    requires doc.Valid()
    modifies doc
    ensures doc.Valid() && doc.pass == old(doc.pass)
    ensures users.None? ==> r.None? && doc.nodes == old(doc.nodes)
    ensures users.Some? ==>
      && r == Some(Consecutive(|old(doc.nodes)|, |users.value|))
      && doc.nodes == old(doc.nodes) + OptionsOf(users.value)
  {
    if users.None? {
      return None;
    }
    var us := users.value;
    ghost var h := doc.nodes;
    var options: seq<Ref> := [];
    var k := 0;
    assert us[..0] == [];
    while k < |us|
      invariant 0 <= k <= |us|
      invariant doc.Valid() && doc.pass == old(doc.pass)
      invariant options == Consecutive(|h|, k)
      invariant doc.nodes == h + OptionsOf(us[..k])
    {
      var option := doc.CreateElement(OptionFor(us[k]));
      OptionsGrow(us, k);
      ConsecutiveGrows(|h|, k);
      options := options + [option];
      k := k + 1;
    }
    assert us[..k] == us;
    return Some(options);
  }

  /** The page once the users' options are appended to the select menu. */
  function Populated(h: seq<Element>, users: seq<User>): seq<Element>
    requires SelectMenu < |h|
  {
    var g := h + OptionsOf(users);
    g[SelectMenu := g[SelectMenu].(children := g[SelectMenu].children + Consecutive(|h|, |users|))]
  }

  /** populateSelectMenu(userData), js/main.js:197-215: `None` is a falsy argument. */
  method PopulateSelectMenu(doc: Document, users: Option<seq<User>>) returns (r: Option<Ref>)
    requires doc.Valid()
    modifies doc
    ensures doc.Valid() && doc.pass == old(doc.pass)
    ensures users.None? ==> r.None? && doc.nodes == old(doc.nodes)
    ensures users.Some? ==> r == Some(SelectMenu) && doc.nodes == Populated(old(doc.nodes), users.value)
  {
    if users.None? {
      return None;
    }
    var options := CreateSelectOptions(doc, users);
    forall c | c in options.value
      ensures SelectMenu < c < |doc.nodes| && doc.nodes[c].tag != FragmentTag
    {
      var k :| 0 <= k < |users.value| && options.value[k] == c;
      assert doc.nodes[c] == OptionsOf(users.value)[k];
    }
    AppendEach(doc, SelectMenu, options.value);
    return Some(SelectMenu);
  }

  /** After populateSelectMenu the menu keeps its options and lists one more option per user,
      in order, showing the name and holding the id; no other element of the page changes. */
  lemma PopulatedMenu(h: seq<Element>, users: seq<User>)
    requires SelectMenu < |h|
    ensures var g := Populated(h, users);
      var n := |h[SelectMenu].children|;
      && g[SelectMenu] == h[SelectMenu].(children := g[SelectMenu].children)
      && |g[SelectMenu].children| == n + |users|
      && g[SelectMenu].children[..n] == h[SelectMenu].children
      && (forall k | 0 <= k < |users| ::
           var o := g[SelectMenu].children[n + k];
           && |h| <= o < |g| && g[o].tag == "option"
           && g[o].text == users[k].name && g[o].value == IdText(users[k].id))
      && forall i | 0 <= i < |h| && i != SelectMenu :: g[i] == h[i]
  {
    var g := Populated(h, users);
    var n := |h[SelectMenu].children|;
    forall k | 0 <= k < |users|
      ensures g[SelectMenu].children[n + k] == |h| + k
      ensures g[|h| + k] == OptionFor(users[k])
    {
      assert (h + OptionsOf(users))[|h| + k] == OptionsOf(users)[k];
    }
  }

  // ---------------------------------------------------------------- the change handler

  /** The user id selectMenuChangeEventHandler asks for posts: the number 1 by default, or the
      chosen option's value. */
  datatype UserId = DefaultUser | Selected(value: string)

  /** js/main.js:474-478: 'Employees', an empty value or a missing target give the default. */
  function ChooseUserId(value: Option<string>): (id: UserId)
    ensures id == DefaultUser <==> value.None? || value.value == "Employees" || value.value == ""
    ensures id.Selected? ==> value == Some(id.value)
  {
    if value == Some("Employees") then DefaultUser
    else if Truthy(value) then Selected(value.value)
    else DefaultUser
  }

  /** Choosing the option of a user asks for exactly that user's posts: an id's decimal text
      is never empty and never 'Employees'. */
  lemma ChosenUser(h: seq<Element>, users: seq<User>, k: nat)
    requires SelectMenu < |h| && k < |users|
    ensures var g := Populated(h, users);
      var o := g[SelectMenu].children[|h[SelectMenu].children| + k];
      ChooseUserId(Some(g[o].value)) == Selected(IdText(users[k].id))
  {
    PopulatedMenu(h, users);
    var id := IdText(users[k].id);
    assert id[0] != "Employees"[0];
  }

  /** What the handler returns on the normal path: the user id, the posts it was given and the
      result of refreshPosts. */
  datatype Changed = Changed(userId: UserId, posts: Option<seq<Post>>, refreshed: Option<Refreshed>)

  /** `selectMenu?.value`. */
  function TargetValue(h: seq<Element>, target: Option<Ref>): (v: Option<string>)
    requires target.Some? ==> target.value < |h|
    ensures v.Some? <==> target.Some?
    ensures v.Some? ==> v.value == h[target.value].value
  {
    if target.Some? then Some(h[target.value].value) else None
  }

  /** `if (selectMenu) selectMenu.disabled = b`. */
  function WithDisabled(h: seq<Element>, target: Option<Ref>, b: bool): (g: seq<Element>)
    requires target.Some? ==> target.value < |h|
    ensures |g| == |h|
    ensures target.Some? ==> g[target.value] == h[target.value].(disabled := b)
    ensures forall i | 0 <= i < |h| && (target.None? || i != target.value) :: g[i] == h[i]
  {
    if target.Some? then h[target.value := h[target.value].(disabled := b)] else h
  }

  /** The page, up to its old length, after refreshPosts threw inside the handler: the menu
      was disabled, `main` cleared, and the menu enabled again in the `catch` block. */
  function AbortedChange(h: seq<Element>, target: Option<Ref>): (g: seq<Element>)
    requires Main < |h| && (target.Some? ==> target.value < |h|)
    ensures |g| == |h|
  {
    WithDisabled(Cleared(WithDisabled(h, target, true), Main), target, false)
  }

  /** The page after the handler returned normally: the menu disabled, the feed refreshed
      (unless the posts are missing), and the menu enabled again. */
  function AfterChange(h: seq<Element>, target: Option<Ref>, posts: Option<seq<Post>>, replies: seq<Replies>,
                       pass: nat): seq<Element>
    requires Main < |h| && (target.Some? ==> target.value < |h|)
    requires HasPosts(posts) ==> |replies| == |posts.value| && AllRender(posts.value, replies)
  {
    var h1 := WithDisabled(h, target, true);
    var h2 := if posts.Some? then RefreshedPage(h1, posts, replies, pass) else h1;
    WithDisabled(h2, target, false)
  }

  /** selectMenuChangeEventHandler(event), js/main.js:464-507. `posts` is what
      getUserPosts(userId) answers (`None` when it fails, which it logs rather than throws) and
      `replies` the answers for rendering them. An exception from refreshPosts is caught: the
      menu is enabled again and `undefined` returned. */
  method SelectMenuChange(doc: Document, event: Option<Event>, posts: Option<seq<Post>>, replies: seq<Replies>)
    returns (r: Option<Changed>)
    requires doc.Valid()
    requires event.Some? && event.value.target.Some? ==> event.value.target.value < |doc.nodes|
    requires posts.Some? ==> |replies| == |posts.value|
    modifies doc
    ensures doc.Valid() && |old(doc.nodes)| <= |doc.nodes|
    ensures event.None? ==> r.None? && doc.nodes == old(doc.nodes) && doc.pass == old(doc.pass)
    ensures event.Some? ==> (r.None? <==> HasPosts(posts) && !AllRender(posts.value, replies))
    ensures event.Some? && event.value.target.Some? ==> !doc.nodes[event.value.target.value].disabled
    ensures event.Some? && r.None? ==>
      && doc.pass == old(doc.pass)
      && doc.nodes[..|old(doc.nodes)|] == AbortedChange(old(doc.nodes), event.value.target)
    ensures r.Some? ==>
      var h1 := WithDisabled(old(doc.nodes), event.value.target, true);
      && doc.pass == old(doc.pass) + (if posts.Some? then 1 else 0)
      && r.value.userId == ChooseUserId(TargetValue(old(doc.nodes), event.value.target))
      && r.value.posts == posts
      && (posts.None? ==> r.value.refreshed.None?)
      && (posts.Some? ==> r.value.refreshed == Some(Refreshed(MainButtons(h1), Some(Main), |h1|,
                                                 MainButtons(Displayed(Cleared(h1, Main), posts, replies)))))
      && doc.nodes == AfterChange(old(doc.nodes), event.value.target, posts, replies, old(doc.pass))
  {
    if event.None? {
      return None;
    }
    var menu := event.value.target;
    var userId := ChooseUserId(if menu.Some? then Some(doc.nodes[menu.value].value) else None);
    if menu.Some? {
      doc.SetDisabled(menu.value, true);
    }
    var refreshed := RefreshPosts(doc, posts, replies);
    if refreshed.Throw? {
      ghost var n := |old(doc.nodes)|;
      ghost var before := doc.nodes;
      if menu.Some? {
        doc.SetDisabled(menu.value, false);
        assert doc.nodes[..n] == before[..n][menu.value := before[menu.value].(disabled := false)];
      }
      return None;
    }
    if menu.Some? {
      doc.SetDisabled(menu.value, false);
    }
    return Some(Changed(userId, posts, refreshed.value));
  }

  /** The handler leaves the select menu as it found it but enabled: its options and value are
      kept, since refreshing touches only `main` and the new elements. */
  lemma ChangeKeepsMenu(h: seq<Element>, target: Option<Ref>, posts: Option<seq<Post>>, replies: seq<Replies>,
                        pass: nat)
    requires Main < |h| && target.Some? && target.value < |h| && target.value != Main
    requires HasPosts(posts) ==> |replies| == |posts.value| && AllRender(posts.value, replies)
    ensures AfterChange(h, target, posts, replies, pass)[target.value] == h[target.value].(disabled := false)
  {
    var h1 := WithDisabled(h, target, true);
    if posts.Some? {
      RefreshedKeeps(h1, posts, replies, pass);
    }
  }

  /** When refreshPosts throws, the handler still leaves the select menu as it found it but
      enabled: clearing `main` touches no other element. */
  lemma AbortKeepsMenu(h: seq<Element>, target: Option<Ref>)
    requires Main < |h| && target.Some? && target.value < |h| && target.value != Main
    ensures AbortedChange(h, target)[target.value] == h[target.value].(disabled := false)
    ensures AbortedChange(h, target)[Main].children == []
  {
  }
}
