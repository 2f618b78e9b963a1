# A verified model of the posts viewer's page logic

The posts viewer is a small browser application (one script, `js/main.js`). A select menu
lists employees. Choosing one fetches that employee's posts and shows them in `main`, one
card per post. Each card holds a title, a body, "Post ID: …", "Author: … with …", a catch
phrase, a "Show Comments" button and a hidden comment section. Clicking the button shows or
hides the section. Every change of selection refreshes the feed:

1. it calls removeButtonListeners, which unbinds nothing (see below);
2. it empties `main`;
3. it renders the new posts, or a placeholder paragraph when there are none;
4. it binds the new buttons.

This project models that logic in Dafny and proves what it promises.

- **The page** (`dom.dfy`, module `Dom`) is a class `Document`. It holds a heap of elements
  (`nodes`), indexed by reference, with the DOM operations the script calls:
  `createElement`, `appendChild` (a document fragment hands over its children),
  `removeChild`, `classList.toggle`, `textContent`, `disabled`, `addEventListener` and
  `removeEventListener`.
  - Every edge of the tree points from an earlier element to a later one.
  - A click listener is either a closure made by addButtonListeners, identified by the call
    that made it, or the function `toggleComments` itself.
  - `querySelector` is a lookup by tag and `data-post-id` over the tree. `querySelectorAll('main button')`
    is a lookup by tag among the descendants of `main`.
- **The comment toggle** (`toggle.dfy`) is a two-state machine per post id. It has an
  involution law and a lock-step invariant between the button label and the `hide` class.
- **The builders** (`layout.dfy`, `builders.dfy`) are createElemWithText, createComments,
  displayComments, createPosts and displayPosts.
  - Each is a method that appends elements to the heap. Its postcondition names exactly which
    elements, through a function (`CommentNodes`, `SectionNodes`, `CardNodes`, `Displayed`).
  - Lemmas read those elements back as cards and comment sections.
  - What the data source answers (an author, comments) is a parameter. A missing answer, or a
    falsy post id, makes the source throw a `TypeError`; the model returns `Throw`.
- **The listeners** (`listeners.dfy`) are addButtonListeners and removeButtonListeners.
  removeButtonListeners passes `toggleComments`, which was never registered, so it is proved
  to change nothing.
- **The refresh** (`refresh.dfy`) is deleteChildElements and refreshPosts. Because `main` is
  emptied before rendering, every button that gets bound is new. So after a refresh each button
  under `main` that carries a post id has exactly one listener, and one without has none.
- **The select menu** (`select.dfy`) is createSelectOptions, populateSelectMenu and the
  selection-change handler. The handler chooses the user id, disables the menu for the refresh
  and enables it again on both the normal and the exception path.

The script's own comments promise more than its code does:

- The comment on removeButtonListeners says it returns the buttons with their click listeners
  removed (js/main.js:135-136), and that it passes the same function that was registered
  (js/main.js:150). But the call at js/main.js:151 passes `toggleComments`, while
  js/main.js:125-127 registered a fresh arrow function. The model follows the code: the call
  removes nothing (`RemoveButtonListeners`), and old buttons keep their closures once they are
  detached (`RefreshedKeeps`).
- After a refresh, each button under `main` with a post id still has exactly one listener, and
  one without a post id has none. That holds because `main` was emptied, not because of the
  unbind step (`RefreshedButtons`).

## Model

| member | source | states |
|---|---|---|
| Builders.ElemWithText | js/main.js:8-22 | the element has the given tag and text and no class when the class name is falsy; a class name without whitespace gives exactly that one class |
| Builders.CreateElemWithText | js/main.js:8-22 | appends exactly that one fresh element and returns its reference |
| Select.CreateSelectOptions | js/main.js:27-53 | a falsy argument gives `undefined` and no change; otherwise one fresh option per user, in order, value = the id's decimal text, text = the name, and their references are returned in order |
| Select.PopulateSelectMenu | js/main.js:197-215 | a falsy argument gives `undefined` and no change; otherwise the options are appended to the select menu, which is returned |
| Select.PopulatedMenu | js/main.js:197-215 | after populating, the menu keeps its earlier options and then lists one option per user in order, showing the name and holding the id; no other element changes |
| Select.ChooseUserId | js/main.js:472-478 | the default user id 1 exactly when the target is missing, its value is 'Employees' or empty; otherwise the value itself |
| Select.ChosenUser | js/main.js:42-45 | choosing the option made for a user asks for exactly that user's id (an id's text is never empty nor 'Employees') |
| Select.SelectMenuChange | js/main.js:464-507 | no event: `undefined`, no change; otherwise `undefined` exactly when the refresh throws, and then the page keeps its old elements as `AbortedChange` (menu disabled, `main` cleared, menu enabled); the target ends enabled on both paths; on the normal path it returns the chosen id, the posts and refreshPosts' four results (buttons under `main` before, `main`, the new element, buttons bound), the page is `AfterChange` (disable, refresh, enable), and the closure counter advances by one exactly when refreshPosts ran addButtonListeners |
| Select.ChangeKeepsMenu | js/main.js:481-498 | after the handler returns normally, the select menu is exactly as before except that it is enabled |
| Toggle.NextLabel | js/main.js:87 | "Show Comments" becomes "Hide Comments"; any other label becomes "Show Comments" |
| Toggle.NextLabelTwice | js/main.js:87 | from either label, two swaps restore it |
| Toggle.ToggleCommentSection | js/main.js:56-72 | an undefined id returns `undefined` and changes nothing; otherwise it returns `null` when no section carries the id, else the section, whose `hide` class was flipped (`SectionToggled`) |
| Toggle.SectionToggledOnly | js/main.js:62-68 | only the `hide` class of the one matching section flips; every other class and every other element is kept |
| Toggle.SectionToggledTwice | js/main.js:56-72 | two section toggles restore the whole page |
| Toggle.ToggleCommentButton | js/main.js:75-91 | an undefined id returns `undefined`; no matching button returns `null`; otherwise the button's label is swapped (`ButtonToggled`) and the button returned |
| Toggle.ButtonToggledTwice | js/main.js:75-91 | from either label, two button toggles restore the whole page |
| Toggle.ToggleComments | js/main.js:421-437 | a falsy event or post id returns `undefined` and changes nothing; otherwise it toggles section and button, returns both lookups, and keeps every post's label/class lock-step |
| Toggle.CommentsToggledTwice | js/main.js:421-437 | the involution law: two toggles of one post restore the page when its button carries one of the two labels |
| Toggle.CommentsToggledKeepsSync | js/main.js:421-437 | toggling any post keeps "label is Show Comments exactly when the section is hidden" for every post |
| Refresh.DeleteChildElements | js/main.js:94-112 | a non-element argument returns `undefined` and changes nothing; otherwise the loop ends (the child count strictly decreases), the parent has no children, nothing else changed, and the parent is returned |
| Refresh.Cleared | js/main.js:103-109 | the cleared element has no children and no descendants; every other element is kept |
| Refresh.LastChild | js/main.js:100 | `lastElementChild` is absent exactly when there are no children, and is one of them |
| Refresh.RefreshPosts | js/main.js:441-461 | falsy posts return `undefined` and change nothing; it throws exactly when rendering throws; otherwise it returns the four results (buttons found, cleared `main`, the displayed element, buttons bound) and the page is `RefreshedPage` |
| Refresh.RefreshedMain | js/main.js:455-456 | after a refresh, `main` is the same element and its only children are the new content: the cards in post order, or the placeholder |
| Refresh.RefreshedButtons | js/main.js:449-457 | after a refresh, every button under `main` is new and has exactly one click listener, this refresh's closure for its post id, or none without a post id |
| Refresh.RefreshedKeeps | js/main.js:449-457 | after a refresh, every element that existed before, other than `main`, is unchanged: detached old buttons keep their old listeners |
| Refresh.DisplayedFresh | js/main.js:402-417 | rendering into an emptied `main` creates everything below it anew, without listeners, and changes nothing else |
| Refresh.FeedFresh | js/main.js:346-398 | the feed's cards are created without listeners and are the only content of an emptied `main` |
| Refresh.PlaceholderFresh | js/main.js:408-413 | the placeholder is the only content of an emptied `main` and has no listener |
| Refresh.BoundFreshBelowMain | js/main.js:116-133 | binding buttons that have no listener yet gives each exactly its own closure and changes nothing older |
| Refresh.CardQuiet | js/main.js:357-394 | a card created by createPosts carries no listener |
| Refresh.LaidQuiet | js/main.js:171-191 | pieces created without listeners are laid out without listeners |
| Listeners.MainButtons | js/main.js:118 | the buttons under `main`, each in the page, in strictly increasing order (so no button twice) |
| Listeners.AddButtonListeners | js/main.js:116-133 | returns the buttons under `main` and binds each with a truthy post id, in order (`Bound`); the next call makes new closures |
| Listeners.BoundAt | js/main.js:122-130 | binding touches only the listed buttons with a truthy post id, each gaining its closure unless already registered |
| Listeners.BoundShape | js/main.js:122-130 | binding keeps every element's tag, post id and children, so queries see the same page |
| Listeners.BoundFresh | js/main.js:122-130 | a listed button that had no listener ends with exactly its closure |
| Listeners.RemoveButtonListeners | js/main.js:137-157 | returns the buttons under `main` and leaves the page unchanged, since `toggleComments` is never a registered listener |
| Dom.RemoveAbsentListener | js/main.js:151 | removing a handler that was never registered leaves the listener list as it was |
| Dom.RemoveListener | js/main.js:151 | removeEventListener drops every registration of that handler and keeps the others |
| Dom.AddListener | js/main.js:125-127 | addEventListener registers the handler, unless it is already registered |
| Dom.ToggleClass | js/main.js:68 | `classList.toggle` flips the class and keeps every other class |
| Dom.SingleClass | js/main.js:17-19 | assigning a class name without whitespace gives exactly that one class |
| Dom.IdText | js/main.js:367-369 | a post or user id's text is non-empty and all decimal digits |
| Dom.Without | js/main.js:105 | `removeChild` drops the child and nothing else; the child count drops when it was a child |
| Dom.QueryFrom | js/main.js:118 | `querySelectorAll('main button')` returns exactly the buttons below `main`, each once, in order |
| Dom.FirstMatchFrom | js/main.js:62 | `querySelector` returns a matching element with none before it, or nothing when none matches |
| Dom.SameShapeFirstMatch | js/main.js:62-68 | changing classes, text or listeners does not change what a post-id lookup finds |
| Dom.SameShapeQuery | js/main.js:118 | changing classes, text or listeners does not change what `querySelectorAll` finds |
| Dom.Document.AppendChild | js/main.js:413 | appending a fragment moves its children to the end of the parent and empties it; any other element becomes the last child |
| Dom.Document.RemoveChild | js/main.js:105 | the child leaves the parent's child list; nothing else changes |
| Dom.AppendEach | js/main.js:185-187 | consecutive appendChild calls on one parent add the children in order |
| Builders.CreateComments | js/main.js:162-194 | a falsy argument gives `undefined`; otherwise a fragment whose children are one article per comment, in order (`Fragmented` of `CommentNodes`) |
| Builders.NewCommentArticle | js/main.js:173-187 | one article with exactly three children: an `h3` with the name, a `p` with the body, a `p` with "From: " and the email |
| Builders.CommentsNodesMean | js/main.js:171-191 | where the comments are laid out, the k-th article is the k-th comment's article with its three children |
| Builders.CommentsSize | js/main.js:171-191 | each comment takes four elements |
| Builders.CommentStarts | js/main.js:171-191 | the k-th comment's article lies 4k elements after the first |
| Builders.DisplayComments | js/main.js:315-342 | a falsy post id returns `undefined`, no change; missing comments throw after creating the section; otherwise a section tagged with the id, classes `comments` and `hide`, holding the comments' articles |
| Builders.SectionNodesMean | js/main.js:323-338 | where a section's elements lie, it is a comment section tagged with the post id, starting hidden, one article per comment |
| Builders.CreatePosts | js/main.js:346-398 | no posts: `undefined`; it throws exactly when some post lacks its author, has a falsy id or lacks its comments; otherwise a fragment holding one card per post, in order |
| Builders.BuildCard | js/main.js:357-391 | one card, or a throw exactly when the author, a truthy id or the comments are missing; on a throw the page before is kept |
| Builders.AddCard | js/main.js:357-394 | one loop turn appends the new card's article to the fragment, or throws with the page before kept |
| Builders.CardsOfGrows | js/main.js:357-394 | the cards of one more post are the cards so far and the new post's card |
| Builders.NewPostElements | js/main.js:359-369 | the article, the title, the body, "Post ID: " id, and a "Show Comments" button tagged with the id |
| Builders.NewAuthorElements | js/main.js:372-378 | "Author: " name " with " company, and the catch phrase |
| Builders.AssembleCard | js/main.js:384-390 | the article's children in the order title, body, post id, author, catch phrase, button, section; the last append throws without a section |
| Builders.FinishCard | js/main.js:380-390 | the card is complete exactly when the id is truthy and the comments exist |
| Builders.CardNodesMean | js/main.js:357-391 | where a card's elements lie, the article shows the post's six lines in order and then its comment section, tagged with the same id as the button |
| Builders.CardsNodesMean | js/main.js:357-394 | where the feed is laid out, the k-th article is the k-th post's card |
| Builders.DisplayPosts | js/main.js:402-417 | it throws exactly when rendering posts throws; otherwise it appends the feed or the placeholder to `main` (`Displayed`) and returns it |
| Builders.DisplayedPlaceholder | js/main.js:408-413 | absent or empty posts: `main` gains exactly one child, a `p` reading 'Select an Employee to display their posts.' of class `default-text`, and nothing else changes |
| Builders.DisplayedFeed | js/main.js:408-413 | with posts: `main` keeps its children and gains one article per post; no other element before changes |
| Builders.DisplayedCard | js/main.js:408-413 | with posts: the k-th article `main` gains is the card of the k-th post |
| Layout.FragmentedStep | js/main.js:190 | appending a piece's first element to a fragment of pieces gives the fragment of one more piece |
| Layout.FragmentAttached | js/main.js:413 | appending a fragment to `main` gives `main` the pieces' first elements and changes nothing else before it |
| Refresh.IsHTMLElement | js/main.js:97 | `instanceof HTMLElement`: an element of the page that is not a document fragment |
| Refresh.MainIsHTMLElement | js/main.js:97 | `main` passes the test, so refreshPosts always clears it; a reference outside the page does not pass |
| Select.OptionFor | js/main.js:39-45 | the option for a user: tag `option`, value the id's decimal text, text the name, no children, no listener, no post id |
| Select.TargetValue | js/main.js:474-477 | `selectMenu?.value`: present exactly when there is a target, and then the target's value |
| Select.WithDisabled | js/main.js:481-483 | `if (selectMenu) selectMenu.disabled = b`: only the target's `disabled` changes |
| Select.AbortedChange | js/main.js:499-506 | the page after refreshPosts threw inside the handler: menu disabled, `main` cleared, menu enabled again |
| Select.AbortKeepsMenu | js/main.js:499-506 | when refreshPosts throws, the menu ends as it was but enabled, and `main` ends empty |
| Dom.ClassTokens | js/main.js:18 | assigning `className` gives classes that are non-empty and contain no whitespace |
| Dom.TokensFrom | js/main.js:18 | the whitespace-separated tokens of the rest of a class name, each non-empty and without whitespace |
| Dom.Document.CreateElement | js/main.js:11 | `document.createElement` appends exactly one new element, with no children and no listener, and returns its reference |
| Dom.Document.ToggleClassOf | js/main.js:68 | `classList.toggle` changes only that element's classes, by `ToggleClass` |
| Dom.Document.SetText | js/main.js:87 | assigning `textContent` changes only that element's text |
| Dom.Document.SetDisabled | js/main.js:481-483 | assigning `disabled` changes only that element's flag (also at js/main.js:493-495 and 503-505) |
| Dom.Document.AddEventListener | js/main.js:126 | `addEventListener` changes only that element's listeners, by `AddListener` |
| Dom.Document.RemoveEventListener | js/main.js:151 | `removeEventListener` changes only that element's listeners, by `RemoveListener` |
| Layout.LaidAt | js/main.js:171-191 | the k-th piece starts after the first k and lies intact in the layout |

## Left out

- The fetchers getUsers, getUserPosts, getUser and getPostComments (js/main.js:218-312) do network I/O. Their answers are parameters: `users`, `posts` and the per-post `Replies`. A failed fetch is `None`, as the source logs the error and yields `undefined`.
- Nothing is asynchronous in the model. The `await`s run in order, with no interleaving. The `DOMContentLoaded` bootstrap, initPage and initApp (js/main.js:512-547) are only wiring.
- `console.error` and the test-only flag `event.target.listener = true` (js/main.js:429) are not modelled.
- Toggle.ToggleComments: an event without a target is treated like any other. In the source, setting the flag on a missing target throws (js/main.js:429).
- Select.SelectMenuChange: the menu's value is an input, read from the target element's `value` field. The browser sets it to the chosen option's value, and `ChosenUser` reads that option directly. The model does not link the two.
- Selector strings are not built. `querySelector` is a lookup by tag and post id over the tree, scanned in creation order, not document order. The two orders differ in two places. Inside a card, the button is created before the author and catch-phrase paragraphs (js/main.js:363, 373, 377) but appended after them (js/main.js:387-389); a card holds one button and one section. The select menu's options are created after `main` but sit under the select menu, which comes before `main` in the document (js/main.js:203-211); options are neither buttons nor sections. So no lookup result changes.
- `appendChild` of an element that is already attached (a move) is not modelled. The script never does it.
- Text nodes are not modelled. Element children only, which is what `lastElementChild` walks.
- Post and user ids are natural numbers, and `Dom.IdText` prints them as decimal digits. JSON ids that are negative, fractional, `null`, or 1e21 and above (which JavaScript prints in exponent form) are not modelled.
- Dom.Document.Valid: it does not state that every registered closure comes from an earlier call of addButtonListeners. A new closure is never already registered only in the pages the script's operations reach, which is why `AddListener` keeps its duplicate check.
- Builders.ElemWithText: an empty class name stands for the omitted argument. Both are falsy.
- Select.SelectMenuChange: the posts are a parameter, independent of the chosen user id. How getUserPosts uses the id is network I/O.
- Dom.AppendEach: it is a loop standing for the consecutive `appendChild` statements of the source (js/main.js:185-187, 384-390).
- An exception from createPosts leaves the elements created so far in the page, unattached. The contracts on the throwing path state only that the page before the call is kept as a prefix.
- The lemmas about cards and comment sections read the elements where the builders laid them out. They do not state anything about elements outside the feed.
- Builders.CreatePosts: the source dereferences a missing author and throws. The model stops there, as the source does, and does not add any graceful handling.
