/** The sidebar's view state and the actions its buttons and the title field
    hand to the store, with the invariant every reachable store keeps:
    unique ids, no parent cycle (so the tree can always be built) and a
    top-level root page. */
module Wiki {
  import opened Store
  import opened Tree
  import opened Seqs

  /** The title every page added from the sidebar starts with. */
  const NewPageTitle: string := "New Page"

  /** Only the root is expanded when the sidebar first renders. */
  const InitialExpanded: set<Id> := {RootId}

  /** The page selected when the application starts. */
  const InitialSelection: Id := RootId

  /** `toggleNode(nodeId)`: flips membership of one id. */
  function Toggle(expanded: set<Id>, n: Id): (r: set<Id>)
    ensures n in r <==> n !in expanded
    ensures forall m :: m != n ==> (m in r <==> m in expanded)
  {
    if n in expanded then expanded - {n} else expanded + {n}
  }

  lemma ToggleTwice(expanded: set<Id>, n: Id)
    ensures Toggle(Toggle(expanded, n), n) == expanded
  {
  }

  /** A click on a node's chevron: toggles the node only if it has children. */
  function ChevronClick(expanded: set<Id>, node: TreeNode): (r: set<Id>)
    ensures r != expanded ==> |node.children| > 0
    ensures |node.children| > 0 ==> (node.page.id in r <==> node.page.id !in expanded)
    ensures forall m :: m != node.page.id ==> (m in r <==> m in expanded)
  {
    if |node.children| > 0 then Toggle(expanded, node.page.id) else expanded
  }

  /** The label shown for a page: its title, or "Untitled" when empty. */
  function DisplayTitle(title: string): (r: string)
    ensures r != ""
    ensures title != "" ==> r == title
    ensures title == "" ==> r == "Untitled"
  {
    if title == "" then "Untitled" else title
  }

  /** Position `i` holds the first page with the id. */
  predicate FirstWithId(ps: seq<Page>, id: Id, i: int)
  {
    0 <= i < |ps| && ps[i].id == id && forall j :: 0 <= j < i ==> ps[j].id != id
  }

  /** `pages.find(p => p.id === selectedPageId)`: the first page with the id. */
  function FindPage(ps: seq<Page>, id: Id): (r: Option<Page>)
    ensures r.None? <==> !HasId(ps, id)
    ensures r.Some? ==> exists i :: FirstWithId(ps, id, i) && ps[i] == r.value
  {
    if ps == [] then None
    else if ps[0].id == id then Some(ps[0])
    else
      var r := FindPage(ps[1..], id);
      FindPageStep(ps, id, r);
      r
  }

  /** The search result in the tail is the search result in the whole list
      when the head does not match. */
  lemma FindPageStep(ps: seq<Page>, id: Id, r: Option<Page>)
    requires ps != [] && ps[0].id != id
    requires r.None? <==> !HasId(ps[1..], id)
    requires r.Some? ==> exists i :: FirstWithId(ps[1..], id, i) && ps[1..][i] == r.value
    ensures r.None? <==> !HasId(ps, id)
    ensures r.Some? ==> exists i :: FirstWithId(ps, id, i) && ps[i] == r.value
  {
    if r.Some? {
      var i :| FirstWithId(ps[1..], id, i) && ps[1..][i] == r.value;
      assert ps[i + 1] == r.value;
      forall j | 0 <= j < i + 1 ensures ps[j].id != id {
        if j > 0 { assert ps[j] == ps[1..][j - 1]; }
      }
      assert FirstWithId(ps, id, i + 1);
    } else {
      forall k | 0 <= k < |ps| ensures ps[k].id != id {
        if k > 0 { assert ps[k] == ps[1..][k - 1]; }
      }
    }
  }

  /** Deleting the selected page leaves the selection dangling: nothing is
      found for it any more. */
  lemma DeletedSelectionDangles(ps: seq<Page>, selected: Id)
    ensures FindPage(DeletePage(ps, selected), selected).None?
  {
  }

  /** A store change a user can trigger from the sidebar or the editor. */
  datatype Action =
    | AddTopLevel(freshId: Id)
    | AddSubpage(parent: Id, freshId: Id)
    | Delete(target: Id)
    | EditTitle(target: Id, title: string)
    | EditContent(target: Id, content: string)

  /** The "Add subpage" button of a node: whatever the store, it appends a
      "New Page" with empty content under the node's own id. */
  function AddSubpageButton(node: TreeNode, freshId: Id): (a: Action)
    ensures forall ps: seq<Page> {:trigger Apply(ps, a)} ::
      Apply(ps, a) == ps + [Page(freshId, NewPageTitle, "", Some(node.page.id))]
  {
    AddSubpage(node.page.id, freshId)
  }

  /** The "Delete page" button of a node: not rendered for the root. */
  function DeleteButton(node: TreeNode): (a: Option<Action>)
    ensures a.Some? <==> node.page.id != RootId
    ensures a.Some? ==> a.value == Delete(node.page.id)
  {
    if node.page.id != RootId then Some(Delete(node.page.id)) else None
  }

  /** "Add subpage" appends a "New Page" listed last under the node. */
  lemma AddSubpageListedLast(ps: seq<Page>, node: TreeNode, freshId: Id)
    ensures var r := Apply(ps, AddSubpageButton(node, freshId));
      |r| == |ps| + 1 && r[|ps|].title == NewPageTitle && r[|ps|].content == "" &&
      Children(r, Some(node.page.id)) == Children(ps, Some(node.page.id)) + [r[|ps|]]
  {
    AddedPageListedLast(ps, freshId, NewPageTitle, Some(node.page.id), Some(node.page.id));
  }

  /** The top-level button appends a "New Page" listed last at the top level. */
  lemma AddTopLevelListedLast(ps: seq<Page>, freshId: Id)
    ensures var r := Apply(ps, AddTopLevel(freshId));
      |r| == |ps| + 1 && r[|ps|].title == NewPageTitle && r[|ps|].content == "" &&
      Children(r, None) == Children(ps, None) + [r[|ps|]]
  {
    AddedPageListedLast(ps, freshId, NewPageTitle, None, None);
  }

  /** The sidebar starts with the root page alone, shown as a leaf,
      expanded and selected. */
  lemma InitialView()
    ensures Acyclic(InitialPages)
    ensures BuildTree(InitialPages, None) == [TreeNode(InitialPages[0], [])]
    ensures InitialExpanded == {InitialPages[0].id} && InitialSelection == InitialPages[0].id
  {
    InitialStore();
    var top := BuildTree(InitialPages, None);
    assert Children(InitialPages, None) == InitialPages by {
      FilterKeepsAll(InitialPages, (p: Page) => p.parentId == None);
    }
    NodeChildren(InitialPages, None, 0);
    assert Children(InitialPages, Some(RootId)) == [] by {
      ChildMembership(InitialPages, Some(RootId), InitialPages[0]);
    }
  }

  /** The store operation each action performs: the buttons append one
      page, and the title field and the editor rewrite one text field of
      the page with the target id and nothing else. */
  function Apply(ps: seq<Page>, a: Action): (r: seq<Page>)
    ensures (a.AddTopLevel? || a.AddSubpage?) ==> |r| == |ps| + 1 && r[..|ps|] == ps
    ensures a.EditTitle? ==> |r| == |ps| && forall i :: 0 <= i < |ps| ==>
      r[i] == if ps[i].id == a.target then ps[i].(title := a.title) else ps[i]
    ensures a.EditContent? ==> |r| == |ps| && forall i :: 0 <= i < |ps| ==>
      r[i] == if ps[i].id == a.target then ps[i].(content := a.content) else ps[i]
  {
    match a
    case AddTopLevel(f) => AddPage(ps, f, NewPageTitle, None)
    case AddSubpage(p, f) => AddPage(ps, f, NewPageTitle, Some(p))
    case Delete(t) => DeletePage(ps, t)
    case EditTitle(t, s) => UpdatePage(ps, t, PageUpdate(None, Some(s), None, None))
    case EditContent(t, s) => UpdatePage(ps, t, PageUpdate(None, None, Some(s), None))
  }

  /** After an editor change the editor, which looks its page up by id,
      shows the new content. This holds whether or not the unchanged-content
      guard skips the store call, since the page found then already has it. */
  lemma EditorShowsNewContent(ps: seq<Page>, pageId: Id, content: string)
    ensures var f := FindPage(Apply(ps, EditContent(pageId, content)), pageId);
      (f.Some? <==> HasId(ps, pageId)) && (f.Some? ==> f.value.content == content)
  {
    var r := Apply(ps, EditContent(pageId, content));
    var f := FindPage(r, pageId);
    if HasId(ps, pageId) {
      var k :| 0 <= k < |ps| && ps[k].id == pageId;
      assert r[k].id == pageId;
    }
    if f.Some? {
      var i :| FirstWithId(r, pageId, i) && r[i] == f.value;
      assert ps[i].id == pageId;
    }
  }

  /** What the UI guarantees of an action: new ids come from `uuidv4` and are
      fresh, and no delete is issued for the root. */
  ghost predicate Allowed(ps: seq<Page>, a: Action)
  {
    match a
    case AddTopLevel(f) => Fresh(ps, f)
    case AddSubpage(p, f) => Fresh(ps, f) && p != f
    case Delete(t) => t != RootId
    case EditTitle(_, _) => true
    case EditContent(_, _) => true
  }

  /** The store invariant the sidebar relies on. */
  ghost predicate Healthy(ps: seq<Page>)
  {
    UniqueIds(ps) && Acyclic(ps) && RootPresent(ps)
  }

  /** Every action the UI can issue keeps the store healthy. */
  lemma ActionKeepsHealthy(ps: seq<Page>, a: Action)
    requires Healthy(ps) && Allowed(ps, a)
    ensures Healthy(Apply(ps, a))
  {
    match a
    case AddTopLevel(f) =>
      AddPageKeepsIdsUnique(ps, f, NewPageTitle, None);
      AddPageKeepsAcyclic(ps, f, NewPageTitle, None);
      AddPageKeepsRoot(ps, f, NewPageTitle, None);
    case AddSubpage(p, f) =>
      AddPageKeepsIdsUnique(ps, f, NewPageTitle, Some(p));
      AddPageKeepsAcyclic(ps, f, NewPageTitle, Some(p));
      AddPageKeepsRoot(ps, f, NewPageTitle, Some(p));
    case Delete(t) =>
      DeleteKeepsInvariants(ps, t);
    case EditTitle(t, s) =>
      UpdateKeepsInvariants(ps, t, PageUpdate(None, Some(s), None, None));
    case EditContent(t, s) =>
      UpdateKeepsInvariants(ps, t, PageUpdate(None, None, Some(s), None));
  }

  /** The store after a session of actions. */
  function Run(ps: seq<Page>, actions: seq<Action>): seq<Page>
    decreases |actions|
  {
    if actions == [] then ps else Run(Apply(ps, actions[0]), actions[1..])
  }

  /** Each action of the session is allowed in the store it meets. */
  ghost predicate SessionAllowed(ps: seq<Page>, actions: seq<Action>)
    decreases |actions|
  {
    actions == [] ||
    (Allowed(ps, actions[0]) && SessionAllowed(Apply(ps, actions[0]), actions[1..]))
  }

  /** Every store reachable from the initial one through the UI is healthy. */
  lemma {:induction false} SessionKeepsHealthy(ps: seq<Page>, actions: seq<Action>)
    requires Healthy(ps) && SessionAllowed(ps, actions)
    ensures Healthy(Run(ps, actions))
    decreases |actions|
  {
    if actions != [] {
      ActionKeepsHealthy(ps, actions[0]);
      SessionKeepsHealthy(Apply(ps, actions[0]), actions[1..]);
    }
  }

  /** ...so the tree can always be built, and it always shows the root. */
  lemma ReachableTreeShowsRoot(actions: seq<Action>)
    requires SessionAllowed(InitialPages, actions)
    ensures Acyclic(Run(InitialPages, actions))
    ensures exists p: Page :: p.id == RootId && Appears(BuildTree(Run(InitialPages, actions), None), p)
  {
    InitialStore();
    var ps := Run(InitialPages, actions);
    SessionKeepsHealthy(InitialPages, actions);
    var i :| 0 <= i < |ps| && ps[i].id == RootId && ps[i].parentId.None?;
    TopLevelAppears(ps, None, ps[i]);
  }
}
