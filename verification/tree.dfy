/** The page tree shown in the sidebar: a recursive view derived on every
    render from the flat page list by following parent ids downwards. */
module Tree {
  import opened Seqs
  import opened Store

  /** A page together with the nodes of its direct children. */
  datatype TreeNode = TreeNode(page: Page, children: seq<TreeNode>)

  /** The pages directly under `parent`, in store order. */
  function Children(ps: seq<Page>, parent: Option<Id>): (cs: seq<Page>)
    ensures forall i :: 0 <= i < |cs| ==> cs[i].parentId == parent
    ensures forall p :: multiset(cs)[p] == if p.parentId == parent then multiset(ps)[p] else 0
    ensures SubseqOf(cs, ps)
  {
    FilterCounts(ps, (p: Page) => p.parentId == parent);
    FilterIsSubseq(ps, (p: Page) => p.parentId == parent);
    Filter(ps, (p: Page) => p.parentId == parent)
  }

  /** A page is listed under `parent` exactly when it is in the store with
      that parent id. */
  lemma ChildMembership(ps: seq<Page>, parent: Option<Id>, p: Page)
    ensures p in Children(ps, parent) <==> p in ps && p.parentId == parent
  {
    assert p in Children(ps, parent) <==> multiset(Children(ps, parent))[p] > 0;
    assert p in ps <==> multiset(ps)[p] > 0;
  }

  /** One ranking that witnesses acyclicity, fixed once per store. */
  ghost function RankOf(ps: seq<Page>): Id -> nat
    requires Acyclic(ps)
  {
    var rank :| Ranked(ps, rank); rank
  }

  /** How far below its ancestors a parent id sits; the top level (`None`)
      is handled by the first component of the termination measure. */
  ghost function Height(ps: seq<Page>, parent: Option<Id>): nat
    requires Acyclic(ps)
  {
    match parent
    case None => 0
    case Some(q) => RankOf(ps)(q)
  }

  /** A child sits strictly lower than its parent. */
  lemma ChildIsLower(ps: seq<Page>, parent: Option<Id>, c: Page)
    requires Acyclic(ps) && c in Children(ps, parent) && parent.Some?
    ensures Height(ps, Some(c.id)) < Height(ps, parent)
  {
    ChildMembership(ps, parent, c);
    var j :| 0 <= j < |ps| && ps[j] == c;
  }

  /** `buildTree(parentId)`: a node for every page directly under `parent`,
      in store order, each holding the tree built under its own id. The
      source recurses without a guard; here the recursion is shown to end
      on an acyclic store. */
  function BuildTree(ps: seq<Page>, parent: Option<Id>): (r: seq<TreeNode>)
    requires Acyclic(ps)
    ensures |r| == |Children(ps, parent)|
    ensures forall i :: 0 <= i < |r| ==> r[i].page == Children(ps, parent)[i]
    decreases parent.None?, Height(ps, parent)
  {
    var cs := Children(ps, parent);
    seq(|cs|, i requires 0 <= i < |cs| =>
      assert cs[i] in cs;
      if parent.None? then
        TreeNode(cs[i], BuildTree(ps, Some(cs[i].id)))
      else
        ChildIsLower(ps, parent, cs[i]);
        TreeNode(cs[i], BuildTree(ps, Some(cs[i].id))))
  }

  /** Every node holds the tree built under its own page's id. */
  lemma NodeChildren(ps: seq<Page>, parent: Option<Id>, i: nat)
    requires Acyclic(ps) && i < |Children(ps, parent)|
    ensures var n := BuildTree(ps, parent)[i];
      n.page in ps && n.page.parentId == parent && n.children == BuildTree(ps, Some(n.page.id))
  {
    var cs := Children(ps, parent);
    ChildMembership(ps, parent, cs[i]);
  }

  /** `p` is the page of some node anywhere in `forest`. */
  predicate Appears(forest: seq<TreeNode>, p: Page)
    decreases forest
  {
    exists i :: 0 <= i < |forest| && (forest[i].page == p || Appears(forest[i].children, p))
  }

  /** Soundness: a page shown under `parent` is in the store, and it is
      either directly under `parent` or a child of another page shown there. */
  lemma {:induction false} AppearsSound(ps: seq<Page>, parent: Option<Id>, p: Page)
    requires Acyclic(ps)
    ensures Appears(BuildTree(ps, parent), p) ==> p in ps
    ensures Appears(BuildTree(ps, parent), p) ==>
      (p.parentId == parent ||
       exists x :: x in ps && Appears(BuildTree(ps, parent), x) && p.parentId == Some(x.id))
    decreases parent.None?, Height(ps, parent)
  {
    var r := BuildTree(ps, parent);
    if Appears(r, p) {
      var i :| 0 <= i < |r| && (r[i].page == p || Appears(r[i].children, p));
      var c := r[i].page;
      NodeChildren(ps, parent, i);
      if r[i].page != p {
        if parent.Some? {
          ChildMembership(ps, parent, c);
          ChildIsLower(ps, parent, c);
        }
        AppearsSound(ps, Some(c.id), p);
        if p.parentId == Some(c.id) {
          assert Appears(r, c);
        } else {
          var x :| x in ps && Appears(BuildTree(ps, Some(c.id)), x) && p.parentId == Some(x.id);
          assert Appears(r, x);
        }
      }
    }
  }

  /** Completeness, top level: every page directly under `parent` is shown. */
  lemma TopLevelAppears(ps: seq<Page>, parent: Option<Id>, c: Page)
    requires Acyclic(ps) && c in ps && c.parentId == parent
    ensures Appears(BuildTree(ps, parent), c)
  {
    ChildMembership(ps, parent, c);
    var k :| 0 <= k < |Children(ps, parent)| && Children(ps, parent)[k] == c;
    assert BuildTree(ps, parent)[k].page == c;
  }

  /** Completeness, below: every child of a shown page is shown. */
  lemma {:induction false} ChildOfShownAppears(ps: seq<Page>, parent: Option<Id>, x: Page, c: Page)
    requires Acyclic(ps) && c in ps && c.parentId == Some(x.id)
    ensures Appears(BuildTree(ps, parent), x) ==> Appears(BuildTree(ps, parent), c)
    decreases parent.None?, Height(ps, parent)
  {
    var r := BuildTree(ps, parent);
    if Appears(r, x) {
      var i :| 0 <= i < |r| && (r[i].page == x || Appears(r[i].children, x));
      NodeChildren(ps, parent, i);
      var n := r[i].page;
      if n == x {
        TopLevelAppears(ps, Some(x.id), c);
      } else {
        if parent.Some? {
          ChildMembership(ps, parent, n);
          ChildIsLower(ps, parent, n);
        }
        ChildOfShownAppears(ps, Some(n.id), x, c);
      }
      assert Appears(r[i].children, c);
    }
  }

  /** A page whose parent id names no page (an orphan) is never shown in
      the tree rooted at the top level. */
  lemma OrphanNotShown(ps: seq<Page>, p: Page)
    requires Acyclic(ps) && p.parentId.Some? && !HasId(ps, p.parentId.value)
    ensures !Appears(BuildTree(ps, None), p)
  {
    if Appears(BuildTree(ps, None), p) {
      AppearsSound(ps, None, p);
    }
  }

  /** After deleting a page, its grandchildren stay in the store but drop
      out of the tree. */
  lemma DeletedGrandchildHidden(ps: seq<Page>, id: Id, child: Page, grandchild: Page)
    requires UniqueIds(ps) && Acyclic(ps)
    requires child in ps && child.parentId == Some(id)
    requires grandchild in ps && grandchild.parentId == Some(child.id)
    requires grandchild.id != id && child.id != id
    ensures Acyclic(DeletePage(ps, id))
    ensures grandchild in DeletePage(ps, id)
    ensures !Appears(BuildTree(DeletePage(ps, id), None), grandchild)
  {
    DeleteKeepsInvariants(ps, id);
    DeleteOrphansGrandchildren(ps, id, child, grandchild);
    OrphanNotShown(DeletePage(ps, id), grandchild);
  }

  /** A new page is listed last among the children of its parent, and the
      children of every other parent are unchanged. */
  lemma AddedPageListedLast(ps: seq<Page>, newId: Id, title: string, parent: Option<Id>, q: Option<Id>)
    ensures Children(AddPage(ps, newId, title, parent), q) ==
      Children(ps, q) + (if q == parent then [Page(newId, title, "", parent)] else [])
  {
    FilterAppend(ps, Page(newId, title, "", parent), (p: Page) => p.parentId == q);
  }
}
