/** The wiki's page store: a flat, ordered list of pages linked by parent
    ids, and the four pure list transforms the store applies to it.
    Id generation (`uuidv4`) is a parameter: the caller supplies the new id,
    and the properties that need it to be fresh say so. */
module Store {
  import opened Seqs

  datatype Option<T> = None | Some(value: T)

  type Id = string

  /** One page. `parentId == None` is a top-level page (`null` in the source). */
  datatype Page = Page(id: Id, title: string, content: string, parentId: Option<Id>)

  /** A `Partial<Page>`: each field is either supplied or absent. */
  datatype PageUpdate = PageUpdate(
    id: Option<Id>,
    title: Option<string>,
    content: Option<string>,
    parentId: Option<Option<Id>>)

  const RootId: Id := "root"

  /** The store's contents when the application starts. */
  const InitialPages: seq<Page> :=
    [Page(RootId, "Welcome to Your Wiki", "Start editing this page or create a new one!", None)]

  function GetOr<T>(o: Option<T>, default: T): T
  {
    match o
    case Some(v) => v
    case None => default
  }

  /** `{ ...page, ...updates }`: supplied fields win, the others are kept. */
  function Merge(p: Page, u: PageUpdate): Page
  {
    Page(GetOr(u.id, p.id), GetOr(u.title, p.title), GetOr(u.content, p.content),
         GetOr(u.parentId, p.parentId))
  }

  /** An update that only touches title and/or content, as every caller in
      the application passes. */
  predicate EditsTextOnly(u: PageUpdate)
  {
    u.id.None? && u.parentId.None?
  }

  predicate HasId(ps: seq<Page>, id: Id)
  {
    exists i :: 0 <= i < |ps| && ps[i].id == id
  }

  /** No two pages share an id. */
  ghost predicate UniqueIds(ps: seq<Page>)
  {
    forall i, j :: 0 <= i < j < |ps| ==> ps[i].id != ps[j].id
  }

  /** What `uuidv4()` is assumed to deliver: an id no page has and no page
      points to. */
  ghost predicate Fresh(ps: seq<Page>, id: Id)
  {
    forall i :: 0 <= i < |ps| ==> ps[i].id != id && ps[i].parentId != Some(id)
  }

  /** `rank` strictly decreases from every parent id to the ids of its
      children, so following children can never come back to a page. */
  ghost predicate Ranked(ps: seq<Page>, rank: Id -> nat)
  {
    forall i :: 0 <= i < |ps| && ps[i].parentId.Some? ==>
      rank(ps[i].id) < rank(ps[i].parentId.value)
  }

  /** The parent graph has no cycle. */
  ghost predicate Acyclic(ps: seq<Page>)
  {
    exists rank: Id -> nat :: Ranked(ps, rank)
  }

  /** The root page is present and is top-level. */
  ghost predicate RootPresent(ps: seq<Page>)
  {
    exists i :: 0 <= i < |ps| && ps[i].id == RootId && ps[i].parentId.None?
  }

  /** `addPage(title, parentId)`: appends a page with empty content. */
  function AddPage(ps: seq<Page>, newId: Id, title: string, parentId: Option<Id>): (r: seq<Page>)
    ensures |r| == |ps| + 1
    ensures r[..|ps|] == ps
    ensures r[|ps|].id == newId && r[|ps|].title == title
    ensures r[|ps|].content == "" && r[|ps|].parentId == parentId
  {
    ps + [Page(newId, title, "", parentId)]
  }

  /** `updatePage(id, updates)`: every page carrying `id` is merged with
      the update; all other pages are left alone. */
  function UpdatePage(ps: seq<Page>, id: Id, u: PageUpdate): (r: seq<Page>)
    ensures |r| == |ps|
    ensures forall i :: 0 <= i < |ps| && ps[i].id != id ==> r[i] == ps[i]
    ensures forall i :: 0 <= i < |ps| && ps[i].id == id ==>
      && r[i].id == GetOr(u.id, id)
      && r[i].title == GetOr(u.title, ps[i].title)
      && r[i].content == GetOr(u.content, ps[i].content)
      && r[i].parentId == GetOr(u.parentId, ps[i].parentId)
  {
    Map(ps, (p: Page) => if p.id == id then Merge(p, u) else p)
  }

  /** The pages `deletePage(id)` keeps: neither the target nor one of its
      direct children. */
  predicate Survives(p: Page, id: Id)
  {
    p.id != id && p.parentId != Some(id)
  }

  /** `deletePage(id)`: removes the target and its direct children only. */
  function DeletePage(ps: seq<Page>, id: Id): (r: seq<Page>)
    ensures forall i :: 0 <= i < |r| ==> Survives(r[i], id)
    ensures forall p :: multiset(r)[p] == if Survives(p, id) then multiset(ps)[p] else 0
    ensures SubseqOf(r, ps)
  {
    FilterCounts(ps, (p: Page) => Survives(p, id));
    FilterIsSubseq(ps, (p: Page) => Survives(p, id));
    Filter(ps, (p: Page) => Survives(p, id))
  }

  /** `movePage(id, newParentId)`: re-parents every page carrying `id`,
      with no check that this keeps the graph acyclic. */
  function MovePage(ps: seq<Page>, id: Id, newParentId: Option<Id>): (r: seq<Page>)
    ensures |r| == |ps|
    ensures forall i :: 0 <= i < |ps| ==>
      r[i].id == ps[i].id && r[i].title == ps[i].title && r[i].content == ps[i].content
    ensures forall i :: 0 <= i < |ps| ==>
      r[i].parentId == if ps[i].id == id then newParentId else ps[i].parentId
  {
    Map(ps, (p: Page) => if p.id == id then p.(parentId := newParentId) else p)
  }

  // ---------------------------------------------------------------------
  // Properties

  /** The initial store holds the root page alone, and it is well formed. */
  lemma InitialStore()
    ensures |InitialPages| == 1 && InitialPages[0].id == RootId
    ensures InitialPages[0].parentId.None? && InitialPages[0].content != ""
    ensures UniqueIds(InitialPages) && RootPresent(InitialPages) && Acyclic(InitialPages)
  {
    var rank: Id -> nat := _ => 0;
    assert Ranked(InitialPages, rank);
  }

  /** A fresh id keeps ids unique. */
  lemma AddPageKeepsIdsUnique(ps: seq<Page>, newId: Id, title: string, parentId: Option<Id>)
    requires UniqueIds(ps) && !HasId(ps, newId)
    ensures UniqueIds(AddPage(ps, newId, title, parentId))
  {
    var r := AddPage(ps, newId, title, parentId);
    forall i, j | 0 <= i < j < |r|
      ensures r[i].id != r[j].id
    {
      if j == |ps| {
        assert r[i] == ps[i];
      }
    }
  }

  /** A fresh id that is not its own parent keeps the graph acyclic. */
  lemma AddPageKeepsAcyclic(ps: seq<Page>, newId: Id, title: string, parentId: Option<Id>)
    requires Acyclic(ps) && Fresh(ps, newId) && parentId != Some(newId)
    ensures Acyclic(AddPage(ps, newId, title, parentId))
  {
    var rank :| Ranked(ps, rank);
    var rank': Id -> nat := s => if s == newId then 0 else rank(s) + 1;
    var r := AddPage(ps, newId, title, parentId);
    forall i | 0 <= i < |r| && r[i].parentId.Some?
      ensures rank'(r[i].id) < rank'(r[i].parentId.value)
    {
      if i < |ps| {
        assert r[i] == ps[i];
      }
    }
    assert Ranked(r, rank');
  }

  /** The root page survives any append. */
  lemma AddPageKeepsRoot(ps: seq<Page>, newId: Id, title: string, parentId: Option<Id>)
    requires RootPresent(ps)
    ensures RootPresent(AddPage(ps, newId, title, parentId))
  {
    var i :| 0 <= i < |ps| && ps[i].id == RootId && ps[i].parentId.None?;
    assert AddPage(ps, newId, title, parentId)[i] == ps[i];
  }

  /** Updating an id that no page has changes nothing. */
  lemma UpdateMissingIsNoOp(ps: seq<Page>, id: Id, u: PageUpdate)
    requires !HasId(ps, id)
    ensures UpdatePage(ps, id, u) == ps
  {
  }

  /** A title/content edit replaces exactly the supplied text fields. */
  lemma UpdateTitleOnly(ps: seq<Page>, id: Id, t: string)
    ensures var r := UpdatePage(ps, id, PageUpdate(None, Some(t), None, None));
      forall i :: 0 <= i < |ps| ==>
        r[i] == if ps[i].id == id then ps[i].(title := t) else ps[i]
  {
  }

  /** A text-only edit keeps every id and every parent link. */
  lemma UpdateKeepsStructure(ps: seq<Page>, id: Id, u: PageUpdate)
    requires EditsTextOnly(u)
    ensures var r := UpdatePage(ps, id, u);
      forall i :: 0 <= i < |ps| ==> r[i].id == ps[i].id && r[i].parentId == ps[i].parentId
  {
  }

  /** ...and therefore every store invariant. */
  lemma UpdateKeepsInvariants(ps: seq<Page>, id: Id, u: PageUpdate)
    requires EditsTextOnly(u)
    ensures UniqueIds(ps) ==> UniqueIds(UpdatePage(ps, id, u))
    ensures Acyclic(ps) ==> Acyclic(UpdatePage(ps, id, u))
    ensures RootPresent(ps) ==> RootPresent(UpdatePage(ps, id, u))
  {
    var r := UpdatePage(ps, id, u);
    UpdateKeepsStructure(ps, id, u);
    if Acyclic(ps) {
      var rank :| Ranked(ps, rank);
      assert Ranked(r, rank);
    }
    if RootPresent(ps) {
      var i :| 0 <= i < |ps| && ps[i].id == RootId && ps[i].parentId.None?;
      assert r[i].id == RootId && r[i].parentId.None?;
    }
  }

  /** A page survives deletion exactly when it is neither the target nor
      one of its direct children. */
  lemma DeleteMembership(ps: seq<Page>, id: Id, p: Page)
    ensures p in DeletePage(ps, id) <==> p in ps && Survives(p, id)
  {
    assert p in DeletePage(ps, id) <==> multiset(DeletePage(ps, id))[p] > 0;
    assert p in ps <==> multiset(ps)[p] > 0;
  }

  /** Deleting an id that nothing has and nothing points to changes nothing. */
  lemma DeleteMissingIsNoOp(ps: seq<Page>, id: Id)
    requires Fresh(ps, id)
    ensures DeletePage(ps, id) == ps
  {
    FilterKeepsAll(ps, (p: Page) => Survives(p, id));
  }

  /** Deleting twice is deleting once. */
  lemma DeleteIdempotent(ps: seq<Page>, id: Id)
    ensures DeletePage(DeletePage(ps, id), id) == DeletePage(ps, id)
  {
    DeleteMissingIsNoOp(DeletePage(ps, id), id);
  }

  /** Deletion is one level deep: a grandchild of the target is kept, and
      its parent id then names no page, so it is an orphan. */
  lemma DeleteOrphansGrandchildren(ps: seq<Page>, id: Id, child: Page, grandchild: Page)
    requires UniqueIds(ps)
    requires child in ps && child.parentId == Some(id)
    requires grandchild in ps && grandchild.parentId == Some(child.id)
    requires grandchild.id != id && child.id != id
    ensures grandchild in DeletePage(ps, id)
    ensures !HasId(DeletePage(ps, id), child.id)
  {
    var r := DeletePage(ps, id);
    DeleteMembership(ps, id, grandchild);
    forall k | 0 <= k < |r| ensures r[k].id != child.id {
      DeleteMembership(ps, id, r[k]);
    }
  }

  /** Every page of a subsequence comes from the original. */
  lemma SubseqMembers<T>(a: seq<T>, b: seq<T>, i: nat)
    requires SubseqOf(a, b) && i < |a|
    ensures a[i] in b
    decreases |b|
  {
    if a[0] == b[0] && SubseqOf(a[1..], b[1..]) {
      if i > 0 {
        SubseqMembers(a[1..], b[1..], i - 1);
      }
    } else {
      SubseqMembers(a, b[1..], i);
    }
  }

  /** Removing pages never breaks id uniqueness. */
  lemma {:induction false} SubseqKeepsIdsUnique(a: seq<Page>, b: seq<Page>)
    requires SubseqOf(a, b) && UniqueIds(b)
    ensures UniqueIds(a)
    decreases |b|
  {
    if |a| > 0 {
      assert UniqueIds(b[1..]) by {
        forall i, j | 0 <= i < j < |b[1..]| ensures b[1..][i].id != b[1..][j].id {
          assert b[1..][i] == b[i + 1] && b[1..][j] == b[j + 1];
        }
      }
      if a[0] == b[0] && SubseqOf(a[1..], b[1..]) {
        SubseqKeepsIdsUnique(a[1..], b[1..]);
        forall j | 0 < j < |a| ensures a[0].id != a[j].id {
          SubseqMembers(a[1..], b[1..], j - 1);
          assert a[1..][j - 1] == a[j];
          var k :| 0 <= k < |b[1..]| && b[1..][k] == a[j];
          assert b[k + 1] == a[j];
        }
        forall i, j | 0 <= i < j < |a| ensures a[i].id != a[j].id {
          if i > 0 {
            assert a[1..][i - 1] == a[i] && a[1..][j - 1] == a[j];
          }
        }
      } else {
        SubseqKeepsIdsUnique(a, b[1..]);
      }
    }
  }

  /** Removing pages never creates a cycle. */
  lemma FewerPagesKeepAcyclic(a: seq<Page>, b: seq<Page>)
    requires forall i :: 0 <= i < |a| ==> a[i] in b
    requires Acyclic(b)
    ensures Acyclic(a)
  {
    var rank :| Ranked(b, rank);
    forall i | 0 <= i < |a| && a[i].parentId.Some?
      ensures rank(a[i].id) < rank(a[i].parentId.value)
    {
      var j :| 0 <= j < |b| && b[j] == a[i];
    }
    assert Ranked(a, rank);
  }

  /** Deletion keeps ids unique and the graph acyclic, and keeps the root
      unless the root itself is the target. */
  lemma DeleteKeepsInvariants(ps: seq<Page>, id: Id)
    ensures UniqueIds(ps) ==> UniqueIds(DeletePage(ps, id))
    ensures Acyclic(ps) ==> Acyclic(DeletePage(ps, id))
    ensures RootPresent(ps) && id != RootId ==> RootPresent(DeletePage(ps, id))
  {
    var r := DeletePage(ps, id);
    if UniqueIds(ps) {
      SubseqKeepsIdsUnique(r, ps);
    }
    forall i | 0 <= i < |r| ensures r[i] in ps {
      SubseqMembers(r, ps, i);
    }
    if Acyclic(ps) {
      FewerPagesKeepAcyclic(r, ps);
    }
    if RootPresent(ps) && id != RootId {
      var i :| 0 <= i < |ps| && ps[i].id == RootId && ps[i].parentId.None?;
      DeleteMembership(ps, id, ps[i]);
      var k :| 0 <= k < |r| && r[k] == ps[i];
    }
  }

  /** Moving back to the old parent undoes a move. */
  lemma MoveRoundTrip(ps: seq<Page>, k: nat, newParentId: Option<Id>)
    requires UniqueIds(ps) && k < |ps|
    ensures MovePage(MovePage(ps, ps[k].id, newParentId), ps[k].id, ps[k].parentId) == ps
  {
    var id := ps[k].id;
    var r := MovePage(MovePage(ps, id, newParentId), id, ps[k].parentId);
    forall i | 0 <= i < |ps| ensures r[i] == ps[i] {
      if ps[i].id == id {
        assert i == k;
      }
    }
  }

  /** Moving an id no page has changes nothing. */
  lemma MoveMissingIsNoOp(ps: seq<Page>, id: Id, newParentId: Option<Id>)
    requires !HasId(ps, id)
    ensures MovePage(ps, id, newParentId) == ps
  {
  }

  /** Moving a page to the top level cannot create a cycle. */
  lemma MoveToTopKeepsAcyclic(ps: seq<Page>, id: Id)
    requires Acyclic(ps)
    ensures Acyclic(MovePage(ps, id, None))
  {
    var rank :| Ranked(ps, rank);
    assert Ranked(MovePage(ps, id, None), rank);
  }

  /** `movePage` performs no cycle check: moved under its own child, a
      page becomes its own ancestor, whatever the rest of the store. */
  lemma MoveUnderChildIsCyclic(ps: seq<Page>, i: nat, j: nat)
    requires i < |ps| && j < |ps|
    requires ps[j].parentId == Some(ps[i].id) && ps[j].id != ps[i].id
    ensures !Acyclic(MovePage(ps, ps[i].id, Some(ps[j].id)))
  {
    MutualParentsAreCyclic(MovePage(ps, ps[i].id, Some(ps[j].id)), i, j);
  }

  /** A witness that such a move can start from an acyclic store. */
  lemma MoveCanCreateCycle()
    ensures var ps := [Page(RootId, "", "", None), Page("a", "", "", Some(RootId)),
                       Page("b", "", "", Some("a"))];
      Acyclic(ps) && !Acyclic(MovePage(ps, "a", Some("b")))
  {
    var ps := [Page(RootId, "", "", None), Page("a", "", "", Some(RootId)),
               Page("b", "", "", Some("a"))];
    var rank: Id -> nat := s => if s == RootId then 2 else if s == "a" then 1 else 0;
    assert Ranked(ps, rank);
    MoveUnderChildIsCyclic(ps, 1, 2);
  }

  /** Two pages that are each other's parent form a cycle. */
  lemma MutualParentsAreCyclic(ps: seq<Page>, i: nat, j: nat)
    requires i < |ps| && j < |ps|
    requires ps[i].parentId == Some(ps[j].id) && ps[j].parentId == Some(ps[i].id)
    ensures !Acyclic(ps)
  {
    forall rank: Id -> nat ensures !Ranked(ps, rank) {
      if Ranked(ps, rank) {
        assert false;
      }
    }
  }
}
