/**
 * The folder rows of backend/internal/vault/folders.go, seen through their
 * parent links: the walk up, what creating, moving and deleting do to it, and
 * the forest that every run keeps.
 *
 * The constraints of backend/migrations/004_enhanced_vault.up.sql that decide
 * between success and failure are part of the model: the primary key, the
 * cascading parent key and the unique name under a parent.
 */
module Folders {
  import opened Bytes

  type Id = nat
  type User = nat

  datatype Folder = Folder(owner: User, parent: Option<Id>, name: string, icon: string, color: string, position: int)

  type Table = map<Id, Folder>

  // ---------------------------------------------------------------- walking up

  function ParentOf(t: Table, id: Id): Option<Id> {
    if id in t then t[id].parent else None
  }

  /** `k` steps up from `id`. */
  function Up(t: Table, id: Id, k: nat): Option<Id>
    decreases k
  {
    if k == 0 then Some(id)
    else match ParentOf(t, id)
      case None => None
      case Some(p) => Up(t, p, k - 1)
  }

  /** `target` is `from` itself or one of its ancestors. */
  ghost predicate Reaches(t: Table, from: Id, target: Id) {
    exists k: nat :: Up(t, from, k) == Some(target)
  }

  lemma {:induction false} ReachesSelf(t: Table, id: Id)
    ensures Reaches(t, id, id)
  {
    assert Up(t, id, 0) == Some(id);
  }

  lemma {:induction false} ReachesByParent(t: Table, id: Id, target: Id)
    requires id != target
    ensures Reaches(t, id, target) <==> ParentOf(t, id).Some? && Reaches(t, ParentOf(t, id).value, target)
  {
    if Reaches(t, id, target) {
      var k: nat :| Up(t, id, k) == Some(target);
      assert k != 0;
      assert Up(t, ParentOf(t, id).value, k - 1) == Some(target);
    }
    if ParentOf(t, id).Some? && Reaches(t, ParentOf(t, id).value, target) {
      var k: nat :| Up(t, ParentOf(t, id).value, k) == Some(target);
      assert Up(t, id, k + 1) == Some(target);
    }
  }

  /** A set that holds the parents of its members holds all their ancestors. */
  lemma {:induction false} ClosedHoldsAncestors(t: Table, closed: set<Id>, id: Id, k: nat)
    requires id in closed
    requires forall x :: x in closed && ParentOf(t, x).Some? ==> ParentOf(t, x).value in closed
    ensures Up(t, id, k).Some? ==> Up(t, id, k).value in closed
    decreases k
  {
    if k > 0 && ParentOf(t, id).Some? {
      ClosedHoldsAncestors(t, closed, ParentOf(t, id).value, k - 1);
    }
  }

  /** A set that holds every row whose parent it holds holds all the rows below its members. */
  lemma {:induction false} ClosedHoldsDescendants(t: Table, closed: set<Id>, id: Id, k: nat)
    requires Up(t, id, k).Some? && Up(t, id, k).value in closed
    requires forall x :: ParentOf(t, x).Some? && ParentOf(t, x).value in closed ==> x in closed
    ensures id in closed
    decreases k
  {
    if k > 0 {
      ClosedHoldsDescendants(t, closed, ParentOf(t, id).value, k - 1);
    }
  }

  // ---------------------------------------------------------------- forests

  /** `id` is a row whose walk ends, after `depth` steps, at a row without a parent. */
  ghost predicate RootAt(t: Table, id: Id, depth: nat)
    decreases depth
  {
    && id in t
    && if depth == 0 then t[id].parent.None? else t[id].parent.Some? && RootAt(t, t[id].parent.value, depth - 1)
  }

  ghost predicate ReachesRoot(t: Table, id: Id) {
    exists depth: nat :: RootAt(t, id, depth)
  }

  ghost predicate ParentsOwned(t: Table) {
    forall id :: id in t && t[id].parent.Some? ==>
      t[id].parent.value in t && t[t[id].parent.value].owner == t[id].owner
  }

  ghost predicate Forest(t: Table) {
    ParentsOwned(t) && forall id :: id in t ==> ReachesRoot(t, id)
  }

  lemma {:induction false} DepthUnique(t: Table, id: Id, m: nat, n: nat)
    requires RootAt(t, id, m) && RootAt(t, id, n)
    ensures m == n
    decreases m
  {
    if m != 0 && n != 0 {
      DepthUnique(t, t[id].parent.value, m - 1, n - 1);
    }
  }

  lemma {:induction false} UpLowersDepth(t: Table, id: Id, depth: nat, k: nat)
    requires RootAt(t, id, depth) && Up(t, id, k).Some?
    ensures k <= depth && RootAt(t, Up(t, id, k).value, depth - k)
    decreases k
  {
    if k > 0 {
      UpLowersDepth(t, t[id].parent.value, depth - 1, k - 1);
    }
  }

  /** No row whose walk ends is its own ancestor. */
  lemma NoCycle(t: Table, id: Id, k: nat)
    requires ReachesRoot(t, id) && k >= 1
    ensures Up(t, id, k) != Some(id)
  {
    if Up(t, id, k) == Some(id) {
      var depth: nat :| RootAt(t, id, depth);
      UpLowersDepth(t, id, depth, k);
      DepthUnique(t, id, depth, depth - k);
    }
  }

  lemma {:induction false} UpSkips(t: Table, id: Id, j: nat, k: nat)
    requires Up(t, id, j).Some?
    ensures Up(t, id, j + k) == Up(t, Up(t, id, j).value, k)
    decreases j
  {
    if j > 0 {
      UpSkips(t, ParentOf(t, id).value, j - 1, k);
    }
  }

  // ---------------------------------------------------------------- moving a row

  function Moved(t: Table, id: Id, parent: Id): Table
    requires id in t
  {
    t[id := t[id].(parent := Some(parent))]
  }

  /** A walk that reached `id` before the move still does, by the same rows below `id`. */
  lemma {:induction false} WalkToMoved(t: Table, id: Id, parent: Id, from: Id, k: nat)
    requires id in t && Up(t, from, k) == Some(id)
    ensures Reaches(Moved(t, id, parent), from, id)
    decreases k
  {
    ReachesSelf(Moved(t, id, parent), id);
    if from != id {
      WalkToMoved(t, id, parent, ParentOf(t, from).value, k - 1);
      ReachesByParent(Moved(t, id, parent), from, id);
    }
  }

  lemma {:induction false} RootAvoidingMoved(t: Table, id: Id, parent: Id, from: Id, depth: nat)
    requires id in t && RootAt(t, from, depth) && !Reaches(t, from, id)
    ensures RootAt(Moved(t, id, parent), from, depth)
    decreases depth
  {
    ReachesSelf(t, id);
    if depth > 0 {
      ReachesByParent(t, from, id);
      RootAvoidingMoved(t, id, parent, t[from].parent.value, depth - 1);
    }
  }

  lemma {:induction false} RootsAfterMove(t: Table, id: Id, parent: Id, from: Id, depth: nat)
    requires id in t && RootAt(t, from, depth)
    requires ReachesRoot(t, parent) && !Reaches(t, parent, id)
    ensures ReachesRoot(Moved(t, id, parent), from)
    decreases depth
  {
    var t' := Moved(t, id, parent);
    if from == id {
      var d: nat :| RootAt(t, parent, d);
      RootAvoidingMoved(t, id, parent, parent, d);
      assert RootAt(t', id, d + 1);
    } else if depth == 0 {
      assert RootAt(t', from, 0);
    } else {
      RootsAfterMove(t, id, parent, t[from].parent.value, depth - 1);
      var d: nat :| RootAt(t', t[from].parent.value, d);
      assert RootAt(t', from, d + 1);
    }
  }

  /**
   * The question the cycle check answers is the right one: moving a folder under
   * another of the same owner leaves a forest exactly when it is not that folder
   * or one of its ancestors.
   */
  lemma MoveKeepsForestIff(t: Table, id: Id, parent: Id)
    requires Forest(t) && id in t && parent in t && t[parent].owner == t[id].owner
    ensures Forest(Moved(t, id, parent)) <==> !Reaches(t, parent, id)
  {
    var t' := Moved(t, id, parent);
    if Reaches(t, parent, id) {
      var k: nat :| Up(t, parent, k) == Some(id);
      WalkToMoved(t, id, parent, parent, k);
      var k': nat :| Up(t', parent, k') == Some(id);
      assert Up(t', id, k' + 1) == Some(id);
      if Forest(t') {
        NoCycle(t', id, k' + 1);
      }
    } else {
      forall x | x in t' ensures ReachesRoot(t', x) {
        var d: nat :| RootAt(t, x, d);
        RootsAfterMove(t, id, parent, x, d);
      }
    }
  }

  // ---------------------------------------------------------------- adding and removing rows

  lemma {:induction false} RootAfterInsert(t: Table, id: Id, f: Folder, from: Id, depth: nat)
    requires id !in t && RootAt(t, from, depth)
    ensures RootAt(t[id := f], from, depth)
    decreases depth
  {
    if depth > 0 {
      RootAfterInsert(t, id, f, t[from].parent.value, depth - 1);
    }
  }

  lemma InsertKeepsForest(t: Table, id: Id, f: Folder)
    requires Forest(t) && id !in t
    requires f.parent.Some? ==> f.parent.value in t && t[f.parent.value].owner == f.owner
    ensures Forest(t[id := f])
  {
    var t' := t[id := f];
    forall x | x in t' ensures ReachesRoot(t', x) {
      if x != id {
        var d: nat :| RootAt(t, x, d);
        RootAfterInsert(t, id, f, x, d);
      } else if f.parent.None? {
        assert RootAt(t', id, 0);
      } else {
        var d: nat :| RootAt(t, f.parent.value, d);
        RootAfterInsert(t, id, f, f.parent.value, d);
        assert RootAt(t', id, d + 1);
      }
    }
  }

  /** The rows outside the subtree of `id`: what a delete that cascades leaves. */
  ghost function WithoutSubtree(t: Table, id: Id): Table {
    map x | x in t && !Reaches(t, x, id) :: t[x]
  }

  lemma {:induction false} RootAfterDelete(t: Table, id: Id, from: Id, depth: nat)
    requires RootAt(t, from, depth) && !Reaches(t, from, id)
    ensures RootAt(WithoutSubtree(t, id), from, depth)
    decreases depth
  {
    ReachesSelf(t, id);
    if depth > 0 {
      ReachesByParent(t, from, id);
      RootAfterDelete(t, id, t[from].parent.value, depth - 1);
    }
  }

  lemma DeleteKeepsForest(t: Table, id: Id)
    requires Forest(t)
    ensures Forest(WithoutSubtree(t, id))
  {
    var t' := WithoutSubtree(t, id);
    forall x | x in t' ensures ReachesRoot(t', x) {
      var d: nat :| RootAt(t, x, d);
      RootAfterDelete(t, id, x, d);
    }
    forall x | x in t' && t'[x].parent.Some?
      ensures t'[x].parent.value in t' && t'[t'[x].parent.value].owner == t'[x].owner
    {
      ReachesSelf(t, id);
      ReachesByParent(t, x, id);
    }
  }

  /** Only the folder itself goes when nothing is below it. */
  lemma LeafSubtree(t: Table, id: Id)
    requires forall x :: x in t ==> t[x].parent != Some(id)
    ensures WithoutSubtree(t, id) == t - {id}
  {
    ReachesSelf(t, id);
    forall x | x in t && x != id ensures !Reaches(t, x, id) {
      if Reaches(t, x, id) {
        var k: nat :| Up(t, x, k) == Some(id);
        LastStep(t, x, id, k);
      }
    }
  }

  lemma {:induction false} LastStep(t: Table, from: Id, target: Id, k: nat)
    requires from != target && Up(t, from, k) == Some(target)
    ensures exists x :: x in t && t[x].parent == Some(target)
    decreases k
  {
    if t[from].parent != Some(target) {
      LastStep(t, t[from].parent.value, target, k - 1);
    }
  }

  lemma {:induction false} SameOwnerUp(t: Table, from: Id, target: Id, k: nat)
    requires ParentsOwned(t) && from in t && Up(t, from, k) == Some(target)
    ensures target in t && t[target].owner == t[from].owner
    decreases k
  {
    if k > 0 {
      SameOwnerUp(t, t[from].parent.value, target, k - 1);
    }
  }

  // ---------------------------------------------------------------- requests

  datatype Request =
    | Create(user: User, id: Id, parent: Option<Id>, name: string, icon: string, color: string)
    | Update(user: User, id: Id, newName: Option<string>, parent: Option<Id>, newIcon: Option<string>,
             newColor: Option<string>, newPosition: Option<int>)
    | Delete(user: User, id: Id, recursive: bool, entries: nat)

  datatype Error =
    | NotFound
    | ParentNotFound
    | OwnParent
    | CircularReference
    | HasChildren(count: nat)
    | HasEntries(count: nat)
    | IdTaken
    | NameTaken

  const DefaultIcon: string := "\U{1F4C1}"
  const DefaultColor: string := "#6366f1"

  predicate BelongsTo(t: Table, id: Id, user: User) {
    id in t && t[id].owner == user
  }

  /** Another row already has this name under this parent; rows without a parent never clash. */
  predicate NameClash(t: Table, id: Id, f: Folder) {
    f.parent.Some? && exists x :: x in t && x != id && t[x].owner == f.owner && t[x].parent == f.parent && t[x].name == f.name
  }

  ghost predicate NamesUnique(t: Table) {
    forall id :: id in t ==> !NameClash(t, id, t[id])
  }

  function Children(t: Table, id: Id): set<Id> {
    set x | x in t && t[x].parent == Some(id)
  }

  /** One more than every position at that level, or 0 at an empty level. */
  ghost predicate NextPosition(t: Table, user: User, parent: Option<Id>, position: int) {
    var level := set x | x in t && t[x].owner == user && t[x].parent == parent;
    && (forall x :: x in level ==> t[x].position < position)
    && (if level == {} then position == 0 else exists x :: x in level && position == t[x].position + 1)
  }

  function Edited(f: Folder, req: Request): Folder
    requires req.Update?
  {
    Folder(f.owner,
           if req.parent.Some? then req.parent else f.parent,
           req.newName.UnwrapOr(f.name),
           req.newIcon.UnwrapOr(f.icon),
           req.newColor.UnwrapOr(f.color),
           req.newPosition.UnwrapOr(f.position))
  }

  function Created(req: Request, position: int): Folder
    requires req.Create?
  {
    Folder(req.user, req.parent, req.name,
           if req.icon == "" then DefaultIcon else req.icon,
           if req.color == "" then DefaultColor else req.color,
           position)
  }

  /** Why a request is refused, if it is. */
  ghost function Refusal(t: Table, req: Request): Option<Error> {
    match req
    case Create(user, id, parent, _, _, _) =>
      if parent.Some? && !BelongsTo(t, parent.value, user) then Some(ParentNotFound)
      else if id in t then Some(IdTaken)
      else if NameClash(t, id, Created(req, 0)) then Some(NameTaken)
      else None
    case Update(user, id, _, parent, _, _, _) =>
      if !BelongsTo(t, id, user) then Some(NotFound)
      else if parent == Some(id) then Some(OwnParent)
      else if parent.Some? && !BelongsTo(t, parent.value, user) then Some(ParentNotFound)
      else if parent.Some? && Reaches(t, parent.value, id) then Some(CircularReference)
      else if Edited(t[id], req) != t[id] && NameClash(t, id, Edited(t[id], req)) then Some(NameTaken)
      else None
    case Delete(user, id, recursive, entries) =>
      if !BelongsTo(t, id, user) then Some(NotFound)
      else if recursive then None
      else if Children(t, id) != {} then Some(HasChildren(|Children(t, id)|))
      else if entries > 0 then Some(HasEntries(entries))
      else None
  }

  /** What a request does to the rows. */
  ghost predicate Step(t: Table, req: Request, t': Table) {
    if Refusal(t, req).Some? then t' == t
    else match req
      case Create(user, id, parent, _, _, _) =>
        exists position :: NextPosition(t, user, parent, position) && t' == t[id := Created(req, position)]
      case Update(_, id, _, _, _, _, _) => t' == t[id := Edited(t[id], req)]
      case Delete(_, id, _, _) => t' == WithoutSubtree(t, id)
  }

  // ---------------------------------------------------------------- every run keeps the forest

  lemma {:induction false} RootAfterEdit(t: Table, id: Id, f: Folder, from: Id, depth: nat)
    requires id in t && f.parent == t[id].parent && RootAt(t, from, depth)
    ensures RootAt(t[id := f], from, depth)
    decreases depth
  {
    if depth > 0 {
      RootAfterEdit(t, id, f, t[from].parent.value, depth - 1);
    }
  }

  lemma EditKeepsForest(t: Table, id: Id, f: Folder)
    requires Forest(t) && id in t && f.parent == t[id].parent && f.owner == t[id].owner
    ensures Forest(t[id := f])
  {
    forall x | x in t ensures ReachesRoot(t[id := f], x) {
      var d: nat :| RootAt(t, x, d);
      RootAfterEdit(t, id, f, x, d);
    }
  }

  lemma UpdateKeepsForest(t: Table, req: Request)
    requires Forest(t) && req.Update? && Refusal(t, req).None?
    ensures Forest(t[req.id := Edited(t[req.id], req)])
  {
    var f := Edited(t[req.id], req);
    if req.parent.Some? {
      var t' := Moved(t, req.id, req.parent.value);
      MoveKeepsForestIff(t, req.id, req.parent.value);
      EditKeepsForest(t', req.id, f);
      assert t'[req.id := f] == t[req.id := f];
    } else {
      EditKeepsForest(t, req.id, f);
    }
  }

  lemma {:induction false} StepKeepsForest(t: Table, req: Request, t': Table)
    requires Forest(t) && Step(t, req, t')
    ensures Forest(t')
  {
    if Refusal(t, req).None? {
      match req
      case Create(user, id, parent, _, _, _) =>
        var position :| NextPosition(t, user, parent, position) && t' == t[id := Created(req, position)];
        InsertKeepsForest(t, id, Created(req, position));
      case Update(_, id, _, _, _, _, _) =>
        UpdateKeepsForest(t, req);
      case Delete(_, id, _, _) =>
        DeleteKeepsForest(t, id);
    }
  }

  lemma StepKeepsNames(t: Table, req: Request, t': Table)
    requires NamesUnique(t) && Step(t, req, t')
    ensures NamesUnique(t')
  {
  }

  /** The tables a run of requests goes through. */
  ghost predicate IsRun(requests: seq<Request>, tables: seq<Table>) {
    && |tables| == |requests| + 1
    && tables[0] == map[]
    && forall i :: 0 <= i < |requests| ==> Step(tables[i], requests[i], tables[i + 1])
  }

  /**
   * Every run from an empty table keeps each parent present and owned by the same
   * user, every chain of parents ending at a root, and names unique under a parent.
   */
  lemma {:induction false} RunKeepsForest(requests: seq<Request>, tables: seq<Table>, n: nat)
    requires IsRun(requests, tables) && n < |tables|
    ensures Forest(tables[n]) && NamesUnique(tables[n])
  {
    if n > 0 {
      RunKeepsForest(requests, tables, n - 1);
      assert Step(tables[n - 1], requests[n - 1], tables[n]);
      StepKeepsForest(tables[n - 1], requests[n - 1], tables[n]);
      StepKeepsNames(tables[n - 1], requests[n - 1], tables[n]);
    }
  }

  /** On a forest no request of one user touches a row of another, cascades included. */
  lemma {:induction false} OtherUsersUntouched(t: Table, req: Request, t': Table, x: Id)
    requires Forest(t) && Step(t, req, t')
    ensures x in t && t[x].owner != req.user ==> x in t' && t'[x] == t[x]
    ensures x in t' && t'[x].owner != req.user ==> x in t && t'[x] == t[x]
  {
    if Refusal(t, req).None? && req.Delete? && x in t && Reaches(t, x, req.id) {
      var k: nat :| Up(t, x, k) == Some(req.id);
      SameOwnerUp(t, x, req.id, k);
    }
  }
}
