/**
 * `GetFolderTree` of backend/internal/vault/folders.go: two passes over the
 * user's rows that hang each node under its parent, and where each folder ends
 * up in the result, for any parent links at all.
 */
module FolderTrees {
  import opened Bytes
  import opened Folders

  class Node {
    const id: Id
    const parent: Option<Id>
    var children: seq<Node>

    constructor (id: Id, parent: Option<Id>)
      ensures this.id == id && this.parent == parent && children == []
    {
      this.id := id;
      this.parent := parent;
      children := [];
    }
  }

  // ---------------------------------------------------------------- siblings

  /** The nodes under `parent` among the first `n`, in order. */
  ghost function Pick(nodes: seq<Node>, parent: Option<Id>, n: nat): seq<Node>
    requires n <= |nodes|
  {
    if n == 0 then [] else Pick(nodes, parent, n - 1) + if nodes[n - 1].parent == parent then [nodes[n - 1]] else []
  }

  lemma {:induction false} PickHolds(nodes: seq<Node>, parent: Option<Id>, n: nat, x: Node)
    requires n <= |nodes|
    ensures x in Pick(nodes, parent, n) <==> x.parent == parent && x in nodes[..n]
  {
    if n > 0 {
      PickHolds(nodes, parent, n - 1, x);
      assert nodes[..n] == nodes[..n - 1] + [nodes[n - 1]];
    }
  }

  /** Siblings keep the order of the query, and none is listed twice. */
  lemma {:induction false} PickInOrder(nodes: seq<Node>, parent: Option<Id>, n: nat, a: nat, b: nat)
    requires n <= |nodes| && a < b < |Pick(nodes, parent, n)|
    ensures exists i, j :: 0 <= i < j < n && nodes[i] == Pick(nodes, parent, n)[a] && nodes[j] == Pick(nodes, parent, n)[b]
  {
    if b < |Pick(nodes, parent, n - 1)| {
      PickInOrder(nodes, parent, n - 1, a, b);
    } else {
      var x := Pick(nodes, parent, n)[a];
      PickHolds(nodes, parent, n - 1, x);
      var i :| 0 <= i < n - 1 && nodes[i] == x;
    }
  }

  // ---------------------------------------------------------------- paths

  /** A way down the tree from a root, child by child, as places in `nodes`; it ends at place `x`. */
  ghost predicate LeadsTo(nodes: seq<Node>, roots: seq<Node>, path: seq<nat>, x: nat)
    reads nodes
  {
    && path != [] && path[|path| - 1] == x
    && (forall i :: 0 <= i < |path| ==> path[i] < |nodes|)
    && nodes[path[0]] in roots
    && forall i :: 0 < i < |path| ==> nodes[path[i]] in nodes[path[i - 1]].children
  }

  ghost predicate InTree(nodes: seq<Node>, roots: seq<Node>, x: nat)
    reads nodes
  {
    exists path :: LeadsTo(nodes, roots, path, x)
  }

  ghost predicate Distinct(nodes: seq<Node>) {
    forall i, j :: 0 <= i < j < |nodes| ==> nodes[i].id != nodes[j].id
  }

  /** Every node lists the nodes under it, and the roots are the nodes without a parent. */
  ghost predicate Linked(nodes: seq<Node>, roots: seq<Node>)
    reads nodes
  {
    && roots == Pick(nodes, None, |nodes|)
    && forall i :: 0 <= i < |nodes| ==> nodes[i].children == Pick(nodes, Some(nodes[i].id), |nodes|)
  }

  /** The nodes carry the rows of `t`. */
  ghost predicate Carry(nodes: seq<Node>, t: Table) {
    && Distinct(nodes)
    && (forall i :: 0 <= i < |nodes| ==> nodes[i].id in t && nodes[i].parent == t[nodes[i].id].parent)
    && (forall id :: id in t ==> exists i :: 0 <= i < |nodes| && nodes[i].id == id)
  }

  lemma ChildHasParent(nodes: seq<Node>, roots: seq<Node>, x: Node, y: Node)
    requires Linked(nodes, roots) && x in nodes
    ensures y in x.children <==> y in nodes && y.parent == Some(x.id)
  {
    PickHolds(nodes, Some(x.id), |nodes|, y);
    assert nodes[..|nodes|] == nodes;
  }

  lemma RootHasNoParent(nodes: seq<Node>, roots: seq<Node>, x: Node)
    requires Linked(nodes, roots)
    ensures x in roots <==> x in nodes && x.parent.None?
  {
    PickHolds(nodes, None, |nodes|, x);
    assert nodes[..|nodes|] == nodes;
  }

  /** A path is a root alone, or a path to the node of the parent and one step more. */
  lemma PathEnd(nodes: seq<Node>, roots: seq<Node>, path: seq<nat>, x: nat)
    requires Linked(nodes, roots) && LeadsTo(nodes, roots, path, x)
    ensures x < |nodes|
    ensures nodes[x].parent.None? ==> path == [x]
    ensures nodes[x].parent.Some? ==>
      && |path| > 1
      && LeadsTo(nodes, roots, path[..|path| - 1], path[|path| - 2])
      && nodes[path[|path| - 2]].id == nodes[x].parent.value
      && path == path[..|path| - 1] + [x]
  {
    var last := |path| - 1;
    if last > 0 {
      ChildHasParent(nodes, roots, nodes[path[last - 1]], nodes[path[last]]);
    } else {
      RootHasNoParent(nodes, roots, nodes[path[0]]);
    }
  }

  /** No node is reached by two paths. */
  lemma {:induction false} PathUnique(nodes: seq<Node>, roots: seq<Node>, p: seq<nat>, q: seq<nat>, x: nat)
    requires Distinct(nodes) && Linked(nodes, roots) && LeadsTo(nodes, roots, p, x) && LeadsTo(nodes, roots, q, x)
    ensures p == q
    decreases |p|
  {
    PathEnd(nodes, roots, p, x);
    PathEnd(nodes, roots, q, x);
    hide Linked, LeadsTo;
    if nodes[x].parent.Some? {
      var y, z := p[|p| - 2], q[|q| - 2];
      assert y == z;
      PathUnique(nodes, roots, p[..|p| - 1], q[..|q| - 1], y);
    }
  }

  lemma {:induction false} PathReachesRoot(nodes: seq<Node>, roots: seq<Node>, t: Table, path: seq<nat>, x: nat)
    requires Carry(nodes, t) && Linked(nodes, roots) && LeadsTo(nodes, roots, path, x)
    ensures x < |nodes| && RootAt(t, nodes[x].id, |path| - 1)
    decreases |path|
  {
    PathEnd(nodes, roots, path, x);
    hide Linked, LeadsTo;
    if nodes[x].parent.Some? {
      PathReachesRoot(nodes, roots, t, path[..|path| - 1], path[|path| - 2]);
    }
  }

  lemma PathStep(nodes: seq<Node>, roots: seq<Node>, path: seq<nat>, y: nat, x: nat)
    requires Linked(nodes, roots) && LeadsTo(nodes, roots, path, y) && x < |nodes|
    requires nodes[x].parent == Some(nodes[y].id)
    ensures InTree(nodes, roots, x)
  {
    ChildHasParent(nodes, roots, nodes[y], nodes[x]);
    assert LeadsTo(nodes, roots, path + [x], x);
  }

  lemma {:induction false} RootedInTree(nodes: seq<Node>, roots: seq<Node>, t: Table, x: nat, depth: nat)
    requires Carry(nodes, t) && Linked(nodes, roots) && x < |nodes| && RootAt(t, nodes[x].id, depth)
    ensures InTree(nodes, roots, x)
    decreases depth
  {
    if depth == 0 {
      RootHasNoParent(nodes, roots, nodes[x]);
      assert LeadsTo(nodes, roots, [x], x);
    } else {
      var y :| 0 <= y < |nodes| && nodes[y].id == nodes[x].parent.value;
      RootedInTree(nodes, roots, t, y, depth - 1);
      var path :| LeadsTo(nodes, roots, path, y);
      PathStep(nodes, roots, path, y, x);
    }
  }

  /**
   * A folder is in the tree exactly when its chain of parents reaches a root, and
   * then in exactly one place, whatever the parent links are.
   */
  lemma TreeConservesFolders(nodes: seq<Node>, roots: seq<Node>, t: Table, x: nat)
    requires Carry(nodes, t) && Linked(nodes, roots) && x < |nodes|
    ensures ReachesRoot(t, nodes[x].id) <==> InTree(nodes, roots, x)
    ensures forall p, q :: LeadsTo(nodes, roots, p, x) && LeadsTo(nodes, roots, q, x) ==> p == q
  {
    if ReachesRoot(t, nodes[x].id) {
      var depth: nat :| RootAt(t, nodes[x].id, depth);
      RootedInTree(nodes, roots, t, x, depth);
    }
    if InTree(nodes, roots, x) {
      var path :| LeadsTo(nodes, roots, path, x);
      PathReachesRoot(nodes, roots, t, path, x);
    }
    forall p, q | LeadsTo(nodes, roots, p, x) && LeadsTo(nodes, roots, q, x) ensures p == q {
      PathUnique(nodes, roots, p, q, x);
    }
  }

  // ---------------------------------------------------------------- one user's rows

  function RowsOf(t: Table, user: User): Table {
    map x | x in t && t[x].owner == user :: t[x]
  }

  lemma {:induction false} RootAmongOwn(t: Table, id: Id, depth: nat)
    requires ParentsOwned(t) && RootAt(t, id, depth)
    ensures RootAt(RowsOf(t, t[id].owner), id, depth)
    decreases depth
  {
    if depth > 0 {
      RootAmongOwn(t, t[id].parent.value, depth - 1);
    }
  }

  // ---------------------------------------------------------------- the two passes

  /** `query` lists the user's rows in the order the database returns them. */
  ghost predicate Lists(query: seq<Id>, rows: Table) {
    && (forall i, j :: 0 <= i < j < |query| ==> query[i] != query[j])
    && (forall i :: 0 <= i < |query| ==> query[i] in rows)
    && (forall id :: id in rows ==> exists i :: 0 <= i < |query| && query[i] == id)
  }

  method GetFolders(t: Table, user: User, query: seq<Id>) returns (nodes: seq<Node>)
    requires Lists(query, RowsOf(t, user))
    ensures |nodes| == |query|
    ensures forall i :: 0 <= i < |nodes| ==> fresh(nodes[i]) && nodes[i].id == query[i]
    ensures Distinct(nodes) && Carry(nodes, RowsOf(t, user))
  {
    nodes := [];
    for i := 0 to |query|
      invariant |nodes| == i
      invariant forall k :: 0 <= k < i ==> fresh(nodes[k]) && nodes[k].id == query[k]
      invariant forall k :: 0 <= k < i ==> query[k] in t && nodes[k].parent == t[query[k]].parent
    {
      var node := new Node(query[i], t[query[i]].parent);
      nodes := nodes + [node];
    }
    forall id | id in RowsOf(t, user) ensures exists i :: 0 <= i < |nodes| && nodes[i].id == id {
      var i :| 0 <= i < |query| && query[i] == id;
      assert nodes[i].id == id;
    }
  }

  /** The first pass empties the children and indexes the nodes; the second hangs each under its parent. */
  method Assemble(nodes: seq<Node>) returns (roots: seq<Node>)
    requires Distinct(nodes)
    modifies nodes
    ensures Linked(nodes, roots)
  {
    var folderMap: map<Id, Node> := map[];
    for i := 0 to |nodes|
      invariant forall k :: 0 <= k < i ==> nodes[k].children == []
      invariant forall k :: 0 <= k < i ==> nodes[k].id in folderMap && folderMap[nodes[k].id] == nodes[k]
      invariant forall id :: id in folderMap ==> folderMap[id] in nodes && folderMap[id].id == id
    {
      nodes[i].children := [];
      folderMap := folderMap[nodes[i].id := nodes[i]];
    }
    roots := [];
    for n := 0 to |nodes|
      invariant roots == Pick(nodes, None, n)
      invariant forall k :: 0 <= k < |nodes| ==> nodes[k].children == Pick(nodes, Some(nodes[k].id), n)
    {
      var node := nodes[n];
      if node.parent.None? {
        roots := roots + [node];
      } else if node.parent.value in folderMap {
        var parent := folderMap[node.parent.value];
        parent.children := parent.children + [node];
      }
    }
  }

  /** On a forest every folder of the user is in the tree. */
  method GetFolderTree(t: Table, user: User, query: seq<Id>) returns (nodes: seq<Node>, roots: seq<Node>)
    requires Lists(query, RowsOf(t, user))
    ensures |nodes| == |query|
    ensures forall i :: 0 <= i < |nodes| ==> nodes[i].id == query[i]
    ensures Carry(nodes, RowsOf(t, user)) && Linked(nodes, roots)
    ensures Forest(t) ==> forall i :: 0 <= i < |nodes| ==> InTree(nodes, roots, i)
  {
    hide Lists, Linked, Carry, Forest, InTree;
    nodes := GetFolders(t, user, query);
    roots := Assemble(nodes);
    if Forest(t) {
      AllInTree(t, user, nodes, roots);
    }
  }

  lemma AllInTree(t: Table, user: User, nodes: seq<Node>, roots: seq<Node>)
    requires Forest(t) && Carry(nodes, RowsOf(t, user)) && Linked(nodes, roots)
    ensures forall i :: 0 <= i < |nodes| ==> InTree(nodes, roots, i)
  {
    forall i | 0 <= i < |nodes| ensures InTree(nodes, roots, i) {
      var depth: nat :| RootAt(t, nodes[i].id, depth);
      RootAmongOwn(t, nodes[i].id, depth);
      RootedInTree(nodes, roots, RowsOf(t, user), i, depth);
    }
  }
}
