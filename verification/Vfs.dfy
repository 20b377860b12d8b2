/** The virtual file system tree: heap nodes linked by first child and next sibling.
    The links always spell out an ordered tree whose nodes are numbered in the order
    of their creation. */
module Vfs {
  import opened Bytes
  import opened CLib

  datatype Kind = Dir | File

  /** A node of the ordered tree: its parent's number (-1 for the root) and its children
      in the order in which they were created. */
  datatype Rec = Rec(name: Text, kind: Kind, parent: int, kids: seq<nat>, data: nat)

  type Tree = seq<Rec>

  /** A node other than the root was created after its parent and is one of its children. */
  ghost predicate ChildOk(t: Tree, i: nat)
    requires i < |t|
  {
    0 <= t[i].parent < i && i in t[t[i].parent].kids
  }

  /** The children of p name p as parent and come in the order of their creation; files
      have none. */
  ghost predicate KidsOk(t: Tree, p: nat)
    requires p < |t|
  {
    var kids := t[p].kids;
    && (forall j :: 0 <= j < |kids| ==> p < kids[j] < |t| && t[kids[j]].parent == p)
    && (forall j, k :: 0 <= j < k < |kids| ==> kids[j] < kids[k])
    && (t[p].kind.File? ==> kids == [])
  }

  ghost predicate TreeInv(t: Tree) {
    && |t| >= 1 && t[0].parent == -1 && t[0].kind.Dir?
    && (forall i: nat :: 1 <= i < |t| ==> ChildOk(t, i))
    && (forall p: nat :: p < |t| ==> KidsOk(t, p))
  }

  /** The new node becomes the last child of p. */
  function AddNode(t: Tree, p: nat, name: Text, kind: Kind, data: nat): Tree
    requires p < |t|
  {
    t[p := t[p].(kids := t[p].kids + [|t|])] + [Rec(name, kind, p, [], data)]
  }

  lemma AddNodeInv(t: Tree, p: nat, name: Text, kind: Kind, data: nat)
    requires TreeInv(t) && p < |t| && t[p].kind.Dir?
    ensures TreeInv(AddNode(t, p, name, kind, data))
  {
    var t', n := AddNode(t, p, name, kind, data), |t|;
    assert forall i :: 0 <= i < n ==> t'[i].parent == t[i].parent && t'[i].kind == t[i].kind;
    assert forall i :: 0 <= i < n && i != p ==> t'[i] == t[i];
    forall i: nat | 1 <= i < |t'| ensures ChildOk(t', i) {
      if i < n {
        assert ChildOk(t, i);
      } else {
        assert t'[p].kids[|t[p].kids|] == n;
      }
    }
    forall q: nat | q < |t'| ensures KidsOk(t', q) {
      if q < n {
        assert KidsOk(t, q);
      }
    }
  }

  /** The first child of p with the name, or the number of nodes when there is none. */
  function FirstNamed(t: Tree, kids: seq<nat>, name: Text): (k: nat)
    requires forall j :: 0 <= j < |kids| ==> kids[j] < |t|
    ensures k <= |kids|
    ensures k < |kids| ==> t[kids[k]].name == name
    ensures forall j :: 0 <= j < k ==> t[kids[j]].name != name
  {
    if kids == [] || t[kids[0]].name == name then 0 else 1 + FirstNamed(t, kids[1..], name)
  }

  /** Lookup finds the earliest-created child of that name. */
  lemma FirstIsEarliest(t: Tree, p: nat, name: Text, i: nat)
    requires TreeInv(t) && p < |t| && KidsOk(t, p) && 1 <= i < |t| && t[i].parent == p && t[i].name == name
    ensures var k := FirstNamed(t, t[p].kids, name);
            k < |t[p].kids| && t[p].kids[k] <= i && t[t[p].kids[k]].name == name
  {
    assert ChildOk(t, i) && KidsOk(t, p);
    var j :| 0 <= j < |t[p].kids| && t[p].kids[j] == i;
    var k := FirstNamed(t, t[p].kids, name);
    assert k <= j;
  }

  /** A path of parent links never returns to its start. */
  ghost predicate Climbs(t: Tree, path: seq<nat>) {
    forall i :: 0 <= i < |path| - 1 ==> path[i] < |t| && t[path[i]].parent == path[i + 1]
  }

  lemma {:induction false} NoCycle(t: Tree, path: seq<nat>)
    requires TreeInv(t) && Climbs(t, path) && |path| >= 2
    ensures path[|path| - 1] < path[0]
  {
    assert t[path[0]].parent == path[1];
    assert path[0] >= 1 && ChildOk(t, path[0]);
    if |path| > 2 {
      var rest := path[1..];
      forall i | 0 <= i < |rest| - 1 ensures rest[i] < |t| && t[rest[i]].parent == rest[i + 1] {
        assert rest[i] == path[i + 1] && rest[i + 1] == path[i + 2];
      }
      NoCycle(t, rest);
    }
  }

  // ---------------------------------------------------------------- as a rose tree

  datatype Rose = Rose(name: Text, kind: Kind, data: nat, children: seq<Rose>)

  function ToRose(t: Tree, i: nat): Rose
    requires TreeInv(t) && i < |t|
    decreases |t| - i
  {
    assert KidsOk(t, i);
    Rose(t[i].name, t[i].kind, t[i].data,
         seq(|t[i].kids|, j requires 0 <= j < |t[i].kids| => ToRose(t, t[i].kids[j])))
  }

  /** The rose tree at i with a leaf appended to the children of node p, if p is in it. */
  function Grafted(t: Tree, i: nat, p: nat, leaf: Rose): Rose
    requires TreeInv(t) && i < |t|
    decreases |t| - i
  {
    assert KidsOk(t, i);
    Rose(t[i].name, t[i].kind, t[i].data,
         seq(|t[i].kids|, j requires 0 <= j < |t[i].kids| => Grafted(t, t[i].kids[j], p, leaf))
         + if i == p then [leaf] else [])
  }

  /** A create appends a leaf to the children of its parent and changes nothing else of
      the tree. */
  lemma {:induction false} CreateGrafts(t: Tree, p: nat, name: Text, kind: Kind, data: nat, i: nat)
    requires TreeInv(t) && p < |t| && t[p].kind.Dir? && i < |t|
    ensures TreeInv(AddNode(t, p, name, kind, data))
    ensures ToRose(AddNode(t, p, name, kind, data), i) == Grafted(t, i, p, Rose(name, kind, data, []))
    decreases |t| - i
  {
    AddNodeInv(t, p, name, kind, data);
    var t', leaf := AddNode(t, p, name, kind, data), Rose(name, kind, data, []);
    assert KidsOk(t, i);
    forall j | 0 <= j < |t[i].kids| ensures ToRose(t', t'[i].kids[j]) == Grafted(t, t[i].kids[j], p, leaf) {
      CreateGrafts(t, p, name, kind, data, t[i].kids[j]);
    }
    assert ToRose(t', |t|) == leaf;
    assert ToRose(t', i).children == Grafted(t, i, p, leaf).children;
  }

  // ---------------------------------------------------------------- the linked nodes

  class Node {
    const name: Text
    const kind: Kind
    const data: nat
    var parent: Node?
    var child: Node?
    var sibling: Node?

    constructor (name: Text, kind: Kind, parent: Node?, data: nat)
      ensures this.name == name && this.kind == kind && this.data == data && this.parent == parent
      ensures child == null && sibling == null
    {
      this.name, this.kind, this.data, this.parent := name, kind, data, parent;
      child, sibling := null, null;
    }
  }

  /** The link fields of one node at one moment. */
  datatype Links = Links(parent: Node?, child: Node?, sibling: Node?)

  ghost function Snapshot(ns: seq<Node>): (f: seq<Links>)
    reads ns
    ensures |f| == |ns|
    ensures forall i :: 0 <= i < |ns| ==> f[i] == Links(ns[i].parent, ns[i].child, ns[i].sibling)
  {
    seq(|ns|, i requires 0 <= i < |ns| reads ns => Links(ns[i].parent, ns[i].child, ns[i].sibling))
  }

  /** Node i carries the data of entry i of the tree and points at its parent. */
  ghost predicate Mirrors(ns: seq<Node>, t: Tree, f: seq<Links>, i: nat)
    requires i < |ns| == |t| == |f|
  {
    && ns[i].name == t[i].name && ns[i].kind == t[i].kind && ns[i].data == t[i].data
    && f[i].parent == if 0 <= t[i].parent < |ns| then ns[t[i].parent] else null
  }

  /** First child and sibling links spell out the children of p, in order. */
  ghost predicate Linked(ns: seq<Node>, t: Tree, f: seq<Links>, p: nat)
    requires p < |ns| == |t| == |f| && KidsOk(t, p)
  {
    var kids := t[p].kids;
    && f[p].child == (if kids == [] then null else ns[kids[0]])
    && (forall j :: 0 <= j < |kids| ==> f[kids[j]].sibling == if j + 1 < |kids| then ns[kids[j + 1]] else null)
  }

  ghost predicate Wired(ns: seq<Node>, t: Tree, f: seq<Links>) {
    && TreeInv(t) && |ns| == |t| == |f|
    && (forall i, j :: 0 <= i < j < |ns| ==> ns[i] != ns[j])
    && (forall i: nat :: i < |ns| ==> Mirrors(ns, t, f, i))
    && (forall p: nat :: p < |t| ==> Linked(ns, t, f, p))
    && f[0].sibling == null
  }

  /** One step along the siblings. */
  lemma NextSibling(ns: seq<Node>, t: Tree, f: seq<Links>, p: nat, j: nat)
    requires Wired(ns, t, f) && p < |t| && j < |t[p].kids|
    ensures KidsOk(t, p)
    ensures f[t[p].kids[j]].sibling == if j + 1 < |t[p].kids| then ns[t[p].kids[j + 1]] else null
  {
    assert KidsOk(t, p) && Linked(ns, t, f, p);
  }

  /** The links after a node was hung behind the last child of p. */
  ghost function Appended(ns: seq<Node>, t: Tree, f: seq<Links>, p: nat, node: Node): seq<Links>
    requires p < |ns| == |t| == |f| && KidsOk(t, p)
  {
    var kids := t[p].kids;
    (if kids == [] then f[p := f[p].(child := node)]
     else f[kids[|kids| - 1] := f[kids[|kids| - 1]].(sibling := node)])
    + [Links(ns[p], null, null)]
  }

  /** The children of p after the append. */
  lemma AppendedHere(ns: seq<Node>, t: Tree, f: seq<Links>, p: nat, node: Node, t': Tree)
    requires p < |ns| == |t| == |f| && KidsOk(t, p) && Linked(ns, t, f, p)
    requires |t'| == |t| + 1 && KidsOk(t', p) && t'[p].kids == t[p].kids + [|t|]
    ensures Linked(ns + [node], t', Appended(ns, t, f, p, node), p)
  {
  }

  /** The children of another node do not notice. */
  lemma AppendedElsewhere(ns: seq<Node>, t: Tree, f: seq<Links>, p: nat, node: Node, t': Tree, q: nat)
    requires p < |ns| == |t| == |f| && q < |t| && p != q && KidsOk(t, p) && KidsOk(t, q) && Linked(ns, t, f, q)
    requires |t'| == |t| + 1 && KidsOk(t', q) && t'[q].kids == t[q].kids
    ensures Linked(ns + [node], t', Appended(ns, t, f, p, node), q)
  {
    var last := if t[p].kids == [] then 0 else t[p].kids[|t[p].kids| - 1];
    forall j | 0 <= j < |t[q].kids| ensures t[p].kids != [] ==> t[q].kids[j] != last {
      assert t[t[q].kids[j]].parent == q;
    }
  }

  lemma AppendedLinked(ns: seq<Node>, t: Tree, f: seq<Links>, p: nat, node: Node, kind: Kind, q: nat)
    requires Wired(ns, t, f) && p < |t| && t[p].kind.Dir? && q <= |t|
    ensures var t' := AddNode(t, p, node.name, kind, node.data);
            KidsOk(t', q) && KidsOk(t, p) && Linked(ns + [node], t', Appended(ns, t, f, p, node), q)
  {
    hide ChildOk, Mirrors, Appended;
    var t' := AddNode(t, p, node.name, kind, node.data);
    AddNodeInv(t, p, node.name, kind, node.data);
    assert KidsOk(t', q) && KidsOk(t, p);
    hide KidsOk, Linked;
    if q == p {
      AppendedHere(ns, t, f, p, node, t');
    } else if q < |t| {
      AppendedElsewhere(ns, t, f, p, node, t', q);
    } else {
      AppendedNew(ns, t, f, p, node, t');
    }
  }

  lemma AppendedNew(ns: seq<Node>, t: Tree, f: seq<Links>, p: nat, node: Node, t': Tree)
    requires p < |ns| == |t| == |f| && KidsOk(t, p)
    requires |t'| == |t| + 1 && KidsOk(t', |t|) && t'[|t|].kids == []
    ensures Linked(ns + [node], t', Appended(ns, t, f, p, node), |t|)
  {
  }

  lemma AppendedWired(ns: seq<Node>, t: Tree, f: seq<Links>, p: nat, node: Node)
    requires Wired(ns, t, f) && p < |t| && t[p].kind.Dir? && node !in ns
    ensures KidsOk(t, p)
    ensures Wired(ns + [node], AddNode(t, p, node.name, node.kind, node.data), Appended(ns, t, f, p, node))
  {
    hide Linked;
    var t', f', ns' := AddNode(t, p, node.name, node.kind, node.data), Appended(ns, t, f, p, node), ns + [node];
    assert KidsOk(t, p);
    AddNodeInv(t, p, node.name, node.kind, node.data);
    forall i: nat | i < |ns'| ensures Mirrors(ns', t', f', i) {
      assert i < |ns| ==> Mirrors(ns, t, f, i) && f'[i].parent == f[i].parent;
      assert 1 <= i < |ns| ==> ChildOk(t, i);
    }
    forall q: nat | q < |t'| ensures KidsOk(t', q) && Linked(ns', t', f', q) {
      AppendedLinked(ns, t, f, p, node, node.kind, q);
    }
  }

  class Vfs {
    const root: Node
    /** The nodes in creation order, and the tree their links spell out. */
    ghost var nodes: seq<Node>
    ghost var tree: Tree

    ghost predicate Valid()
      reads this, nodes
    {
      |nodes| >= 1 && nodes[0] == root && Wired(nodes, tree, Snapshot(nodes))
    }

    /** vfs_init when its allocation succeeds; "root" is the root's name. */
    constructor Init()
      ensures Valid() && fresh(root) && nodes == [root]
      ensures tree == [Rec([114, 111, 111, 116], Dir, -1, [], 0)]
    {
      root := new Node([114, 111, 111, 116], Dir, null, 0);
      nodes := [root];
      tree := [Rec([114, 111, 111, 116], Dir, -1, [], 0)];
    }

    /** The number of a node. */
    ghost function Number(n: Node): (i: nat)
      requires n in nodes
      reads this
      ensures i < |nodes| && nodes[i] == n
    {
      var i: nat :| i < |nodes| && nodes[i] == n; i
    }

    /** vfs_create_dir and vfs_create_file; `mem` says whether the node could be
        allocated. A refused or failed call changes nothing. */
    method Create(parent: Node?, name: Text, kind: Kind, data: nat, mem: bool) returns (r: Node?)
      requires Valid() && (parent != null ==> parent in nodes)
      modifies this, nodes
      ensures Valid()
      ensures r != null <==> parent != null && parent.kind.Dir? && mem
      ensures r == null ==> tree == old(tree) && nodes == old(nodes) && unchanged(old(nodes))
      ensures r != null ==> fresh(r) && nodes == old(nodes) + [r]
      ensures r != null ==> tree == AddNode(old(tree), old(Number(parent)), name, kind, data)
    {
      if parent == null || parent.kind != Dir {
        return null;
      }
      if !mem {
        return null;
      }
      ghost var p, f := Number(parent), Snapshot(nodes);
      assert Mirrors(nodes, tree, f, p);
      hide Wired, Linked, Mirrors, KidsOk;
      var node := new Node(name, kind, parent, data);
      AppendedWired(nodes, tree, f, p, node);
      assert Snapshot(nodes) == f;
      AppendChild(parent, node, p);
      tree := AddNode(tree, p, name, kind, data);
      nodes := nodes + [node];
      assert Snapshot(nodes) == Appended(old(nodes), old(tree), f, p, node);
      r := node;
    }

    /** Walk to the last child and hang the new node behind it. */
    method AppendChild(parent: Node, node: Node, ghost p: nat)
      requires Valid() && p < |nodes| && nodes[p] == parent && node !in nodes
      modifies nodes
      ensures KidsOk(tree, p) && Snapshot(nodes) + [Links(parent, null, null)]
          == Appended(nodes, tree, old(Snapshot(nodes)), p, node)
    {
      ghost var kids, f := tree[p].kids, Snapshot(nodes);
      assert KidsOk(tree, p) && Linked(nodes, tree, f, p);
      assert f[p].child == parent.child;
      hide Wired, Mirrors, TreeInv;
      if parent.child == null {
        parent.child := node;
        assert Snapshot(nodes) == f[p := f[p].(child := node)];
      } else {
        var cur := parent.child;
        ghost var j: nat := 0;
        while cur.sibling != null
          invariant unchanged(nodes)
          invariant j < |kids| && cur == nodes[kids[j]]
          decreases |kids| - j
        {
          NextSibling(nodes, tree, f, p, j);
          cur := cur.sibling;
          j := j + 1;
        }
        NextSibling(nodes, tree, f, p, j);
        cur.sibling := node;
        assert Snapshot(nodes) == f[kids[j] := f[kids[j]].(sibling := node)];
      }
    }

    method Lookup(node: Node?, name: Text) returns (r: Node?)
      requires Valid() && (node != null ==> node in nodes)
      ensures node == null || node.kind.File? ==> r == null
      ensures node != null && node.kind.Dir? ==>
                var kids := tree[Number(node)].kids;
                && KidsOk(tree, Number(node))
                && r == (var k := FirstNamed(tree, kids, name); if k < |kids| then nodes[kids[k]] else null)
    {
      if node == null || node.kind != Dir {
        return null;
      }
      ghost var p := Number(node);
      ghost var kids := tree[p].kids;
      ghost var f := Snapshot(nodes);
      assert KidsOk(tree, p) && Linked(nodes, tree, f, p) && f[p].child == node.child;
      var cur := node.child;
      ghost var j: nat := 0;
      while cur != null
        invariant Snapshot(nodes) == f
        invariant j <= |kids| && cur == if j < |kids| then nodes[kids[j]] else null
        invariant forall i :: 0 <= i < j ==> tree[kids[i]].name != name
        decreases |kids| - j
      {
        assert Mirrors(nodes, tree, f, kids[j]);
        CStringEnds(cur.name);
        CStringEnds(name);
        var d := StrCmp(cur.name + [0], name + [0]);
        if d == 0 {
          FirstNamedIs(tree, kids, name, j);
          return cur;
        }
        NextSibling(nodes, tree, f, p, j);
        cur := cur.sibling;
        j := j + 1;
      }
      FirstNamedIs(tree, kids, name, j);
      r := null;
    }
  }

  lemma FirstNamedIs(t: Tree, kids: seq<nat>, name: Text, k: nat)
    requires forall j :: 0 <= j < |kids| ==> kids[j] < |t|
    requires k <= |kids| && (k < |kids| ==> t[kids[k]].name == name)
    requires forall j :: 0 <= j < k ==> t[kids[j]].name != name
    ensures FirstNamed(t, kids, name) == k
  {
  }
}
