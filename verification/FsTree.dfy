/** The name space as a value: which inodes are live and what the slots of every
    live directory hold. The four changes that the file system makes to it (a new
    unnamed inode, a slot filled, a slot cleared, an unnamed inode dropped) keep
    it a forest in which every entry names its own live inode. */
module FsTree {
  import opened Bytes
  import opened FsLayout

  function FreeSlots(n: nat): (es: seq<Entry>)
    ensures |es| == n
  {
    seq(n, _ => NO_ENTRY)
  }

  type Slots = s: seq<Entry> | |s| == SLOTS witness FreeSlots(SLOTS)

  datatype Tree = Tree(root: nat, live: set<nat>, dirs: map<nat, Slots>)

  // ---------------------------------------------------------------- one directory

  /** `entry->inode_id != 0 && strcmp(entry->name, name) == 0`. */
  predicate Shows(e: Entry, name: Text) {
    e.inode != 0 && CString(e.raw) == name
  }

  function FirstMatch(es: seq<Entry>, name: Text): (k: nat)
    ensures k <= |es|
    ensures forall j :: 0 <= j < k ==> !Shows(es[j], name)
    ensures k < |es| ==> Shows(es[k], name)
  {
    if es == [] || Shows(es[0], name) then 0 else 1 + FirstMatch(es[1..], name)
  }

  function FirstFree(es: seq<Entry>): (k: nat)
    ensures k <= |es|
    ensures forall j :: 0 <= j < k ==> es[j].inode != 0
    ensures k < |es| ==> es[k].inode == 0
  {
    if es == [] || es[0].inode == 0 then 0 else 1 + FirstFree(es[1..])
  }

  function Find(es: seq<Entry>, name: Text): nat {
    if FirstMatch(es, name) < |es| then es[FirstMatch(es, name)].inode else 0
  }

  function Count(es: seq<Entry>): (n: nat)
    ensures n <= |es|
  {
    if es == [] then 0 else Count(es[1..]) + if es[0].inode == 0 then 0 else 1
  }

  lemma {:induction false} CountUpdate(es: seq<Entry>, k: nat, e: Entry)
    requires k < |es|
    ensures Count(es[k := e]) + (if es[k].inode == 0 then 0 else 1)
         == Count(es) + (if e.inode == 0 then 0 else 1)
  {
    if k == 0 {
      assert es[0 := e][1..] == es[1..];
    } else {
      assert es[k := e][1..] == es[1..][k - 1 := e];
      CountUpdate(es[1..], k - 1, e);
    }
  }

  lemma {:induction false} CountFree(n: nat)
    ensures Count(FreeSlots(n)) == 0
  {
    if n > 0 {
      assert FreeSlots(n)[1..] == FreeSlots(n - 1);
      CountFree(n - 1);
    }
  }

  ghost predicate UniqueNames(es: seq<Entry>) {
    forall i, j :: 0 <= i < j < |es| && es[i].inode != 0 && es[j].inode != 0
                   ==> CString(es[i].raw) != CString(es[j].raw)
  }

  lemma FirstMatchIs(es: seq<Entry>, name: Text, k: nat)
    requires k < |es| && Shows(es[k], name)
    requires forall j :: 0 <= j < k ==> !Shows(es[j], name)
    ensures FirstMatch(es, name) == k
  {
  }

  /** Filling a free slot with an absent name is a map insertion. */
  lemma FindAfterLink(es: seq<Entry>, k: nat, id: u32, name: Text, n: Text)
    requires k < |es| && es[k].inode == 0
    requires id != 0 && |name| <= MAX_NAME && Find(es, name) == 0
    ensures Find(es[k := Entry(id, RawOf(name))], n) == if n == name then id else Find(es, n)
  {
    RawOfName(name);
    var es' := es[k := Entry(id, RawOf(name))];
    if n == name {
      FirstMatchIs(es', n, k);
    } else {
      var m := FirstMatch(es, n);
      if m < |es| {
        FirstMatchIs(es', n, m);
      } else {
        var m' := FirstMatch(es', n);
        assert m' < |es| ==> es'[m'] == es[m'];
      }
    }
  }

  lemma UniqueAfterLink(es: seq<Entry>, k: nat, id: u32, name: Text)
    requires UniqueNames(es) && k < |es|
    requires |name| <= MAX_NAME && Find(es, name) == 0
    ensures UniqueNames(es[k := Entry(id, RawOf(name))])
  {
    RawOfName(name);
    var es' := es[k := Entry(id, RawOf(name))];
    assert forall j :: 0 <= j < |es| ==> !Shows(es[j], name);
    forall i, j | 0 <= i < j < |es'| && es'[i].inode != 0 && es'[j].inode != 0
      ensures CString(es'[i].raw) != CString(es'[j].raw)
    {
      assert i != k ==> es'[i] == es[i];
      assert j != k ==> es'[j] == es[j];
    }
  }

  /** Clearing the first match of a name is a map removal. */
  lemma FindAfterUnlink(es: seq<Entry>, name: Text, n: Text)
    requires UniqueNames(es)
    requires FirstMatch(es, name) < |es|
    ensures Find(es[FirstMatch(es, name) := NO_ENTRY], n) == if n == name then 0 else Find(es, n)
  {
    var k := FirstMatch(es, name);
    var es' := es[k := NO_ENTRY];
    var m' := FirstMatch(es', n);
    if n != name {
      var m := FirstMatch(es, n);
      if m < |es| {
        FirstMatchIs(es', n, m);
      }
    }
  }

  // ---------------------------------------------------------------- the forest

  ghost predicate Edge(t: Tree, p: nat, k: nat, c: nat) {
    p in t.dirs && k < SLOTS && c != 0 && t.dirs[p][k].inode == c
  }

  ghost predicate Unnamed(t: Tree, id: nat) {
    forall p: nat, k: nat :: !Edge(t, p, k, id)
  }

  ghost predicate Ranked(t: Tree, rank: map<nat, nat>) {
    && rank.Keys == t.live
    && t.dirs.Keys <= t.live
    && (forall p: nat, k: nat, c: nat :: Edge(t, p, k, c) ==> c in t.live && rank[p] < rank[c])
  }

  /** No directory lies below itself. */
  ghost predicate Acyclic(t: Tree) {
    exists rank :: Ranked(t, rank)
  }

  ghost predicate Forest(t: Tree) {
    && t.root in t.dirs
    && 0 !in t.live
    && t.dirs.Keys <= t.live
    && (forall p: nat, k: nat, c: nat :: Edge(t, p, k, c) ==>
          c in t.live && c != t.root && t.dirs[p][k].raw[MAX_NAME] == 0)
    && (forall p: nat, k: nat, q: nat, l: nat, c: nat :: Edge(t, p, k, c) && Edge(t, q, l, c) ==> p == q && k == l)
    && Acyclic(t)
  }

  ghost predicate UniqueTree(t: Tree) {
    forall p :: p in t.dirs ==> UniqueNames(t.dirs[p])
  }

  // ---------------------------------------------------------------- the four changes

  function AddNode(t: Tree, id: nat, dir: bool): Tree {
    Tree(t.root, t.live + {id}, if dir then t.dirs[id := FreeSlots(SLOTS)] else t.dirs)
  }

  function PutSlot(t: Tree, p: nat, k: nat, e: Entry): Tree
    requires p in t.dirs && k < SLOTS
  {
    Tree(t.root, t.live, t.dirs[p := t.dirs[p][k := e]])
  }

  function Drop(t: Tree, id: nat): Tree {
    Tree(t.root, t.live - {id}, t.dirs - {id})
  }

  lemma AddNodeForest(t: Tree, id: nat, dir: bool)
    requires Forest(t) && id != 0 && id !in t.live
    ensures Forest(AddNode(t, id, dir))
    ensures Unnamed(AddNode(t, id, dir), id)
    ensures UniqueTree(t) ==> UniqueTree(AddNode(t, id, dir))
  {
    var t' := AddNode(t, id, dir);
    var rank :| Ranked(t, rank);
    assert forall p: nat, k: nat, c: nat :: Edge(t', p, k, c) ==> Edge(t, p, k, c);
    assert Ranked(t', rank[id := 0]);
  }

  lemma LinkForest(t: Tree, p: nat, k: nat, e: Entry)
    requires Forest(t) && p in t.dirs && k < SLOTS && t.dirs[p][k].inode == 0
    requires e.inode in t.live && e.inode != t.root && e.inode != p && e.raw[MAX_NAME] == 0
    requires Unnamed(t, e.inode)
    requires e.inode in t.dirs ==> t.dirs[e.inode] == FreeSlots(SLOTS)
    ensures Forest(PutSlot(t, p, k, e))
  {
    var t' := PutSlot(t, p, k, e);
    assert forall q: nat, l: nat, c: nat :: Edge(t', q, l, c) ==>
          Edge(t, q, l, c) || (q == p && l == k && c == e.inode);
    var rank :| Ranked(t, rank);
    var rank' := rank[e.inode := rank[p] + 1];
    forall q: nat, l: nat, c: nat | Edge(t', q, l, c) ensures c in t'.live && rank'[q] < rank'[c] {
      assert Edge(t, q, l, c) ==> q != e.inode && c != e.inode;
    }
    assert Ranked(t', rank');
  }

  lemma LinkUnique(t: Tree, p: nat, k: nat, id: u32, name: Text)
    requires UniqueTree(t) && p in t.dirs && k < SLOTS
    requires id != 0 && |name| <= MAX_NAME && Find(t.dirs[p], name) == 0
    ensures UniqueTree(PutSlot(t, p, k, Entry(id, RawOf(name))))
  {
    UniqueAfterLink(t.dirs[p], k, id, name);
  }

  lemma UnlinkForest(t: Tree, p: nat, k: nat)
    requires Forest(t) && p in t.dirs && k < SLOTS
    ensures Forest(PutSlot(t, p, k, NO_ENTRY))
    ensures t.dirs[p][k].inode != 0 ==> Unnamed(PutSlot(t, p, k, NO_ENTRY), t.dirs[p][k].inode)
    ensures UniqueTree(t) ==> UniqueTree(PutSlot(t, p, k, NO_ENTRY))
  {
    var t' := PutSlot(t, p, k, NO_ENTRY);
    var c0 := t.dirs[p][k].inode;
    assert forall q: nat, l: nat, c: nat :: Edge(t', q, l, c) ==> Edge(t, q, l, c) && !(q == p && l == k);
    assert c0 != 0 ==> Edge(t, p, k, c0);
    var rank :| Ranked(t, rank);
    assert Ranked(t', rank);
  }

  lemma DropForest(t: Tree, id: nat)
    requires Forest(t) && id != t.root && Unnamed(t, id)
    ensures Forest(Drop(t, id))
    ensures UniqueTree(t) ==> UniqueTree(Drop(t, id))
  {
    var t' := Drop(t, id);
    assert forall q :: q in t'.dirs ==> q in t.dirs && q != id && t'.dirs[q] == t.dirs[q];
    assert forall q: nat, l: nat, c: nat :: Edge(t', q, l, c) ==> Edge(t, q, l, c);
    var rank :| Ranked(t, rank);
    assert Ranked(t', rank - {id});
  }

  // ---------------------------------------------------------------- consequences

  ghost predicate Child(t: Tree, p: nat, c: nat) {
    exists k: nat :: Edge(t, p, k, c)
  }

  /** A walk down the tree, each step from a directory to an inode one of its slots names. */
  ghost predicate Descends(t: Tree, walk: seq<nat>) {
    forall i :: 0 <= i < |walk| - 1 ==> Child(t, walk[i], walk[i + 1])
  }

  lemma {:induction false} RankGrows(t: Tree, rank: map<nat, nat>, walk: seq<nat>)
    requires Ranked(t, rank) && Descends(t, walk) && |walk| >= 2
    ensures walk[0] in rank && walk[|walk| - 1] in rank && rank[walk[0]] < rank[walk[|walk| - 1]]
  {
    var n := |walk| - 2;
    assert Child(t, walk[n], walk[n + 1]);
    var k :| Edge(t, walk[n], k, walk[n + 1]);
    if n > 0 {
      var front := walk[..n + 1];
      forall i | 0 <= i < |front| - 1 ensures Child(t, front[i], front[i + 1]) {
        assert front[i] == walk[i] && front[i + 1] == walk[i + 1];
      }
      RankGrows(t, rank, front);
    }
  }

  /** No walk of one or more steps comes back to where it started. */
  lemma NoCycle(t: Tree, walk: seq<nat>)
    requires Acyclic(t) && Descends(t, walk) && |walk| >= 2
    ensures walk[0] != walk[|walk| - 1]
  {
    var rank :| Ranked(t, rank);
    RankGrows(t, rank, walk);
  }

  ghost function Targets(es: seq<Entry>, n: nat): set<nat>
    requires n <= |es|
  {
    set k | 0 <= k < n :: es[k].inode
  }

  lemma {:induction false} TargetsCount(es: seq<Entry>, n: nat)
    requires n <= |es|
    requires forall i, j :: 0 <= i < j < n ==> es[i].inode != es[j].inode
    ensures |Targets(es, n)| == n
  {
    if n > 0 {
      TargetsCount(es, n - 1);
      assert Targets(es, n) == Targets(es, n - 1) + {es[n - 1].inode as nat};
      assert es[n - 1].inode !in Targets(es, n - 1);
    } else {
      assert Targets(es, 0) == {};
    }
  }

  lemma SubsetSize(a: set<nat>, b: set<nat>)
    requires a <= b
    ensures |a| <= |b|
  {
    assert b == a + (b - a);
  }

  /** With no more inodes than entry slots, no directory is ever full: its entries
      name distinct live inodes and never the root. */
  lemma DirectoryHasFreeSlot(t: Tree, p: nat)
    requires Forest(t) && p in t.dirs && |t.live| <= SLOTS
    ensures FirstFree(t.dirs[p]) < SLOTS
  {
    var es := t.dirs[p];
    if FirstFree(es) == SLOTS {
      forall k | 0 <= k < SLOTS ensures Edge(t, p, k, es[k].inode) && es[k].inode in t.live - {t.root} {
        assert Edge(t, p, k, es[k].inode);
      }
      forall i, j | 0 <= i < j < SLOTS ensures es[i].inode != es[j].inode {
        assert Edge(t, p, i, es[i].inode) && Edge(t, p, j, es[j].inode);
      }
      TargetsCount(es, SLOTS);
      SubsetSize(Targets(es, SLOTS), t.live - {t.root});
      assert false;
    }
  }
}
