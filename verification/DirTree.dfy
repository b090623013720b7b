/** The compact directory list of the MDS stress test as a value: a sequence of entries
    whose parents are given by index, and what creating and removing an entry do to it. */
module DirTree {
  import opened Mds
  import opened SwapLast

  datatype Entry = Entry(objID: ObjID, parentID: ObjID, parentIdx: int, subdirs: int, name: string)

  // ---------- the tree invariant ----------

  ghost predicate RankedAt(s: seq<Entry>, rank: seq<nat>, i: int)
    requires 0 <= i < |s| == |rank|
  {
    0 <= s[i].parentIdx < |s| && rank[s[i].parentIdx] < rank[i]
  }

  /** `rank` grows from every parent to its children, wherever they sit in the list. */
  ghost predicate Ranked(s: seq<Entry>, rank: seq<nat>) {
    && |rank| == |s| >= 1
    && s[0].parentIdx == -1
    && forall i | 1 <= i < |s| :: RankedAt(s, rank, i)
  }

  ghost predicate IsTree(s: seq<Entry>) {
    exists rank :: Ranked(s, rank)
  }

  ghost predicate ReachesRoot(s: seq<Entry>, i: int, steps: nat)
    decreases steps
  {
    || i == 0
    || (0 < i < |s| && steps > 0 && ReachesRoot(s, s[i].parentIdx, steps - 1))
  }

  ghost function Parents(s: seq<Entry>): (ps: seq<int>) {
    seq(|s|, i requires 0 <= i < |s| => s[i].parentIdx)
  }

  /** The number of entries whose parent is entry `p`. */
  ghost function Kids(s: seq<Entry>, p: int): nat {
    multiset(Parents(s))[p]
  }

  ghost predicate DistinctIDs(s: seq<Entry>) {
    forall i, j | 0 <= i < j < |s| :: s[i].objID != s[j].objID
  }

  /** The list stands for exactly these directories. */
  ghost predicate Represents(s: seq<Entry>, nodes: Directory) {
    && (forall i | 1 <= i < |s| :: StoredAt(s, nodes, i))
    && (forall id {:trigger Listed(s, id)} | id in nodes :: Listed(s, id))
  }

  ghost predicate StoredAt(s: seq<Entry>, nodes: Directory, i: int)
    requires 0 <= i < |s|
  {
    s[i].objID in nodes && nodes[s[i].objID] == Node(s[i].parentID, s[i].name)
  }

  ghost predicate Listed(s: seq<Entry>, id: ObjID) {
    exists i :: 1 <= i < |s| && s[i].objID == id
  }

  /** The stored parent ID is the ID of the entry the parent index names. */
  ghost predicate LinkedAt(s: seq<Entry>, i: int)
    requires 0 <= i < |s|
  {
    0 <= s[i].parentIdx < |s| && s[i].parentID == s[s[i].parentIdx].objID
  }

  ghost predicate Linked(s: seq<Entry>) {
    && |s| >= 1
    && s[0].parentIdx == -1
    && forall i | 1 <= i < |s| :: LinkedAt(s, i)
  }

  ghost predicate Counted(s: seq<Entry>) {
    forall i | 0 <= i < |s| :: s[i].subdirs == Kids(s, i)
  }

  ghost predicate Consistent(s: seq<Entry>, nodes: Directory) {
    && IsTree(s)
    && Linked(s)
    && s[0].objID == ROOT
    && Counted(s)
    && DistinctIDs(s)
    && Represents(s, nodes)
  }

  // ---------- what a tree guarantees ----------

  lemma {:induction false} RankedReachesRoot(s: seq<Entry>, rank: seq<nat>, i: int)
    requires Ranked(s, rank) && 0 <= i < |s|
    ensures ReachesRoot(s, i, rank[i])
    decreases rank[i]
  {
    if i != 0 {
      assert RankedAt(s, rank, i);
      RankedReachesRoot(s, rank, s[i].parentIdx);
      MoreSteps(s, s[i].parentIdx, rank[s[i].parentIdx], rank[i] - 1);
    }
  }

  lemma {:induction false} MoreSteps(s: seq<Entry>, i: int, k: nat, k': nat)
    requires k <= k' && ReachesRoot(s, i, k)
    ensures ReachesRoot(s, i, k')
    decreases k
  {
    if i != 0 {
      MoreSteps(s, s[i].parentIdx, k - 1, k' - 1);
    }
  }

  /** Following parent indices from any entry ends at the root. */
  lemma EveryEntryReachesRoot(s: seq<Entry>, i: int)
    requires IsTree(s) && 0 <= i < |s|
    ensures exists k :: ReachesRoot(s, i, k)
  {
    var rank :| Ranked(s, rank);
    RankedReachesRoot(s, rank, i);
  }

  lemma KidsIffParent(s: seq<Entry>, p: int)
    ensures Kids(s, p) == 0 <==> forall j | 0 <= j < |s| :: s[j].parentIdx != p
  {
    var ps := Parents(s);
    assert p in multiset(ps) <==> p in ps;
    assert forall j | 0 <= j < |s| :: ps[j] == s[j].parentIdx;
  }

  /** A tree with at least one directory has a leaf other than the root, and its root is no leaf. */
  lemma LeafExists(s: seq<Entry>) returns (leaf: int)
    requires IsTree(s) && |s| >= 2
    ensures 1 <= leaf < |s| && Kids(s, leaf) == 0
    ensures Kids(s, 0) > 0
  {
    var rank :| Ranked(s, rank);
    leaf := 1;
    var top := 1;
    for i := 2 to |s|
      invariant 1 <= leaf < |s| && 1 <= top < |s|
      invariant forall j | 1 <= j < i :: rank[top] <= rank[j] <= rank[leaf]
    {
      if rank[i] > rank[leaf] { leaf := i; }
      if rank[i] < rank[top] { top := i; }
    }
    assert RankedAt(s, rank, top);
    forall j | 0 <= j < |s| ensures s[j].parentIdx != leaf {
      assert j > 0 ==> RankedAt(s, rank, j);
    }
    KidsIffParent(s, leaf);
    KidsIffParent(s, 0);
  }

  /** The server refuses to remove exactly the entries that have children. */
  lemma LeafIffEmpty(s: seq<Entry>, nodes: Directory, i: int)
    requires Linked(s) && DistinctIDs(s) && Represents(s, nodes) && 0 <= i < |s|
    ensures Kids(s, i) == 0 <==> Empty(nodes, s[i].objID)
  {
    KidsIffParent(s, i);
    if Kids(s, i) == 0 {
      forall c | c in nodes ensures nodes[c].parent != s[i].objID {
        assert Listed(s, c);
        var j :| 1 <= j < |s| && s[j].objID == c;
        assert LinkedAt(s, j) && StoredAt(s, nodes, j) && s[j].parentIdx != i;
      }
    } else {
      var j :| 0 <= j < |s| && s[j].parentIdx == i;
      assert LinkedAt(s, j) && StoredAt(s, nodes, j) && nodes[s[j].objID].parent == s[i].objID;
    }
  }

  // ---------- creation ----------

  function Created(s: seq<Entry>, parent: int, id: ObjID, name: string): seq<Entry>
    requires 0 <= parent < |s|
  {
    s[parent := s[parent].(subdirs := s[parent].subdirs + 1)]
    + [Entry(id, s[parent].objID, parent, 0, name)]
  }

  lemma CreatedKids(s: seq<Entry>, parent: int, id: ObjID, name: string, v: int)
    requires 0 <= parent < |s|
    ensures Kids(Created(s, parent, id, name), v) == Kids(s, v) + (if v == parent then 1 else 0)
  {
    assert Parents(Created(s, parent, id, name)) == Parents(s) + [parent];
  }

  lemma CreatedRepresents(s: seq<Entry>, nodes: Directory, parent: int, id: ObjID, name: string)
    requires Represents(s, nodes) && DistinctIDs(s) && 0 <= parent < |s| && s[0].objID == ROOT
    requires !Exists(nodes, id)
    ensures DistinctIDs(Created(s, parent, id, name))
    ensures Represents(Created(s, parent, id, name), nodes[id := Node(s[parent].objID, name)])
  {
    var t, m := Created(s, parent, id, name), nodes[id := Node(s[parent].objID, name)];
    forall i | 0 <= i < |t| ensures i > 0 ==> StoredAt(t, m, i)
      ensures i < |s| ==> s[i].objID != id
    {
      assert 0 < i < |s| ==> StoredAt(s, nodes, i);
    }
    forall x | x in m ensures Listed(t, x) {
      if x == id {
        assert t[|s|].objID == x;
      } else {
        assert Listed(s, x);
        var i :| 1 <= i < |s| && s[i].objID == x;
        assert t[i].objID == x;
      }
    }
  }

  lemma CreatedTree(s: seq<Entry>, parent: int, id: ObjID, name: string)
    requires IsTree(s) && Linked(s) && Counted(s) && 0 <= parent < |s|
    ensures var t := Created(s, parent, id, name); IsTree(t) && Linked(t) && Counted(t)
  {
    var t := Created(s, parent, id, name);
    var rank :| Ranked(s, rank);
    var rank' := rank + [rank[parent] + 1];
    forall i | 1 <= i < |t| ensures RankedAt(t, rank', i) {
      assert i < |s| ==> RankedAt(s, rank, i);
    }
    assert Ranked(t, rank');
    forall i | 1 <= i < |t| ensures LinkedAt(t, i) {
      assert i < |s| ==> LinkedAt(s, i);
    }
    forall j | 0 <= j < |s| ensures s[j].parentIdx != |s| {
      assert j > 0 ==> LinkedAt(s, j);
    }
    KidsIffParent(s, |s|);
    forall i | 0 <= i < |t| ensures t[i].subdirs == Kids(t, i) {
      CreatedKids(s, parent, id, name, i);
    }
  }

  /** Attaching a fresh entry to any listed directory keeps the list a tree that stands for the server's. */
  lemma CreatedConsistent(s: seq<Entry>, nodes: Directory, parent: int, id: ObjID, name: string)
    requires Consistent(s, nodes) && 0 <= parent < |s|
    requires !Exists(nodes, id)
    ensures Consistent(Created(s, parent, id, name), nodes[id := Node(s[parent].objID, name)])
  {
    CreatedTree(s, parent, id, name);
    CreatedRepresents(s, nodes, parent, id, name);
  }

  // ---------- removal ----------

  function Repointed(s: seq<Entry>, from: int, to: int): seq<Entry> {
    seq(|s|, i requires 0 <= i < |s| =>
      if s[i].parentIdx == from then s[i].(parentIdx := to) else s[i])
  }

  function DropKid(s: seq<Entry>, p: int): seq<Entry>
    requires 0 <= p < |s|
  {
    s[p := s[p].(subdirs := s[p].subdirs - 1)]
  }

  /** The last entry takes the place of entry `idx`; whoever pointed at it follows. */
  function Removed(s: seq<Entry>, idx: int): seq<Entry>
    requires 1 <= idx < |s| && 0 <= s[idx].parentIdx < |s|
  {
    var a := DropKid(s, s[idx].parentIdx);
    Repointed(a[idx := a[|s| - 1]][..|s| - 1], |s| - 1, idx)
  }

  lemma {:induction false} RepointedKids(s: seq<Entry>, from: int, to: int, v: int)
    requires from != to
    ensures Kids(Repointed(s, from, to), v) ==
            if v == to then Kids(s, to) + Kids(s, from) else if v == from then 0 else Kids(s, v)
  {
    if |s| > 0 {
      var n := |s| - 1;
      RepointedKids(s[..n], from, to, v);
      var t := Repointed(s, from, to);
      assert Parents(s) == Parents(s[..n]) + [s[n].parentIdx];
      assert Parents(t) == Parents(Repointed(s[..n], from, to)) + [t[n].parentIdx];
    }
  }

  /** Moving the last entry over `idx` loses exactly the parent link of `idx`. */
  lemma MovedKids(s: seq<Entry>, idx: int, v: int)
    requires 1 <= idx < |s| && 0 <= s[idx].parentIdx < |s|
    ensures var a := DropKid(s, s[idx].parentIdx);
            Kids(a[idx := a[|s| - 1]][..|s| - 1], v) == Kids(s, v) - (if v == s[idx].parentIdx then 1 else 0)
  {
    var last := |s| - 1;
    var a := DropKid(s, s[idx].parentIdx);
    assert Parents(a[idx := a[last]][..last]) == SwapWithLast(Parents(s), idx);
    SwapRemove(Parents(s), idx);
  }

  lemma RemovedKids(s: seq<Entry>, idx: int, v: int)
    requires 1 <= idx < |s| && 0 <= s[idx].parentIdx < |s|
    requires Kids(s, idx) == 0 && 0 <= v < |s| - 1
    ensures Kids(Removed(s, idx), v) ==
            if v == idx then Kids(s, |s| - 1) - (if s[idx].parentIdx == |s| - 1 then 1 else 0)
            else Kids(s, v) - (if v == s[idx].parentIdx then 1 else 0)
  {
    var last := |s| - 1;
    var a := DropKid(s, s[idx].parentIdx);
    KidsIffParent(s, idx);
    MovedKids(s, idx, v);
    MovedKids(s, idx, last);
    MovedKids(s, idx, idx);
    if idx != last {
      RepointedKids(a[idx := a[last]][..last], last, idx, v);
    } else {
      KidsIffParent(a[idx := a[last]][..last], last);
      assert Removed(s, idx) == a[idx := a[last]][..last];
    }
  }

  /** An entry of the shortened list comes from an entry of the old one that keeps its identity. */
  function Origin(s: seq<Entry>, idx: int, i: int): int {
    if i == idx then |s| - 1 else i
  }

  lemma RemovedEntry(s: seq<Entry>, idx: int, i: int)
    requires 1 <= idx < |s| && 0 <= s[idx].parentIdx < |s|
    requires 0 <= i < |s| - 1
    ensures var e, e' := s[Origin(s, idx, i)], Removed(s, idx)[i];
            && (e'.objID, e'.parentID, e'.name) == (e.objID, e.parentID, e.name)
            && e'.subdirs == e.subdirs - (if Origin(s, idx, i) == s[idx].parentIdx then 1 else 0)
            && e'.parentIdx == (if e.parentIdx == |s| - 1 then idx else e.parentIdx)
  {
  }

  lemma RemovedIsTree(s: seq<Entry>, idx: int)
    requires IsTree(s) && 1 <= idx < |s| && Kids(s, idx) == 0 && 0 <= s[idx].parentIdx < |s|
    ensures IsTree(Removed(s, idx))
  {
    var rank :| Ranked(s, rank);
    var last, t := |s| - 1, Removed(s, idx);
    var rank' := rank[idx := rank[last]][..last];
    KidsIffParent(s, idx);
    forall i | 1 <= i < |t| ensures RankedAt(t, rank', i) {
      RemovedEntry(s, idx, i);
      assert RankedAt(s, rank, Origin(s, idx, i));
    }
    RemovedEntry(s, idx, 0);
    assert Ranked(t, rank');
  }

  lemma RemovedRepresents(s: seq<Entry>, nodes: Directory, idx: int)
    requires Represents(s, nodes) && DistinctIDs(s) && 1 <= idx < |s| && 0 <= s[idx].parentIdx < |s|
    ensures DistinctIDs(Removed(s, idx))
    ensures Represents(Removed(s, idx), nodes - {s[idx].objID})
  {
    var t, m := Removed(s, idx), nodes - {s[idx].objID};
    forall i | 0 <= i < |t|
      ensures (t[i].objID, t[i].parentID, t[i].name) ==
              (s[Origin(s, idx, i)].objID, s[Origin(s, idx, i)].parentID, s[Origin(s, idx, i)].name)
    {
      RemovedEntry(s, idx, i);
    }
    forall i | 1 <= i < |t| ensures StoredAt(t, m, i) {
      assert StoredAt(s, nodes, Origin(s, idx, i));
    }
    forall x | x in m ensures Listed(t, x) {
      assert Listed(s, x);
      var i :| 1 <= i < |s| && s[i].objID == x;
      assert t[if i == |s| - 1 then idx else i].objID == x;
    }
  }

  lemma RemovedLinked(s: seq<Entry>, idx: int)
    requires Linked(s) && 1 <= idx < |s| && Kids(s, idx) == 0 && 0 <= s[idx].parentIdx < |s|
    ensures Linked(Removed(s, idx))
  {
    var t := Removed(s, idx);
    KidsIffParent(s, idx);
    RemovedEntry(s, idx, 0);
    forall i | 1 <= i < |t| ensures LinkedAt(t, i) {
      assert LinkedAt(s, Origin(s, idx, i));
      RemovedEntry(s, idx, i);
      RemovedEntry(s, idx, t[i].parentIdx);
    }
  }

  lemma RemovedCounted(s: seq<Entry>, idx: int)
    requires Counted(s) && 1 <= idx < |s| && Kids(s, idx) == 0 && 0 <= s[idx].parentIdx < |s|
    ensures Counted(Removed(s, idx))
  {
    var t := Removed(s, idx);
    forall i | 0 <= i < |t| ensures t[i].subdirs == Kids(t, i) {
      RemovedEntry(s, idx, i);
      RemovedKids(s, idx, i);
    }
  }

  /** Removing a leaf keeps the list a tree that stands for the server's directory without it. */
  lemma RemovedConsistent(s: seq<Entry>, nodes: Directory, idx: int)
    requires Consistent(s, nodes) && 1 <= idx < |s| && Kids(s, idx) == 0 && 0 <= s[idx].parentIdx < |s|
    ensures Consistent(Removed(s, idx), nodes - {s[idx].objID})
  {
    RemovedIsTree(s, idx);
    RemovedRepresents(s, nodes, idx);
    RemovedLinked(s, idx);
    RemovedCounted(s, idx);
    RemovedEntry(s, idx, 0);
  }

  // ---------- removal that takes its entry from above the list ----------

  /** What is left when the entry removed is a leftover at `to`, above the list, whose parent index is `p`: the last
      entry is lost, the leftover's parent has one child less, and what pointed to the last entry points to `to`. */
  function Dropped(s: seq<Entry>, p: int, to: int): seq<Entry>
    requires s != [] && 0 <= p
  {
    Repointed((if p < |s| then DropKid(s, p) else s)[..|s| - 1], |s| - 1, to)
  }

  lemma DroppedEntry(s: seq<Entry>, p: int, to: int, i: int)
    requires 0 <= p && 0 <= i < |s| - 1
    ensures var e, e' := s[i], Dropped(s, p, to)[i];
            && (e'.objID, e'.parentID, e'.name) == (e.objID, e.parentID, e.name)
            && e'.subdirs == e.subdirs - (if i == p then 1 else 0)
            && e'.parentIdx == (if e.parentIdx == |s| - 1 then to else e.parentIdx)
  {
  }

  /** The last entry's directory is empty, so nothing points to the last entry. */
  lemma LastIsLeaf(s: seq<Entry>, nodes: Directory)
    requires Consistent(s, nodes) && |s| >= 2 && Empty(nodes, s[|s| - 1].objID)
    ensures Kids(s, |s| - 1) == 0 && 0 <= s[|s| - 1].parentIdx < |s| - 1
    ensures forall j | 0 <= j < |s| :: s[j].parentIdx != |s| - 1
  {
    var last := |s| - 1;
    LeafIffEmpty(s, nodes, last);
    KidsIffParent(s, last);
    assert LinkedAt(s, last);
  }

  lemma DroppedIsRemoved(s: seq<Entry>, nodes: Directory, to: int)
    requires Consistent(s, nodes) && |s| >= 2 && to >= |s| && Empty(nodes, s[|s| - 1].objID)
    ensures 0 <= s[|s| - 1].parentIdx < |s| && Dropped(s, s[|s| - 1].parentIdx, to) == Removed(s, |s| - 1)
    ensures Consistent(Dropped(s, s[|s| - 1].parentIdx, to), nodes - {s[|s| - 1].objID})
  {
    var last := |s| - 1;
    LastIsLeaf(s, nodes);
    var t, r := Dropped(s, s[last].parentIdx, to), Removed(s, last);
    forall i | 0 <= i < last ensures t[i] == r[i] {
      DroppedEntry(s, s[last].parentIdx, to, i);
      RemovedEntry(s, last, i);
    }
    assert t == r;
    RemovedConsistent(s, nodes, last);
  }

  lemma LastUnlisted(s: seq<Entry>, t: seq<Entry>)
    requires DistinctIDs(s) && |t| == |s| - 1
    requires forall i | 0 <= i < |t| :: t[i].objID == s[i].objID
    ensures !Listed(t, s[|s| - 1].objID)
  {
    assert forall i | 0 <= i < |t| :: t[i].objID != s[|s| - 1].objID;
  }

  /** A directory that all entries but the last represent has lost the last one's. */
  lemma LostIsLast(s: seq<Entry>, nodes: Directory, t: seq<Entry>, id: ObjID)
    requires Represents(s, nodes) && DistinctIDs(s) && |t| == |s| - 1 >= 1
    requires forall i | 0 <= i < |t| :: t[i].objID == s[i].objID
    requires Represents(t, nodes - {id})
    ensures id == s[|s| - 1].objID
  {
    assert StoredAt(s, nodes, |s| - 1);
    LastUnlisted(s, t);
  }

  /** The wrong parent loses a child it did not have. */
  lemma WrongParentMiscounted(s: seq<Entry>, p: int, q: int, to: int)
    requires 0 <= p && 0 <= q < |s| - 1 && p != q && Counted(Dropped(s, q, to))
    ensures !Counted(Dropped(s, p, to))
  {
    var t, r := Dropped(s, p, to), Dropped(s, q, to);
    forall i | 0 <= i < |t| ensures Parents(t)[i] == Parents(r)[i] {
      DroppedEntry(s, p, to, i);
      DroppedEntry(s, q, to, i);
    }
    assert Parents(t) == Parents(r);
    DroppedEntry(s, p, to, q);
    DroppedEntry(s, q, to, q);
    assert r[q].subdirs == Kids(r, q) == Kids(t, q) != t[q].subdirs;
  }

  lemma DroppedIsLast(s: seq<Entry>, nodes: Directory, id: ObjID, p: int, to: int)
    requires Consistent(s, nodes) && |s| >= 2 && 0 <= p && to >= |s| && Empty(nodes, id)
    requires Consistent(Dropped(s, p, to), nodes - {id})
    ensures id == s[|s| - 1].objID && p == s[|s| - 1].parentIdx
  {
    var t := Dropped(s, p, to);
    forall i | 0 <= i < |t| ensures t[i].objID == s[i].objID {
      DroppedEntry(s, p, to, i);
    }
    LostIsLast(s, nodes, t, id);
    LastIsLeaf(s, nodes);
    DroppedIsRemoved(s, nodes, to);
    if p != s[|s| - 1].parentIdx {
      WrongParentMiscounted(s, p, s[|s| - 1].parentIdx, to);
    }
  }

  /** So a removal that the server grants for a leftover keeps the list right exactly when the leftover names the last
      entry's directory and parent: then it is the removal of the last entry. */
  lemma DroppedConsistentIff(s: seq<Entry>, nodes: Directory, id: ObjID, p: int, to: int)
    requires Consistent(s, nodes) && |s| >= 2 && 0 <= p && to >= |s| && Removable(nodes, id)
    ensures Consistent(Dropped(s, p, to), nodes - {id}) <==> id == s[|s| - 1].objID && p == s[|s| - 1].parentIdx
  {
    if Consistent(Dropped(s, p, to), nodes - {id}) {
      DroppedIsLast(s, nodes, id, p, to);
    } else if id == s[|s| - 1].objID {
      DroppedIsRemoved(s, nodes, to);
    }
  }
}
