/** Unique names of the stress test: "Name" and a counter of at least eight decimal digits. */
module StressNames {

  const DIGITS := "0123456789"

  function Decimal(n: nat): (s: string)
    ensures |s| > 0
  {
    if n < 10 then [DIGITS[n]] else Decimal(n / 10) + [DIGITS[n % 10]]
  }

  function Padded(s: string, width: nat): string
    decreases width - |s|
  {
    if |s| < width then Padded("0" + s, width) else s
  }

  function CreateName(num: nat): string {
    "Name" + Padded(Decimal(num), 8)
  }

  function DigitValue(c: char): int {
    c as int - '0' as int
  }

  function NumberOf(s: string): int {
    if s == "" then 0 else 10 * NumberOf(s[..|s| - 1]) + DigitValue(s[|s| - 1])
  }

  lemma {:induction false} DecimalNumber(n: nat)
    ensures NumberOf(Decimal(n)) == n
  {
    if n >= 10 {
      DecimalNumber(n / 10);
      assert Decimal(n)[..|Decimal(n)| - 1] == Decimal(n / 10);
    } else {
      assert Decimal(n)[..0] == "";
    }
  }

  lemma {:induction false} LeadingZero(s: string)
    ensures NumberOf("0" + s) == NumberOf(s)
  {
    if s == "" {
      assert ("0" + s)[..0] == "";
    } else {
      LeadingZero(s[..|s| - 1]);
      assert ("0" + s)[..|s|] == "0" + s[..|s| - 1];
    }
  }

  lemma {:induction false} PaddedNumber(s: string, width: nat)
    ensures NumberOf(Padded(s, width)) == NumberOf(s)
    decreases width - |s|
  {
    if |s| < width {
      PaddedNumber("0" + s, width);
      LeadingZero(s);
    }
  }

  predicate AllDigits(s: string) {
    forall k | 0 <= k < |s| :: '0' <= s[k] <= '9'
  }

  lemma {:induction false} DecimalForm(n: nat)
    ensures AllDigits(Decimal(n)) && (n > 0 ==> Decimal(n)[0] != '0')
  {
    if n >= 10 { DecimalForm(n / 10); }
  }

  lemma {:induction false} PaddedForm(s: string, width: nat)
    requires AllDigits(s)
    ensures var p := Padded(s, width); AllDigits(p) && |p| == if |s| < width then width else |s|
    ensures |s| >= width ==> Padded(s, width) == s
    decreases width - |s|
  {
    if |s| < width { PaddedForm("0" + s, width); }
  }

  /** A name is "Name" and the number in decimal digits: eight, or as many as it takes. */
  lemma NameForm(num: nat)
    ensures var name := CreateName(num); var digits := name[4..];
            && name[..4] == "Name"
            && |digits| >= 8 && AllDigits(digits) && NumberOf(digits) == num
            && (|digits| > 8 ==> digits[0] != '0')
  {
    var name, digits := CreateName(num), Padded(Decimal(num), 8);
    assert name[..4] == "Name" && name[4..] == digits;
    DecimalForm(num);
    PaddedForm(Decimal(num), 8);
    PaddedNumber(Decimal(num), 8);
    DecimalNumber(num);
  }

  /** No two counter values give the same name. */
  lemma NamesInjective(a: nat, b: nat)
    requires CreateName(a) == CreateName(b)
    ensures a == b
  {
    assert CreateName(a)[4..] == Padded(Decimal(a), 8);
    assert CreateName(b)[4..] == Padded(Decimal(b), 8);
    PaddedNumber(Decimal(a), 8);
    PaddedNumber(Decimal(b), 8);
    DecimalNumber(a);
    DecimalNumber(b);
  }
}

/** The stress test: random creation and removal of directories over one flat array. */
module StressDir {
  import opened Arith
  import opened Mds
  import opened DirTree
  import opened StressNames

  const RAND_MAX := 0x7fff_ffff

  /** The scaling of a random draw to a list index, over exact arithmetic: the index is in the list exactly
      when the draw is below RAND_MAX. */
  function PickIndex(cnt: nat, rnd: nat): (i: int)
    requires rnd <= RAND_MAX
    ensures 0 <= i <= cnt + 1
    ensures i <= cnt <==> rnd < RAND_MAX
  {
    ScaledBelow(cnt + 1, rnd, RAND_MAX);
    (cnt + 1) * rnd / RAND_MAX
  }

  /** It is the draw scaled down from the range of `random` to the size of the list. */
  lemma PickIndexScales(cnt: nat, rnd: nat)
    requires rnd <= RAND_MAX
    ensures var i := PickIndex(cnt, rnd); i * RAND_MAX <= (cnt + 1) * rnd < (i + 1) * RAND_MAX
  {
    QuotientRange((cnt + 1) * rnd, RAND_MAX);
  }

  ghost predicate Numbered(name: string, num: nat) {
    exists k: nat :: k < num && name == CreateName(k)
  }

  ghost predicate NamesBelow(nodes: Directory, num: nat) {
    forall id | id in nodes :: Numbered(nodes[id].name, num)
  }

  lemma FreshName(nodes: Directory, parent: ObjID, num: nat)
    requires NamesBelow(nodes, num)
    ensures NameFree(nodes, parent, CreateName(num))
  {
    forall id | id in nodes ensures nodes[id].name != CreateName(num) {
      assert Numbered(nodes[id].name, num);
      var k: nat :| k < num && nodes[id].name == CreateName(k);
      if nodes[id].name == CreateName(num) {
        NamesInjective(k, num);
      }
    }
  }

  /** No entry from `lo` up to `hi` is without children. */
  predicate AllParents(s: seq<Entry>, lo: int, hi: int)
    requires 0 <= lo && hi <= |s|
  {
    forall i | lo <= i < hi :: s[i].subdirs != 0
  }

  /** Entry `idx` is the first without children, going up from `start` and on from entry 1 after the last. */
  predicate FoundFrom(s: seq<Entry>, start: int, idx: int) {
    && 1 <= idx < |s| && 0 <= start <= |s|
    && s[idx].subdirs == 0
    && if start <= idx then AllParents(s, start, idx) else AllParents(s, start, |s|) && AllParents(s, 1, idx)
  }

  /** A search that ends in the list can end at one entry only. */
  lemma FoundUnique(s: seq<Entry>, start: int, i: int, j: int)
    requires s != [] && s[0].subdirs != 0 && FoundFrom(s, start, i) && FoundFrom(s, start, j)
    ensures i == j
  {
  }

  /** The wrap-around search for an entry without subdirectories.  It stops from every start; what it finds lies
      in the list exactly when it started there or passed the leftover slot just above it, and is the first then. */
  method SearchLeaf(a: array<Entry>, cnt: int, start: int, ghost s: seq<Entry>, ghost leaf: int) returns (idx: int)
    requires 0 <= cnt < a.Length && s == a[..cnt + 1]
    requires 1 <= leaf <= cnt && 0 <= start <= cnt + 1 < a.Length
    requires a[leaf].subdirs == 0 && a[0].subdirs != 0
    ensures 1 <= idx <= cnt + 1 && a[idx].subdirs == 0
    ensures idx <= cnt <==> start <= cnt || a[cnt + 1].subdirs != 0
    ensures idx <= cnt ==> FoundFrom(s, start, idx)
  {
    idx := start;
    while a[idx].subdirs != 0
      invariant 0 <= idx <= cnt + 1
      invariant idx == start || (idx <= cnt && (start <= cnt || a[cnt + 1].subdirs != 0))
      invariant if start <= idx then idx <= cnt ==> AllParents(s, start, idx)
                else 1 <= idx <= leaf && AllParents(s, start, cnt + 1) && AllParents(s, 1, idx)
      decreases if idx <= leaf then leaf - idx else cnt + leaf + 1 - idx
    {
      idx := idx + 1;
      if idx > cnt {
        idx := 1;
      }
    }
  }

  /** The fix-up loop: whoever pointed to the moved last entry now points to where it went. */
  method Repoint(a: array<Entry>, cnt: int, idx: int)
    requires 0 <= cnt < a.Length
    modifies a
    ensures a[..cnt] == Repointed(old(a[..cnt]), cnt, idx)
    ensures forall k | cnt <= k < a.Length :: a[k] == old(a[k])
  {
    for i := 0 to cnt
      invariant forall k | 0 <= k < i :: a[k] == Repointed(old(a[..cnt]), cnt, idx)[k]
      invariant forall k | i <= k < a.Length :: a[k] == old(a[k])
    {
      if a[i].parentIdx == cnt {
        a[i] := a[i].(parentIdx := idx);
      }
    }
  }

  /** One child less for the parent of entry `idx`, and the last entry over it. */
  method MoveLast(a: array<Entry>, cnt: int, idx: int)
    requires 1 <= cnt < a.Length && 1 <= idx < a.Length
    requires forall i | 1 <= i < a.Length :: 0 <= a[i].parentIdx < a.Length
    modifies a
    ensures var s, p := old(a[..cnt + 1]), old(a[idx].parentIdx);
            && (idx <= cnt && p <= cnt ==> a[..cnt] == DropKid(s, p)[idx := DropKid(s, p)[cnt]][..cnt])
            && (idx > cnt ==> a[..cnt] == (if p <= cnt then DropKid(s, p) else s)[..cnt])
    ensures forall i | 1 <= i < a.Length :: 0 <= a[i].parentIdx < a.Length
  {
    var p := a[idx].parentIdx;
    a[p] := a[p].(subdirs := a[p].subdirs - 1);
    a[idx] := a[cnt];
  }

  /** The in-place removal: one child less for the parent, the last entry over the hole, parent indices repaired. */
  method Compact(a: array<Entry>, cnt: int, idx: int)
    requires 1 <= cnt < a.Length && 1 <= idx < a.Length
    requires forall i | 1 <= i < a.Length :: 0 <= a[i].parentIdx < a.Length
    modifies a
    ensures idx <= cnt && old(a[idx].parentIdx) <= cnt ==> a[..cnt] == Removed(old(a[..cnt + 1]), idx)
    ensures idx > cnt ==> a[..cnt] == Dropped(old(a[..cnt + 1]), old(a[idx].parentIdx), idx)
    ensures forall i | 1 <= i < a.Length :: 0 <= a[i].parentIdx < a.Length
  {
    MoveLast(a, cnt, idx);
    ghost var mid := a[..cnt];
    assert forall i | 1 <= i < cnt :: 0 <= mid[i].parentIdx < a.Length;
    Repoint(a, cnt, idx);
    assert forall i | 0 <= i < cnt :: a[i] == Repointed(mid, cnt, idx)[i] by {
      assert a[..cnt] == Repointed(mid, cnt, idx);
    }
  }

  lemma NamesShrink(nodes: Directory, num: nat, id: ObjID)
    requires NamesBelow(nodes, num)
    ensures NamesBelow(nodes - {id}, num)
  {
    forall x | x in nodes - {id} ensures Numbered((nodes - {id})[x].name, num) {
      assert Numbered(nodes[x].name, num);
    }
  }

  lemma NamesGrow(nodes: Directory, num: nat, id: ObjID, parent: ObjID)
    requires NamesBelow(nodes, num)
    ensures NamesBelow(nodes[id := Node(parent, CreateName(num))], num + 1)
  {
    var m := nodes[id := Node(parent, CreateName(num))];
    forall x | x in m ensures Numbered(m[x].name, num + 1) {
      if x != id {
        assert Numbered(nodes[x].name, num);
        var k: nat :| k < num && nodes[x].name == CreateName(k);
        assert k < num + 1 && m[x].name == CreateName(k);
      }
    }
  }

  lemma ListedExists(s: seq<Entry>, nodes: Directory, i: int)
    requires Consistent(s, nodes) && 0 <= i < |s|
    ensures Exists(nodes, s[i].objID)
  {
    assert i > 0 ==> StoredAt(s, nodes, i);
  }

  lemma ListedLeaf(s: seq<Entry>, nodes: Directory, i: int)
    requires Consistent(s, nodes) && 1 <= i < |s| && s[i].subdirs == 0
    ensures Kids(s, i) == 0 && 0 <= s[i].parentIdx < |s|
    ensures Removable(nodes, s[i].objID)
  {
    assert LinkedAt(s, i) && StoredAt(s, nodes, i);
    LeafIffEmpty(s, nodes, i);
  }

  /** No entry of a tree is its own parent. */
  lemma NoSelfParent(s: seq<Entry>, i: int)
    requires IsTree(s) && 0 <= i < |s|
    ensures s[i].parentIdx != i
  {
    var rank :| Ranked(s, rank);
    assert i > 0 ==> RankedAt(s, rank, i);
  }

  /** Two entries name the same directory under the same parent entry. */
  predicate SameNode(a: Entry, b: Entry) {
    a.objID == b.objID && a.parentIdx == b.parentIdx
  }

  /** If the server removes the leftover's directory, list and server stay right exactly when `stays`. */
  ghost predicate StaysIff(s: seq<Entry>, nodes: Directory, leftover: Entry, num: nat, stays: bool)
    requires s != [] && 0 <= leftover.parentIdx
  {
    var t, rest := Dropped(s, leftover.parentIdx, |s|), nodes - {leftover.objID};
    Removable(nodes, leftover.objID) ==> (stays <==> Consistent(t, rest) && NamesBelow(rest, num))
  }

  lemma LeftoverStays(s: seq<Entry>, nodes: Directory, leftover: Entry, num: nat) returns (stays: bool)
    requires Consistent(s, nodes) && NamesBelow(nodes, num) && |s| >= 2 && 0 <= leftover.parentIdx
    ensures StaysIff(s, nodes, leftover, num, stays)
    ensures stays <==> SameNode(leftover, s[|s| - 1])
  {
    stays := SameNode(leftover, s[|s| - 1]);
    if Removable(nodes, leftover.objID) {
      DroppedConsistentIff(s, nodes, leftover.objID, leftover.parentIdx, |s|);
      NamesShrink(nodes, num, leftover.objID);
    }
  }

  // ---------- what the draws say ----------

  /** The list, the server's directory and the name counter. */
  datatype World = World(list: seq<Entry>, nodes: Directory, num: nat)

  /** A create: one more child, under a new ID and the next name, for the entry drawn. */
  ghost predicate GrownBy(w: World, rnd: nat, w': World)
    requires w.list != [] && rnd < RAND_MAX
  {
    var parent := PickIndex(|w.list| - 1, rnd);
    && |w'.list| == |w.list| + 1
    && var id := w'.list[|w.list|].objID;
      && !Exists(w.nodes, id)
      && w' == World(Created(w.list, parent, id, CreateName(w.num)),
                     w.nodes[id := Node(w.list[parent].objID, CreateName(w.num))], w.num + 1)
  }

  /** A removal: list and directory lose the first leaf from the entry drawn on. */
  ghost predicate ShrunkBy(w: World, rnd: nat, w': World)
    requires w.list != [] && rnd < RAND_MAX
  {
    exists idx :: FoundFrom(w.list, PickIndex(|w.list| - 1, rnd), idx) && WithoutLeaf(w, idx, w')
  }

  ghost predicate WithoutLeaf(w: World, idx: int, w': World) {
    && 1 <= idx < |w.list| && 0 <= w.list[idx].parentIdx < |w.list|
    && w' == World(Removed(w.list, idx), w.nodes - {w.list[idx].objID}, w.num)
  }

  /** One turn: a create for three draws in four, else a removal if there is anything to remove. */
  ghost predicate StepOf(w: World, op: nat, rnd: nat, w': World) {
    && w.list != [] && rnd < RAND_MAX
    && if 4 * op > RAND_MAX then GrownBy(w, rnd, w') else if |w.list| > 1 then ShrunkBy(w, rnd, w') else w' == w
  }

  ghost predicate Traced(trace: seq<World>, draws: seq<(nat, nat)>, n: nat) {
    && n <= |draws| && |trace| == n + 1
    && forall k | 0 <= k < n :: TurnAt(trace, draws, k)
  }

  /** Turn `k` is what draw `k` says. */
  ghost predicate TurnAt(trace: seq<World>, draws: seq<(nat, nat)>, k: nat)
    requires k < |draws| && k + 1 < |trace|
  {
    StepOf(trace[k], draws[k].0, draws[k].1, trace[k + 1])
  }

  /** How many of the first `n` draws create. */
  ghost function Creations(draws: seq<(nat, nat)>, n: nat): nat
    requires n <= |draws|
  {
    |set k: nat | k < n && 4 * draws[k].0 > RAND_MAX|
  }

  lemma CreationsStep(draws: seq<(nat, nat)>, n: nat)
    requires n < |draws|
    ensures Creations(draws, n + 1) == Creations(draws, n) + if 4 * draws[n].0 > RAND_MAX then 1 else 0
  {
    var creating := set k: nat | k < n && 4 * draws[k].0 > RAND_MAX;
    var after := set k: nat | k < n + 1 && 4 * draws[k].0 > RAND_MAX;
    assert after == if 4 * draws[n].0 > RAND_MAX then creating + {n} else creating;
  }

  /** The number of entries after the first `n` draws: one up for a create, one down, but not below 0, for a removal. */
  ghost function Level(draws: seq<(nat, nat)>, n: nat): nat
    requires n <= |draws|
  {
    if n == 0 then 0
    else
      var level := Level(draws, n - 1);
      if 4 * draws[n - 1].0 > RAND_MAX then level + 1 else if level > 0 then level - 1 else 0
  }

  /** There was room for another entry before each of the first `n` turns. */
  ghost predicate NeverFull(trace: seq<World>, n: nat, count: nat) {
    n <= |trace| && forall k | 0 <= k < n :: |trace[k].list| <= count
  }

  lemma TracedOn(trace: seq<World>, draws: seq<(nat, nat)>, n: nat, w: World, count: nat)
    requires n < |draws| && Traced(trace, draws, n) && StepOf(trace[n], draws[n].0, draws[n].1, w)
    requires NeverFull(trace, n, count) && |trace[n].list| <= count
    ensures Traced(trace + [w], draws, n + 1) && NeverFull(trace + [w], n + 1, count)
  {
    forall k | 0 <= k < n + 1 ensures TurnAt(trace + [w], draws, k) {
      assert k < n ==> TurnAt(trace, draws, k);
    }
  }

  lemma StepCounts(w: World, op: nat, rnd: nat, w': World)
    requires StepOf(w, op, rnd, w')
    ensures |w'.list| == if 4 * op > RAND_MAX then |w.list| + 1 else if |w.list| > 1 then |w.list| - 1 else 1
    ensures w'.num == if 4 * op > RAND_MAX then w.num + 1 else w.num
  {
    if 4 * op <= RAND_MAX && |w.list| > 1 {
      var idx :| FoundFrom(w.list, PickIndex(|w.list| - 1, rnd), idx) && WithoutLeaf(w, idx, w');
    }
  }

  /** What the draws say of list and counter holds along every trace from the bare root. */
  lemma {:induction false} TraceCounts(trace: seq<World>, draws: seq<(nat, nat)>, n: nat, k: nat)
    requires Traced(trace, draws, n) && k <= n && |trace[0].list| == 1
    ensures |trace[k].list| == Level(draws, k) + 1
    ensures trace[k].num - trace[0].num == Creations(draws, k)
  {
    if k > 0 {
      TraceCounts(trace, draws, n, k - 1);
      CreationsStep(draws, k - 1);
      var j := k - 1;
      assert TurnAt(trace, draws, j);
      StepCounts(trace[j], draws[j].0, draws[j].1, trace[j + 1]);
    }
  }

  lemma RunCounts(trace: seq<World>, draws: seq<(nat, nat)>, n: nat, count: nat)
    requires Traced(trace, draws, n) && |trace[0].list| == 1 && NeverFull(trace, n, count)
    ensures |trace[n].list| == Level(draws, n) + 1
    ensures trace[n].num - trace[0].num == Creations(draws, n)
    ensures forall k | 0 <= k < n :: Level(draws, k) < count
  {
    forall k | 0 <= k < n ensures Level(draws, k) < count {
      TraceCounts(trace, draws, n, k);
    }
    TraceCounts(trace, draws, n, n);
  }

  /** Creates less removals among the draws from `k` up to `n`. */
  ghost function Surplus(draws: seq<(nat, nat)>, k: nat, n: nat): int
    requires k <= n <= |draws|
  {
    2 * (Creations(draws, n) - Creations(draws, k)) - (n - k)
  }

  /** The number of entries is the greatest surplus of creates over removals among the latest draws. */
  lemma {:induction false} LevelIsSurplus(draws: seq<(nat, nat)>, n: nat) returns (since: nat)
    requires n <= |draws|
    ensures since <= n && Level(draws, n) == Surplus(draws, since, n)
    ensures forall k: nat | k <= n :: Surplus(draws, k, n) <= Level(draws, n)
  {
    since := n;
    if n > 0 {
      since := LevelIsSurplus(draws, n - 1);
      CreationsStep(draws, n - 1);
      forall k: nat | k <= n ensures Surplus(draws, k, n) <= Level(draws, n) {
        assert k < n ==> Surplus(draws, k, n - 1) <= Level(draws, n - 1);
      }
      if Level(draws, n) != Surplus(draws, since, n) { since := n; }
    }
  }

  class StressTest {
    const count: nat
    const mds: Server
    const dirList: array<Entry>
    var dirListCnt: int
    var num: nat

    /** The list with its root; slots above it hold leftovers. */
    ghost function Live(): (s: seq<Entry>)
      requires 0 <= dirListCnt < dirList.Length
      reads this, dirList
      ensures |s| == dirListCnt + 1
    {
      dirList[..dirListCnt + 1]
    }

    ghost predicate Shape()
      reads this, dirList, mds
    {
      && dirList.Length == count + 1
      && 0 <= dirListCnt <= count
      && mds.Valid()
      && forall i | 1 <= i <= count :: 0 <= dirList[i].parentIdx <= count
    }

    ghost predicate Valid()
      reads this, dirList, mds
    {
      && Shape()
      && Consistent(Live(), mds.nodes)
      && NamesBelow(mds.nodes, num)
    }

    constructor (count: nat)
      ensures Valid() && fresh(dirList) && fresh(mds)
      ensures this.count == count && dirListCnt == 0 && mds.nodes == map[]
      ensures forall i | 1 <= i <= count :: dirList[i] == Entry(ROOT, ROOT, 0, 0, "")
    {
      this.count := count;
      mds := new Server();
      dirList := new Entry[count + 1](_ => Entry(ROOT, ROOT, 0, 0, ""));
      dirListCnt, num := 0, 0;
      new;
      dirList[0] := Entry(ROOT, ROOT, -1, 0, "/");
      assert Ranked(Live(), [0]);
      KidsIffParent(Live(), 0);
    }

    /** Fills the slot above the list for a new child of entry `parent`; its object ID stays what it was. */
    method FillSlot(parent: int)
      requires Shape() && 0 <= parent <= dirListCnt + 1 <= count
      modifies `num, dirList
      ensures Shape() && num == old(num) + 1
      ensures var parentID, slot := old(dirList[parent].objID), dirListCnt + 1;
              dirList[..] == old(dirList[..])[slot := Entry(old(dirList[slot].objID), parentID, parent, 0, CreateName(old(num)))]
    {
      var new_ := dirListCnt + 1;
      dirList[new_] := dirList[new_].(name := CreateName(num));
      num := num + 1;
      dirList[new_] := dirList[new_].(parentID := dirList[parent].objID);
      dirList[new_] := dirList[new_].(subdirs := 0);
      dirList[new_] := dirList[new_].(parentIdx := parent);
    }

    /** Takes the filled slot into the list under its new object ID. */
    method Link(parent: int, id: ObjID)
      requires Shape() && 0 <= parent <= dirListCnt + 1 <= count && dirList[dirListCnt + 1].parentIdx == parent
      modifies `dirListCnt, dirList
      ensures Shape() && dirListCnt == old(dirListCnt) + 1
      ensures dirList[dirListCnt].objID == id && dirList[dirListCnt].parentIdx == parent
      ensures parent < dirListCnt ==>
                && dirList[dirListCnt] == old(dirList[dirListCnt + 1]).(objID := id)
                && dirList[parent] == old(dirList[parent]).(subdirs := old(dirList[parent].subdirs) + 1)
      ensures forall i | 0 <= i <= count && i != dirListCnt && i != parent :: dirList[i] == old(dirList[i])
    {
      var new_ := dirListCnt + 1;
      dirList[new_] := dirList[new_].(objID := id);
      dirList[parent] := dirList[parent].(subdirs := dirList[parent].subdirs + 1);
      dirListCnt := dirListCnt + 1;
    }

    /** The creation of one entry at index `dirListCnt + 1` under entry `parent`. */
    method Attach(parent: int) returns (ok: bool)
      requires Shape() && 0 <= parent <= dirListCnt + 1 <= count
      modifies this, dirList, mds
      ensures Shape() && num == old(num) + 1
      ensures var parentID := old(dirList[parent].objID);
              ok <==> Exists(old(mds.nodes), parentID) && NameFree(old(mds.nodes), parentID, CreateName(old(num)))
      ensures !ok ==> mds.nodes == old(mds.nodes) && dirListCnt == old(dirListCnt)
      ensures ok ==>
                && dirListCnt == old(dirListCnt) + 1
                && !Exists(old(mds.nodes), dirList[dirListCnt].objID)
                && dirList[dirListCnt].parentIdx == parent
                && mds.nodes == old(mds.nodes)[dirList[dirListCnt].objID := Node(old(dirList[parent].objID), CreateName(old(num)))]
      ensures ok && parent < dirListCnt ==>
                Live() == Created(old(Live()), parent, dirList[dirListCnt].objID, CreateName(old(num)))
      ensures forall i | old(dirListCnt) + 1 < i <= count :: dirList[i] == old(dirList[i])
    {
      var new_ := dirListCnt + 1;
      ghost var before := dirList[..];
      FillSlot(parent);
      ghost var filled := dirList[..];
      assert forall i | 0 <= i <= count :: dirList[i] == filled[i];
      var id;
      ok, id := mds.Mkdir(dirList[new_].name, dirList[new_].parentID);
      if !ok { return; }
      Link(parent, id);
    }

    /** A create fails only when the server refuses it.  A draw of RAND_MAX makes the new entry its own parent:
        a create that goes through leaves a tree exactly when the draw was below RAND_MAX. */
    method DoCreate(rnd: nat) returns (ok: bool)
      requires Valid() && dirListCnt < count && rnd <= RAND_MAX
      modifies this, dirList, mds
      ensures num == old(num) + 1
      ensures ok ==> (Valid() <==> rnd < RAND_MAX)
      ensures rnd < RAND_MAX ==>
                && ok && dirListCnt == old(dirListCnt) + 1
                && var parent, id := PickIndex(old(dirListCnt), rnd), dirList[dirListCnt].objID;
                  && !Exists(old(mds.nodes), id)
                  && Live() == Created(old(Live()), parent, id, CreateName(old(num)))
                  && mds.nodes == old(mds.nodes)[id := Node(old(Live())[parent].objID, CreateName(old(num)))]
      ensures !ok ==> mds.nodes == old(mds.nodes) && dirListCnt == old(dirListCnt)
      ensures forall i | old(dirListCnt) + 1 < i <= count :: dirList[i] == old(dirList[i])
    {
      ghost var s, nodes := Live(), mds.nodes;
      var parent := PickIndex(dirListCnt, rnd);
      FreshName(nodes, dirList[parent].objID, num);
      if parent < |s| {
        ListedExists(s, nodes, parent);
      }
      ok := Attach(parent);
      if ok && parent < dirListCnt {
        CreatedConsistent(s, nodes, parent, dirList[dirListCnt].objID, CreateName(num - 1));
        NamesGrow(nodes, num - 1, dirList[dirListCnt].objID, s[parent].objID);
      } else if ok && IsTree(Live()) {
        NoSelfParent(Live(), dirListCnt);
      }
    }

    /** The removal of entry `idx` of the list `s`, or of a leftover above it, once the search has settled on it. */
    method Detach(idx: int, ghost s: seq<Entry>, ghost entry: Entry) returns (ok: bool)
      requires Shape() && 1 <= dirListCnt && 1 <= idx <= count && s == Live() && entry == dirList[idx]
      modifies this, dirList, mds
      ensures ok <==> Removable(old(mds.nodes), entry.objID)
      ensures mds.nodes == if ok then old(mds.nodes) - {entry.objID} else old(mds.nodes)
      ensures Shape() && num == old(num)
      ensures ok ==> dirListCnt == old(dirListCnt) - 1
      ensures ok && idx < |s| && entry.parentIdx < |s| ==> Live() == Removed(s, idx)
      ensures ok && idx >= |s| ==> Live() == Dropped(s, entry.parentIdx, idx)
    {
      ok := mds.Rmdir(dirList[idx].objID);
      if !ok { return; }
      assert dirList[..dirListCnt + 1] == s && dirList[idx] == entry;
      Compact(dirList, dirListCnt, idx);
      dirListCnt := dirListCnt - 1;
    }

    /** The search settles on an entry without children that is not the root. */
    method FindFrom(start: int, ghost s: seq<Entry>) returns (idx: int)
      requires Valid() && s == Live() && 1 <= dirListCnt < count && 0 <= start <= dirListCnt + 1
      ensures Valid() && 1 <= idx <= dirListCnt + 1 && dirList[idx].subdirs == 0
      ensures idx <= dirListCnt <==> start <= dirListCnt || dirList[dirListCnt + 1].subdirs != 0
      ensures idx <= dirListCnt ==> FoundFrom(s, start, idx)
    {
      ghost var leaf := FindLeaf();
      idx := SearchLeaf(dirList, dirListCnt, start, s, leaf);
    }

    lemma FindLeaf() returns (leaf: int)
      requires Valid() && 1 <= dirListCnt
      ensures 1 <= leaf <= dirListCnt && dirList[leaf].subdirs == 0 && dirList[0].subdirs != 0
    {
      leaf := LeafExists(Live());
      assert Live()[leaf].subdirs == 0 && Live()[0].subdirs != 0;
    }

    /** The list and the server's directory are `s` and `nodes` without leaf `idx`. */
    ghost predicate LeafRemoved(s: seq<Entry>, nodes: Directory, idx: int)
      requires 0 <= dirListCnt < dirList.Length
      reads this, dirList, mds
    {
      && 1 <= idx < |s| && Kids(s, idx) == 0 && 0 <= s[idx].parentIdx < |s|
      && Live() == Removed(s, idx) && mds.nodes == nodes - {s[idx].objID}
    }

    /** Removal of entry `idx` of the list `s`, a leaf. */
    method RemoveListed(idx: int, ghost s: seq<Entry>, ghost nodes: Directory) returns (ok: bool)
      requires Valid() && s == Live() && nodes == mds.nodes
      requires 1 <= idx <= dirListCnt && dirList[idx].subdirs == 0
      modifies this, dirList, mds
      ensures ok && Valid() && num == old(num) && LeafRemoved(s, nodes, idx)
    {
      ListedLeaf(s, nodes, idx);
      RemovedConsistent(s, nodes, idx);
      NamesShrink(nodes, num, s[idx].objID);
      ok := Detach(idx, s, dirList[idx]);
    }

    /** Removal of the leftover just above the list `s`. */
    method RemoveLeftover(ghost s: seq<Entry>, ghost nodes: Directory, ghost leftover: Entry, ghost stays: bool)
      returns (ok: bool)
      requires Shape() && 1 <= dirListCnt < count && s == Live() && nodes == mds.nodes
      requires leftover == dirList[dirListCnt + 1] && StaysIff(s, nodes, leftover, num, stays)
      modifies this, dirList, mds
      ensures Shape() && num == old(num)
      ensures ok <==> Removable(nodes, leftover.objID)
      ensures ok ==> (Valid() <==> stays)
    {
      ok := Detach(dirListCnt + 1, s, leftover);
    }

    /** Removal of an entry without children, of the list `s` or just above it. */
    method RemoveAt(idx: int, ghost s: seq<Entry>, ghost nodes: Directory, ghost leftover: Entry) returns (ok: bool)
      requires Valid() && 1 <= dirListCnt < count && 1 <= idx <= dirListCnt + 1 && dirList[idx].subdirs == 0
      requires s == Live() && nodes == mds.nodes && leftover == dirList[dirListCnt + 1]
      modifies this, dirList, mds
      ensures Shape() && num == old(num)
      ensures idx < |s| ==> ok && Valid() && LeafRemoved(s, nodes, idx)
      ensures idx == |s| ==> (ok <==> Removable(nodes, leftover.objID))
      ensures idx == |s| && ok ==> (Valid() <==> SameNode(leftover, s[|s| - 1]))
    {
      if idx <= dirListCnt {
        ok := RemoveListed(idx, s, nodes);
      } else {
        ghost var stays := LeftoverStays(s, nodes, leftover, num);
        ok := RemoveLeftover(s, nodes, leftover, stays);
      }
    }

    /** Removal from the list `s` with the search starting at `start`, which may be the leftover slot just above it. */
    method RemoveFrom(start: int, ghost s: seq<Entry>, ghost nodes: Directory, ghost leftover: Entry)
      returns (ok: bool, ghost idx: int)
      requires Valid() && 1 <= dirListCnt < count && 0 <= start <= dirListCnt + 1
      requires s == Live() && nodes == mds.nodes && leftover == dirList[dirListCnt + 1]
      modifies this, dirList, mds
      ensures Shape() && num == old(num)
      ensures 1 <= idx <= |s|
      ensures idx < |s| <==> start < |s| || leftover.subdirs != 0
      ensures idx < |s| ==> FoundFrom(s, start, idx) && ok && Valid() && LeafRemoved(s, nodes, idx)
      ensures idx == |s| ==> (ok <==> Removable(nodes, leftover.objID))
      ensures idx == |s| && ok ==> (Valid() <==> SameNode(leftover, s[|s| - 1]))
    {
      var at := FindFrom(start, s);
      idx := at;
      ok := RemoveAt(at, s, nodes, leftover);
    }

    /** Removes the first listed leaf from the drawn entry on when the search finds one, and never fails then.  A search that starts at the leftover
        slot above the list asks the server to remove whatever that slot names: the removal goes through and leaves a
        proper list exactly when the slot names a removable directory, the last entry's, with the last entry's parent. */
    method DoRemove(rnd: nat, ghost s: seq<Entry>, ghost nodes: Directory, ghost leftover: Entry)
      returns (ok: bool, ghost idx: int)
      requires Valid() && 1 <= dirListCnt < count && rnd <= RAND_MAX
      requires s == Live() && nodes == mds.nodes && leftover == dirList[dirListCnt + 1]
      modifies this, dirList, mds
      ensures Shape() && num == old(num)
      ensures 1 <= idx <= |s|
      ensures idx < |s| <==> rnd < RAND_MAX || leftover.subdirs != 0
      ensures idx < |s| ==> FoundFrom(s, PickIndex(|s| - 1, rnd), idx) && ok && Valid() && LeafRemoved(s, nodes, idx)
      ensures idx == |s| ==> (ok <==> Removable(nodes, leftover.objID))
      ensures idx == |s| && ok ==> (Valid() <==> SameNode(leftover, s[|s| - 1]))
    {
      var start := PickIndex(dirListCnt, rnd);
      assert |s| == dirListCnt + 1 && start == PickIndex(|s| - 1, rnd);
      ok, idx := RemoveFrom(start, s, nodes, leftover);
    }

    /** List, server and name counter as one value. */
    ghost function Now(): World
      requires 0 <= dirListCnt < dirList.Length
      reads this, dirList, mds
    {
      World(Live(), mds.nodes, num)
    }

    method Grow(rnd: nat, ghost w: World) returns (ok: bool)
      requires Valid() && dirListCnt < count && rnd < RAND_MAX && w == Now()
      modifies this, dirList, mds
      ensures ok && Valid() && dirListCnt == |w.list| && GrownBy(w, rnd, Now())
    {
      ok := DoCreate(rnd);
      assert Now() == World(Live(), mds.nodes, num);
    }

    method Shrink(rnd: nat, ghost w: World) returns (ok: bool)
      requires Valid() && 1 <= dirListCnt < count && rnd < RAND_MAX && w == Now()
      modifies this, dirList, mds
      ensures ok && Valid() && dirListCnt + 1 == |w.list| - 1 && ShrunkBy(w, rnd, Now())
    {
      ghost var idx;
      ok, idx := DoRemove(rnd, w.list, w.nodes, dirList[dirListCnt + 1]);
      assert WithoutLeaf(w, idx, Now());
    }

    /** One turn of the main loop. */
    method Operate(op: nat, rnd: nat, currentCnt: int, ghost w: World) returns (exited: bool, nextCnt: int)
      requires Valid() && currentCnt == dirListCnt < count && rnd < RAND_MAX && w == Now()
      modifies this, dirList, mds
      ensures !exited && Valid() && nextCnt == dirListCnt <= count
      ensures StepOf(w, op, rnd, Now())
    {
      exited, nextCnt := false, currentCnt;
      var ok;
      if 4 * op > RAND_MAX {
        ok := Grow(rnd, w);
        if !ok { exited := true; return; }
        nextCnt := currentCnt + 1;
      } else if currentCnt > 0 {
        ok := Shrink(rnd, w);
        if !ok { exited := true; return; }
        nextCnt := currentCnt - 1;
      }
    }

    /** The main loop, driven by pairs of draws (which operation, which entry).  A run whose entry draws stay
        below RAND_MAX is never refused by the server and ends with a tree equal to the server's directory.  Every turn
        does to list and server what its draws say, and the draws alone say how many entries there are, how many names
        were used, and when the loop ends. */
    method Run(draws: seq<(nat, nat)>) returns (exited: bool, currentCnt: int, operations: nat, ghost trace: seq<World>)
      requires Valid() && dirListCnt == 0
      requires forall d | d in draws :: d.1 < RAND_MAX
      modifies this, dirList, mds
      ensures !exited && Valid()
      ensures currentCnt == dirListCnt == |mds.nodes|
      ensures operations <= |draws| && currentCnt == Level(draws, operations)
      ensures num - old(num) == Creations(draws, operations)
      ensures operations < |draws| ==> currentCnt == count
      ensures forall k | 0 <= k < operations :: Level(draws, k) < count
      ensures Traced(trace, draws, operations) && trace[0] == old(Now()) && trace[operations] == Now()
    {
      ghost var start := Now();
      exited, currentCnt, operations, trace := false, 0, 0, [start];
      while currentCnt < count && operations < |draws|
        invariant !exited && Valid() && currentCnt == dirListCnt <= count && operations <= |draws|
        invariant Traced(trace, draws, operations) && trace[0] == start && trace[operations] == Now()
        invariant NeverFull(trace, operations, count)
        decreases |draws| - operations
      {
        assert draws[operations] in draws;
        exited, currentCnt := Operate(draws[operations].0, draws[operations].1, currentCnt, Now());
        if exited { return; }
        TracedOn(trace, draws, operations, Now(), count);
        operations, trace := operations + 1, trace + [Now()];
      }
      DirectorySize(Live(), mds.nodes);
      RunCounts(trace, draws, operations, count);
    }
  }

  lemma {:induction false} ListedIDs(s: seq<Entry>, n: nat)
    requires DistinctIDs(s) && 1 <= n <= |s|
    ensures |set i | 1 <= i < n :: s[i].objID| == n - 1
  {
    var ids := set i | 1 <= i < n :: s[i].objID;
    if n == 1 {
      assert ids == {};
    } else {
      ListedIDs(s, n - 1);
      var less := set i | 1 <= i < n - 1 :: s[i].objID;
      assert ids == less + {s[n - 1].objID};
      assert s[n - 1].objID !in less;
    }
  }

  lemma DirectorySize(s: seq<Entry>, nodes: Directory)
    requires DistinctIDs(s) && Represents(s, nodes) && |s| >= 1
    ensures |nodes| == |s| - 1
  {
    ListedIDs(s, |s|);
    var ids := set i | 1 <= i < |s| :: s[i].objID;
    forall i | 1 <= i < |s| ensures s[i].objID in nodes {
      assert StoredAt(s, nodes, i);
    }
    forall x | x in nodes.Keys ensures x in ids {
      assert Listed(s, x);
    }
    assert nodes.Keys == ids;
  }

  /** Where the search goes wrong: one directory, room for two, and a draw of RAND_MAX asks the server to
      remove the zeroed slot above the list, which is the root. */
  method LeftoverSlotRefused() returns (ok: bool)
    ensures !ok
  {
    var t := new StressTest(2);
    var created := t.DoCreate(0);
    assert t.dirList[2].objID == ROOT;
    ghost var idx;
    ok, idx := t.DoRemove(RAND_MAX, t.Live(), t.mds.nodes, t.dirList[2]);
  }
}
