/** Every interleaving of the shared-file test. */
module ParallelRuns {
  import opened Arith
  import opened Common
  import opened Extents
  import opened ParallelFile

  /** How many of its writes a process has made. */
  function Share(c: Setup, pc: PC): nat {
    match pc
    case Writing(i, _) => i
    case Closed => c.n
    case Done => c.n
    case _ => 0
  }

  ghost predicate PcOK(c: Setup, s: Job, r: nat)
    requires r < |s.pcs|
  {
    var pc := s.pcs[r];
    && (pc.Creating? ==> r == 0)
    && (pc.Opening? ==> r != 0)
    && (pc.Writing? ==> pc.i <= c.n && pc.pos == (r * c.n + pc.i) * c.b)
    && (Level(pc) >= 2 ==> AllReached(s.pcs, 1))
    && (Level(pc) >= 4 ==> AllReached(s.pcs, 3))
  }

  ghost predicate AnyDone(pcs: seq<PC>) {
    exists r :: 0 <= r < |pcs| && pcs[r].Done?
  }

  /** A leftover that the removal before the first barrier cannot take away, and that is then written over. */
  predicate Kept(name: Name) {
    name.Leftover? && name.writable && !name.removable
  }

  /** What the shared file holds when it is opened. */
  function Base(name: Name): Bytes {
    if Kept(name) then name.bytes else []
  }

  /** Process 0 cannot open the file: a leftover is not writable, or there is none any more and none may be created. */
  predicate Unopenable(c: Setup, name: Name) {
    match name
    case Absent => !c.mayCreate
    case Leftover(writable, removable, _) => !writable || (removable && !c.mayCreate)
    case Shared(_) => false
  }

  /** The file, once created, can be removed at the end. */
  predicate Removable(c: Setup, name: Name) {
    !Kept(name) && c.mayRemove
  }

  /** What the file name means, by how far process 0 has come, and what the shared file held at first. */
  ghost predicate NameOK(c: Setup, s: Job, name: Name)
    requires |s.pcs| >= 1
  {
    var level := Level(s.pcs[0]);
    if level == 0 then s.name == name
    else if level < 3 then s.name == Cleared(name)
    else
      && !Unopenable(c, name) && s.base == Base(name)
      && s.name == if c.removeFile && Removable(c, name) && AnyDone(s.pcs) then Absent else Shared(Removable(c, name))
  }

  /** The job may be aborted. */
  predicate Abortable(c: Setup, name: Name) {
    Unopenable(c, name) || (c.removeFile && Removable(c, name) && c.np >= 2)
  }

  /** The log holds exactly the writes made so far, each once. */
  ghost predicate EntryOK(c: Setup, s: Job, j: nat)
    requires j < |s.log|
  {
    WriteOK(c, s.log[j]) && s.log[j].rank < |s.pcs| && s.log[j].op < Share(c, s.pcs[s.log[j].rank])
  }

  ghost predicate Logged(log: seq<Write>, r: nat, i: nat) {
    exists j :: 0 <= j < |log| && log[j].rank == r && log[j].op == i
  }

  ghost predicate Made(c: Setup, s: Job, r: nat)
    requires r < |s.pcs|
  {
    forall i: nat | i < Share(c, s.pcs[r]) :: Logged(s.log, r, i)
  }

  ghost predicate DistinctNumbers(c: Setup, log: seq<Write>) {
    forall i, j | 0 <= i < j < |log| :: Number(c, log[i]) != Number(c, log[j])
  }

  ghost predicate Inv(c: Setup, s: Job, name: Name) {
    && 1 <= |s.pcs| == c.np
    && (forall r: nat | r < c.np :: PcOK(c, s, r))
    && NameOK(c, s, name)
    && (forall j: nat | j < |s.log| :: EntryOK(c, s, j))
    && DistinctNumbers(c, s.log)
    && (forall r: nat | r < c.np :: Made(c, s, r))
    && (s.aborted ==> Abortable(c, name))
  }

  lemma InitialInv(c: Setup, name: Name)
    requires c.np >= 1
    ensures Inv(c, Initial(c, name), name)
  {
  }

  lemma PcOKKept(c: Setup, s: Job, s': Job, r: nat, pc: PC)
    requires |s.pcs| == c.np && r < c.np && s'.pcs == s.pcs[r := pc]
    requires forall q: nat | q < c.np :: PcOK(c, s, q)
    requires Level(pc) >= Level(s.pcs[r]) && (pc.Creating? ==> r == 0) && (pc.Opening? ==> r != 0)
    requires pc.Writing? ==> pc.i <= c.n && pc.pos == (r * c.n + pc.i) * c.b
    requires Level(pc) >= 2 ==> AllReached(s.pcs, 1)
    requires Level(pc) >= 4 ==> AllReached(s.pcs, 3)
    ensures forall q: nat | q < c.np :: PcOK(c, s', q)
  {
    assert forall level :: AllReached(s.pcs, level) ==> AllReached(s'.pcs, level);
    forall q: nat | q < c.np ensures PcOK(c, s', q) {
      assert PcOK(c, s, q);
    }
  }

  /** The step is a write of process `r`. */
  predicate IsWrite(c: Setup, s: Job, r: nat)
    requires r < |s.pcs|
  {
    !s.aborted && s.pcs[r].Writing? && s.pcs[r].i < c.n
  }

  lemma WriteInv(c: Setup, s: Job, name: Name, r: nat)
    requires Inv(c, s, name) && r < c.np && IsWrite(c, s, r)
    ensures Inv(c, Step(c, s, r).value, name)
  {
    var s', i := Step(c, s, r).value, s.pcs[r].i;
    var w := s'.log[|s.log|];
    assert PcOK(c, s, r);
    assert (r * c.n + i) * c.b + c.b == (r * c.n + (i + 1)) * c.b;
    PcOKKept(c, s, s', r, s'.pcs[r]);
    StepDone(c, s, r);
    forall j: nat | j < |s'.log|
      ensures EntryOK(c, s', j) && (j < |s.log| ==> Number(c, s.log[j]) != Number(c, w))
    {
      if j < |s.log| {
        assert EntryOK(c, s, j);
        DivModUnique(Number(c, s.log[j]), c.n, s.log[j].rank, s.log[j].op);
        DivModUnique(Number(c, w), c.n, r, i);
      }
    }
    forall q: nat | q < c.np ensures Made(c, s', q) {
      assert Made(c, s, q);
      forall m: nat | m < Share(c, s'.pcs[q]) ensures Logged(s'.log, q, m) {
        if q == r && m == i {
          assert s'.log[|s.log|] == w;
        } else {
          assert Logged(s.log, q, m);
          var j :| 0 <= j < |s.log| && s.log[j].rank == q && s.log[j].op == m;
          assert s'.log[j] == s.log[j];
        }
      }
    }
  }

  lemma DoneAfterCreation(c: Setup, s: Job)
    requires 1 <= |s.pcs| == c.np && forall r: nat | r < c.np :: PcOK(c, s, r)
    ensures AnyDone(s.pcs) ==> Level(s.pcs[0]) >= 3
  {
    if r :| 0 <= r < |s.pcs| && s.pcs[r].Done? {
      assert PcOK(c, s, r);
    }
  }

  lemma StepDone(c: Setup, s: Job, r: nat)
    requires r < |s.pcs| && Step(c, s, r).Some?
    ensures AnyDone(Step(c, s, r).value.pcs) <==> AnyDone(s.pcs) || (!s.aborted && s.pcs[r].Closed?)
  {
    var pcs' := Step(c, s, r).value.pcs;
    if q :| 0 <= q < |s.pcs| && s.pcs[q].Done? { assert pcs'[q].Done?; }
    if s.pcs[r].Closed? { assert pcs'[r].Done?; }
    if q :| 0 <= q < |pcs'| && pcs'[q].Done? { assert q != r ==> s.pcs[q].Done?; }
  }

  lemma NameKept(c: Setup, s: Job, name: Name, r: nat)
    requires Inv(c, s, name) && !name.Shared? && r < c.np && Step(c, s, r).Some? && !IsWrite(c, s, r)
    ensures var s' := Step(c, s, r).value; if s'.aborted then Abortable(c, name) else NameOK(c, s', name)
  {
    assert PcOK(c, s, r) && PcOK(c, s, 0);
    DoneAfterCreation(c, s);
    StepDone(c, s, r);
    match s.pcs[r]
    case Start =>
    case Barrier1 =>
    case Creating =>
    case Barrier2 =>
    case Opening => assert s.aborted || s.name.Shared? || AnyDone(s.pcs);
    case Writing(_, _) =>
    case Closed => assert AnyDone(Step(c, s, r).value.pcs);
  }

  lemma PcsKept(c: Setup, s: Job, name: Name, r: nat)
    requires Inv(c, s, name) && r < c.np && Step(c, s, r).Some? && !IsWrite(c, s, r)
    ensures forall q: nat | q < c.np :: PcOK(c, Step(c, s, r).value, q)
  {
    var s' := Step(c, s, r).value;
    assert PcOK(c, s, r);
    if s'.aborted {
      forall q: nat | q < c.np ensures PcOK(c, s', q) {
        assert PcOK(c, s, q);
      }
    } else {
      if s'.pcs[r].Writing? {
        assert c.n * c.b * r == (r * c.n + 0) * c.b;
      }
      PcOKKept(c, s, s', r, s'.pcs[r]);
    }
  }

  lemma EntriesKept(c: Setup, s: Job, name: Name, r: nat)
    requires Inv(c, s, name) && r < c.np && Step(c, s, r).Some? && !IsWrite(c, s, r)
    ensures var s' := Step(c, s, r).value;
            && s'.log == s.log && |s'.pcs| == c.np
            && (forall j: nat | j < |s'.log| :: EntryOK(c, s', j))
            && (forall q: nat | q < c.np :: Made(c, s', q))
  {
    var s' := Step(c, s, r).value;
    assert PcOK(c, s, r);
    assert forall q: nat | q < c.np :: Share(c, s'.pcs[q]) == Share(c, s.pcs[q]);
    forall j: nat | j < |s'.log| ensures EntryOK(c, s', j) {
      assert EntryOK(c, s, j);
    }
    forall q: nat | q < c.np ensures Made(c, s', q) {
      assert Made(c, s, q);
    }
  }

  lemma OtherStepInv(c: Setup, s: Job, name: Name, r: nat)
    requires Inv(c, s, name) && !name.Shared? && r < c.np && Step(c, s, r).Some? && !IsWrite(c, s, r)
    ensures Inv(c, Step(c, s, r).value, name)
  {
    NameKept(c, s, name, r);
    PcsKept(c, s, name, r);
    EntriesKept(c, s, name, r);
    if Step(c, s, r).value.aborted {
      assert Step(c, s, r).value == s.(aborted := true);
    }
  }

  lemma {:induction false} RunInv(c: Setup, name: Name, order: seq<nat>)
    requires c.np >= 1 && !name.Shared?
    ensures Inv(c, Run(c, name, order), name)
  {
    if order == [] {
      InitialInv(c, name);
    } else {
      RunInv(c, name, order[..|order| - 1]);
      var s, r := Run(c, name, order[..|order| - 1]), order[|order| - 1];
      if r < c.np && Step(c, s, r).Some? {
        if IsWrite(c, s, r) { WriteInv(c, s, name, r); } else { OtherStepInv(c, s, name, r); }
      }
    }
  }

  // ---------- main results ----------

  /** Nobody is past opening, or even at it, before process 0 has created the file. */
  lemma CreatedBeforeOpened(c: Setup, name: Name, order: seq<nat>, r: nat)
    requires c.np >= 1 && !name.Shared? && r < c.np
    ensures var s := Run(c, name, order);
            |s.pcs| == c.np && (Level(s.pcs[r]) >= 4 ==> Level(s.pcs[0]) >= 3)
  {
    RunInv(c, name, order);
    assert PcOK(c, Run(c, name, order), r);
  }

  /** No byte is ever written twice. */
  lemma WritesDisjoint(c: Setup, name: Name, order: seq<nat>, i: nat, j: nat, k: nat)
    requires c.np >= 1 && !name.Shared?
    requires var log := Run(c, name, order).log; i < j < |log|
    ensures var log := Run(c, name, order).log; !(Covers(log[i].extent, k) && Covers(log[j].extent, k))
  {
    RunInv(c, name, order);
    var s := Run(c, name, order);
    assert EntryOK(c, s, i) && EntryOK(c, s, j);
    CoversIffNumber(c, s.log[i], k);
    CoversIffNumber(c, s.log[j], k);
  }

  ghost predicate AllDone(s: Job) {
    forall r | 0 <= r < |s.pcs| :: s.pcs[r].Done?
  }

  /** When every process is done, the file holds the rank-ordered concatenation of their buffers, byte for byte, and
      beyond it what a leftover that could not be removed held there. */
  lemma FinalFile(c: Setup, name: Name, order: seq<nat>, k: nat)
    requires c.np >= 1 && !name.Shared? && AllDone(Run(c, name, order))
    ensures var e := Expected(c.np, c.n, c.b);
            && |e| == c.np * (c.n * c.b)
            && FileByte(Run(c, name, order), k) == if k < |e| then Some(e[k]) else File(Base(name))(k)
  {
    RunInv(c, name, order);
    FinalByte(c, Run(c, name, order), name, k);
    ExpectedLength(c.np, c.n, c.b, c.n * c.b);
    if k < c.np * (c.n * c.b) {
      ExpectedAt(c.np, c.n, c.b, k);
    }
  }

  /** So the file is exactly that concatenation if and only if no leftover was kept that is longer. */
  lemma FinalFileIff(c: Setup, name: Name, order: seq<nat>)
    requires c.np >= 1 && !name.Shared? && AllDone(Run(c, name, order))
    ensures (forall k: nat :: FileByte(Run(c, name, order), k) == File(Expected(c.np, c.n, c.b))(k))
            <==> !Kept(name) || |name.bytes| <= c.np * (c.n * c.b)
  {
    var s, e := Run(c, name, order), Expected(c.np, c.n, c.b);
    forall k: nat ensures FileByte(s, k) == if k < |e| then Some(e[k]) else File(Base(name))(k) {
      FinalFile(c, name, order, k);
    }
    ExpectedLength(c.np, c.n, c.b, c.n * c.b);
    if Kept(name) && |name.bytes| > |e| {
      assert FileByte(s, |e|) != File(e)(|e|);
    }
  }

  /** And it is there under its name, unless it was to be removed and could be. */
  lemma FinalName(c: Setup, name: Name, order: seq<nat>)
    requires c.np >= 1 && !name.Shared? && AllDone(Run(c, name, order))
    ensures Run(c, name, order).name.Shared? <==> !(c.removeFile && Removable(c, name))
    ensures Run(c, name, order).name.Absent? <==> c.removeFile && Removable(c, name)
  {
    RunInv(c, name, order);
    assert Run(c, name, order).pcs[0].Done?;
  }

  lemma FileEnd(c: Setup, k: nat)
    ensures if c.b > 0 then k / c.b < c.np * c.n <==> k < c.np * (c.n * c.b) else c.np * (c.n * c.b) == 0
  {
    if c.b > 0 {
      QuotientBelow(k, c.np * c.n, c.b);
      MulAssociates(c.np, c.n, c.b);
    } else {
      ProductPositive(c.n, c.b);
      ProductPositive(c.np, c.n * c.b);
    }
  }

  /** A log with exactly the numbers up to np * n fills exactly the first np * n * b bytes. */
  lemma FullLog(c: Setup, before: Contents, log: seq<Write>, k: nat)
    requires LogOK(c, log) && forall e: nat :: Numbered(c, log, e) <==> e < c.np * c.n
    ensures ByteAt(before, ExtentsOf(log), k) ==
            if k < c.np * (c.n * c.b) then Some(OwnByte(c.n, c.b, k)) else before(k)
  {
    assert c.b > 0 && Numbered(c, log, k / c.b) <==> k < c.np * (c.n * c.b) by {
      FileEnd(c, k);
    }
    ByteOfLog(c, before, log, k);
  }

  lemma FinalByte(c: Setup, s: Job, name: Name, k: nat)
    requires Inv(c, s, name) && AllDone(s)
    ensures FileByte(s, k) == if k < c.np * (c.n * c.b) then Some(OwnByte(c.n, c.b, k)) else File(Base(name))(k)
  {
    assert s.pcs[0].Done?;
    LogIsOK(c, s, name);
    forall e: nat ensures Numbered(c, s.log, e) <==> e < c.np * c.n {
      AllNumbered(c, s, name, e);
    }
    FullLog(c, File(s.base), s.log, k);
  }

  lemma LogIsOK(c: Setup, s: Job, name: Name)
    requires Inv(c, s, name)
    ensures LogOK(c, s.log)
  {
    forall j | 0 <= j < |s.log| ensures WriteOK(c, s.log[j]) {
      assert EntryOK(c, s, j);
    }
  }

  /** At the end exactly the numbers up to np * n have been written. */
  lemma AllNumbered(c: Setup, s: Job, name: Name, e: nat)
    requires Inv(c, s, name) && AllDone(s)
    ensures Numbered(c, s.log, e) <==> e < c.np * c.n
  {
    if e < c.np * c.n {
      ProductPositive(c.np, c.n);
      var r, i := e / c.n, e % c.n;
      QuotientBelow(e, c.np, c.n);
      assert e == r * c.n + i;
      assert Made(c, s, r) && s.pcs[r].Done?;
      assert Logged(s.log, r, i);
      var j :| 0 <= j < |s.log| && s.log[j].rank == r && s.log[j].op == i;
      assert Number(c, s.log[j]) == e;
    } else if Numbered(c, s.log, e) {
      var j :| 0 <= j < |s.log| && Number(c, s.log[j]) == e;
      assert EntryOK(c, s, j);
      NumberInRange(c, s.log[j]);
    }
  }

  lemma NumberInRange(c: Setup, w: Write)
    requires WriteOK(c, w)
    ensures Number(c, w) < c.np * c.n
  {
    MulMonotone(w.rank + 1, c.np, c.n);
    assert (w.rank + 1) * c.n == w.rank * c.n + c.n;
  }

  /** The job never hangs at a barrier: unless it was aborted, somebody can move until all are done. */
  lemma NeverStuck(c: Setup, name: Name, order: seq<nat>)
    requires c.np >= 1 && !name.Shared?
    ensures var s := Run(c, name, order);
            |s.pcs| == c.np &&
            ((forall r | 0 <= r < c.np :: Step(c, s, r).None?) <==> s.aborted || AllDone(s))
  {
    RunInv(c, name, order);
    var s := Run(c, name, order);
    if !s.aborted && (forall r | 0 <= r < c.np :: Step(c, s, r).None?) {
      StuckDone(c, s, name);
    }
  }

  lemma StuckDone(c: Setup, s: Job, name: Name)
    requires Inv(c, s, name) && !s.aborted && forall r | 0 <= r < c.np :: Step(c, s, r).None?
    ensures AllDone(s)
  {
    var low := LowestRank(s.pcs);
    assert AllReached(s.pcs, Level(s.pcs[low]));
    assert Step(c, s, low).None?;
    forall r | 0 <= r < c.np ensures s.pcs[r].Done? {
      assert Level(s.pcs[r]) >= 7;
    }
  }

  lemma LowestRank(pcs: seq<PC>) returns (low: nat)
    requires |pcs| >= 1
    ensures low < |pcs| && AllReached(pcs, Level(pcs[low]))
  {
    low := 0;
    for r := 1 to |pcs|
      invariant low < |pcs| && forall q | 0 <= q < r :: Level(pcs[q]) >= Level(pcs[low])
    {
      if Level(pcs[r]) < Level(pcs[low]) { low := r; }
    }
  }

  // ---------- when a job can be aborted ----------

  /** One more move. */
  lemma RunOn(c: Setup, name: Name, order: seq<nat>, r: nat)
    requires r < |Run(c, name, order).pcs| && Step(c, Run(c, name, order), r).Some?
    ensures Run(c, name, order + [r]) == Step(c, Run(c, name, order), r).value
  {
    assert (order + [r])[..|order|] == order;
  }

  /** All of the first `k` processes have entered the first barrier. */
  ghost predicate Gathered(c: Setup, s: Job, name: Name, k: nat) {
    && |s.pcs| == c.np && !s.aborted
    && (forall r | 0 <= r < c.np :: s.pcs[r] == if r < k then Barrier1 else Start)
    && s.name == (if k > 0 then Cleared(name) else name)
  }

  lemma GatherStep(c: Setup, s: Job, name: Name, k: nat)
    requires Gathered(c, s, name, k) && k < c.np
    ensures Step(c, s, k).Some? && Gathered(c, Step(c, s, k).value, name, k + 1)
  {
  }

  lemma {:induction false} Gather(c: Setup, name: Name, k: nat) returns (order: seq<nat>)
    requires k <= c.np
    ensures Gathered(c, Run(c, name, order), name, k)
  {
    order := [];
    if k > 0 {
      order := Gather(c, name, k - 1);
      GatherStep(c, Run(c, name, order), name, k - 1);
      RunOn(c, name, order, k - 1);
      order := order + [k - 1];
    }
  }

  /** Processes 1 to `k` - 1 have gone on to the second barrier, the others stay at the first. */
  ghost predicate Ahead(c: Setup, s: Job, name: Name, k: nat) {
    && |s.pcs| == c.np && !s.aborted
    && (forall r | 0 <= r < c.np :: s.pcs[r] == if 1 <= r < k then Barrier2 else Barrier1)
    && s.name == Cleared(name)
  }

  lemma AheadStep(c: Setup, s: Job, name: Name, k: nat)
    requires Ahead(c, s, name, k) && 1 <= k < c.np
    ensures Step(c, s, k).Some? && Ahead(c, Step(c, s, k).value, name, k + 1)
  {
  }

  lemma {:induction false} GoAhead(c: Setup, name: Name, k: nat) returns (order: seq<nat>)
    requires 1 <= k <= c.np
    ensures Ahead(c, Run(c, name, order), name, k)
  {
    if k == 1 {
      order := Gather(c, name, c.np);
    } else {
      order := GoAhead(c, name, k - 1);
      AheadStep(c, Run(c, name, order), name, k - 1);
      RunOn(c, name, order, k - 1);
      order := order + [k - 1];
    }
  }

  /** Process 0 has left the second barrier and everybody else is still in it. */
  ghost predicate Racing(c: Setup, s: Job, name: Name, pc: PC) {
    && |s.pcs| == c.np && !s.aborted && s.name == Shared(Removable(c, name))
    && (forall r | 0 <= r < c.np :: s.pcs[r] == if r == 0 then pc else Barrier2)
  }

  lemma CreateFirst(c: Setup, s: Job, name: Name)
    requires Ahead(c, s, name, c.np) && c.np >= 1 && !name.Shared? && !Unopenable(c, name)
    ensures Step(c, s, 0).Some? && Step(c, Step(c, s, 0).value, 0).Some?
    ensures Racing(c, Step(c, Step(c, s, 0).value, 0).value, name, Barrier2)
  {
  }

  lemma RacingStep(c: Setup, s: Job, name: Name, i: nat, pos: nat)
    requires c.np >= 1 && Racing(c, s, name, Writing(i, pos)) && i < c.n
    ensures Step(c, s, 0).Some? && Racing(c, Step(c, s, 0).value, name, Writing(i + 1, pos + c.b))
  {
  }

  lemma RacingStart(c: Setup, s: Job, name: Name)
    requires c.np >= 1 && Racing(c, s, name, Barrier2)
    ensures Step(c, s, 0).Some? && Racing(c, Step(c, s, 0).value, name, Seeked(c, 0))
  {
  }

  lemma RaceStart(c: Setup, name: Name) returns (order: seq<nat>)
    requires c.np >= 1 && !name.Shared? && !Unopenable(c, name)
    ensures Racing(c, Run(c, name, order), name, Seeked(c, 0))
  {
    order := GoAhead(c, name, c.np);
    CreateFirst(c, Run(c, name, order), name);
    RunOn(c, name, order, 0);
    order := order + [0];
    RunOn(c, name, order, 0);
    order := order + [0];
    RacingStart(c, Run(c, name, order), name);
    RunOn(c, name, order, 0);
    order := order + [0];
  }

  lemma {:induction false} Race(c: Setup, name: Name, i: nat) returns (order: seq<nat>, pos: nat)
    requires c.np >= 1 && !name.Shared? && !Unopenable(c, name) && i <= c.n
    ensures Racing(c, Run(c, name, order), name, Writing(i, pos))
  {
    if i == 0 {
      order := RaceStart(c, name);
      pos := c.n * c.b * 0;
    } else {
      order, pos := Race(c, name, i - 1);
      RacingStep(c, Run(c, name, order), name, i - 1, pos);
      RunOn(c, name, order, 0);
      order, pos := order + [0], pos + c.b;
    }
  }

  lemma UnopenableAborts(c: Setup, name: Name) returns (order: seq<nat>)
    requires c.np >= 1 && Unopenable(c, name)
    ensures Run(c, name, order).aborted
  {
    order := Gather(c, name, c.np);
    RunOn(c, name, order, 0);
    order := order + [0];
    RunOn(c, name, order, 0);
    order := order + [0];
  }

  /** After its writes process 0 closes and removes the file; then process 1 tries to open it. */
  lemma RemovedBeforeOpened(c: Setup, s: Job, name: Name, pos: nat)
    requires c.np >= 2 && c.removeFile && Removable(c, name) && Racing(c, s, name, Writing(c.n, pos))
    ensures Step(c, s, 0).Some? && var s1 := Step(c, s, 0).value;
            Step(c, s1, 0).Some? && var s2 := Step(c, s1, 0).value;
            Step(c, s2, 1).Some? && var s3 := Step(c, s2, 1).value;
            Step(c, s3, 1).Some? && Step(c, s3, 1).value.aborted
            && |s1.pcs| == |s2.pcs| == |s3.pcs| == c.np
  {
  }

  lemma RemovalRaceAborts(c: Setup, name: Name) returns (order: seq<nat>)
    requires c.np >= 2 && !name.Shared? && !Unopenable(c, name) && c.removeFile && Removable(c, name)
    ensures Run(c, name, order).aborted
  {
    var pos;
    order, pos := Race(c, name, c.n);
    RemovedBeforeOpened(c, Run(c, name, order), name, pos);
    RunOn(c, name, order, 0);
    order := order + [0];
    RunOn(c, name, order, 0);
    order := order + [0];
    RunOn(c, name, order, 1);
    order := order + [1];
    RunOn(c, name, order, 1);
    order := order + [1];
  }

  /** A job can be aborted exactly when process 0 cannot open the file, or when the file is to be removed, can be, and
      there is a process that may not have opened it before another one is through. */
  lemma AbortIff(c: Setup, name: Name)
    requires c.np >= 1 && !name.Shared?
    ensures (exists order :: Run(c, name, order).aborted) <==> Abortable(c, name)
  {
    if Unopenable(c, name) {
      var order := UnopenableAborts(c, name);
    } else if c.removeFile && Removable(c, name) && c.np >= 2 {
      var order := RemovalRaceAborts(c, name);
    } else {
      forall order ensures !Run(c, name, order).aborted {
        RunInv(c, name, order);
      }
    }
  }

  /** When process 0 cannot open the file no run gets through. */
  lemma UnopenableNeverDone(c: Setup, name: Name, order: seq<nat>)
    requires c.np >= 1 && !name.Shared? && Unopenable(c, name)
    ensures !AllDone(Run(c, name, order))
  {
    RunInv(c, name, order);
    assert Level(Run(c, name, order).pcs[0]) < 3;
  }

  // ---------- termination ----------

  function Todo(c: Setup, pc: PC): int {
    match pc
    case Writing(i, _) => 3 + c.n - i
    case Closed => 1
    case Done => 0
    case _ => 9 + c.n - Level(pc)
  }

  function TodoAll(c: Setup, pcs: seq<PC>): int {
    if pcs == [] then 0 else Todo(c, pcs[0]) + TodoAll(c, pcs[1..])
  }

  lemma {:induction false} TodoUpdate(c: Setup, pcs: seq<PC>, r: nat, pc: PC)
    requires r < |pcs|
    ensures TodoAll(c, pcs[r := pc]) == TodoAll(c, pcs) - Todo(c, pcs[r]) + Todo(c, pc)
  {
    if r == 0 {
      assert pcs[r := pc][1..] == pcs[1..];
    } else {
      TodoUpdate(c, pcs[1..], r - 1, pc);
      assert pcs[r := pc][1..] == pcs[1..][r - 1 := pc];
    }
  }

  /** Every step that does not abort the job lowers what is left to do, which is never negative: runs end. */
  lemma StepDecreases(c: Setup, s: Job, name: Name, r: nat)
    requires Inv(c, s, name) && r < c.np && Step(c, s, r).Some? && !Step(c, s, r).value.aborted
    ensures TodoAll(c, Step(c, s, r).value.pcs) < TodoAll(c, s.pcs)
  {
    TodoUpdate(c, s.pcs, r, Step(c, s, r).value.pcs[r]);
    assert Step(c, s, r).value.pcs == s.pcs[r := Step(c, s, r).value.pcs[r]];
    assert PcOK(c, s, r);
  }

  lemma {:induction false} TodoNonNegative(c: Setup, pcs: seq<PC>)
    requires forall r | 0 <= r < |pcs| && pcs[r].Writing? :: pcs[r].i <= c.n
    ensures TodoAll(c, pcs) >= 0
  {
    if pcs != [] {
      TodoNonNegative(c, pcs[1..]);
    }
  }
}
