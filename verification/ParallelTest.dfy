/** The shared-file test with its processes and its file updated in place, driven by an arbitrary scheduler. */
module ParallelTest {
  import opened Common
  import opened Extents
  import opened ParallelFile
  import opened ParallelRuns

  class Cluster {
    const c: Setup
    const leftover: Name
    const pcs: array<PC>
    var name: Name
    var base: Bytes
    var log: seq<Write>
    var aborted: bool

    ghost function Snapshot(): (s: Job)
      reads this, pcs
    {
      Job(pcs[..], name, base, log, aborted)
    }

    ghost predicate Valid()
      reads this, pcs
    {
      Inv(c, Snapshot(), leftover) && !leftover.Shared?
    }

    constructor (c: Setup, leftover: Name)
      requires c.np >= 1 && !leftover.Shared?
      ensures Valid() && fresh(pcs) && this.c == c && this.leftover == leftover
      ensures Snapshot() == Initial(c, leftover)
    {
      this.c, this.leftover := c, leftover;
      pcs := new PC[c.np](_ => Start);
      name, base, log, aborted := leftover, [], [], false;
      new;
      InitialInv(c, leftover);
      assert Snapshot() == Initial(c, leftover);
    }

    method Entered(level: nat) returns (all: bool)
      ensures all <==> AllReached(pcs[..], level)
    {
      for r := 0 to pcs.Length
        invariant forall q | 0 <= q < r :: Level(pcs[..][q]) >= level
      {
        if Level(pcs[r]) < level {
          assert Level(pcs[..][r]) < level;
          return false;
        }
      }
      return true;
    }

    /** The next statement of process `r`, if it is not waiting at a barrier. */
    method Execute(r: nat) returns (moved: bool)
      requires r < pcs.Length
      modifies `name, `base, `log, `aborted, pcs
      ensures moved <==> Step(c, old(Snapshot()), r).Some?
      ensures Snapshot() == if moved then Step(c, old(Snapshot()), r).value else old(Snapshot())
    {
      moved := !aborted;
      if aborted { return; }
      match pcs[r]
      case Start =>
        if r == 0 { name := Cleared(name); }
        pcs[r] := Barrier1;
      case Barrier1 =>
        moved := Entered(1);
        if moved { pcs[r] := if r == 0 then Creating else Barrier2; }
      case Creating =>
        match ParallelFile.Create(c, name) {
          case None => aborted := true;
          case Some(file) =>
            name, base := file.0, file.1;
            pcs[r] := Barrier2;
        }
      case Barrier2 =>
        moved := Entered(3);
        if moved { pcs[r] := if r == 0 then Seeked(c, r) else Opening; }
      case Opening =>
        if !name.Shared? { aborted := true; } else { pcs[r] := Seeked(c, r); }
      case Writing(i, pos) =>
        if i < c.n {
          log := log + [Write(r, i, Extent(pos, Buffer(r, c.b)))];
          pcs[r] := Writing(i + 1, pos + c.b);
        } else {
          pcs[r] := Closed;
        }
      case Closed =>
        name := Removed(c, name);
        pcs[r] := Done;
      case Done =>
        moved := false;
    }

    method Move(r: nat) returns (moved: bool)
      requires Valid() && r < c.np
      modifies this, pcs
      ensures Valid()
      ensures moved <==> Step(c, old(Snapshot()), r).Some?
      ensures Snapshot() == if moved then Step(c, old(Snapshot()), r).value else old(Snapshot())
    {
      ghost var s := Snapshot();
      if Step(c, s, r).Some? {
        if IsWrite(c, s, r) { WriteInv(c, s, leftover, r); } else { OtherStepInv(c, s, leftover, r); }
      }
      moved := Execute(r);
    }

    /** A move of the first process that can move, if any can. */
    method MoveAny() returns (moved: bool)
      requires Valid()
      modifies this, pcs
      ensures Valid()
      ensures moved && !aborted ==> TodoAll(c, pcs[..]) < old(TodoAll(c, pcs[..]))
      ensures !moved ==> Snapshot() == old(Snapshot()) && forall r | 0 <= r < c.np :: Step(c, Snapshot(), r).None?
    {
      ghost var s := Snapshot();
      for r := 0 to pcs.Length
        invariant Valid() && Snapshot() == s
        invariant forall q | 0 <= q < r :: Step(c, s, q).None?
      {
        moved := Move(r);
        if moved {
          if !aborted { StepDecreases(c, s, leftover, r); }
          return;
        }
      }
      return false;
    }

    /** Whatever the scheduler asks for first at each moment, the job ends: aborted if process 0 cannot open the file,
        with every process done if it can and no removal is raced, one or the other if one is. */
    method RunToEnd()
      requires Valid()
      modifies this, pcs
      ensures Valid()
      ensures aborted || AllDone(Snapshot())
      ensures Unopenable(c, leftover) ==> aborted
      ensures !Abortable(c, leftover) ==> AllDone(Snapshot())
    {
      var moved := true;
      TodoBounded();
      while moved && !aborted
        invariant Valid() && TodoAll(c, pcs[..]) >= 0
        invariant !moved ==> forall r | 0 <= r < c.np :: Step(c, Snapshot(), r).None?
        decreases moved, TodoAll(c, pcs[..])
      {
        var wish: nat := *;
        ghost var s := Snapshot();
        moved := false;
        if wish < c.np {
          moved := Move(wish);
          if moved && !aborted { StepDecreases(c, s, leftover, wish); }
        }
        if !moved {
          moved := MoveAny();
        }
        TodoBounded();
        if aborted { return; }
      }
      if !aborted {
        StuckDone(c, Snapshot(), leftover);
      }
    }

    lemma TodoBounded()
      requires Valid()
      ensures TodoAll(c, pcs[..]) >= 0
    {
      forall r | 0 <= r < |pcs[..]| && pcs[..][r].Writing? ensures pcs[..][r].i <= c.n {
        assert PcOK(c, Snapshot(), r);
      }
      TodoNonNegative(c, pcs[..]);
    }
  }
}
