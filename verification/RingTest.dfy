/** The ring test with its processes updated in place, driven by an arbitrary scheduler and network. */
module RingTest {
  import opened Common
  import opened TokenRing

  class RingTest {
    const n: nat
    const trips: nat
    const ranks: array<Rank>
    var ends: set<nat>
    var net: seq<Msg>
    var puts: seq<nat>
    var outran: bool
    var overtaken: bool
    ghost var loc: Loc

    ghost function Snapshot(): (g: Ring)
      reads this, ranks
    {
      Ring(ranks[..], ends, net, puts, outran, overtaken)
    }

    ghost predicate Valid()
      reads this, ranks
    {
      ranks.Length == n && Inv(Snapshot(), n, trips, loc)
    }

    constructor (n: nat, trips: nat)
      requires n > 0 && trips > 0
      ensures Valid() && fresh(ranks) && this.n == n && this.trips == trips
      ensures Snapshot() == Initial(n, trips)
    {
      this.n, this.trips := n, trips;
      ranks := new Rank[n](r => Rank(Top, r == 0, trips, []));
      ends, net, puts, outran, overtaken, loc := {}, [], [], false, false, Held;
      new;
      InitialInv(n, trips);
      assert Snapshot() == Initial(n, trips);
    }

    /** One step of the loop of rank `r`. */
    method StepLoop(r: nat) returns (moved: bool)
      requires r < ranks.Length == n
      modifies `ends, `net, `puts, ranks
      ensures moved <==> RankStep(old(Snapshot()), r).Some?
      ensures Snapshot() == if moved then RankStep(old(Snapshot()), r).value else old(Snapshot())
    {
      var k := ranks[r];
      moved := true;
      match k.pc
      case Top =>
        if k.haveToken {
          ends := ends + {r};
          net := net + [Msg(r, Next(r, n), r)];
          puts := puts + [r];
          ranks[r] := k.(pc := WaitSend);
        } else {
          ranks[r] := k.(pc := AfterSend);
        }
      case WaitSend =>
        if k.queue == [] {
          moved := false;
        } else if k.queue[0] != SendEnd {
          ranks[r] := k.(pc := Failed, queue := k.queue[1..]);
        } else {
          ranks[r] := Rank(AfterSend, false, k.count - 1, k.queue[1..]);
        }
      case AfterSend =>
        ranks[r] := k.(pc := if r > 0 && k.count == 0 then Exited else WaitRecv);
      case WaitRecv =>
        if k.queue == [] {
          moved := false;
        } else if k.queue[0] != PutEnd {
          ranks[r] := k.(pc := Failed, queue := k.queue[1..]);
        } else {
          ranks[r] := Rank(if r == 0 && k.count == 0 then Exited else Top, true, k.count, k.queue[1..]);
        }
      case _ =>
        moved := false;
    }

    /** The network ends the send of rank `r`. */
    method EndSend(r: nat)
      requires r < ranks.Length == n && r in ends
      modifies `ends, ranks
      ensures EndStep(old(Snapshot()), r) == Some(Snapshot())
    {
      ghost var g := Snapshot();
      ranks[r] := ranks[r].(queue := ranks[r].queue + [SendEnd]);
      ends := ends - {r};
      assert Snapshot() == EndStep(g, r).value;
    }

    /** The network delivers the message at `i`. */
    method Deliver(i: nat)
      requires ranks.Length == n > 0 && i < |net| && net[i].dst < n
      modifies `net, `outran, `overtaken, ranks
      ensures DeliverStep(old(Snapshot()), i) == Some(Snapshot())
    {
      ghost var g := Snapshot();
      var m := net[i];
      outran := outran || m.src in ends;
      net := net[..i] + net[i + 1..];
      if Matches(m, m.dst, n) {
        overtaken := overtaken || m.dst in ends;
        ranks[m.dst] := ranks[m.dst].(queue := ranks[m.dst].queue + [PutEnd]);
      }
      assert Snapshot() == DeliverStep(g, i).value;
    }

    /** A turn of anybody. */
    method Move(t: Turn) returns (moved: bool)
      requires Valid()
      modifies this, ranks
      ensures Valid()
      ensures moved <==> TakeTurn(old(Snapshot()), t).Some?
      ensures Snapshot() == if moved then TakeTurn(old(Snapshot()), t).value else old(Snapshot())
    {
      ghost var g := Snapshot();
      if TakeTurn(g, t).Some? {
        TurnInv(g, n, trips, loc, t);
        loc := TurnLoc(g, t, loc);
      }
      moved := false;
      match t
      case RankTurn(r) =>
        if r < n { moved := StepLoop(r); }
      case EndTurn(r) =>
        if r in ends && r < n {
          EndSend(r);
          moved := true;
        }
      case DeliverTurn(i) =>
        if i < |net| && net[i].dst < n {
          Deliver(i);
          moved := true;
        }
    }

    method SomebodyFailed() returns (yes: bool)
      ensures yes <==> AnyFailed(Snapshot())
    {
      for r := 0 to ranks.Length
        invariant forall q | 0 <= q < r :: !ranks[..][q].pc.Failed?
      {
        if ranks[r].pc.Failed? {
          assert ranks[..][r].pc.Failed?;
          return true;
        }
      }
      return false;
    }

    /** The end of some send, if one is outstanding. */
    method AnyEnd() returns (moved: bool)
      requires Valid()
      modifies this, ranks
      ensures Valid()
      ensures if moved then exists t :: TakeTurn(old(Snapshot()), t) == Some(Snapshot())
              else Snapshot() == old(Snapshot()) && forall r: nat :: EndStep(Snapshot(), r).None?
    {
      ghost var g := Snapshot();
      var left := ends;
      while left != {}
        invariant Valid() && Snapshot() == g
        invariant forall r | r in ends && r !in left :: EndStep(g, r).None?
        decreases left
      {
        var r :| r in left;
        moved := Move(EndTurn(r));
        if moved { return; }
        left := left - {r};
      }
      return false;
    }

    /** The delivery of some message, if one can be delivered. */
    method AnyDelivery() returns (moved: bool)
      requires Valid()
      modifies this, ranks
      ensures Valid()
      ensures if moved then exists t :: TakeTurn(old(Snapshot()), t) == Some(Snapshot())
              else Snapshot() == old(Snapshot()) && forall i: nat | i < |net| :: DeliverStep(Snapshot(), i).None?
    {
      ghost var g := Snapshot();
      for i := 0 to |net|
        invariant Valid() && Snapshot() == g
        invariant forall j | 0 <= j < i :: DeliverStep(g, j).None?
      {
        moved := Move(DeliverTurn(i));
        if moved { return; }
      }
      return false;
    }

    /** A turn of the first rank that can move, if any can. */
    method FirstRankTurn() returns (moved: bool)
      requires Valid()
      modifies this, ranks
      ensures Valid()
      ensures if moved then exists t :: TakeTurn(old(Snapshot()), t) == Some(Snapshot())
              else Snapshot() == old(Snapshot()) && forall r: nat | r < n :: RankStep(Snapshot(), r).None?
    {
      ghost var g := Snapshot();
      for r := 0 to n
        invariant Valid() && Snapshot() == g
        invariant forall q | 0 <= q < r :: RankStep(g, q).None?
      {
        moved := Move(RankTurn(r));
        if moved { return; }
      }
      return false;
    }

    /** A turn of whoever can move, if anybody can. */
    method AnyTurn() returns (moved: bool)
      requires Valid()
      modifies this, ranks
      ensures Valid()
      ensures if moved then exists t :: TakeTurn(old(Snapshot()), t) == Some(Snapshot())
              else Snapshot() == old(Snapshot()) && Blocked(Snapshot())
    {
      moved := AnyEnd();
      if !moved { moved := AnyDelivery(); }
      if !moved { moved := FirstRankTurn(); }
    }

    /** Whatever the scheduler and the network do first at each moment, the ring runs to its proper end, or to a failure,
        and the latter exactly when a PUT_END has entered a queue that was waiting for its SEND_END. */
    method RunToEnd(wishes: seq<Turn>)
      requires Valid() && Snapshot() == Initial(n, trips)
      modifies this, ranks
      ensures Finished(Snapshot(), n, trips) || AnyFailed(Snapshot())
      ensures AnyFailed(Snapshot()) <==> overtaken
    {
      var moved, failed := true, false;
      var at: nat := 0;
      InitialInv(n, trips);
      RemainingNonNegative(Snapshot(), n, trips, loc);
      while moved && !failed
        invariant Valid() && (failed <==> AnyFailed(Snapshot()))
        invariant !failed ==> Orderly(Snapshot(), n, trips, loc) && Remaining(Snapshot()) >= 0
        invariant !moved ==> Blocked(Snapshot())
        decreases !failed, moved, if failed then 0 else Remaining(Snapshot())
      {
        ghost var g, before := Snapshot(), loc;
        moved := false;
        if at < |wishes| {
          moved := Move(wishes[at]);
          at := at + 1;
        }
        if !moved { moved := AnyTurn(); }
        failed := SomebodyFailed();
        if !failed {
          if moved {
            ghost var t :| TakeTurn(g, t) == Some(Snapshot());
            TurnDecreases(g, n, trips, before, t);
          }
          RemainingNonNegative(Snapshot(), n, trips, loc);
        }
      }
      if !failed { BlockedFinished(Snapshot(), n, trips, loc); }
    }
  }
}
