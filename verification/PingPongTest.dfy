/** The ping-pong pair with its slots and event queues updated in place, driven by an arbitrary scheduler and network. */
module PingPongTest {
  import opened Common
  import opened PingPong

  class PingPongTest {
    const c: Setup
    const ids: array<int>
    const squeue: array<seq<Event>>
    const rqueue: array<seq<Event>>
    var spc: SenderPC
    var i: nat
    var completed: seq<(int, int)>
    var rpc: ReceiverPC
    var received: seq<int>
    var net: set<Item>
    var outran: bool
    var overtaken: bool

    ghost function Snapshot(): (p: Pair)
      reads this, ids, squeue, rqueue
    {
      Pair(spc, i, ids[..], squeue[..], completed, rpc, rqueue[..], received, net, outran, overtaken)
    }

    ghost predicate Slotted()
      reads this, ids, squeue, rqueue
    {
      Shape(c, Snapshot()) && squeue != rqueue
    }

    ghost predicate Valid()
      reads this, ids, squeue, rqueue
    {
      Slotted() && Inv(c, Snapshot())
    }

    constructor (c: Setup)
      ensures Valid() && fresh(ids) && fresh(squeue) && fresh(rqueue) && this.c == c
      ensures Snapshot() == Initial(c)
    {
      this.c := c;
      ids := new int[c.inflight](_ => 0);
      squeue := new seq<Event>[c.inflight](_ => []);
      rqueue := new seq<Event>[c.inflight](_ => []);
      spc, i, completed, rpc, received := WarmPut, 0, [], WarmWait, [];
      net, outran, overtaken := {}, false, false;
      new;
      InitialInv(c);
      assert Snapshot() == Initial(c);
    }

    /** A turn of the put loop: a put of the next trial, if there is one, and the step to the next slot. */
    method Put()
      requires Slotted()
      modifies `spc, `i, `net, ids
      ensures Snapshot() == SenderPut(c, old(Snapshot()))
    {
      var m := i % c.inflight;
      if i < c.trials {
        ids[m] := i;
        net := net + {PutEndOf(c, i), PutOf(c, i)};
      }
      i := i + 1;
      spc := if i < c.inflight then Putting else WaitSend;
    }

    /** One of the sender's waits, for an event of slot `m`. */
    method SenderEvent(m: nat) returns (e: Option<Event>)
      requires Slotted() && m < c.inflight
      modifies squeue
      ensures var q := old(squeue[m]);
              if q == [] then e == None && Snapshot() == old(Snapshot())
              else e == Some(q[0]) && Snapshot() == old(Snapshot()).(squeue := old(Snapshot()).squeue[m := q[1..]])
    {
      e := None;
      if squeue[m] != [] {
        e := Some(squeue[m][0]);
        squeue[m] := squeue[m][1..];
      }
    }

    method ReceiverEvent(m: nat) returns (e: Option<Event>)
      requires Slotted() && m < c.inflight
      modifies rqueue
      ensures var q := old(rqueue[m]);
              if q == [] then e == None && Snapshot() == old(Snapshot())
              else e == Some(q[0]) && Snapshot() == old(Snapshot()).(rqueue := old(Snapshot()).rqueue[m := q[1..]])
    {
      e := None;
      if rqueue[m] != [] {
        e := Some(rqueue[m][0]);
        rqueue[m] := rqueue[m][1..];
      }
    }

    /** The sender's step at a wait. */
    method SenderWaits() returns (moved: bool)
      requires Slotted() && !spc.WarmPut? && !spc.Putting?
      modifies `spc, `completed, squeue
      ensures moved <==> SenderStep(c, old(Snapshot())).Some?
      ensures Snapshot() == if moved then SenderStep(c, old(Snapshot())).value else old(Snapshot())
    {
      var m := i % c.inflight;
      var e := None;
      match spc {
        case WarmSend =>
          e := SenderEvent(0);
          if e.Some? { spc := if e.value == SendEnd then WarmAck else SenderFailed; }
        case WarmAck =>
          e := SenderEvent(0);
          if e.Some? { spc := if e.value == Ack then Putting else SenderFailed; }
        case WaitSend =>
          e := SenderEvent(m);
          if e.Some? { spc := if e.value == SendEnd then WaitReply else SenderFailed; }
        case WaitReply =>
          e := SenderEvent(m);
          if e.Some? {
            if e.value.PutEnd? {
              completed := completed + [(ids[m], e.value.trial)];
              spc := if ids[m] == c.trials - 1 then SenderDone else Putting;
            } else {
              spc := SenderFailed;
            }
          }
        case _ =>
      }
      moved := e.Some?;
    }

    /** One step of the sender: the warm-up put, a put, or a wait. */
    method SenderLoop() returns (moved: bool)
      requires Slotted()
      modifies `spc, `i, `completed, `net, ids, squeue
      ensures moved <==> SenderStep(c, old(Snapshot())).Some?
      ensures Snapshot() == if moved then SenderStep(c, old(Snapshot())).value else old(Snapshot())
    {
      moved := true;
      if spc.WarmPut? {
        net := net + {PutEndOf(c, WARM_UP), PutOf(c, WARM_UP)};
        spc := WarmSend;
      } else if spc.Putting? {
        Put();
      } else {
        moved := SenderWaits();
      }
    }

    /** The receiver's step at a wait. */
    method ReceiverWaits() returns (moved: bool)
      requires Slotted() && !rpc.Replying?
      modifies `rpc, `received, rqueue
      ensures moved <==> ReceiverStep(c, old(Snapshot())).Some?
      ensures Snapshot() == if moved then ReceiverStep(c, old(Snapshot())).value else old(Snapshot())
    {
      var n := |received|;
      var e := None;
      match rpc {
        case WarmWait =>
          e := ReceiverEvent(0);
          if e.Some? { rpc := if e.value.PutEnd? then Receiving else ReceiverFailed; }
        case Receiving =>
          e := ReceiverEvent(n % c.inflight);
          if e.Some? {
            if e.value.PutEnd? {
              received := received + [e.value.trial];
              rpc := Replying;
            } else {
              rpc := ReceiverFailed;
            }
          }
        case WaitEnd =>
          if n > 0 {
            e := ReceiverEvent((n - 1) % c.inflight);
            if e.Some? {
              rpc := if e.value != SendEnd then ReceiverFailed else if n == c.trials then ReceiverDone else Receiving;
            }
          }
        case _ =>
      }
      moved := e.Some?;
    }

    /** One step of the receiver: a reply or a wait. */
    method ReceiverLoop() returns (moved: bool)
      requires Slotted()
      modifies `rpc, `received, `net, rqueue
      ensures moved <==> ReceiverStep(c, old(Snapshot())).Some?
      ensures Snapshot() == if moved then ReceiverStep(c, old(Snapshot())).value else old(Snapshot())
    {
      var n := |received|;
      if !rpc.Replying? {
        moved := ReceiverWaits();
      } else if n == 0 {
        moved := false;
      } else {
        var m := (n - 1) % c.inflight;
        net := net + {SendOver(false, m, received[n - 1]), Message(false, Bits(c, m), received[n - 1])};
        rpc := WaitEnd;
        moved := true;
      }
    }

    /** An event enters a queue. */
    method Post(atSender: bool, slot: nat, e: Event)
      requires Slotted() && slot < c.inflight
      modifies squeue, rqueue
      ensures var p := old(Snapshot());
              Snapshot() == if atSender then p.(squeue := Push(p.squeue, slot, e)) else p.(rqueue := Push(p.rqueue, slot, e))
    {
      if atSender {
        squeue[slot] := squeue[slot] + [e];
      } else {
        rqueue[slot] := rqueue[slot] + [e];
      }
    }

    /** A message reaches its target. */
    method Deliver(toReceiver: bool, mbits: nat, t: int)
      requires Slotted() && Message(toReceiver, mbits, t) in net
      modifies `net, `outran, `overtaken, squeue, rqueue
      ensures NetStep(c, old(Snapshot()), Message(toReceiver, mbits, t)) == Some(Snapshot())
    {
      var slot := SlotOf(c, mbits);
      outran := outran || (if toReceiver then PutEndOf(c, t) else ReplyEndOf(c, t)) in net;
      if slot.Some? {
        overtaken := overtaken || AwaitsEnd(net, !toReceiver, slot.value);
        Post(!toReceiver, slot.value, PutEnd(t));
      }
      net := net - {Message(toReceiver, mbits, t)};
      if slot.Some? && toReceiver && t == WARM_UP { net := net + {AckBack}; }
    }

    /** The network does one of the things it has to do. */
    method Network(it: Item) returns (moved: bool)
      requires Slotted()
      modifies `net, `outran, `overtaken, squeue, rqueue
      ensures moved <==> NetStep(c, old(Snapshot()), it).Some?
      ensures Snapshot() == if moved then NetStep(c, old(Snapshot()), it).value else old(Snapshot())
    {
      if it !in net { return false; }
      moved := true;
      match it
      case SendOver(atSender, slot, _) =>
        moved := slot < c.inflight;
        if moved {
          Post(atSender, slot, SendEnd);
          net := net - {it};
        }
      case AckBack =>
        overtaken := overtaken || AwaitsEnd(net, true, 0);
        Post(true, 0, Ack);
        net := net - {it};
      case Message(toReceiver, mbits, t) =>
        Deliver(toReceiver, mbits, t);
    }

    /** A turn of anybody. */
    method Move(t: Turn) returns (moved: bool)
      requires Valid()
      modifies this, ids, squeue, rqueue
      ensures Valid()
      ensures moved <==> TakeTurn(c, old(Snapshot()), t).Some?
      ensures Snapshot() == if moved then TakeTurn(c, old(Snapshot()), t).value else old(Snapshot())
    {
      if TakeTurn(c, Snapshot(), t).Some? { TurnInv(c, Snapshot(), t); }
      match t
      case SenderTurn => moved := SenderLoop();
      case ReceiverTurn => moved := ReceiverLoop();
      case NetTurn(it) => moved := Network(it);
    }

    /** Something the network can do, if there is anything. */
    method AnyNetTurn() returns (moved: bool)
      requires Valid()
      modifies this, ids, squeue, rqueue
      ensures Valid()
      ensures if moved then exists t :: TakeTurn(c, old(Snapshot()), t) == Some(Snapshot())
              else Snapshot() == old(Snapshot()) && forall it :: NetStep(c, Snapshot(), it).None?
    {
      ghost var p := Snapshot();
      var left := net;
      while left != {}
        invariant Valid() && Snapshot() == p
        invariant forall it | it in p.net && it !in left :: NetStep(c, p, it).None?
        decreases left
      {
        var it :| it in left;
        moved := Move(NetTurn(it));
        if moved { return; }
        left := left - {it};
      }
      return false;
    }

    /** A turn of whoever can move, if anybody can. */
    method AnyTurn() returns (moved: bool)
      requires Valid()
      modifies this, ids, squeue, rqueue
      ensures Valid()
      ensures if moved then exists t :: TakeTurn(c, old(Snapshot()), t) == Some(Snapshot())
              else Snapshot() == old(Snapshot()) && Blocked(c, Snapshot())
    {
      moved := AnyNetTurn();
      if !moved { moved := Move(SenderTurn); }
      if !moved { moved := Move(ReceiverTurn); }
    }

    /** The turn wished for, if it can be taken, else any other. */
    method WishedTurn(wish: Option<Turn>) returns (moved: bool)
      requires Valid()
      modifies this, ids, squeue, rqueue
      ensures Valid()
      ensures if moved then exists t :: TakeTurn(c, old(Snapshot()), t) == Some(Snapshot())
              else Snapshot() == old(Snapshot()) && Blocked(c, Snapshot())
    {
      moved := false;
      if wish.Some? { moved := Move(wish.value); }
      if !moved { moved := AnyTurn(); }
    }

    /** Whatever the scheduler and the network do first at each moment, the pair comes to its end: to a failure exactly when
        something entered a queue before its SEND_END; else to the proper end for source rank 0, and for every other rank
        to a halt in the warm-up. */
    method RunToEnd(wishes: seq<Turn>)
      requires Valid() && Snapshot() == Initial(c)
      modifies this, ids, squeue, rqueue
      ensures AnyFailed(Snapshot()) <==> overtaken
      ensures Finished(c, Snapshot()) <==> c.src == 0 && !overtaken
      ensures StuckWarmingUp(Snapshot()) <==> c.src != 0
    {
      var moved := true;
      var at: nat := 0;
      InitialInv(c);
      RemainingNonNegative(c, Snapshot());
      if c.src != 0 { OtherSourceWarming(c, Snapshot()); }
      while moved && !spc.SenderFailed? && !rpc.ReceiverFailed?
        invariant Valid() && (!AnyFailed(Snapshot()) ==> Remaining(c, Snapshot()) >= 0)
        invariant c.src != 0 ==> !AnyFailed(Snapshot()) && !overtaken
        invariant !moved ==> Blocked(c, Snapshot())
        decreases !AnyFailed(Snapshot()), moved, Remaining(c, Snapshot())
      {
        ghost var p := Snapshot();
        moved := WishedTurn(if at < |wishes| then Some(wishes[at]) else None);
        at := at + 1;
        if moved {
          ghost var t :| TakeTurn(c, p, t) == Some(Snapshot());
          TurnProgress(c, p, t);
        }
      }
      if !AnyFailed(Snapshot()) { BlockedOrderly(c, Snapshot()); }
    }
  }
}
