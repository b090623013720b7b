/** The storage service as the checkpoint tests see it: operations are submitted, carried out in any order at any time
    before they are waited for, and waited for one at a time.  The service itself is not part of the repository. */
module ObjectStore {
  import opened Common
  import opened Extents

  const LWFS_OK := 0

  /** A write of the object, or the creation of element `slot` of the caller's array of objects. */
  datatype Op = Write(extent: Extent) | Create(slot: nat)

  predicate InRange(order: seq<nat>, n: nat) {
    forall i | 0 <= i < |order| :: order[i] < n
  }

  /** The writes among the operations with these numbers, in this order; a creation writes nothing. */
  function Log(ops: seq<Op>, order: seq<nat>): (log: seq<Extent>)
    requires InRange(order, |ops|)
    ensures |log| == |order|
  {
    seq(|order|, i requires 0 <= i < |order| =>
      if ops[order[i]].Write? then ops[order[i]].extent else Extent(0, []))
  }

  predicate Distinct(s: seq<nat>) {
    forall i, j | 0 <= i < j < |s| :: s[i] != s[j]
  }

  /** What a call came back with: a submission its result, a wait its local result and the remote one. */
  datatype Call = Submitted(rc: int) | Waited(rc: int, remote: int)

  predicate Fine(call: Call) {
    call.rc == LWFS_OK && (call.Waited? ==> call.remote == LWFS_OK)
  }

  predicate AllFine(calls: seq<Call>) {
    forall i | 0 <= i < |calls| :: Fine(calls[i])
  }

  datatype Obj = Unset | Ready | CreatedBy(request: nat)

  /** Operation `r` creates element `i`. */
  predicate Creates(ops: seq<Op>, r: nat, i: int) {
    r < |ops| && ops[r].Create? && ops[r].slot == i
  }

  /** No operation creates element `i`. */
  predicate Untouched(ops: seq<Op>, i: int) {
    forall r: nat | r < |ops| :: !Creates(ops, r, i)
  }

  /** Every element is created by at most one operation. */
  ghost predicate CreatesDistinct(ops: seq<Op>) {
    forall r: nat, q: nat, i: int | Creates(ops, r, i) && Creates(ops, q, i) :: r == q
  }

  lemma CreatesGrow(ops: seq<Op>, op: Op)
    requires CreatesDistinct(ops) && (op.Create? ==> Untouched(ops, op.slot))
    ensures CreatesDistinct(ops + [op])
  {
    var all := ops + [op];
    forall r: nat, q: nat, i: int | Creates(all, r, i) && Creates(all, q, i) ensures r == q {
      assert r < |ops| ==> Creates(ops, r, i);
      assert q < |ops| ==> Creates(ops, q, i);
    }
  }

  /** A request is known by the number of its operation.  `executed` is the order in which the service has carried
      operations out, filling `objs` as it creates; a `peak` of outstanding requests and local failures of the wait are
      recorded, and so is every result. */
  class Service {
    const objs: array<Obj>
    var ops: seq<Op>
    var outstanding: set<nat>
    var executed: seq<nat>
    ghost var peak: nat
    ghost var waitFailed: bool
    ghost var calls: seq<Call>

    constructor (objs: array<Obj>)
      ensures Valid() && this.objs == objs
      ensures ops == [] && outstanding == {} && peak == 0 && !waitFailed && calls == []
    {
      this.objs := objs;
      ops, outstanding, executed, peak, waitFailed, calls := [], {}, [], 0, false, [];
    }

    ghost predicate Valid()
      reads this, objs
    {
      && (forall r | r in outstanding :: r < |ops|)
      && |outstanding| <= peak
      && InRange(executed, |ops|)
      && Distinct(executed)
      && (forall r: nat | r < |ops| && ops[r].Create? :: ops[r].slot < objs.Length)
      && CreatesDistinct(ops)
      && (forall r: nat | r in executed :: Filled(r))
    }

    /** What operation `r` creates is there. */
    ghost predicate Filled(r: nat)
      reads this, objs
    {
      r < |ops| && (ops[r].Create? ==> ops[r].slot < objs.Length && objs[ops[r].slot] == CreatedBy(r))
    }

    method Submit(op: Op) returns (rc: int, req: nat)
      requires Valid()
      requires op.Create? ==> op.slot < objs.Length && Untouched(ops, op.slot)
      modifies this
      ensures Valid()
      ensures rc == LWFS_OK ==>
                && req == |old(ops)| && ops == old(ops) + [op] && outstanding == old(outstanding) + {req}
                && peak == if |outstanding| > old(peak) then |outstanding| else old(peak)
      ensures rc != LWFS_OK ==> ops == old(ops) && outstanding == old(outstanding) && peak == old(peak)
      ensures executed == old(executed) && waitFailed == old(waitFailed)
      ensures calls == old(calls) + [Submitted(rc)]
    {
      rc, req := *, |ops|;
      calls := calls + [Submitted(rc)];
      if rc == LWFS_OK {
        CreatesGrow(ops, op);
        ops, outstanding := ops + [op], outstanding + {req};
        if |outstanding| > peak { peak := |outstanding|; }
        assert forall r: nat | r in executed :: old(Filled(r));
      }
    }

    /** Carries out an operation that has not been carried out yet. */
    method Execute(r: nat)
      requires Valid() && r < |ops| && r !in executed
      modifies `executed, objs
      ensures Valid() && executed == old(executed) + [r]
      ensures forall i | 0 <= i < objs.Length && Untouched(ops, i) :: objs[i] == old(objs[i])
    {
      if ops[r].Create? {
        var slot := ops[r].slot;
        assert Creates(ops, r, slot);
        objs[slot] := CreatedBy(r);
        forall q: nat | q in executed ensures Filled(q) {
          assert old(Filled(q));
          assert ops[q].Create? ==> Creates(ops, q, ops[q].slot);
        }
      }
      assert forall q: nat | q in executed :: Filled(q);
      executed := executed + [r];
    }

    /** Waits for one of the first `n` requests, whichever the service picks, having carried out any others on the
        way.  A caller must hand in every outstanding request once.  A local failure leaves everything as it was. */
    method WaitAny(reqs: array<nat>, n: nat) returns (rc: int, which: nat, remote: int)
      requires Valid() && 1 <= n <= reqs.Length && multiset(reqs[..n]) == multiset(outstanding)
      modifies this, objs
      ensures Valid() && ops == old(ops) && peak == old(peak)
      ensures old(executed) <= executed
      ensures waitFailed == (old(waitFailed) || rc != LWFS_OK)
      ensures calls == old(calls) + [Waited(rc, remote)]
      ensures rc == LWFS_OK ==> which < n && outstanding == old(outstanding) - {reqs[which]}
      ensures rc == LWFS_OK && remote == LWFS_OK ==> reqs[which] in executed
      ensures rc != LWFS_OK ==> outstanding == old(outstanding)
      ensures forall i | 0 <= i < objs.Length && Untouched(ops, i) :: objs[i] == old(objs[i])
    {
      rc, remote := *, *;
      calls := calls + [Waited(rc, remote)];
      if rc != LWFS_OK {
        waitFailed := true;
        which := *;
        return;
      }
      which :| which < n;
      assert reqs[which] in multiset(reqs[..n]);
      var early: seq<nat> := *;
      for i := 0 to |early|
        invariant Valid() && old(executed) <= executed && outstanding == old(outstanding)
        invariant ops == old(ops) && peak == old(peak) && waitFailed == old(waitFailed)
        invariant calls == old(calls) + [Waited(rc, remote)]
        invariant forall i | 0 <= i < objs.Length && Untouched(ops, i) :: objs[i] == old(objs[i])
      {
        if early[i] in outstanding && early[i] !in executed { Execute(early[i]); }
      }
      if remote == LWFS_OK && reqs[which] !in executed { Execute(reqs[which]); }
      outstanding := outstanding - {reqs[which]};
    }
  }
}
