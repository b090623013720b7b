/** The bounded window of asynchronous requests, writing one object and creating an array of objects. */
module AsyncWindow {
  import opened Arith
  import opened Common
  import opened Extents
  import opened ObjectStore
  import opened SwapLast

  // ---------- the writes of one test ----------

  function WriteOp(buf: Bytes, i: nat): Op {
    Write(Extent(i * |buf|, buf))
  }

  function WriteOps(buf: Bytes, n: nat): (ops: seq<Op>)
    ensures |ops| == n
    ensures forall i | 0 <= i < n :: ops[i] == WriteOp(buf, i)
  {
    seq(n, i requires 0 <= i => WriteOp(buf, i))
  }

  lemma WriteOpsGrow(buf: Bytes, n: nat)
    ensures WriteOps(buf, n + 1) == WriteOps(buf, n) + [WriteOp(buf, n)]
  {
  }

  lemma ExtentOf(k: nat, i: nat, b: nat)
    ensures i * b <= k < i * b + b <==> b > 0 && k / b == i
    ensures i * b <= k < i * b + b ==> k - i * b == k % b
  {
    if b > 0 {
      assert k == k / b * b + k % b;
      if i * b <= k < i * b + b { DivModUnique(k, b, i, k - i * b); }
    }
  }

  /** The extents of the operations are pairwise disjoint and tile the first n * b bytes. */
  lemma ExtentsTile(n: nat, b: nat, k: nat)
    requires b > 0
    ensures forall i, j | 0 <= i < n && 0 <= j < n && Covered(i, b, k) && Covered(j, b, k) :: i == j
    ensures (exists i: nat :: i < n && Covered(i, b, k)) <==> k < n * b
  {
    forall i: nat ensures Covered(i, b, k) <==> k / b == i {
      ExtentOf(k, i, b);
    }
    QuotientBelow(k, n, b);
    assert Covered(k / b, b, k);
  }

  ghost predicate Covered(i: nat, b: nat, k: nat) {
    i * b <= k < i * b + b
  }

  /** A byte of the object after any of the writes, in any order and with repetitions: it depends only on whether its
      operation has been carried out. */
  lemma {:induction false} AnyOrder(before: Contents, buf: Bytes, n: nat, order: seq<nat>, k: nat)
    requires InRange(order, n)
    ensures ByteAt(before, Log(WriteOps(buf, n), order), k) ==
            if |buf| > 0 && k / |buf| in order then Some(buf[k % |buf|]) else before(k)
  {
    if order != [] {
      var last := |order| - 1;
      AnyOrder(before, buf, n, order[..last], k);
      ExtentOf(k, order[last], |buf|);
      assert order == order[..last] + [order[last]];
      assert Log(WriteOps(buf, n), order)[..last] == Log(WriteOps(buf, n), order[..last]);
    }
  }

  function UpTo(n: nat): (s: seq<nat>)
    ensures |s| == n && forall i | 0 <= i < n :: s[i] == i
  {
    seq(n, i requires 0 <= i => i)
  }

  ghost predicate AllDone(order: seq<nat>, n: nat) {
    InRange(order, n) && forall i: nat | i < n :: i in order
  }

  lemma AllDoneIff(order: seq<nat>, n: nat, q: nat)
    requires AllDone(order, n)
    ensures q in order <==> q < n
  {
    if q in order {
      var j :| 0 <= j < |order| && order[j] == q;
    }
  }

  lemma UpToDone(n: nat)
    ensures AllDone(UpTo(n), n)
  {
    forall i: nat | i < n ensures i in UpTo(n) {
      assert UpTo(n)[i] == i;
    }
  }

  /** Once every operation has been carried out the object holds the buffer repeated end to end over the first
      n * |buf| bytes, and everything else is untouched. */
  lemma AllWritten(before: Contents, buf: Bytes, n: nat, order: seq<nat>, k: nat)
    requires AllDone(order, n)
    ensures ByteAt(before, Log(WriteOps(buf, n), order), k) ==
            if k < n * |buf| then Some(buf[k % |buf|]) else before(k)
  {
    AnyOrder(before, buf, n, order, k);
    if |buf| > 0 {
      QuotientBelow(k, n, |buf|);
      AllDoneIff(order, n, k / |buf|);
    } else {
      assert n * |buf| == 0;
    }
  }

  /** Whatever the order of completion, the object ends up as the synchronous test leaves it. */
  lemma AsyncRefinesSync(before: Contents, buf: Bytes, n: nat, order: seq<nat>, k: nat)
    requires AllDone(order, n)
    ensures ByteAt(before, Log(WriteOps(buf, n), order), k) == ByteAt(before, Log(WriteOps(buf, n), UpTo(n)), k)
  {
    AllWritten(before, buf, n, order, k);
    UpToDone(n);
    AllWritten(before, buf, n, UpTo(n), k);
  }

  function Max0(a: int): nat {
    if a > 0 then a else 0
  }

  function Min(a: int, b: int): (r: int)
    ensures r <= a && r <= b && (r == a || r == b)
  {
    if a < b then a else b
  }

  /** The synchronous test: one write after the other, each carried out before the next, up to the first that fails,
      whose result is returned. */
  method WriteSync(buf: Bytes, numOps: int, fails: seq<int>) returns (rc: int, done: seq<Op>)
    requires numOps <= |fails|
    ensures |done| <= Max0(numOps) && done == WriteOps(buf, |done|) && forall i | 0 <= i < |done| :: fails[i] == LWFS_OK
    ensures if rc == LWFS_OK then |done| == Max0(numOps) else |done| < numOps && rc == fails[|done|]
  {
    rc, done := LWFS_OK, [];
    var i: nat := 0;
    while i < numOps
      invariant 0 <= i && (i <= numOps || i == 0) && rc == LWFS_OK
      invariant forall k | 0 <= k < i :: fails[k] == LWFS_OK
      invariant done == WriteOps(buf, i)
    {
      rc := fails[i];
      if rc != LWFS_OK { return; }
      WriteOpsGrow(buf, i);
      done := done + [WriteOp(buf, i)];
      i := i + 1;
    }
  }

  // ---------- the window ----------

  /** The first `n` slots hold every outstanding request exactly once. */
  ghost predicate Tracks(reqs: seq<nat>, n: nat, outstanding: set<nat>) {
    n <= |reqs| && multiset(reqs[..n]) == multiset(outstanding)
  }

  lemma TracksCount(reqs: seq<nat>, n: nat, outstanding: set<nat>)
    requires Tracks(reqs, n, outstanding)
    ensures |outstanding| == n
  {
    assert |multiset(reqs[..n])| == n;
    assert |multiset(outstanding)| == |outstanding|;
  }

  lemma TracksAdded(reqs: seq<nat>, n: nat, outstanding: set<nat>, r: nat)
    requires Tracks(reqs, n, outstanding) && n < |reqs| && r !in outstanding
    ensures Tracks(reqs[n := r], n + 1, outstanding + {r})
  {
    assert reqs[n := r][..n + 1] == reqs[..n] + [r];
  }

  lemma TracksReplaced(reqs: seq<nat>, n: nat, outstanding: set<nat>, w: nat, r: nat)
    requires Tracks(reqs, n, outstanding) && w < n && r !in outstanding
    ensures Tracks(reqs[w := r], n, outstanding - {reqs[w]} + {r})
  {
    assert reqs[w := r][..n] == reqs[..n][w := r];
    assert reqs[..n][w] in multiset(reqs[..n]);
  }

  /** The window after a submission into slot `k`: the next free one, or one whose request has just completed. */
  lemma TracksSubmitted(reqs: seq<nat>, n: nat, outstanding: set<nat>, k: nat, r: nat)
    requires k <= n <= |reqs| && k < |reqs| && r !in outstanding
    requires Tracks(reqs, n, outstanding + (if k < n then {reqs[k]} else {}))
    requires k < n ==> reqs[k] !in outstanding && reqs[k] != r
    ensures var n' := if k < n then n else n + 1;
            Tracks(reqs[k := r], n', outstanding + {r}) && |outstanding + {r}| == n'
  {
    if k < n {
      TracksReplaced(reqs, n, outstanding + {reqs[k]}, k, r);
      assert outstanding + {reqs[k]} - {reqs[k]} == outstanding;
      TracksCount(reqs[k := r], n, outstanding + {r});
    } else {
      assert outstanding + {} == outstanding;
      TracksAdded(reqs, n, outstanding, r);
      TracksCount(reqs[k := r], n + 1, outstanding + {r});
    }
  }

  lemma TracksDrained(reqs: seq<nat>, n: nat, outstanding: set<nat>, w: nat)
    requires Tracks(reqs, n, outstanding) && w < n
    ensures Tracks(reqs[w := reqs[n - 1]], n - 1, outstanding - {reqs[w]})
    ensures n == 1 ==> Tracks(reqs, 0, outstanding - {reqs[w]})
  {
    SwapRemove(reqs[..n], w);
    assert reqs[w := reqs[n - 1]][..n - 1] == SwapWithLast(reqs[..n], w);
    assert multiset(outstanding - {reqs[w]}) == multiset(outstanding) - multiset{reqs[w]};
    if n == 1 {
      assert reqs[..0] == reqs[w := reqs[0]][..0];
    }
  }

  /** Every operation already waited for has been carried out. */
  ghost predicate Served(svc: Service)
    reads svc
  {
    forall r | 0 <= r < |svc.ops| && r !in svc.outstanding :: r in svc.executed
  }

  ghost predicate WindowOK(svc: Service, reqs: array<nat>, pending: nat, limit: int)
    reads svc, svc.objs, reqs
  {
    && svc.Valid() && !svc.waitFailed && AllFine(svc.calls)
    && pending <= reqs.Length && Tracks(reqs[..], pending, svc.outstanding)
    && pending <= limit && svc.peak <= limit
    && Served(svc)
  }

  /** The first call that was not fine was the last, and `rc` is its result: of a wait the remote one. */
  ghost predicate EndedBy(svc: Service, rc: int)
    reads svc
  {
    var n := |svc.calls|;
    && n > 0 && AllFine(svc.calls[..n - 1]) && !Fine(svc.calls[n - 1])
    && rc == (match svc.calls[n - 1]
              case Submitted(code) => code
              case Waited(_, remote) => remote)
    && (svc.waitFailed <==> svc.calls[n - 1].Waited? && svc.calls[n - 1].rc != LWFS_OK)
  }

  lemma CallMade(calls: seq<Call>, call: Call)
    requires AllFine(calls)
    ensures AllFine(calls + [call]) <==> Fine(call)
    ensures (calls + [call])[..|calls|] == calls
  {
    assert (calls + [call])[|calls|] == call;
  }

  /** Once filled, the window has been used to its bound. */
  lemma FullWindow(svc: Service, reqs: array<nat>, pending: nat)
    requires WindowOK(svc, reqs, pending, pending)
    ensures svc.peak == pending
  {
    TracksCount(reqs[..], pending, svc.outstanding);
  }

  /** What either asynchronous test leaves behind: no more operations than asked for, a bounded window, and, when it
      reports success, every operation submitted, carried out and waited for exactly if no wait failed locally, the window
      having been used to its bound.  `initRc`
      is the result of the initialisation before the next submission, if there is one: unless some call was not fine,
      that is what is reported, and success when all is done. */
  ghost predicate Outcome(svc: Service, total: nat, limit: int, initRc: int, rc: int)
    reads svc, svc.objs
  {
    && svc.Valid()
    && (if AllFine(svc.calls) then rc == if |svc.ops| < total then initRc else LWFS_OK else EndedBy(svc, rc))
    && (AllFine(svc.calls) ==> !svc.waitFailed && (|svc.ops| < total ==> initRc != LWFS_OK))
    && |svc.ops| <= total
    && (svc.peak == 0 || svc.peak <= limit)
    && (rc == LWFS_OK && !svc.waitFailed ==>
          |svc.ops| == total && svc.outstanding == {} && Served(svc) && svc.peak == Max0(limit))
    && (rc == LWFS_OK && svc.waitFailed ==> svc.outstanding != {})
  }

  /** Submits the next operation and notes its request in slot `k`: the next free slot, or one whose request has just
      completed. */
  method SubmitInto(svc: Service, op: Op, reqs: array<nat>, k: nat, pending: nat, ghost limit: int) returns (rc: int)
    requires k <= pending <= reqs.Length && k < reqs.Length
    requires op.Create? ==> op.slot < svc.objs.Length && Untouched(svc.ops, op.slot)
    requires svc.Valid() && !svc.waitFailed && AllFine(svc.calls) && svc.peak <= limit && Served(svc)
    requires Tracks(reqs[..], pending, svc.outstanding + (if k < pending then {reqs[k]} else {}))
    requires k < pending ==> reqs[k] !in svc.outstanding && reqs[k] < |svc.ops|
    requires (if k < pending then pending else pending + 1) <= limit
    modifies svc, reqs
    ensures rc == LWFS_OK ==> WindowOK(svc, reqs, if k < pending then pending else pending + 1, limit)
    ensures rc == LWFS_OK ==> svc.ops == old(svc.ops) + [op]
    ensures rc != LWFS_OK ==> svc.ops == old(svc.ops) && svc.Valid() && svc.peak <= limit && EndedBy(svc, rc)
    ensures !svc.waitFailed
  {
    ghost var out, before := svc.outstanding, reqs[..];
    var req;
    ghost var calls := svc.calls;
    rc, req := svc.Submit(op);
    CallMade(calls, Submitted(rc));
    if rc != LWFS_OK { return; }
    reqs[k] := req;
    assert reqs[..] == before[k := req];
    TracksSubmitted(before, pending, out, k, req);
  }

  /** Waits for any request of the window. */
  method WaitOne(svc: Service, reqs: array<nat>, pending: nat, ghost limit: int) returns (rc: int, which: nat, remote: int)
    requires pending > 0 && WindowOK(svc, reqs, pending, limit)
    modifies svc, svc.objs
    ensures svc.Valid() && svc.ops == old(svc.ops) && svc.peak == old(svc.peak) && svc.waitFailed == (rc != LWFS_OK)
    ensures rc == LWFS_OK ==> which < pending && reqs[which] in old(svc.outstanding) && reqs[which] < |svc.ops|
    ensures rc == LWFS_OK ==> svc.outstanding == old(svc.outstanding) - {reqs[which]}
    ensures rc == LWFS_OK && remote == LWFS_OK ==> Served(svc)
    ensures rc != LWFS_OK ==> svc.outstanding != {}
    ensures if rc == LWFS_OK && remote == LWFS_OK then AllFine(svc.calls) else !AllFine(svc.calls) && EndedBy(svc, remote)
    ensures forall i | 0 <= i < svc.objs.Length && Untouched(svc.ops, i) :: svc.objs[i] == old(svc.objs[i])
  {
    TracksCount(reqs[..], pending, svc.outstanding);
    ghost var rs, calls := reqs[..], svc.calls;
    rc, which, remote := svc.WaitAny(reqs, pending);
    if rc == LWFS_OK {
      assert rs[..pending][which] in multiset(rs[..pending]);
    }
    CallMade(calls, Waited(rc, remote));
    assert forall r | r in old(svc.executed) :: r in svc.executed;
  }

  /** The last phase: every request still in the window is waited for, the hole filled by the last slot. */
  method Drain(svc: Service, reqs: array<nat>, start: nat, ghost limit: int) returns (rc: int)
    requires WindowOK(svc, reqs, start, limit)
    modifies svc, svc.objs, reqs
    ensures svc.Valid() && svc.ops == old(svc.ops) && svc.peak == old(svc.peak) <= limit
    ensures forall i | 0 <= i < svc.objs.Length && Untouched(svc.ops, i) :: svc.objs[i] == old(svc.objs[i])
    ensures rc == LWFS_OK && !svc.waitFailed ==> svc.outstanding == {} && Served(svc)
    ensures rc == LWFS_OK && svc.waitFailed ==> svc.outstanding != {}
    ensures if AllFine(svc.calls) then rc == LWFS_OK && !svc.waitFailed else EndedBy(svc, rc)
  {
    var pending: int := start;
    rc := LWFS_OK;
    while pending > 0
      invariant pending >= 0 && rc == LWFS_OK && WindowOK(svc, reqs, pending, limit) && svc.ops == old(svc.ops)
      invariant svc.peak == old(svc.peak)
      invariant forall i | 0 <= i < svc.objs.Length && Untouched(svc.ops, i) :: svc.objs[i] == old(svc.objs[i])
    {
      ghost var out := svc.outstanding;
      var which, remote;
      rc, which, remote := WaitOne(svc, reqs, pending, limit);
      if rc != LWFS_OK || remote != LWFS_OK {
        rc := remote;
        return;
      }
      ghost var before := reqs[..];
      TracksDrained(before, pending, out, which);
      pending := pending - 1;
      if pending > 0 {
        reqs[which] := reqs[pending];
        assert reqs[..] == before[which := before[pending]];
      }
    }
    TracksCount(reqs[..], 0, svc.outstanding);
  }

  /** First phase: the window is filled. */
  method FillWrites(svc: Service, buf: Bytes, reqs: array<nat>, pending: int) returns (rc: int)
    requires WindowOK(svc, reqs, 0, Max0(pending)) && svc.ops == [] && pending <= reqs.Length
    modifies svc, reqs
    ensures svc.ops == WriteOps(buf, |svc.ops|) && |svc.ops| <= Max0(pending)
    ensures rc == LWFS_OK ==> WindowOK(svc, reqs, Max0(pending), Max0(pending)) && |svc.ops| == Max0(pending)
    ensures rc != LWFS_OK ==> svc.Valid() && svc.peak <= Max0(pending) && EndedBy(svc, rc)
  {
    rc := LWFS_OK;
    var i: nat := 0;
    while i < pending
      invariant i <= Max0(pending) && rc == LWFS_OK
      invariant WindowOK(svc, reqs, i, Max0(pending)) && svc.ops == WriteOps(buf, i)
    {
      assert svc.outstanding + {} == svc.outstanding;
      WriteOpsGrow(buf, i);
      rc := SubmitInto(svc, WriteOp(buf, i), reqs, i, i, Max0(pending));
      if rc != LWFS_OK { return; }
      i := i + 1;
    }
  }

  /** Second phase: every completed request is replaced by the next, until all are submitted or something fails. */
  method ReplaceWrites(svc: Service, buf: Bytes, reqs: array<nat>, pending: nat, numOps: int) returns (over: bool, rc: int)
    requires WindowOK(svc, reqs, pending, pending) && svc.ops == WriteOps(buf, pending)
    requires pending == 0 ==> numOps <= 0
    requires pending <= Max0(numOps)
    modifies svc, svc.objs, reqs
    ensures svc.ops == WriteOps(buf, |svc.ops|) && |svc.ops| <= Max0(numOps)
    ensures !over ==> WindowOK(svc, reqs, pending, pending) && |svc.ops| == Max0(numOps)
    ensures over ==> svc.Valid() && svc.peak <= pending && (rc == LWFS_OK ==> svc.waitFailed && svc.outstanding != {})
    ensures over ==> EndedBy(svc, rc)
  {
    over, rc := true, LWFS_OK;
    var count: nat := pending;
    while count < numOps
      invariant count <= Max0(numOps) && pending <= count
      invariant WindowOK(svc, reqs, pending, pending) && svc.ops == WriteOps(buf, count)
    {
      ghost var out := svc.outstanding;
      var which, remote;
      rc, which, remote := WaitOne(svc, reqs, pending, pending);
      if rc != LWFS_OK || remote != LWFS_OK {
        rc := remote;
        return;
      }
      assert svc.outstanding + {reqs[which]} == out;
      WriteOpsGrow(buf, count);
      rc := SubmitInto(svc, WriteOp(buf, count), reqs, which, pending, pending);
      if rc != LWFS_OK { return; }
      count := count + 1;
    }
    over := false;
  }

  /** Asynchronous writes of one object: for every order of completion the writes submitted are those of the synchronous
      test in the same order, at most min(in_transit, num_ops) are outstanding, and a reported success means that all of
      them were carried out and waited for, exactly when no wait failed locally.  It reports success whenever every call
      was fine, and the result of the call that was not otherwise. */
  method WriteAsync(svc: Service, buf: Bytes, numOps: int, inTransit: nat) returns (rc: int)
    requires svc.Valid() && svc.ops == [] && svc.outstanding == {} && svc.peak == 0 && !svc.waitFailed && svc.calls == []
    requires inTransit >= 1
    modifies svc, svc.objs
    ensures svc.ops == WriteOps(buf, |svc.ops|)
    ensures Outcome(svc, Max0(numOps), Min(inTransit, numOps), LWFS_OK, rc)
  {
    var reqs := new nat[inTransit];
    var pending := Min(inTransit, numOps);
    assert multiset(reqs[..0]) == multiset(svc.outstanding);
    rc := FillWrites(svc, buf, reqs, pending);
    if rc != LWFS_OK { return; }
    var over;
    over, rc := ReplaceWrites(svc, buf, reqs, Max0(pending), numOps);
    if over { return; }
    FullWindow(svc, reqs, Max0(pending));
    rc := Drain(svc, reqs, Max0(pending), Max0(pending));
  }

  /** After a reported success without a local wait failure the object equals the synchronous test's. */
  lemma WriteAsyncObject(svc: Service, before: Contents, buf: Bytes, n: nat, k: nat)
    requires Outcome(svc, n, n, LWFS_OK, LWFS_OK) && !svc.waitFailed && svc.ops == WriteOps(buf, |svc.ops|)
    ensures ByteAt(before, Log(svc.ops, svc.executed), k) == ByteAt(before, Log(svc.ops, UpTo(n)), k)
    ensures ByteAt(before, Log(svc.ops, svc.executed), k) == if k < n * |buf| then Some(buf[k % |buf|]) else before(k)
  {
    assert AllDone(svc.executed, n);
    AllWritten(before, buf, n, svc.executed, k);
    AsyncRefinesSync(before, buf, n, svc.executed, k);
  }

  // ---------- creating an array of objects ----------

  function CreateOps(n: nat): (ops: seq<Op>)
    ensures |ops| == n && forall i | 0 <= i < n :: ops[i] == Create(i)
  {
    seq(n, i requires 0 <= i => Create(i))
  }

  lemma UntouchedAbove(n: nat)
    ensures forall i | i >= n :: Untouched(CreateOps(n), i)
    ensures CreateOps(n) + [Create(n)] == CreateOps(n + 1)
  {
  }

  /** The array with its first `n` elements created. */
  function Created(obj: seq<Obj>, n: nat): (r: seq<Obj>)
    requires n <= |obj|
    ensures |r| == |obj| && forall i | 0 <= i < |obj| :: r[i] == if i < n then CreatedBy(i) else obj[i]
  {
    seq(|obj|, i requires 0 <= i < |obj| => if i < n then CreatedBy(i) else obj[i])
  }

  lemma CreatedGrow(obj: seq<Obj>, n: nat)
    requires n < |obj|
    ensures Created(obj, n)[n := CreatedBy(n)] == Created(obj, n + 1)
  {
  }

  /** The synchronous test: every object initialised and created in turn, up to the first call that fails, whose result is
      returned; `made` objects are created, and the next is no more than initialised. */
  method CreateObjsSync(numOps: int, obj: array<Obj>, initRcs: seq<int>, createRcs: seq<int>) returns (rc: int, made: nat)
    requires numOps <= obj.Length && numOps <= |initRcs| && numOps <= |createRcs|
    modifies obj
    ensures made <= Max0(numOps) && forall i | 0 <= i < made :: initRcs[i] == createRcs[i] == LWFS_OK
    ensures if rc == LWFS_OK then made == Max0(numOps)
            else made < numOps && rc == if initRcs[made] != LWFS_OK then initRcs[made] else createRcs[made]
    ensures var all := Created(old(obj[..]), made);
            obj[..] == if rc != LWFS_OK && initRcs[made] == LWFS_OK then all[made := Ready] else all
  {
    ghost var blank := obj[..];
    rc, made := LWFS_OK, 0;
    while made < numOps
      invariant made <= Max0(numOps) && rc == LWFS_OK && obj[..] == Created(blank, made)
      invariant forall k | 0 <= k < made :: initRcs[k] == createRcs[k] == LWFS_OK
    {
      rc := initRcs[made];
      if rc != LWFS_OK { return; }
      obj[made] := Ready;
      assert obj[..] == Created(blank, made)[made := Ready];
      rc := createRcs[made];
      if rc != LWFS_OK { return; }
      CreatedGrow(blank, made);
      obj[made] := CreatedBy(made);
      assert obj[..] == Created(blank, made)[made := CreatedBy(made)];
      made := made + 1;
    }
  }

  /** The creations submitted are those of the first elements, and the elements after them are as they were. */
  ghost predicate CreatesFirst(svc: Service, blank: seq<Obj>)
    reads svc, svc.objs
  {
    && svc.ops == CreateOps(|svc.ops|) && |svc.ops| <= svc.objs.Length == |blank|
    && forall i | |svc.ops| <= i < |blank| :: svc.objs[i] == blank[i]
  }

  /** The initialisations before the submissions made have gone well. */
  predicate InitsFine(initRcs: seq<int>, n: nat) {
    n <= |initRcs| && forall i | 0 <= i < n :: initRcs[i] == LWFS_OK
  }

  /** The result of the initialisation before the next submission, if there is one. */
  function NextInit(initRcs: seq<int>, n: nat, total: nat): int
    requires total <= |initRcs|
  {
    if n < total then initRcs[n] else LWFS_OK
  }

  /** A call was not fine, or else the initialisation of the next element. */
  ghost predicate CreatesEnded(svc: Service, initRcs: seq<int>, total: nat, rc: int)
    requires total <= |initRcs|
    reads svc
  {
    if AllFine(svc.calls) then !svc.waitFailed && |svc.ops| < total && rc == initRcs[|svc.ops|] != LWFS_OK else EndedBy(svc, rc)
  }

  /** Initialises element `count` of the array and submits its creation into slot `k`; the service will fill it. */
  method CreateInto(svc: Service, count: nat, initRcs: seq<int>, reqs: array<nat>, k: nat, pending: nat, ghost limit: int,
                    ghost total: nat, ghost blank: seq<Obj>)
    returns (rc: int)
    requires count < total <= |initRcs| && InitsFine(initRcs, count)
    requires CreatesFirst(svc, blank) && count == |svc.ops| < svc.objs.Length
    requires k <= pending <= reqs.Length && k < reqs.Length
    requires svc.Valid() && !svc.waitFailed && AllFine(svc.calls) && svc.peak <= limit && Served(svc)
    requires Tracks(reqs[..], pending, svc.outstanding + (if k < pending then {reqs[k]} else {}))
    requires k < pending ==> reqs[k] !in svc.outstanding && reqs[k] < |svc.ops|
    requires (if k < pending then pending else pending + 1) <= limit
    modifies svc, reqs, svc.objs
    ensures rc == LWFS_OK ==> WindowOK(svc, reqs, if k < pending then pending else pending + 1, limit)
    ensures rc == LWFS_OK ==> CreatesFirst(svc, blank) && |svc.ops| == count + 1
    ensures rc != LWFS_OK ==> svc.ops == old(svc.ops) && svc.Valid() && svc.peak <= limit
    ensures if rc == LWFS_OK then InitsFine(initRcs, count + 1) else CreatesEnded(svc, initRcs, total, rc)
    ensures !svc.waitFailed
  {
    rc := initRcs[count];
    if rc != LWFS_OK { return; }
    UntouchedAbove(count);
    assert forall r: nat | r in svc.executed :: svc.Filled(r);
    svc.objs[count] := Ready;
    assert forall r: nat | r in svc.executed :: old(svc.Filled(r)) && svc.Filled(r);
    rc := SubmitInto(svc, Create(count), reqs, k, pending, limit);
  }

  method FillCreates(svc: Service, initRcs: seq<int>, reqs: array<nat>, pending: int, ghost blank: seq<Obj>) returns (rc: int)
    requires WindowOK(svc, reqs, 0, Max0(pending)) && svc.ops == [] && pending <= reqs.Length
    requires CreatesFirst(svc, blank) && pending <= |blank| && pending <= |initRcs|
    modifies svc, reqs, svc.objs
    ensures svc.ops == CreateOps(|svc.ops|) && |svc.ops| <= Max0(pending)
    ensures rc == LWFS_OK ==> WindowOK(svc, reqs, Max0(pending), Max0(pending)) && |svc.ops| == Max0(pending)
    ensures rc == LWFS_OK ==> CreatesFirst(svc, blank)
    ensures InitsFine(initRcs, |svc.ops|)
    ensures rc != LWFS_OK ==> svc.Valid() && svc.peak <= Max0(pending) && CreatesEnded(svc, initRcs, Max0(pending), rc)
  {
    rc := LWFS_OK;
    var i: nat := 0;
    while i < pending
      invariant i <= Max0(pending) && rc == LWFS_OK && CreatesFirst(svc, blank) && |svc.ops| == i && InitsFine(initRcs, i)
      invariant WindowOK(svc, reqs, i, Max0(pending))
    {
      assert svc.outstanding + {} == svc.outstanding;
      rc := CreateInto(svc, i, initRcs, reqs, i, i, Max0(pending), Max0(pending), blank);
      if rc != LWFS_OK { return; }
      i := i + 1;
    }
  }

  method ReplaceCreates(svc: Service, initRcs: seq<int>, reqs: array<nat>, pending: nat, numOps: int, ghost blank: seq<Obj>)
    returns (over: bool, rc: int)
    requires WindowOK(svc, reqs, pending, pending) && CreatesFirst(svc, blank) && |svc.ops| == pending
    requires pending == 0 ==> numOps <= 0
    requires pending <= Max0(numOps) && numOps <= |blank| && numOps <= |initRcs| && InitsFine(initRcs, pending)
    modifies svc, reqs, svc.objs
    ensures svc.ops == CreateOps(|svc.ops|) && |svc.ops| <= Max0(numOps)
    ensures !over ==> WindowOK(svc, reqs, pending, pending) && CreatesFirst(svc, blank) && |svc.ops| == Max0(numOps)
    ensures over ==> svc.Valid() && svc.peak <= pending && (rc == LWFS_OK ==> svc.waitFailed && svc.outstanding != {})
    ensures InitsFine(initRcs, |svc.ops|)
    ensures over ==> CreatesEnded(svc, initRcs, Max0(numOps), rc)
  {
    over, rc := true, LWFS_OK;
    var count: nat := pending;
    while count < numOps
      invariant count <= Max0(numOps) && pending <= count
      invariant WindowOK(svc, reqs, pending, pending) && CreatesFirst(svc, blank) && |svc.ops| == count
      invariant InitsFine(initRcs, count)
    {
      ghost var out := svc.outstanding;
      UntouchedAbove(count);
      var which, remote;
      rc, which, remote := WaitOne(svc, reqs, pending, pending);
      if rc != LWFS_OK || remote != LWFS_OK {
        rc := remote;
        return;
      }
      assert svc.outstanding + {reqs[which]} == out;
      rc := CreateInto(svc, count, initRcs, reqs, which, pending, pending, Max0(numOps), blank);
      if rc != LWFS_OK { return; }
      count := count + 1;
    }
    over := false;
  }

  /** Asynchronous creation: the same window; after a reported success without a local wait failure the service has
      filled element i by request i, and the array is the synchronous test's. */
  method CreateObjsAsync(svc: Service, numOps: int, inTransit: nat, initRcs: seq<int>) returns (rc: int)
    requires svc.Valid() && svc.ops == [] && svc.outstanding == {} && svc.peak == 0 && !svc.waitFailed && svc.calls == []
    requires inTransit >= 1 && numOps <= svc.objs.Length && numOps <= |initRcs|
    modifies svc, svc.objs
    ensures svc.ops == CreateOps(|svc.ops|)
    ensures InitsFine(initRcs, |svc.ops|)
    ensures Outcome(svc, Max0(numOps), Min(inTransit, numOps), NextInit(initRcs, |svc.ops|, Max0(numOps)), rc)
    ensures rc == LWFS_OK && !svc.waitFailed ==> svc.objs[..] == Created(old(svc.objs[..]), Max0(numOps))
  {
    ghost var blank := svc.objs[..];
    var reqs := new nat[inTransit];
    var pending := Min(inTransit, numOps);
    assert multiset(reqs[..0]) == multiset(svc.outstanding);
    rc := FillCreates(svc, initRcs, reqs, pending, blank);
    if rc != LWFS_OK { return; }
    var over;
    over, rc := ReplaceCreates(svc, initRcs, reqs, Max0(pending), numOps, blank);
    if over { return; }
    UntouchedAbove(|svc.ops|);
    FullWindow(svc, reqs, Max0(pending));
    rc := Drain(svc, reqs, Max0(pending), Max0(pending));
    if rc == LWFS_OK && !svc.waitFailed { AllFilled(svc, blank); }
  }

  lemma AllFilled(svc: Service, blank: seq<Obj>)
    requires svc.Valid() && CreatesFirst(svc, blank) && svc.outstanding == {} && Served(svc)
    ensures svc.objs[..] == Created(blank, |svc.ops|)
  {
    forall i: nat | i < |svc.ops| ensures svc.objs[i] == CreatedBy(i) {
      assert i in svc.executed && svc.Filled(i);
    }
  }
}
