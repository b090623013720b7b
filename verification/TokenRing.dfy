/** The token ring test: `n` processes run one loop each over a network that moves one thing at a time.  After a put
    two things are under way: the end of the send, which posts SEND_END at the origin, and the message, whose delivery
    posts PUT_END at the target.  They race. */
module TokenRing {
  import opened Arith
  import opened Common

  datatype Event = SendEnd | PutEnd

  /** Positions in the loop: its head, the wait for the send, the first exit test, the wait for the token. */
  datatype PC = Top | WaitSend | AfterSend | WaitRecv | Exited | Failed

  datatype Rank = Rank(pc: PC, haveToken: bool, count: int, queue: seq<Event>)

  datatype Msg = Msg(src: nat, dst: nat, mbits: nat)

  /** `ends` are the ranks whose send has not ended yet; a rank puts nothing while it is one of them.  For the record, `puts` lists who has sent, in order, `outran`
      tells whether a message was delivered before its own send had ended, and `overtaken` whether a PUT_END entered a
      queue that was still waiting for its SEND_END. */
  datatype Ring = Ring(ranks: seq<Rank>, ends: set<nat>, net: seq<Msg>, puts: seq<nat>, outran: bool, overtaken: bool)

  datatype Turn = RankTurn(r: nat) | EndTurn(r: nat) | DeliverTurn(i: nat)

  function Next(r: nat, n: nat): nat
    requires n > 0
  {
    (r + 1) % n
  }

  function Prev(r: nat, n: nat): nat
    requires n > 0
  {
    (r + n - 1) % n
  }

  /** The receive posted at `d` takes a message from its previous neighbour carrying that neighbour's rank. */
  predicate Matches(m: Msg, d: nat, n: nat)
    requires n > 0
  {
    m.src == Prev(d, n) && m.mbits == Prev(d, n)
  }

  lemma NeighboursInverse(r: nat, d: nat, n: nat)
    requires r < n && d < n
    ensures Next(r, n) == d <==> Prev(d, n) == r
  {
    if r + 1 == n { DivModUnique(r + 1, n, 1, 0); } else { DivModUnique(r + 1, n, 0, r + 1); }
    if d == 0 { DivModUnique(n - 1, n, 0, n - 1); } else { DivModUnique(d + n - 1, n, 1, d - 1); }
  }

  /** A receive takes a message from a rank exactly when it is posted by that rank's next neighbour and the message carries
      its sender's rank. */
  lemma MatchesNextOnly(r: nat, dst: nat, mbits: nat, d: nat, n: nat)
    requires r < n && d < n
    ensures Matches(Msg(r, dst, mbits), d, n) <==> d == Next(r, n) && mbits == r
  {
    NeighboursInverse(r, d, n);
  }

  // ---------- one turn ----------

  function RankStep(g: Ring, r: nat): Option<Ring>
    requires r < |g.ranks|
  {
    var n, k := |g.ranks|, g.ranks[r];
    match k.pc
    case Top =>
      if k.haveToken then
        Some(g.(ranks := g.ranks[r := k.(pc := WaitSend)], ends := g.ends + {r},
                net := g.net + [Msg(r, Next(r, n), r)], puts := g.puts + [r]))
      else Some(g.(ranks := g.ranks[r := k.(pc := AfterSend)]))
    case WaitSend =>
      if k.queue == [] then None
      else if k.queue[0] != SendEnd then Some(g.(ranks := g.ranks[r := k.(pc := Failed, queue := k.queue[1..])]))
      else Some(g.(ranks := g.ranks[r := Rank(AfterSend, false, k.count - 1, k.queue[1..])]))
    case AfterSend =>
      Some(g.(ranks := g.ranks[r := k.(pc := if r > 0 && k.count == 0 then Exited else WaitRecv)]))
    case WaitRecv =>
      if k.queue == [] then None
      else if k.queue[0] != PutEnd then Some(g.(ranks := g.ranks[r := k.(pc := Failed, queue := k.queue[1..])]))
      else Some(g.(ranks := g.ranks[r := Rank(if r == 0 && k.count == 0 then Exited else Top, true, k.count, k.queue[1..])]))
    case _ => None
  }

  function Post(ranks: seq<Rank>, r: nat, e: Event): seq<Rank>
    requires r < |ranks|
  {
    ranks[r := ranks[r].(queue := ranks[r].queue + [e])]
  }

  /** The network ends the send of rank `r`. */
  function EndStep(g: Ring, r: nat): Option<Ring> {
    if r !in g.ends || r >= |g.ranks| then None
    else Some(g.(ranks := Post(g.ranks, r, SendEnd), ends := g.ends - {r}))
  }

  /** The network delivers a message; one that no receive matches is dropped. */
  function DeliverStep(g: Ring, i: nat): Option<Ring>
    requires i < |g.net|
  {
    var m, n := g.net[i], |g.ranks|;
    if m.dst >= n then None
    else
      var h := g.(net := g.net[..i] + g.net[i + 1..], outran := g.outran || m.src in g.ends);
      Some(if !Matches(m, m.dst, n) then h
           else h.(ranks := Post(g.ranks, m.dst, PutEnd), overtaken := g.overtaken || m.dst in g.ends))
  }

  /** A turn of a blocked or missing party changes nothing. */
  function TakeTurn(g: Ring, t: Turn): Option<Ring> {
    match t
    case RankTurn(r) => if r < |g.ranks| then RankStep(g, r) else None
    case EndTurn(r) => EndStep(g, r)
    case DeliverTurn(i) => if i < |g.net| then DeliverStep(g, i) else None
  }

  function Initial(n: nat, count: int): Ring {
    Ring(seq(n, r => Rank(Top, r == 0, count, [])), {}, [], [], false, false)
  }

  function Run(n: nat, count: int, turns: seq<Turn>): Ring {
    if turns == [] then Initial(n, count)
    else
      var g := Run(n, count, turns[..|turns| - 1]);
      match TakeTurn(g, turns[|turns| - 1])
      case Some(g') => g'
      case None => g
  }

  // ---------- how often each rank has sent ----------

  /** How many of the first `k` sends are rank `r`'s when the ranks take turns. */
  function Sends(n: nat, k: nat, r: nat): nat
    requires n > 0
  {
    if k == 0 then 0 else Sends(n, k - 1, r) + (if (k - 1) % n == r then 1 else 0)
  }

  /** The staircase: after `k` sends the first k % n ranks have sent once more than the others. */
  lemma {:induction false} SendsStaircase(n: nat, k: nat, r: nat)
    requires r < n
    ensures Sends(n, k, r) == k / n + (if r < k % n then 1 else 0)
  {
    if k == 0 {
      DivModUnique(0, n, 0, 0);
    } else {
      SendsStaircase(n, k - 1, r);
      DivModStep(k - 1, n);
    }
  }

  // ---------- the invariant ----------

  /** Where the token is: under way, in the target's queue, held. */
  datatype Loc = InNet | Queued | Held

  /** The queue of a rank that waits for the end of its send. */
  function Awaiting(pending: bool, token: bool, overtaken: bool): seq<Event> {
    if pending then if token then [PutEnd] else []
    else if !token then [SendEnd]
    else if overtaken then [PutEnd, SendEnd] else [SendEnd, PutEnd]
  }

  ghost predicate RankOK(k: Rank, r: nat, n: nat, count: nat, sends: nat, loc: Loc, pending: bool, overtaken: bool)
    requires n > 0
  {
    var mine, done := r == sends % n, Sends(n, sends, r);
    && k.count == count - done + (if k.pc.WaitSend? then 1 else 0)
    && k.haveToken == (k.pc.WaitSend? || (loc.Held? && mine))
    && k.queue == (if k.pc.WaitSend? then Awaiting(pending, loc.Queued? && mine, overtaken)
                   else if loc.Queued? && mine then [PutEnd] else [])
    && (pending ==> k.pc.WaitSend?)
    && (overtaken && mine ==> k.pc.WaitSend?)
    && (if loc.Held? && mine then k.pc == (if sends == n * count then Exited else Top)
        else match k.pc
          case Top => done == 0
          case WaitSend => done > 0
          case AfterSend => true
          case WaitRecv => r == 0 || done < count
          case Exited => r > 0 && done == count
          case Failed => false)
  }

  /** How the sends that have not ended and the two records fit the place of the token. */
  ghost predicate EndsOK(g: Ring, n: nat, loc: Loc)
    requires n > 0
  {
    var sends := |g.puts|;
    && (forall r: nat | r in g.ends :: r < n)
    && (g.overtaken ==> loc.Queued?)
    && (loc.Queued? && sends % n in g.ends ==> g.overtaken)
    && (!g.outran ==> !g.overtaken && forall r: nat | r in g.ends :: loc.InNet? && sends > 0 && r == (sends - 1) % n)
  }

  ghost predicate RanksOK(g: Ring, n: nat, count: nat, loc: Loc)
    requires 0 < n == |g.ranks|
  {
    forall r: nat | r < n :: RankOK(g.ranks[r], r, n, count, |g.puts|, loc, r in g.ends, g.overtaken)
  }

  ghost predicate Orderly(g: Ring, n: nat, count: nat, loc: Loc) {
    var sends := |g.puts|;
    && 0 < n == |g.ranks| && 0 < count && sends <= n * count
    && (forall i | 0 <= i < sends :: g.puts[i] == i % n)
    && RanksOK(g, n, count, loc)
    && EndsOK(g, n, loc)
    && (sends == 0 ==> loc.Held?)
    && g.net == if loc.InNet? then [Msg((sends - 1) % n, sends % n, (sends - 1) % n)] else []
  }

  ghost predicate AnyFailed(g: Ring) {
    exists r :: 0 <= r < |g.ranks| && g.ranks[r].pc.Failed?
  }

  /** Either all is orderly, or somebody has failed because a PUT_END came too early. */
  ghost predicate Inv(g: Ring, n: nat, count: nat, loc: Loc) {
    && |g.ranks| == n
    && if AnyFailed(g) then g.overtaken else Orderly(g, n, count, loc)
  }

  lemma NextSender(n: nat, sends: nat)
    requires n > 0
    ensures sends % n < n && Next(sends % n, n) == (sends + 1) % n
  {
    DivModStep(sends, n);
    if sends % n == n - 1 { DivModUnique(n, n, 1, 0); } else { DivModUnique(sends % n + 1, n, 0, sends % n + 1); }
  }

  /** The holder's share of sends, and everybody's when the last trip is over. */
  lemma ShareOfHolder(n: nat, count: nat, sends: nat, r: nat)
    requires r < n && sends <= n * count
    ensures r == sends % n ==> (Sends(n, sends, r) < count <==> sends < n * count)
    ensures sends == n * count ==> Sends(n, sends, r) == count && sends % n == 0
    ensures Sends(n, sends, r) <= count
  {
    SendsStaircase(n, sends, r);
    assert n * count == count * n;
    QuotientBound(sends, count, n);
    if sends == n * count { DivModUnique(sends, n, count, 0); }
  }

  lemma NoneFailed(g: Ring, n: nat, count: nat, loc: Loc)
    requires Orderly(g, n, count, loc)
    ensures !AnyFailed(g) && Inv(g, n, count, loc)
  {
    forall r: nat | r < n ensures !g.ranks[r].pc.Failed? {
      assert RankOK(g.ranks[r], r, n, count, |g.puts|, loc, r in g.ends, g.overtaken);
    }
  }

  lemma InitialInv(n: nat, count: nat)
    requires n > 0 && count > 0
    ensures Orderly(Initial(n, count), n, count, Held) && Inv(Initial(n, count), n, count, Held)
  {
    DivModUnique(0, n, 0, 0);
    assert n * count > 0;
    NoneFailed(Initial(n, count), n, count, Held);
  }

  lemma PutRanks(g: Ring, n: nat, count: nat, r: nat)
    requires Orderly(g, n, count, Held) && r < n && g.ranks[r].pc.Top? && g.ranks[r].haveToken
    ensures r == |g.puts| % n && |g.puts| < n * count && r !in g.ends && !g.overtaken
    ensures RanksOK(RankStep(g, r).value, n, count, InNet)
  {
    var sends := |g.puts|;
    var g' := RankStep(g, r).value;
    NextSender(n, sends);
    ShareOfHolder(n, count, sends, r);
    assert RankOK(g.ranks[r], r, n, count, sends, Held, r in g.ends, g.overtaken);
    forall q: nat | q < n ensures RankOK(g'.ranks[q], q, n, count, sends + 1, InNet, q in g'.ends, g'.overtaken) {
      assert RankOK(g.ranks[q], q, n, count, sends, Held, q in g.ends, g.overtaken);
    }
  }

  lemma PutInv(g: Ring, n: nat, count: nat, r: nat)
    requires Orderly(g, n, count, Held) && r < n && g.ranks[r].pc.Top? && g.ranks[r].haveToken
    ensures Orderly(RankStep(g, r).value, n, count, InNet)
  {
    PutRanks(g, n, count, r);
    NextSender(n, |g.puts|);
  }

  /** Where the token is after rank `r` moves. */
  function MovedLoc(g: Ring, r: nat, loc: Loc): Loc
    requires r < |g.ranks|
  {
    match g.ranks[r].pc
    case Top => if g.ranks[r].haveToken then InNet else loc
    case WaitRecv => Held
    case _ => loc
  }

  lemma MovedRankOK(g: Ring, n: nat, count: nat, loc: Loc, r: nat)
    requires Orderly(g, n, count, loc) && r < n && RankStep(g, r).Some?
    requires !(g.ranks[r].pc.Top? && g.ranks[r].haveToken)
    ensures var g' := RankStep(g, r).value;
            if g'.ranks[r].pc.Failed? then g.overtaken
            else RankOK(g'.ranks[r], r, n, count, |g.puts|, MovedLoc(g, r, loc), r in g.ends, g.overtaken)
    ensures MovedLoc(g, r, loc) != loc ==> loc.Queued? && r == |g.puts| % n && !g.overtaken && r !in g.ends
  {
    ShareOfHolder(n, count, |g.puts|, r);
    assert RankOK(g.ranks[r], r, n, count, |g.puts|, loc, r in g.ends, g.overtaken);
  }

  /** A rank other than the token's does not notice where exactly the token is. */
  lemma OtherRankOK(k: Rank, q: nat, n: nat, count: nat, sends: nat, loc: Loc, loc': Loc, pending: bool, overtaken: bool)
    requires n > 0 && RankOK(k, q, n, count, sends, loc, pending, overtaken) && q != sends % n
    ensures RankOK(k, q, n, count, sends, loc', pending, overtaken)
  {
  }

  lemma RankMoveRanks(g: Ring, n: nat, count: nat, loc: Loc, r: nat)
    requires Orderly(g, n, count, loc) && r < n && RankStep(g, r).Some? && !RankStep(g, r).value.ranks[r].pc.Failed?
    requires !(g.ranks[r].pc.Top? && g.ranks[r].haveToken)
    ensures RanksOK(RankStep(g, r).value, n, count, MovedLoc(g, r, loc))
    ensures MovedLoc(g, r, loc) != loc ==> loc.Queued? && MovedLoc(g, r, loc).Held? && !g.overtaken
  {
    var sends, loc', g' := |g.puts|, MovedLoc(g, r, loc), RankStep(g, r).value;
    MovedRankOK(g, n, count, loc, r);
    forall q: nat | q < n ensures RankOK(g'.ranks[q], q, n, count, sends, loc', q in g'.ends, g'.overtaken) {
      if q != r {
        assert RankOK(g.ranks[q], q, n, count, sends, loc, q in g.ends, g.overtaken);
        if loc' != loc { OtherRankOK(g.ranks[q], q, n, count, sends, loc, loc', q in g.ends, g.overtaken); }
      }
    }
  }

  lemma RankMoveInv(g: Ring, n: nat, count: nat, loc: Loc, r: nat)
    requires Orderly(g, n, count, loc) && r < n && RankStep(g, r).Some? && !RankStep(g, r).value.ranks[r].pc.Failed?
    requires !(g.ranks[r].pc.Top? && g.ranks[r].haveToken)
    ensures Orderly(RankStep(g, r).value, n, count, MovedLoc(g, r, loc))
  {
    RankMoveRanks(g, n, count, loc, r);
    var g' := RankStep(g, r).value;
    assert g' == g.(ranks := g'.ranks);
  }

  lemma RankStepInv(g: Ring, n: nat, count: nat, loc: Loc, r: nat)
    requires Orderly(g, n, count, loc) && r < n && RankStep(g, r).Some?
    ensures var g' := RankStep(g, r).value;
            if g'.ranks[r].pc.Failed? then g'.overtaken && |g'.ranks| == n else Orderly(g', n, count, MovedLoc(g, r, loc))
  {
    assert RankOK(g.ranks[r], r, n, count, |g.puts|, loc, r in g.ends, g.overtaken);
    if g.ranks[r].pc.Top? && g.ranks[r].haveToken {
      PutInv(g, n, count, r);
    } else if RankStep(g, r).value.ranks[r].pc.Failed? {
      MovedRankOK(g, n, count, loc, r);
    } else {
      RankMoveInv(g, n, count, loc, r);
    }
  }

  lemma EndedRankOK(g: Ring, n: nat, count: nat, loc: Loc, r: nat)
    requires Orderly(g, n, count, loc) && r in g.ends
    ensures r < n && EndStep(g, r).Some?
    ensures RankOK(EndStep(g, r).value.ranks[r], r, n, count, |g.puts|, loc, false, g.overtaken)
  {
    assert RankOK(g.ranks[r], r, n, count, |g.puts|, loc, true, g.overtaken);
  }

  lemma EndStepRanks(g: Ring, n: nat, count: nat, loc: Loc, r: nat)
    requires Orderly(g, n, count, loc) && r in g.ends
    ensures EndStep(g, r).Some? && RanksOK(EndStep(g, r).value, n, count, loc)
  {
    EndedRankOK(g, n, count, loc, r);
    var g' := EndStep(g, r).value;
    forall q: nat | q < n ensures RankOK(g'.ranks[q], q, n, count, |g.puts|, loc, q in g'.ends, g'.overtaken) {
      if q != r {
        assert RankOK(g.ranks[q], q, n, count, |g.puts|, loc, q in g.ends, g.overtaken);
      }
    }
  }

  lemma EndStepInv(g: Ring, n: nat, count: nat, loc: Loc, r: nat)
    requires Orderly(g, n, count, loc) && r in g.ends
    ensures EndStep(g, r).Some? && Orderly(EndStep(g, r).value, n, count, loc)
  {
    EndStepRanks(g, n, count, loc, r);
  }

  /** The rank that receives the token. */
  lemma TargetRankOK(g: Ring, n: nat, count: nat, h: nat)
    requires Orderly(g, n, count, InNet) && h == |g.puts| % n
    ensures var k := g.ranks[h].(queue := g.ranks[h].queue + [PutEnd]);
            RankOK(k, h, n, count, |g.puts|, Queued, h in g.ends, g.overtaken || h in g.ends)
  {
    assert RankOK(g.ranks[h], h, n, count, |g.puts|, InNet, h in g.ends, g.overtaken);
  }

  lemma DeliveredIs(g: Ring, n: nat, count: nat, loc: Loc, i: nat)
    requires Orderly(g, n, count, loc) && i < |g.net|
    ensures var h := |g.puts| % n;
            && |g.puts| > 0 && h < n && (|g.puts| - 1) % n < n && loc.InNet? && !g.overtaken
            && DeliverStep(g, i) == Some(g.(ranks := Post(g.ranks, h, PutEnd), net := [],
                                            outran := g.outran || (|g.puts| - 1) % n in g.ends, overtaken := h in g.ends))
  {
    var sends := |g.puts|;
    assert loc.InNet? && sends > 0 && i == 0;
    NextSender(n, sends - 1);
    NextSender(n, sends);
    MatchesNextOnly((sends - 1) % n, sends % n, (sends - 1) % n, sends % n, n);
    assert g.net[..0] + g.net[1..] == [];
  }

  lemma DeliverStepRanks(g: Ring, n: nat, count: nat, loc: Loc, i: nat)
    requires Orderly(g, n, count, loc) && i < |g.net|
    ensures DeliverStep(g, i).Some? && |DeliverStep(g, i).value.ranks| == n
    ensures RanksOK(DeliverStep(g, i).value, n, count, Queued)
  {
    var h := |g.puts| % n;
    DeliveredIs(g, n, count, loc, i);
    TargetRankOK(g, n, count, h);
    var g' := DeliverStep(g, i).value;
    forall q: nat | q < n ensures RankOK(g'.ranks[q], q, n, count, |g.puts|, Queued, q in g'.ends, g'.overtaken) {
      if q != h {
        assert RankOK(g.ranks[q], q, n, count, |g.puts|, InNet, q in g.ends, g.overtaken);
      }
    }
  }

  lemma DeliverStepInv(g: Ring, n: nat, count: nat, loc: Loc, i: nat)
    requires Orderly(g, n, count, loc) && i < |g.net|
    ensures DeliverStep(g, i).Some? && Orderly(DeliverStep(g, i).value, n, count, Queued)
  {
    DeliveredIs(g, n, count, loc, i);
    DeliverStepRanks(g, n, count, loc, i);
  }

  /** A failure is for good. */
  lemma FailedStays(g: Ring, t: Turn)
    requires AnyFailed(g) && TakeTurn(g, t).Some?
    ensures AnyFailed(TakeTurn(g, t).value)
    ensures |TakeTurn(g, t).value.ranks| == |g.ranks| && (g.overtaken ==> TakeTurn(g, t).value.overtaken)
  {
    var r :| 0 <= r < |g.ranks| && g.ranks[r].pc.Failed?;
    assert TakeTurn(g, t).value.ranks[r].pc.Failed?;
  }

  function TurnLoc(g: Ring, t: Turn, loc: Loc): Loc {
    match t
    case RankTurn(r) => if r < |g.ranks| then MovedLoc(g, r, loc) else loc
    case EndTurn(_) => loc
    case DeliverTurn(_) => Queued
  }

  lemma TurnInv(g: Ring, n: nat, count: nat, loc: Loc, t: Turn)
    requires Inv(g, n, count, loc) && TakeTurn(g, t).Some?
    ensures Inv(TakeTurn(g, t).value, n, count, TurnLoc(g, t, loc))
  {
    var g' := TakeTurn(g, t).value;
    if AnyFailed(g) {
      FailedStays(g, t);
    } else {
      match t
      case RankTurn(r) =>
        RankStepInv(g, n, count, loc, r);
        if !g'.ranks[r].pc.Failed? { NoneFailed(g', n, count, TurnLoc(g, t, loc)); }
      case EndTurn(r) =>
        EndStepInv(g, n, count, loc, r);
        NoneFailed(g', n, count, loc);
      case DeliverTurn(i) =>
        DeliverStepInv(g, n, count, loc, i);
        NoneFailed(g', n, count, Queued);
    }
  }

  lemma {:induction false} RunInv(n: nat, count: nat, turns: seq<Turn>) returns (loc: Loc)
    requires n > 0 && count > 0
    ensures Inv(Run(n, count, turns), n, count, loc)
  {
    if turns == [] {
      InitialInv(n, count);
      loc := Held;
    } else {
      loc := RunInv(n, count, turns[..|turns| - 1]);
      var g, t := Run(n, count, turns[..|turns| - 1]), turns[|turns| - 1];
      if TakeTurn(g, t).Some? {
        TurnInv(g, n, count, loc, t);
        loc := TurnLoc(g, t, loc);
      }
    }
  }

  // ---------- main results ----------

  /** A rank holds the token while it is free to send it. */
  ghost predicate Holds(g: Ring, r: nat)
    requires r < |g.ranks|
  {
    g.ranks[r].haveToken && !g.ranks[r].pc.WaitSend?
  }

  /** One token: it is held by exactly one rank, or in exactly one queue, or the only message under way. */
  ghost predicate TokenAt(g: Ring, r: nat, loc: Loc)
  {
    && r < |g.ranks|
    && (forall q | 0 <= q < |g.ranks| :: Holds(g, q) <==> loc.Held? && q == r)
    && (forall q | 0 <= q < |g.ranks| :: PutEnd in g.ranks[q].queue <==> loc.Queued? && q == r)
    && |g.net| == (if loc.InNet? then 1 else 0)
    && (forall m | m in g.net :: m.dst == r)
  }

  /** As long as nobody has failed there is exactly one token, the totals of sends form a staircase that says where it
      is or is heading, and no event queue of size two overflows. */
  lemma OneToken(n: nat, count: nat, turns: seq<Turn>) returns (loc: Loc)
    requires n > 0 && count > 0 && !AnyFailed(Run(n, count, turns))
    ensures var g := Run(n, count, turns); var sends := |g.puts|;
            && |g.ranks| == n
            && TokenAt(g, sends % n, loc)
            && (forall i | 0 <= i < sends :: g.puts[i] == i % n)
            && (forall r | 0 <= r < n :: Sends(n, sends, r) == sends / n + (if r < sends % n then 1 else 0))
            && (forall r | 0 <= r < n :: |g.ranks[r].queue| <= 2)
  {
    loc := RunInv(n, count, turns);
    var g := Run(n, count, turns);
    var sends := |g.puts|;
    NextSender(n, sends);
    forall r | 0 <= r < n
      ensures Sends(n, sends, r) == sends / n + (if r < sends % n then 1 else 0)
      ensures |g.ranks[r].queue| <= 2
      ensures Holds(g, r) <==> loc.Held? && r == sends % n
      ensures PutEnd in g.ranks[r].queue <==> loc.Queued? && r == sends % n
    {
      SendsStaircase(n, sends, r);
      assert RankOK(g.ranks[r], r, n, count, sends, loc, r in g.ends, g.overtaken);
    }
  }

  /** What is under way goes from the last sender to its next neighbour and carries the sender's rank. */
  lemma TokenMessage(n: nat, count: nat, turns: seq<Turn>, m: Msg)
    requires n > 0 && count > 0 && !AnyFailed(Run(n, count, turns)) && m in Run(n, count, turns).net
    ensures var sends := |Run(n, count, turns).puts|;
            sends > 0 && m == Msg((sends - 1) % n, sends % n, (sends - 1) % n)
  {
    var loc := RunInv(n, count, turns);
  }

  ghost predicate Finished(g: Ring, n: nat, count: nat) {
    && |g.ranks| == n && g.net == [] && g.ends == {}
    && |g.puts| == n * count
    && (forall r | 0 <= r < n :: g.ranks[r] == Rank(Exited, r == 0, 0, []))
  }

  ghost predicate Blocked(g: Ring) {
    forall t :: TakeTurn(g, t).None?
  }

  /** A rank whose queue is out of order can still move: it fails. */
  lemma OvertakenMoves(g: Ring, n: nat, count: nat, loc: Loc)
    requires Orderly(g, n, count, loc) && g.overtaken
    ensures TakeTurn(g, RankTurn(|g.puts| % n)).Some?
  {
    var h := |g.puts| % n;
    NextSender(n, |g.puts|);
    assert RankOK(g.ranks[h], h, n, count, |g.puts|, loc, h in g.ends, g.overtaken);
  }

  lemma BlockedFinished(g: Ring, n: nat, count: nat, loc: Loc)
    requires Orderly(g, n, count, loc) && Blocked(g)
    ensures Finished(g, n, count) && !g.overtaken
  {
    var sends := |g.puts|;
    var h := sends % n;
    forall r: nat ensures r !in g.ends {
      assert TakeTurn(g, EndTurn(r)).None?;
    }
    assert g.ends == {};
    if g.net != [] {
      assert TakeTurn(g, DeliverTurn(0)).None?;
      DeliverStepInv(g, n, count, loc, 0);
    }
    assert TakeTurn(g, RankTurn(h)).None?;
    NextSender(n, sends);
    ShareOfHolder(n, count, sends, h);
    assert RankOK(g.ranks[h], h, n, count, sends, loc, h in g.ends, g.overtaken);
    assert loc.Held? && sends == n * count;
    forall r: nat | r < n ensures g.ranks[r] == Rank(Exited, r == 0, 0, []) {
      ShareOfHolder(n, count, sends, r);
      assert RankOK(g.ranks[r], r, n, count, sends, loc, r in g.ends, g.overtaken);
      assert TakeTurn(g, RankTurn(r)).None?;
    }
  }

  /** When nothing can move, the ring has come to its proper end (every rank has left its loop with its counter at zero,
      rank 0 holds the token and exactly n * count sends were made) exactly when no PUT_END ever entered a queue that was
      waiting for its SEND_END; otherwise somebody has failed. */
  lemma NeverDeadlocks(n: nat, count: nat, turns: seq<Turn>)
    requires n > 0 && count > 0
    requires Blocked(Run(n, count, turns))
    ensures var g := Run(n, count, turns);
            (Finished(g, n, count) <==> !g.overtaken) && (AnyFailed(g) <==> g.overtaken)
  {
    var loc := RunInv(n, count, turns);
    var g := Run(n, count, turns);
    if !AnyFailed(g) {
      BlockedFinished(g, n, count, loc);
    }
  }

  /** Nobody ever fails without such an early PUT_END, and there is none in a run in which every send ends before its
      message is delivered. */
  lemma FailsOnlyOvertaken(n: nat, count: nat, turns: seq<Turn>)
    requires n > 0 && count > 0
    ensures var g := Run(n, count, turns); (AnyFailed(g) ==> g.overtaken) && (!g.outran ==> !g.overtaken)
  {
    OrderedRun(n, count, turns);
    var loc := RunInv(n, count, turns);
  }

  /** The records only grow, and a rank's own move adds nothing to them. */
  lemma RecordsGrow(g: Ring, t: Turn)
    requires TakeTurn(g, t).Some?
    ensures var g' := TakeTurn(g, t).value;
            && (g.outran ==> g'.outran) && (g.overtaken ==> g'.overtaken)
            && (t.RankTurn? ==> g'.outran == g.outran && g'.overtaken == g.overtaken)
  {
  }

  lemma OrderedTurnStays(g: Ring, n: nat, count: nat, loc: Loc, t: Turn)
    requires Inv(g, n, count, loc) && TakeTurn(g, t).Some? && (!g.outran ==> !g.overtaken)
    ensures !TakeTurn(g, t).value.outran ==> !TakeTurn(g, t).value.overtaken
  {
    RecordsGrow(g, t);
    if !AnyFailed(g) && !t.RankTurn? {
      match t
      case EndTurn(r) => EndStepInv(g, n, count, loc, r);
      case DeliverTurn(i) => DeliverStepInv(g, n, count, loc, i);
    }
  }

  lemma {:induction false} OrderedRun(n: nat, count: nat, turns: seq<Turn>)
    requires n > 0 && count > 0
    ensures !Run(n, count, turns).outran ==> !Run(n, count, turns).overtaken
  {
    if turns != [] {
      var before, t := turns[..|turns| - 1], turns[|turns| - 1];
      OrderedRun(n, count, before);
      var loc := RunInv(n, count, before);
      if TakeTurn(Run(n, count, before), t).Some? {
        OrderedTurnStays(Run(n, count, before), n, count, loc, t);
      }
    }
  }

  /** The order of the network matters: with one rank its own token may come before the end of its send. */
  lemma OvertakingExample()
    ensures AnyFailed(Run(1, 1, [RankTurn(0), DeliverTurn(0), RankTurn(0)]))
  {
    var t0, t1 := RankTurn(0), DeliverTurn(0);
    assert [t0, t1, t0][..2] == [t0, t1] && [t0, t1][..1] == [t0] && [t0][..0] == [];
    DivModUnique(1, 1, 1, 0);
    var g := Run(1, 1, [t0, t1]);
    assert Run(1, 1, [t0]).net == [Msg(0, 0, 0)];
    assert g.ranks[0].queue == [PutEnd];
    assert Run(1, 1, [t0, t1, t0]).ranks[0].pc.Failed?;
  }

  // ---------- termination ----------

  function Weight(k: Rank): int {
    4 * k.count +
    match k.pc
    case Top => if k.haveToken then 1 else 4
    case WaitSend => 0
    case AfterSend => 3
    case WaitRecv => 2
    case _ => 0
  }

  function Total(ranks: seq<Rank>): int {
    if ranks == [] then 0 else Weight(ranks[0]) + Total(ranks[1..])
  }

  lemma {:induction false} TotalUpdate(ranks: seq<Rank>, r: nat, k: Rank)
    requires r < |ranks|
    ensures Total(ranks[r := k]) == Total(ranks) - Weight(ranks[r]) + Weight(k)
  {
    if r == 0 {
      assert ranks[r := k][1..] == ranks[1..];
    } else {
      TotalUpdate(ranks[1..], r - 1, k);
      assert ranks[r := k][1..] == ranks[1..][r - 1 := k];
    }
  }

  lemma {:induction false} TotalNonNegative(ranks: seq<Rank>)
    requires forall r | 0 <= r < |ranks| :: Weight(ranks[r]) >= 0
    ensures Total(ranks) >= 0
  {
    if ranks != [] {
      TotalNonNegative(ranks[1..]);
    }
  }

  /** What is left to do: it goes down with every turn that changes anything, unless somebody fails. */
  function Remaining(g: Ring): int {
    3 * Total(g.ranks) + |g.ends| + |g.net|
  }

  lemma RemainingNonNegative(g: Ring, n: nat, count: nat, loc: Loc)
    requires Orderly(g, n, count, loc)
    ensures Remaining(g) >= 0
  {
    forall r: nat | r < n ensures Weight(g.ranks[r]) >= 0 {
      ShareOfHolder(n, count, |g.puts|, r);
      assert RankOK(g.ranks[r], r, n, count, |g.puts|, loc, r in g.ends, g.overtaken);
    }
    TotalNonNegative(g.ranks);
  }

  lemma WeightDecreases(g: Ring, n: nat, count: nat, loc: Loc, r: nat)
    requires Orderly(g, n, count, loc) && r < n && RankStep(g, r).Some? && !RankStep(g, r).value.ranks[r].pc.Failed?
    ensures var g' := RankStep(g, r).value;
            && Weight(g'.ranks[r]) < Weight(g.ranks[r])
            && |g'.ends| + |g'.net| <= |g.ends| + |g.net| + 2
  {
    assert RankOK(g.ranks[r], r, n, count, |g.puts|, loc, r in g.ends, g.overtaken);
    ShareOfHolder(n, count, |g.puts|, r);
  }

  lemma RankStepDecreases(g: Ring, n: nat, count: nat, loc: Loc, r: nat)
    requires Orderly(g, n, count, loc) && r < n && RankStep(g, r).Some? && !RankStep(g, r).value.ranks[r].pc.Failed?
    ensures Remaining(RankStep(g, r).value) < Remaining(g)
  {
    var g' := RankStep(g, r).value;
    WeightDecreases(g, n, count, loc, r);
    TotalUpdate(g.ranks, r, g'.ranks[r]);
    assert g'.ranks == g.ranks[r := g'.ranks[r]];
  }

  lemma PostKeepsTotal(ranks: seq<Rank>, r: nat, e: Event)
    requires r < |ranks|
    ensures Total(Post(ranks, r, e)) == Total(ranks)
  {
    var k := ranks[r].(queue := ranks[r].queue + [e]);
    TotalUpdate(ranks, r, k);
    assert Weight(k) == Weight(ranks[r]);
  }

  lemma EndStepDecreases(g: Ring, r: nat)
    requires EndStep(g, r).Some?
    ensures Remaining(EndStep(g, r).value) < Remaining(g)
  {
    PostKeepsTotal(g.ranks, r, SendEnd);
    assert |g.ends - {r}| == |g.ends| - 1;
  }

  lemma DeliverStepDecreases(g: Ring, i: nat)
    requires i < |g.net| && DeliverStep(g, i).Some?
    ensures Remaining(DeliverStep(g, i).value) < Remaining(g)
  {
    PostKeepsTotal(g.ranks, g.net[i].dst, PutEnd);
  }

  lemma TurnDecreases(g: Ring, n: nat, count: nat, loc: Loc, t: Turn)
    requires Orderly(g, n, count, loc) && TakeTurn(g, t).Some? && !AnyFailed(TakeTurn(g, t).value)
    ensures Remaining(TakeTurn(g, t).value) < Remaining(g)
  {
    match t
    case RankTurn(r) =>
      assert !TakeTurn(g, t).value.ranks[r].pc.Failed?;
      RankStepDecreases(g, n, count, loc, r);
    case EndTurn(r) => EndStepDecreases(g, r);
    case DeliverTurn(i) => DeliverStepDecreases(g, i);
  }

  /** With no trip to make, rank 0 sends all the same and then never sees its counter at zero. */
  ghost predicate Overrun(k: Rank) {
    && !k.pc.Exited?
    && k.count <= 0
    && (k.count < 0 || (k.pc.Top? && k.haveToken) || k.pc.WaitSend? || k.pc.Failed?)
  }

  lemma {:induction false} NoTripsOverrun(n: nat, count: int, turns: seq<Turn>)
    requires n > 0 && count <= 0
    ensures |Run(n, count, turns).ranks| == n && Overrun(Run(n, count, turns).ranks[0])
  {
    if turns != [] {
      NoTripsOverrun(n, count, turns[..|turns| - 1]);
      var g, t := Run(n, count, turns[..|turns| - 1]), turns[|turns| - 1];
      match t
      case RankTurn(r) => if r < n && RankStep(g, r).Some? { OverrunStays(g, r); }
      case EndTurn(_) =>
      case DeliverTurn(_) =>
    }
  }

  lemma OverrunStays(g: Ring, r: nat)
    requires r < |g.ranks| && Overrun(g.ranks[0]) && RankStep(g, r).Some?
    ensures |RankStep(g, r).value.ranks| == |g.ranks| && Overrun(RankStep(g, r).value.ranks[0])
  {
  }

  /** A turn that changes something and delivers nothing before its send has ended. */
  lemma OrderedTurn(g: Ring, n: nat, count: nat, loc: Loc) returns (t: Turn)
    requires Orderly(g, n, count, loc) && !Blocked(g) && !g.outran
    ensures TakeTurn(g, t).Some? && !TakeTurn(g, t).value.outran
  {
    if g.ends != {} {
      var r :| r in g.ends;
      t := EndTurn(r);
    } else {
      t :| TakeTurn(g, t).Some?;
    }
  }

  lemma {:induction false} ExtendToFinish(n: nat, count: nat, turns: seq<Turn>, left: nat) returns (all: seq<Turn>)
    requires n > 0 && count > 0 && Remaining(Run(n, count, turns)) <= left && !Run(n, count, turns).outran
    ensures turns <= all && Finished(Run(n, count, all), n, count)
    decreases left
  {
    var loc := RunInv(n, count, turns);
    var g := Run(n, count, turns);
    FailsOnlyOvertaken(n, count, turns);
    if Blocked(g) {
      NeverDeadlocks(n, count, turns);
      all := turns;
    } else {
      var t := OrderedTurn(g, n, count, loc);
      assert (turns + [t])[..|turns|] == turns;
      FailsOnlyOvertaken(n, count, turns + [t]);
      TurnDecreases(g, n, count, loc, t);
      var loc' := RunInv(n, count, turns + [t]);
      RemainingNonNegative(Run(n, count, turns + [t]), n, count, loc');
      all := ExtendToFinish(n, count, turns + [t], left - 1);
    }
  }

  ghost predicate AllExited(g: Ring, n: nat) {
    |g.ranks| == n && forall r | 0 <= r < n :: g.ranks[r].pc.Exited?
  }

  ghost predicate CanFinish(n: nat, count: int) {
    exists turns :: AllExited(Run(n, count, turns), n)
  }

  lemma TripsFinish(n: nat, count: nat)
    requires n > 0 && count > 0
    ensures CanFinish(n, count)
  {
    InitialInv(n, count);
    var start := Run(n, count, []);
    assert start == Initial(n, count);
    RemainingNonNegative(start, n, count, Held);
    var all := ExtendToFinish(n, count, [], Remaining(start));
    assert AllExited(Run(n, count, all), n);
  }

  /** The ring can finish at all exactly when the number of trips is positive. */
  lemma FinishesIffTrips(n: nat, count: int)
    requires n > 0
    ensures CanFinish(n, count) <==> count >= 1
  {
    if count >= 1 {
      TripsFinish(n, count);
    } else {
      forall turns ensures !AllExited(Run(n, count, turns), n) {
        NoTripsOverrun(n, count, turns);
      }
      assert !CanFinish(n, count);
    }
  }
}
