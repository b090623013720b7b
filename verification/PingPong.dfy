/** The ping-pong pair: the warm-up exchange, the sender's window of puts, the receiver's replies, and a network that does
    what it has to do in any order.  After a put two things are under way: the end of the send, which posts SEND_END at
    the origin, and the message, whose delivery posts PUT_END at the target.  They race. */
module PingPong {
  import opened Arith
  import opened Common
  import opened Slots

  /** The source rank, the number of slots and of trials. */
  datatype Params = Params(src: nat, inflight: nat, trials: nat)

  type Setup = c: Params | 1 <= c.inflight <= 32 && c.trials >= 1 witness Params(0, 1, 1)

  /** The warm-up message counts as a trial before the first. */
  const WARM_UP := -1

  datatype Event = SendEnd | Ack | PutEnd(trial: int)

  /** What the network still has to do.  Every message carries, besides its match bits, the trial it belongs to; the
      programs never look at it. */
  datatype Item =
    | SendOver(atSender: bool, slot: nat, trial: int)
    | Message(toReceiver: bool, mbits: nat, trial: int)
    | AckBack

  datatype SenderPC = WarmPut | WarmSend | WarmAck | Putting | WaitSend | WaitReply | SenderDone | SenderFailed
  datatype ReceiverPC = WarmWait | Receiving | Replying | WaitEnd | ReceiverDone | ReceiverFailed

  /** `ids` are the trial numbers the sender notes in its slots; `completed` pairs the number noted in the slot of a
      completion with the trial of the reply; `received` lists the trials in the order of reception.  For the record,
      `outran` tells whether a message was delivered before its own send had ended, and `overtaken` whether a PUT_END or
      ACK entered a queue that was still waiting for a SEND_END. */
  datatype Pair = Pair(
    spc: SenderPC, i: nat, ids: seq<int>, squeue: seq<seq<Event>>, completed: seq<(int, int)>,
    rpc: ReceiverPC, rqueue: seq<seq<Event>>, received: seq<int>,
    net: set<Item>, outran: bool, overtaken: bool)

  datatype Turn = SenderTurn | ReceiverTurn | NetTurn(it: Item)

  /** The match bits as a number, as Slots.MatchBitsSum has them. */
  function Bits(c: Setup, slot: nat): nat {
    c.src * 32 + slot
  }

  /** The slot whose entry matches these bits. */
  function SlotOf(c: Setup, mbits: nat): Option<nat> {
    if Bits(c, 0) <= mbits < Bits(c, c.inflight) then Some(mbits - Bits(c, 0)) else None
  }

  /** The bits name the source rank and the slot, so the entries of a pair are told apart from each other and from those of
      any other pair. */
  lemma BitsNameSlot(c: Setup, slot: nat)
    requires slot < 32
    ensures Bits(c, slot) / 32 == c.src && Bits(c, slot) % 32 == slot
  {
    DivModUnique(Bits(c, slot), 32, c.src, slot);
  }

  /** An entry is found exactly by the bits that name the source rank and its slot. */
  lemma SlotOfIff(c: Setup, mbits: nat, slot: nat)
    ensures SlotOf(c, mbits) == Some(slot) <==> mbits / 32 == c.src && mbits % 32 == slot && slot < c.inflight
  {
    if slot < 32 { BitsNameSlot(c, slot); }
    assert mbits == mbits / 32 * 32 + mbits % 32;
  }

  function TrialSlot(c: Setup, t: int): nat {
    if t < 0 then 0 else t % c.inflight
  }

  /** The two things under way after the sender's put of a trial, and after the receiver's reply to one. */
  function PutEndOf(c: Setup, t: int): Item { SendOver(true, TrialSlot(c, t), t) }

  function PutOf(c: Setup, t: int): Item { Message(true, if t < 0 then c.src else Bits(c, TrialSlot(c, t)), t) }

  function ReplyEndOf(c: Setup, t: int): Item { SendOver(false, TrialSlot(c, t), t) }

  function ReplyOf(c: Setup, t: int): Item { Message(false, Bits(c, TrialSlot(c, t)), t) }

  function Push(q: seq<seq<Event>>, s: nat, e: Event): seq<seq<Event>>
    requires s < |q|
  {
    q[s := q[s] + [e]]
  }

  predicate Shape(c: Setup, p: Pair) {
    |p.ids| == |p.squeue| == |p.rqueue| == c.inflight
  }

  // ---------- the programs ----------

  /** One of the sender's waits for an event of slot `m`; an unexpected one makes it fail. */
  function SenderWait(p: Pair, m: nat, expected: bool, after: Pair): Option<Pair>
    requires m < |p.squeue|
  {
    if p.squeue[m] == [] then None
    else Some((if expected then after else p.(spc := SenderFailed)).(squeue := p.squeue[m := p.squeue[m][1..]]))
  }

  function SenderPut(c: Setup, p: Pair): Pair
    requires Shape(c, p)
  {
    var m := p.i % c.inflight;
    var q := if p.i < c.trials
             then p.(ids := p.ids[m := p.i], net := p.net + {PutEndOf(c, p.i), PutOf(c, p.i)})
             else p;
    q.(i := p.i + 1, spc := if p.i + 1 < c.inflight then Putting else WaitSend)
  }

  /** The warm-up, then puts until `inflight` trials are out, then the two waits for a slot before each further put. */
  function SenderStep(c: Setup, p: Pair): Option<Pair>
    requires Shape(c, p)
  {
    var m := p.i % c.inflight;
    match p.spc
    case WarmPut => Some(p.(spc := WarmSend, net := p.net + {PutEndOf(c, WARM_UP), PutOf(c, WARM_UP)}))
    case WarmSend => SenderWait(p, 0, p.squeue[0] != [] && p.squeue[0][0] == SendEnd, p.(spc := WarmAck))
    case WarmAck => SenderWait(p, 0, p.squeue[0] != [] && p.squeue[0][0] == Ack, p.(spc := Putting))
    case Putting => Some(SenderPut(c, p))
    case WaitSend => SenderWait(p, m, p.squeue[m] != [] && p.squeue[m][0] == SendEnd, p.(spc := WaitReply))
    case WaitReply =>
      if p.squeue[m] == [] || !p.squeue[m][0].PutEnd? then SenderWait(p, m, false, p)
      else SenderWait(p, m, true, p.(completed := p.completed + [(p.ids[m], p.squeue[m][0].trial)],
                                     spc := if p.ids[m] == c.trials - 1 then SenderDone else Putting))
    case _ => None
  }

  function ReceiverWait(p: Pair, m: nat, expected: bool, after: Pair): Option<Pair>
    requires m < |p.rqueue|
  {
    if p.rqueue[m] == [] then None
    else Some((if expected then after else p.(rpc := ReceiverFailed)).(rqueue := p.rqueue[m := p.rqueue[m][1..]]))
  }

  /** The warm-up, then a reception, its reply and the end of that send for every trial, in the order of the slots. */
  function ReceiverStep(c: Setup, p: Pair): Option<Pair>
    requires Shape(c, p)
  {
    var n := |p.received|;
    match p.rpc
    case WarmWait => ReceiverWait(p, 0, p.rqueue[0] != [] && p.rqueue[0][0].PutEnd?, p.(rpc := Receiving))
    case Receiving =>
      var m := n % c.inflight;
      if p.rqueue[m] == [] || !p.rqueue[m][0].PutEnd? then ReceiverWait(p, m, false, p)
      else ReceiverWait(p, m, true, p.(received := p.received + [p.rqueue[m][0].trial], rpc := Replying))
    case Replying =>
      if n == 0 then None
      else Some(p.(rpc := WaitEnd, net := p.net + {SendOver(false, (n - 1) % c.inflight, p.received[n - 1]),
                                                   Message(false, Bits(c, (n - 1) % c.inflight), p.received[n - 1])}))
    case WaitEnd =>
      if n == 0 then None
      else
        var m := (n - 1) % c.inflight;
        ReceiverWait(p, m, p.rqueue[m] != [] && p.rqueue[m][0] == SendEnd,
                     p.(rpc := if n == c.trials then ReceiverDone else Receiving))
    case _ => None
  }

  /** A slot's queue still waits for the SEND_END of some put. */
  predicate AwaitsEnd(net: set<Item>, atSender: bool, slot: nat) {
    exists it | it in net :: it.SendOver? && it.atSender == atSender && it.slot == slot
  }

  /** The network ends a send, delivers a message to the slot whose entry matches it, if any, or returns the
      acknowledgement, which only the warm-up message asks for. */
  function NetStep(c: Setup, p: Pair, it: Item): Option<Pair>
    requires Shape(c, p)
  {
    if it !in p.net then None
    else
      var q := p.(net := p.net - {it});
      match it
      case SendOver(atSender, slot, _) =>
        if slot >= c.inflight then None
        else if atSender then Some(q.(squeue := Push(p.squeue, slot, SendEnd)))
        else Some(q.(rqueue := Push(p.rqueue, slot, SendEnd)))
      case AckBack =>
        Some(q.(squeue := Push(p.squeue, 0, Ack), overtaken := p.overtaken || AwaitsEnd(p.net, true, 0)))
      case Message(toReceiver, mbits, t) =>
        var r := q.(outran := p.outran || (if toReceiver then PutEndOf(c, t) else ReplyEndOf(c, t)) in p.net);
        match SlotOf(c, mbits)
        case None => Some(r)
        case Some(slot) =>
          var u := r.(overtaken := p.overtaken || AwaitsEnd(p.net, !toReceiver, slot));
          if !toReceiver then Some(u.(squeue := Push(p.squeue, slot, PutEnd(t))))
          else Some(u.(rqueue := Push(p.rqueue, slot, PutEnd(t)), net := if t == WARM_UP then q.net + {AckBack} else q.net))
  }

  /** A turn of a blocked party changes nothing. */
  function TakeTurn(c: Setup, p: Pair, t: Turn): Option<Pair>
    requires Shape(c, p)
  {
    match t
    case SenderTurn => SenderStep(c, p)
    case ReceiverTurn => ReceiverStep(c, p)
    case NetTurn(it) => NetStep(c, p, it)
  }

  function Initial(c: Setup): Pair {
    Pair(WarmPut, 0, seq(c.inflight, _ => 0), seq(c.inflight, _ => []), [],
         WarmWait, seq(c.inflight, _ => []), [], {}, false, false)
  }

  lemma TurnKeepsShape(c: Setup, p: Pair, t: Turn)
    requires Shape(c, p) && TakeTurn(c, p, t).Some?
    ensures Shape(c, TakeTurn(c, p, t).value)
  {
  }

  function Run(c: Setup, turns: seq<Turn>): (p: Pair)
    ensures Shape(c, p)
  {
    if turns == [] then Initial(c)
    else
      var p, t := Run(c, turns[..|turns| - 1]), turns[|turns| - 1];
      if TakeTurn(c, p, t).None? then p
      else
        TurnKeepsShape(c, p, t);
        TakeTurn(c, p, t).value
  }

  // ---------- the match bits ----------

  /** The trial belongs to slot `s`; the warm-up to the first. */
  predicate TrialOf(c: Setup, t: int, s: nat) {
    t >= WARM_UP && s == TrialSlot(c, t)
  }

  /** A message carries its trial's slot and the source rank, but the warm-up message only the bare rank. */
  predicate WellAddressed(c: Setup, it: Item) {
    it.Message? ==>
      && it.trial >= WARM_UP
      && if it.toReceiver && it.trial == WARM_UP then it.mbits == c.src
         else it.mbits / 32 == c.src && it.mbits % 32 == if it.trial < 0 then 0 else it.trial % c.inflight
  }

  /** Slot by slot the receiver's queue holds messages of trials of that slot. */
  ghost predicate Sorted(c: Setup, p: Pair)
    requires Shape(c, p)
  {
    && (forall it | it in p.net :: WellAddressed(c, it))
    && (forall s: nat, k | s < c.inflight && 0 <= k < |p.rqueue[s]| ::
          p.rqueue[s][k].PutEnd? ==> TrialOf(c, p.rqueue[s][k].trial, s))
    && (forall j | 0 <= j < |p.received| :: TrialOf(c, p.received[j], j % c.inflight))
  }

  lemma SenderSorts(c: Setup, p: Pair)
    requires Shape(c, p) && Sorted(c, p) && SenderStep(c, p).Some?
    ensures Sorted(c, SenderStep(c, p).value)
  {
    BitsNameSlot(c, p.i % c.inflight);
  }

  lemma ReceiverSorts(c: Setup, p: Pair)
    requires Shape(c, p) && Sorted(c, p) && ReceiverStep(c, p).Some?
    ensures Sorted(c, ReceiverStep(c, p).value)
  {
    if p.rpc.Replying? { ReplySorts(c, p); }
  }

  lemma ReplySorts(c: Setup, p: Pair)
    requires Shape(c, p) && Sorted(c, p) && p.rpc.Replying? && ReceiverStep(c, p).Some?
    ensures Sorted(c, ReceiverStep(c, p).value)
  {
    BitsNameSlot(c, (|p.received| - 1) % c.inflight);
  }

  lemma NetSorts(c: Setup, p: Pair, it: Item)
    requires Shape(c, p) && Sorted(c, p) && NetStep(c, p, it).Some?
    ensures Sorted(c, NetStep(c, p, it).value)
  {
    if it.Message? && SlotOf(c, it.mbits).Some? {
      assert WellAddressed(c, it);
      SlotOfIff(c, it.mbits, SlotOf(c, it.mbits).value);
    }
  }

  /** In every run, even one in which somebody fails: whatever is under way carries the source rank and the slot of its
      trial, and the receiver takes every trial from its own slot. */
  lemma {:induction false} AlwaysSorted(c: Setup, turns: seq<Turn>)
    ensures Sorted(c, Run(c, turns))
  {
    if turns != [] {
      AlwaysSorted(c, turns[..|turns| - 1]);
      var p, t := Run(c, turns[..|turns| - 1]), turns[|turns| - 1];
      if TakeTurn(c, p, t).Some? {
        match t
        case SenderTurn => SenderSorts(c, p);
        case ReceiverTurn => ReceiverSorts(c, p);
        case NetTurn(it) => NetSorts(c, p, it);
      }
    }
  }

  // ---------- the invariant ----------

  predicate Warming(p: Pair) {
    p.spc.WarmPut? || p.spc.WarmSend? || p.spc.WarmAck?
  }

  function Sent(c: Setup, p: Pair): nat {
    if p.i < c.trials then p.i else c.trials
  }

  function Replied(p: Pair): int {
    |p.received| - (if p.rpc.Replying? then 1 else 0)
  }

  /** The events of a put that have been posted: SEND_END if the send has ended, `e` if the answer is back.  Only when
      something was overtaken can `e` come first. */
  predicate TwoEvents(q: seq<Event>, ended: bool, back: bool, e: Event, overtaken: bool) {
    if ended && back then q == [SendEnd, e] || (overtaken && q == [e, SendEnd])
    else if ended then q == [SendEnd]
    else if back then overtaken && q == [e]
    else q == []
  }

  predicate Back(c: Setup, p: Pair, t: int) {
    t < Replied(p) && ReplyOf(c, t) !in p.net
  }

  predicate Acked(c: Setup, p: Pair) {
    c.src == 0 && PutOf(c, WARM_UP) !in p.net && AckBack !in p.net
  }

  /** The queue of a sender's slot whose trial is `t`; `inWait` if its SEND_END has been taken already. */
  predicate ExchangeQueue(q: seq<Event>, t: int, inWait: bool, ended: bool, back: bool, overtaken: bool) {
    if inWait then q == if back then [PutEnd(t)] else []
    else TwoEvents(q, ended, back, PutEnd(t), overtaken)
  }

  predicate WarmUpQueue(q: seq<Event>, spc: SenderPC, ended: bool, acked: bool, overtaken: bool) {
    match spc
    case WarmSend => TwoEvents(q, ended, acked, Ack, overtaken)
    case WarmAck => q == if acked then [Ack] else []
    case _ => q == []
  }

  ghost predicate SenderSlotOK(c: Setup, p: Pair, s: nat)
    requires Shape(c, p) && s < c.inflight
  {
    if Warming(p) then
      if s > 0 then p.squeue[s] == []
      else WarmUpQueue(p.squeue[0], p.spc, PutEndOf(c, WARM_UP) !in p.net, Acked(c, p), p.overtaken)
    else
      var t := TrialAt(s, |p.completed|, c.inflight);
      if t >= Sent(c, p) then p.squeue[s] == []
      else p.ids[s] == t && ExchangeQueue(p.squeue[s], t, p.spc.WaitReply? && t == |p.completed|,
                                          PutEndOf(c, t) !in p.net, Back(c, p, t), p.overtaken)
  }

  predicate Arrived(c: Setup, p: Pair, t: int) {
    t < Sent(c, p) && PutOf(c, t) !in p.net
  }

  predicate WarmArrived(c: Setup, p: Pair) {
    c.src == 0 && !p.spc.WarmPut? && PutOf(c, WARM_UP) !in p.net
  }

  /** The queue of a receiver's slot whose next trial is `t`: `warmUp` if the warm-up message is to be taken from it,
      `inReply` if the end of a reply is. */
  predicate ReceiverQueue(q: seq<Event>, t: int, warmUp: bool, inReply: bool, ended: bool, arrived: bool, overtaken: bool) {
    var next := if arrived then [PutEnd(t)] else [];
    if warmUp then q == [PutEnd(WARM_UP)] + next
    else if inReply then TwoEvents(q, ended, arrived, PutEnd(t), overtaken)
    else q == next
  }

  predicate InReply(c: Setup, p: Pair, s: nat) {
    p.rpc.WaitEnd? && |p.received| > 0 && s == (|p.received| - 1) % c.inflight
  }

  ghost predicate ReceiverSlotOK(c: Setup, p: Pair, s: nat)
    requires Shape(c, p) && s < c.inflight
  {
    var t := TrialAt(s, |p.received|, c.inflight);
    ReceiverQueue(p.rqueue[s], t, p.rpc.WarmWait? && s == 0 && WarmArrived(c, p), InReply(c, p, s),
                  ReplyEndOf(c, |p.received| - 1) !in p.net, Arrived(c, p, t), p.overtaken)
  }

  /** What may be under way. */
  ghost predicate ItemOK(c: Setup, p: Pair, it: Item) {
    var n, done := |p.received|, |p.completed|;
    match it
    case AckBack => c.src == 0 && PutOf(c, WARM_UP) !in p.net && (p.spc.WarmSend? || p.spc.WarmAck?)
    case SendOver(true, _, t) =>
      it == PutEndOf(c, t) &&
      if t < 0 then t == WARM_UP && p.spc.WarmSend?
      else !Warming(p) && done + (if p.spc.WaitReply? then 1 else 0) <= t < Sent(c, p)
    case SendOver(false, _, t) => it == ReplyEndOf(c, t) && p.rpc.WaitEnd? && n > 0 && t == n - 1
    case Message(true, _, t) =>
      it == PutOf(c, t) &&
      if t < 0 then t == WARM_UP && (p.spc.WarmSend? || p.spc.WarmAck?) else n <= t < Sent(c, p)
    case Message(false, _, t) => it == ReplyOf(c, t) && done <= t < Replied(p)
  }

  /** The loop counters and the logs. */
  ghost predicate CountsOK(c: Setup, p: Pair) {
    var n, done := |p.received|, |p.completed|;
    && done <= Replied(p) <= n <= Sent(c, p) <= done + c.inflight
    && (forall j | 0 <= j < done :: p.completed[j] == (j, j))
    && (forall j | 0 <= j < n :: p.received[j] == j)
    && (match p.spc
        case Putting => done < c.trials && done == (if p.i < c.inflight then 0 else p.i + 1 - c.inflight)
        case WaitSend => done < c.trials && p.i == done + c.inflight
        case WaitReply => done < c.trials && p.i == done + c.inflight
        case SenderDone => done == c.trials && p.i + 1 == done + c.inflight
        case SenderFailed => false
        case _ => p.i == 0 && done == 0)
    && (match p.rpc
        case WarmWait => n == 0
        case Receiving => n < c.trials
        case Replying => n > 0
        case WaitEnd => n > 0
        case ReceiverDone => n == c.trials
        case ReceiverFailed => false)
    && (!Warming(p) ==> c.src == 0)
    && (!p.rpc.WarmWait? ==> c.src == 0 && !p.spc.WarmPut? && PutOf(c, WARM_UP) !in p.net)
  }

  /** A queue that is out of order: its owner will find the wrong event at its head. */
  ghost predicate WrongAt(c: Setup, p: Pair, atSender: bool, s: nat)
    requires Shape(c, p)
  {
    && s < c.inflight
    && var q := if atSender then p.squeue[s] else p.rqueue[s];
      q != [] && !q[0].SendEnd? &&
      if !atSender then InReply(c, p, s)
      else if Warming(p) then p.spc.WarmSend? && s == 0
      else !(p.spc.WaitReply? && s == |p.completed| % c.inflight)
  }

  /** The records: something was overtaken exactly when some queue is out of order now, and only if a message was
      delivered before its own send had ended. */
  ghost predicate RecordsOK(c: Setup, p: Pair)
    requires Shape(c, p)
  {
    && (p.overtaken ==> exists atSender, s :: WrongAt(c, p, atSender, s))
    && (!p.outran ==> !p.overtaken && (forall t :: PutEndOf(c, t) in p.net ==> PutOf(c, t) in p.net)
                      && (forall t :: ReplyEndOf(c, t) in p.net ==> ReplyOf(c, t) in p.net))
  }

  ghost predicate SenderSlots(c: Setup, p: Pair)
    requires Shape(c, p)
  {
    forall s: nat | s < c.inflight :: SenderSlotOK(c, p, s)
  }

  ghost predicate ReceiverSlots(c: Setup, p: Pair)
    requires Shape(c, p)
  {
    forall s: nat | s < c.inflight :: ReceiverSlotOK(c, p, s)
  }

  ghost predicate ItemsOK(c: Setup, p: Pair) {
    forall it | it in p.net :: ItemOK(c, p, it)
  }

  ghost predicate Orderly(c: Setup, p: Pair) {
    Shape(c, p) && CountsOK(c, p) && SenderSlots(c, p) && ReceiverSlots(c, p) && ItemsOK(c, p) && RecordsOK(c, p)
  }

  predicate AnyFailed(p: Pair) {
    p.spc.SenderFailed? || p.rpc.ReceiverFailed?
  }

  /** Either all is orderly, or somebody has failed because something came too early. */
  ghost predicate Inv(c: Setup, p: Pair) {
    Shape(c, p) && if AnyFailed(p) then p.overtaken else Orderly(c, p)
  }

  lemma InitialInv(c: Setup)
    ensures Orderly(c, Initial(c))
  {
  }

  // ---------- the sender's steps ----------

  lemma WarmPutInv(c: Setup, p: Pair)
    requires Orderly(c, p) && p.spc.WarmPut?
    ensures Orderly(c, SenderStep(c, p).value)
  {
    var p' := SenderStep(c, p).value;
    forall s: nat | s < c.inflight ensures SenderSlotOK(c, p', s) && ReceiverSlotOK(c, p', s) {
      assert SenderSlotOK(c, p, s) && ReceiverSlotOK(c, p, s);
    }
    forall it | it in p'.net ensures ItemOK(c, p', it) {
      assert it in p.net ==> ItemOK(c, p, it);
    }
  }

  /** A wait that fails has found a queue out of order. */
  lemma SenderFails(c: Setup, p: Pair)
    requires Orderly(c, p) && SenderStep(c, p).Some? && SenderStep(c, p).value.spc.SenderFailed?
    ensures p.overtaken && SenderStep(c, p).value.overtaken
  {
    var f, w := c.inflight, |p.completed|;
    assert SenderSlotOK(c, p, 0);
    if !Warming(p) {
      WindowSlot(p.i, w, f);
      TrialAtUnique(w, w, f);
      assert SenderSlotOK(c, p, w % f);
    }
  }

  lemma WindowSlot(i: nat, done: nat, f: nat)
    requires f > 0 && i == done + f
    ensures i % f == done % f
  {
    DivModUnique(i, f, done / f + 1, done % f);
  }

  /** What is out of order stays so until its owner looks. */
  lemma WrongStays(c: Setup, p: Pair, p': Pair)
    requires Shape(c, p) && Shape(c, p') && RecordsOK(c, p)
    requires forall atSender, s | WrongAt(c, p, atSender, s) :: WrongAt(c, p', atSender, s)
    requires p'.overtaken ==> p.overtaken
    ensures p'.overtaken ==> exists atSender, s :: WrongAt(c, p', atSender, s)
  {
    if p'.overtaken {
      var atSender, s :| WrongAt(c, p, atSender, s);
      assert WrongAt(c, p', atSender, s);
    }
  }

  /** Nothing the receiver's queues depend on has changed. */
  ghost predicate ReceiverUntouched(c: Setup, p: Pair, p': Pair) {
    && p'.rqueue == p.rqueue && p'.rpc == p.rpc && p'.received == p.received && (p.overtaken ==> p'.overtaken)
    && WarmArrived(c, p') == WarmArrived(c, p)
    && (forall t :: Arrived(c, p', t) == Arrived(c, p, t))
    && (forall t :: ReplyEndOf(c, t) in p'.net <==> ReplyEndOf(c, t) in p.net)
  }

  lemma ReceiverFrame(c: Setup, p: Pair, p': Pair)
    requires Shape(c, p) && Shape(c, p') && ReceiverSlots(c, p) && ReceiverUntouched(c, p, p')
    ensures ReceiverSlots(c, p')
  {
    forall s: nat | s < c.inflight ensures ReceiverSlotOK(c, p', s) {
      assert ReceiverSlotOK(c, p, s);
    }
  }

  /** Nothing the sender's queues depend on has changed. */
  ghost predicate SenderUntouched(c: Setup, p: Pair, p': Pair) {
    && p'.squeue == p.squeue && p'.ids == p.ids && p'.spc == p.spc && p'.i == p.i && p'.completed == p.completed
    && (p.overtaken ==> p'.overtaken) && Acked(c, p') == Acked(c, p)
    && (forall t :: PutEndOf(c, t) in p'.net <==> PutEndOf(c, t) in p.net)
    && (forall t :: Back(c, p', t) == Back(c, p, t))
  }

  lemma SenderFrame(c: Setup, p: Pair, p': Pair)
    requires Shape(c, p) && Shape(c, p') && SenderSlots(c, p) && SenderUntouched(c, p, p')
    ensures SenderSlots(c, p')
  {
    forall s: nat | s < c.inflight ensures SenderSlotOK(c, p', s) {
      assert SenderSlotOK(c, p, s);
    }
  }

  /** The waits of the warm-up. */
  lemma WarmWaitsSlots(c: Setup, p: Pair)
    requires Orderly(c, p) && (p.spc.WarmSend? || p.spc.WarmAck?)
    requires SenderStep(c, p).Some? && !SenderStep(c, p).value.spc.SenderFailed?
    ensures SenderSlots(c, SenderStep(c, p).value)
    ensures if p.spc.WarmSend? then PutEndOf(c, WARM_UP) !in p.net else Acked(c, p)
  {
    var p' := SenderStep(c, p).value;
    assert SenderSlotOK(c, p, 0);
    forall s: nat | s < c.inflight ensures SenderSlotOK(c, p', s) {
      assert SenderSlotOK(c, p, s);
    }
  }

  lemma WarmWaitsInv(c: Setup, p: Pair)
    requires Orderly(c, p) && (p.spc.WarmSend? || p.spc.WarmAck?)
    requires SenderStep(c, p).Some? && !SenderStep(c, p).value.spc.SenderFailed?
    ensures Orderly(c, SenderStep(c, p).value)
  {
    var p' := SenderStep(c, p).value;
    WarmWaitsSlots(c, p);
    ReceiverFrame(c, p, p');
    forall it | it in p'.net ensures ItemOK(c, p', it) {
      assert ItemOK(c, p, it);
    }
    WrongStays(c, p, p');
  }

  lemma SenderPutSlots(c: Setup, p: Pair)
    requires Orderly(c, p) && p.spc.Putting?
    ensures SenderSlots(c, SenderPut(c, p))
  {
    var f, t, p' := c.inflight, p.i, SenderPut(c, p);
    if t < c.trials { TrialAtUnique(t, |p.completed|, f); }
    assert forall u :: Back(c, p', u) == Back(c, p, u);
    assert forall u | u != t :: PutEndOf(c, u) in p'.net <==> PutEndOf(c, u) in p.net;
    forall s: nat | s < f ensures SenderSlotOK(c, p', s) {
      assert SenderSlotOK(c, p, s);
    }
  }

  lemma SenderPutItems(c: Setup, p: Pair)
    requires Orderly(c, p) && p.spc.Putting?
    ensures CountsOK(c, SenderPut(c, p)) && ItemsOK(c, SenderPut(c, p))
  {
    var p' := SenderPut(c, p);
    forall it | it in p'.net ensures ItemOK(c, p', it) {
      assert it in p.net ==> ItemOK(c, p, it);
    }
  }

  lemma SenderPutRecords(c: Setup, p: Pair)
    requires Orderly(c, p) && p.spc.Putting?
    ensures RecordsOK(c, SenderPut(c, p)) && ReceiverSlots(c, SenderPut(c, p))
  {
    ReceiverFrame(c, p, SenderPut(c, p));
    WrongStays(c, p, SenderPut(c, p));
  }

  lemma SenderPutInv(c: Setup, p: Pair)
    requires Orderly(c, p) && p.spc.Putting?
    ensures Orderly(c, SenderStep(c, p).value)
  {
    SenderPutSlots(c, p);
    SenderPutItems(c, p);
    SenderPutRecords(c, p);
  }

  lemma WaitSendSlots(c: Setup, p: Pair)
    requires Orderly(c, p) && p.spc.WaitSend? && SenderStep(c, p).Some? && !SenderStep(c, p).value.spc.SenderFailed?
    ensures SenderSlots(c, SenderStep(c, p).value) && ReceiverSlots(c, SenderStep(c, p).value)
    ensures PutEndOf(c, |p.completed|) !in p.net && p.i % c.inflight == |p.completed| % c.inflight
  {
    var f, w, p' := c.inflight, |p.completed|, SenderStep(c, p).value;
    WindowSlot(p.i, w, f);
    TrialAtUnique(w, w, f);
    assert SenderSlotOK(c, p, w % f);
    ReceiverFrame(c, p, p');
    forall s: nat | s < f ensures SenderSlotOK(c, p', s) {
      assert SenderSlotOK(c, p, s);
    }
  }

  lemma WaitSendInv(c: Setup, p: Pair)
    requires Orderly(c, p) && p.spc.WaitSend? && SenderStep(c, p).Some? && !SenderStep(c, p).value.spc.SenderFailed?
    ensures Orderly(c, SenderStep(c, p).value)
  {
    var p' := SenderStep(c, p).value;
    WaitSendSlots(c, p);
    forall it | it in p'.net ensures ItemOK(c, p', it) {
      assert ItemOK(c, p, it);
    }
    WrongStays(c, p, p');
  }

  lemma WaitReplySlots(c: Setup, p: Pair)
    requires Orderly(c, p) && p.spc.WaitReply? && SenderStep(c, p).Some? && !SenderStep(c, p).value.spc.SenderFailed?
    ensures SenderSlots(c, SenderStep(c, p).value)
    ensures var w := |p.completed|;
            SenderStep(c, p).value.completed == p.completed + [(w, w)] && Back(c, p, w)
  {
    var f, w, p' := c.inflight, |p.completed|, SenderStep(c, p).value;
    WindowSlot(p.i, w, f);
    TrialAtUnique(w, w, f);
    assert SenderSlotOK(c, p, w % f);
    forall s: nat | s < f ensures SenderSlotOK(c, p', s) {
      assert SenderSlotOK(c, p, s);
      TrialAtStep(s, w, f);
    }
  }

  lemma WaitReplyItems(c: Setup, p: Pair)
    requires Orderly(c, p) && p.spc.WaitReply? && SenderStep(c, p).Some? && !SenderStep(c, p).value.spc.SenderFailed?
    ensures CountsOK(c, SenderStep(c, p).value) && ItemsOK(c, SenderStep(c, p).value)
  {
    var w, p' := |p.completed|, SenderStep(c, p).value;
    WaitReplySlots(c, p);
    WindowSlot(p.i, w, c.inflight);
    TrialAtUnique(w, w, c.inflight);
    assert SenderSlotOK(c, p, w % c.inflight);
    forall it | it in p'.net ensures ItemOK(c, p', it) {
      assert ItemOK(c, p, it);
    }
  }

  lemma WaitReplyRecords(c: Setup, p: Pair)
    requires Orderly(c, p) && p.spc.WaitReply? && SenderStep(c, p).Some? && !SenderStep(c, p).value.spc.SenderFailed?
    ensures RecordsOK(c, SenderStep(c, p).value)
  {
    WindowSlot(p.i, |p.completed|, c.inflight);
    WrongStays(c, p, SenderStep(c, p).value);
  }

  lemma WaitReplyInv(c: Setup, p: Pair)
    requires Orderly(c, p) && p.spc.WaitReply? && SenderStep(c, p).Some? && !SenderStep(c, p).value.spc.SenderFailed?
    ensures Orderly(c, SenderStep(c, p).value)
  {
    WaitReplySlots(c, p);
    WaitReplyItems(c, p);
    WaitReplyRecords(c, p);
    ReceiverFrame(c, p, SenderStep(c, p).value);
  }

  // ---------- the receiver's steps ----------

  lemma ReceiverFails(c: Setup, p: Pair)
    requires Orderly(c, p) && ReceiverStep(c, p).Some? && ReceiverStep(c, p).value.rpc.ReceiverFailed?
    ensures p.overtaken && ReceiverStep(c, p).value.overtaken
  {
    var f, n := c.inflight, |p.received|;
    assert ReceiverSlotOK(c, p, 0) && ReceiverSlotOK(c, p, n % f);
    if n > 0 { assert ReceiverSlotOK(c, p, (n - 1) % f); }
  }

  lemma WarmWaitInv(c: Setup, p: Pair)
    requires Orderly(c, p) && p.rpc.WarmWait? && ReceiverStep(c, p).Some?
    ensures Orderly(c, ReceiverStep(c, p).value)
  {
    var p' := ReceiverStep(c, p).value;
    assert ReceiverSlotOK(c, p, 0);
    SenderFrame(c, p, p');
    forall s: nat | s < c.inflight ensures ReceiverSlotOK(c, p', s) {
      assert ReceiverSlotOK(c, p, s);
    }
    forall it | it in p'.net ensures ItemOK(c, p', it) {
      assert ItemOK(c, p, it);
    }
    WrongStays(c, p, p');
  }

  lemma ReceiveSlots(c: Setup, p: Pair)
    requires Orderly(c, p) && p.rpc.Receiving? && ReceiverStep(c, p).Some?
    ensures SenderSlots(c, ReceiverStep(c, p).value) && ReceiverSlots(c, ReceiverStep(c, p).value)
    ensures var n := |p.received|; ReceiverStep(c, p).value.received == p.received + [n] && Arrived(c, p, n)
    ensures ReceiverStep(c, p).value.rpc.Replying?
  {
    var f, n, p' := c.inflight, |p.received|, ReceiverStep(c, p).value;
    TrialAtUnique(n, n, f);
    assert ReceiverSlotOK(c, p, n % f);
    SenderFrame(c, p, p');
    forall s: nat | s < f ensures ReceiverSlotOK(c, p', s) {
      assert ReceiverSlotOK(c, p, s);
      TrialAtStep(s, n, f);
    }
  }

  lemma ReceiveInv(c: Setup, p: Pair)
    requires Orderly(c, p) && p.rpc.Receiving? && ReceiverStep(c, p).Some?
    ensures Orderly(c, ReceiverStep(c, p).value)
  {
    var p' := ReceiverStep(c, p).value;
    ReceiveSlots(c, p);
    forall it | it in p'.net ensures ItemOK(c, p', it) {
      assert ItemOK(c, p, it);
    }
    WrongStays(c, p, p');
  }

  lemma ReplySlots(c: Setup, p: Pair)
    requires Orderly(c, p) && p.rpc.Replying?
    ensures ReceiverStep(c, p).Some?
    ensures SenderSlots(c, ReceiverStep(c, p).value) && ReceiverSlots(c, ReceiverStep(c, p).value)
  {
    var f, n, p' := c.inflight, |p.received|, ReceiverStep(c, p).value;
    assert p'.net == p.net + {ReplyEndOf(c, n - 1), ReplyOf(c, n - 1)};
    WindowSlot(n - 1 + f, n - 1, f);
    TrialAtUnique(n - 1 + f, n, f);
    SenderFrame(c, p, p');
    forall s: nat | s < f ensures ReceiverSlotOK(c, p', s) {
      assert ReceiverSlotOK(c, p, s);
    }
  }

  lemma ReplyInv(c: Setup, p: Pair)
    requires Orderly(c, p) && p.rpc.Replying?
    ensures ReceiverStep(c, p).Some? && Orderly(c, ReceiverStep(c, p).value)
  {
    var p' := ReceiverStep(c, p).value;
    ReplySlots(c, p);
    forall it | it in p'.net ensures ItemOK(c, p', it) {
      assert it in p.net ==> ItemOK(c, p, it);
    }
    WrongStays(c, p, p');
  }

  lemma WaitEndSlots(c: Setup, p: Pair)
    requires Orderly(c, p) && p.rpc.WaitEnd? && ReceiverStep(c, p).Some? && !ReceiverStep(c, p).value.rpc.ReceiverFailed?
    ensures SenderSlots(c, ReceiverStep(c, p).value) && ReceiverSlots(c, ReceiverStep(c, p).value)
    ensures ReplyEndOf(c, |p.received| - 1) !in p.net
  {
    var p' := ReceiverStep(c, p).value;
    assert ReceiverSlotOK(c, p, (|p.received| - 1) % c.inflight);
    SenderFrame(c, p, p');
    forall s: nat | s < c.inflight ensures ReceiverSlotOK(c, p', s) {
      assert ReceiverSlotOK(c, p, s);
    }
  }

  lemma WaitEndInv(c: Setup, p: Pair)
    requires Orderly(c, p) && p.rpc.WaitEnd? && ReceiverStep(c, p).Some? && !ReceiverStep(c, p).value.rpc.ReceiverFailed?
    ensures Orderly(c, ReceiverStep(c, p).value)
  {
    var p' := ReceiverStep(c, p).value;
    WaitEndSlots(c, p);
    forall it | it in p'.net ensures ItemOK(c, p', it) {
      assert ItemOK(c, p, it);
    }
    WrongStays(c, p, p');
  }

  // ---------- the network's steps ----------

  lemma EndPutSlots(c: Setup, p: Pair, t: int)
    requires Orderly(c, p) && PutEndOf(c, t) in p.net
    ensures NetStep(c, p, PutEndOf(c, t)).Some?
    ensures SenderSlots(c, NetStep(c, p, PutEndOf(c, t)).value)
  {
    var p' := NetStep(c, p, PutEndOf(c, t)).value;
    assert ItemOK(c, p, PutEndOf(c, t));
    if t >= 0 { TrialAtUnique(t, |p.completed|, c.inflight); }
    forall s: nat | s < c.inflight ensures SenderSlotOK(c, p', s) {
      assert SenderSlotOK(c, p, s);
    }
  }

  lemma EndPutRest(c: Setup, p: Pair, t: int)
    requires Orderly(c, p) && PutEndOf(c, t) in p.net
    ensures NetStep(c, p, PutEndOf(c, t)).Some?
    ensures CountsOK(c, NetStep(c, p, PutEndOf(c, t)).value) && ItemsOK(c, NetStep(c, p, PutEndOf(c, t)).value)
  {
    var p' := NetStep(c, p, PutEndOf(c, t)).value;
    forall it | it in p'.net ensures ItemOK(c, p', it) {
      assert ItemOK(c, p, it);
    }
  }

  lemma EndPutRecords(c: Setup, p: Pair, t: int)
    requires Orderly(c, p) && PutEndOf(c, t) in p.net
    ensures NetStep(c, p, PutEndOf(c, t)).Some? && RecordsOK(c, NetStep(c, p, PutEndOf(c, t)).value)
  {
    WrongStays(c, p, NetStep(c, p, PutEndOf(c, t)).value);
  }

  lemma EndPutInv(c: Setup, p: Pair, t: int)
    requires Orderly(c, p) && PutEndOf(c, t) in p.net
    ensures NetStep(c, p, PutEndOf(c, t)).Some? && Orderly(c, NetStep(c, p, PutEndOf(c, t)).value)
  {
    EndPutSlots(c, p, t);
    EndPutRest(c, p, t);
    EndPutRecords(c, p, t);
    ReceiverFrame(c, p, NetStep(c, p, PutEndOf(c, t)).value);
  }

  lemma EndReplySlots(c: Setup, p: Pair, t: int)
    requires Orderly(c, p) && ReplyEndOf(c, t) in p.net
    ensures NetStep(c, p, ReplyEndOf(c, t)).Some?
    ensures SenderSlots(c, NetStep(c, p, ReplyEndOf(c, t)).value) && ReceiverSlots(c, NetStep(c, p, ReplyEndOf(c, t)).value)
  {
    var p' := NetStep(c, p, ReplyEndOf(c, t)).value;
    assert ItemOK(c, p, ReplyEndOf(c, t));
    SenderFrame(c, p, p');
    forall s: nat | s < c.inflight ensures ReceiverSlotOK(c, p', s) {
      assert ReceiverSlotOK(c, p, s);
    }
  }

  lemma EndReplyRest(c: Setup, p: Pair, t: int)
    requires Orderly(c, p) && ReplyEndOf(c, t) in p.net
    ensures NetStep(c, p, ReplyEndOf(c, t)).Some?
    ensures CountsOK(c, NetStep(c, p, ReplyEndOf(c, t)).value) && ItemsOK(c, NetStep(c, p, ReplyEndOf(c, t)).value)
  {
    var p' := NetStep(c, p, ReplyEndOf(c, t)).value;
    forall it | it in p'.net ensures ItemOK(c, p', it) {
      assert ItemOK(c, p, it);
    }
  }

  lemma EndReplyInv(c: Setup, p: Pair, t: int)
    requires Orderly(c, p) && ReplyEndOf(c, t) in p.net
    ensures NetStep(c, p, ReplyEndOf(c, t)).Some? && Orderly(c, NetStep(c, p, ReplyEndOf(c, t)).value)
  {
    EndReplySlots(c, p, t);
    EndReplyRest(c, p, t);
    WrongStays(c, p, NetStep(c, p, ReplyEndOf(c, t)).value);
  }

  lemma ReceiverAwaits(c: Setup, p: Pair, s: nat)
    requires Orderly(c, p)
    ensures AwaitsEnd(p.net, false, s) <==> InReply(c, p, s) && ReplyEndOf(c, |p.received| - 1) in p.net
  {
    if it :| it in p.net && it.SendOver? && !it.atSender && it.slot == s { assert ItemOK(c, p, it); }
  }

  lemma SenderAwaits(c: Setup, p: Pair, s: nat)
    requires Orderly(c, p) && s < c.inflight
    ensures AwaitsEnd(p.net, true, s) <==>
            if Warming(p) then s == 0 && PutEndOf(c, WARM_UP) in p.net
            else PutEndOf(c, TrialAt(s, |p.completed|, c.inflight)) in p.net
  {
    if it :| it in p.net && it.SendOver? && it.atSender && it.slot == s {
      assert ItemOK(c, p, it);
      if !Warming(p) { TrialAtUnique(it.trial, |p.completed|, c.inflight); }
    }
  }

  /** A queue that a delivery leaves out of order. */
  lemma WrongNow(c: Setup, p: Pair, p': Pair, atSender: bool, s: nat)
    requires Shape(c, p) && Shape(c, p') && RecordsOK(c, p)
    requires p'.overtaken ==> p.overtaken || WrongAt(c, p', atSender, s)
    requires forall a, q | WrongAt(c, p, a, q) :: WrongAt(c, p', a, q)
    ensures p'.overtaken ==> exists a, q :: WrongAt(c, p', a, q)
  {
    if p.overtaken { WrongStays(c, p, p'); }
  }

  lemma AckSlots(c: Setup, p: Pair)
    requires Orderly(c, p) && AckBack in p.net
    ensures NetStep(c, p, AckBack).Some?
    ensures SenderSlots(c, NetStep(c, p, AckBack).value) && ReceiverSlots(c, NetStep(c, p, AckBack).value)
  {
    var p' := NetStep(c, p, AckBack).value;
    assert ItemOK(c, p, AckBack);
    SenderAwaits(c, p, 0);
    ReceiverFrame(c, p, p');
    forall s: nat | s < c.inflight ensures SenderSlotOK(c, p', s) {
      assert SenderSlotOK(c, p, s);
    }
  }

  lemma AckInv(c: Setup, p: Pair)
    requires Orderly(c, p) && AckBack in p.net
    ensures NetStep(c, p, AckBack).Some? && Orderly(c, NetStep(c, p, AckBack).value)
  {
    var p' := NetStep(c, p, AckBack).value;
    AckSlots(c, p);
    assert ItemOK(c, p, AckBack) && SenderSlotOK(c, p, 0);
    SenderAwaits(c, p, 0);
    forall it | it in p'.net ensures ItemOK(c, p', it) {
      assert ItemOK(c, p, it);
    }
    WrongNow(c, p, p', true, 0);
  }

  lemma SlotOfBits(c: Setup, s: nat)
    requires s < c.inflight
    ensures SlotOf(c, Bits(c, s)) == Some(s)
  {
  }

  /** The bare source rank as match bits finds an entry only for rank 0. */
  lemma SlotOfWarmUp(c: Setup)
    ensures SlotOf(c, c.src) == if c.src == 0 then Some(0) else None
  {
  }

  lemma DeliverWarmUpInv(c: Setup, p: Pair)
    requires Orderly(c, p) && PutOf(c, WARM_UP) in p.net
    ensures NetStep(c, p, PutOf(c, WARM_UP)).Some? && Orderly(c, NetStep(c, p, PutOf(c, WARM_UP)).value)
  {
    SlotOfWarmUp(c);
    var p' := NetStep(c, p, PutOf(c, WARM_UP)).value;
    assert ItemOK(c, p, PutOf(c, WARM_UP));
    ReceiverAwaits(c, p, 0);
    SenderFrame(c, p, p');
    forall s: nat | s < c.inflight ensures ReceiverSlotOK(c, p', s) {
      assert ReceiverSlotOK(c, p, s);
    }
    forall it | it in p'.net ensures ItemOK(c, p', it) {
      assert it in p.net ==> ItemOK(c, p, it);
    }
    WrongStays(c, p, p');
  }

  /** The state after the delivery of a put, and where it goes. */
  lemma PutDelivered(c: Setup, p: Pair, t: nat)
    requires Orderly(c, p) && PutOf(c, t) in p.net
    ensures var n, m := |p.received|, t % c.inflight;
            && n <= t < Sent(c, p) && TrialAt(m, n, c.inflight) == t && !Warming(p)
            && NetStep(c, p, PutOf(c, t)) ==
               Some(p.(net := p.net - {PutOf(c, t)}, rqueue := Push(p.rqueue, m, PutEnd(t)),
                       outran := p.outran || PutEndOf(c, t) in p.net,
                       overtaken := p.overtaken || (InReply(c, p, m) && ReplyEndOf(c, n - 1) in p.net)))
  {
    SlotOfBits(c, t % c.inflight);
    assert ItemOK(c, p, PutOf(c, t));
    TrialAtUnique(t, |p.received|, c.inflight);
    ReceiverAwaits(c, p, t % c.inflight);
  }

  lemma DeliverPutSlots(c: Setup, p: Pair, t: nat)
    requires Orderly(c, p) && PutOf(c, t) in p.net
    ensures NetStep(c, p, PutOf(c, t)).Some? && ReceiverSlots(c, NetStep(c, p, PutOf(c, t)).value)
  {
    PutDelivered(c, p, t);
    var p' := NetStep(c, p, PutOf(c, t)).value;
    assert forall u | u != t :: Arrived(c, p', u) == Arrived(c, p, u);
    assert Arrived(c, p', t) && !Arrived(c, p, t);
    forall s: nat | s < c.inflight ensures ReceiverSlotOK(c, p', s) {
      assert ReceiverSlotOK(c, p, s);
    }
  }

  /** Among sends that end before their delivery no put comes while its slot's reply has not ended. */
  lemma PutInOrder(c: Setup, p: Pair, t: nat)
    requires Orderly(c, p) && PutOf(c, t) in p.net && !p.outran
    ensures !(InReply(c, p, t % c.inflight) && ReplyEndOf(c, |p.received| - 1) in p.net)
  {
    var n, f := |p.received|, c.inflight;
    assert ItemOK(c, p, PutOf(c, t));
    assert ReplyOf(c, n - 1) in p.net ==> ItemOK(c, p, ReplyOf(c, n - 1));
    if InReply(c, p, t % f) {
      WindowSlot(n - 1 + f, n - 1, f);
      SameSlotSameTrial(t, n - 1 + f, n, f);
    }
  }

  lemma PutDeliveredRecords(c: Setup, p: Pair, t: nat)
    requires Orderly(c, p) && PutOf(c, t) in p.net
    ensures NetStep(c, p, PutOf(c, t)).Some? && RecordsOK(c, NetStep(c, p, PutOf(c, t)).value)
  {
    PutDelivered(c, p, t);
    var p', m := NetStep(c, p, PutOf(c, t)).value, t % c.inflight;
    if !p.outran { PutInOrder(c, p, t); }
    assert ReceiverSlotOK(c, p, m);
    WrongNow(c, p, p', false, m);
  }

  lemma DeliverPutInv(c: Setup, p: Pair, t: nat)
    requires Orderly(c, p) && PutOf(c, t) in p.net
    ensures NetStep(c, p, PutOf(c, t)).Some? && Orderly(c, NetStep(c, p, PutOf(c, t)).value)
  {
    PutDelivered(c, p, t);
    DeliverPutSlots(c, p, t);
    SenderFrame(c, p, NetStep(c, p, PutOf(c, t)).value);
    PutDeliveredRecords(c, p, t);
    forall it | it in NetStep(c, p, PutOf(c, t)).value.net ensures ItemOK(c, NetStep(c, p, PutOf(c, t)).value, it) {
      assert ItemOK(c, p, it);
    }
  }

  /** The state after the delivery of a reply, and where it goes. */
  lemma ReplyDelivered(c: Setup, p: Pair, t: nat)
    requires Orderly(c, p) && ReplyOf(c, t) in p.net
    ensures var done, m := |p.completed|, t % c.inflight;
            && done <= t < Replied(p) && TrialAt(m, done, c.inflight) == t && !Warming(p)
            && NetStep(c, p, ReplyOf(c, t)) ==
               Some(p.(net := p.net - {ReplyOf(c, t)}, squeue := Push(p.squeue, m, PutEnd(t)),
                       outran := p.outran || ReplyEndOf(c, t) in p.net,
                       overtaken := p.overtaken || PutEndOf(c, t) in p.net))
  {
    SlotOfBits(c, t % c.inflight);
    assert ItemOK(c, p, ReplyOf(c, t));
    TrialAtUnique(t, |p.completed|, c.inflight);
    SenderAwaits(c, p, t % c.inflight);
  }

  lemma DeliverReplySlots(c: Setup, p: Pair, t: nat)
    requires Orderly(c, p) && ReplyOf(c, t) in p.net
    ensures NetStep(c, p, ReplyOf(c, t)).Some?
    ensures SenderSlots(c, NetStep(c, p, ReplyOf(c, t)).value) && ReceiverSlots(c, NetStep(c, p, ReplyOf(c, t)).value)
  {
    ReplyDelivered(c, p, t);
    var p' := NetStep(c, p, ReplyOf(c, t)).value;
    ReceiverFrame(c, p, p');
    forall s: nat | s < c.inflight ensures SenderSlotOK(c, p', s) {
      assert SenderSlotOK(c, p, s);
    }
  }

  /** Among sends that end before their delivery no reply comes while its put has not ended. */
  lemma ReplyInOrder(c: Setup, p: Pair, t: nat)
    requires Orderly(c, p) && ReplyOf(c, t) in p.net && !p.outran
    ensures PutEndOf(c, t) !in p.net
  {
    assert ItemOK(c, p, ReplyOf(c, t));
    assert PutOf(c, t) in p.net ==> ItemOK(c, p, PutOf(c, t));
  }

  lemma EarlyReplyWrong(c: Setup, p: Pair, t: nat)
    requires Orderly(c, p) && ReplyOf(c, t) in p.net && PutEndOf(c, t) in p.net
    ensures NetStep(c, p, ReplyOf(c, t)).Some? && WrongAt(c, NetStep(c, p, ReplyOf(c, t)).value, true, t % c.inflight)
  {
    ReplyDelivered(c, p, t);
    assert SenderSlotOK(c, p, t % c.inflight);
    assert ItemOK(c, p, PutEndOf(c, t));
    TrialAtUnique(|p.completed|, |p.completed|, c.inflight);
  }

  lemma ReplyDeliveredRecords(c: Setup, p: Pair, t: nat)
    requires Orderly(c, p) && ReplyOf(c, t) in p.net
    ensures NetStep(c, p, ReplyOf(c, t)).Some? && RecordsOK(c, NetStep(c, p, ReplyOf(c, t)).value)
  {
    ReplyDelivered(c, p, t);
    var p', m := NetStep(c, p, ReplyOf(c, t)).value, t % c.inflight;
    if !p.outran { ReplyInOrder(c, p, t); }
    if PutEndOf(c, t) in p.net { EarlyReplyWrong(c, p, t); }
    assert forall a, q | WrongAt(c, p, a, q) :: WrongAt(c, p', a, q);
    WrongNow(c, p, p', true, m);
  }

  lemma DeliverReplyInv(c: Setup, p: Pair, t: nat)
    requires Orderly(c, p) && ReplyOf(c, t) in p.net
    ensures NetStep(c, p, ReplyOf(c, t)).Some? && Orderly(c, NetStep(c, p, ReplyOf(c, t)).value)
  {
    ReplyDelivered(c, p, t);
    DeliverReplySlots(c, p, t);
    ReplyDeliveredRecords(c, p, t);
    forall it | it in NetStep(c, p, ReplyOf(c, t)).value.net ensures ItemOK(c, NetStep(c, p, ReplyOf(c, t)).value, it) {
      assert ItemOK(c, p, it);
    }
  }

  // ---------- every reachable state ----------

  lemma SenderStepInv(c: Setup, p: Pair)
    requires Orderly(c, p) && SenderStep(c, p).Some?
    ensures Inv(c, SenderStep(c, p).value)
  {
    if SenderStep(c, p).value.spc.SenderFailed? {
      SenderFails(c, p);
    } else {
      match p.spc
      case WarmPut => WarmPutInv(c, p);
      case WarmSend => WarmWaitsInv(c, p);
      case WarmAck => WarmWaitsInv(c, p);
      case Putting => SenderPutInv(c, p);
      case WaitSend => WaitSendInv(c, p);
      case WaitReply => WaitReplyInv(c, p);
    }
  }

  lemma ReceiverStepInv(c: Setup, p: Pair)
    requires Orderly(c, p) && ReceiverStep(c, p).Some?
    ensures Inv(c, ReceiverStep(c, p).value)
  {
    if ReceiverStep(c, p).value.rpc.ReceiverFailed? {
      ReceiverFails(c, p);
    } else {
      match p.rpc
      case WarmWait => WarmWaitInv(c, p);
      case Receiving => ReceiveInv(c, p);
      case Replying => ReplyInv(c, p);
      case WaitEnd => WaitEndInv(c, p);
    }
  }

  lemma NetStepInv(c: Setup, p: Pair, it: Item)
    requires Orderly(c, p) && it in p.net
    ensures NetStep(c, p, it).Some? && Orderly(c, NetStep(c, p, it).value)
  {
    assert ItemOK(c, p, it);
    match it
    case AckBack => AckInv(c, p);
    case SendOver(true, _, t) => EndPutInv(c, p, t);
    case SendOver(false, _, t) => EndReplyInv(c, p, t);
    case Message(true, _, t) => if t < 0 { DeliverWarmUpInv(c, p); } else { DeliverPutInv(c, p, t); }
    case Message(false, _, t) => DeliverReplyInv(c, p, t);
  }

  lemma SenderStepStays(c: Setup, p: Pair)
    requires Shape(c, p) && SenderStep(c, p).Some?
    ensures var p' := SenderStep(c, p).value;
            (AnyFailed(p) ==> AnyFailed(p')) && p'.overtaken == p.overtaken && p'.outran == p.outran
  {
  }

  lemma ReceiverStepStays(c: Setup, p: Pair)
    requires Shape(c, p) && ReceiverStep(c, p).Some?
    ensures var p' := ReceiverStep(c, p).value;
            (AnyFailed(p) ==> AnyFailed(p')) && p'.overtaken == p.overtaken && p'.outran == p.outran
  {
  }

  lemma NetStepStays(c: Setup, p: Pair, it: Item)
    requires Shape(c, p) && NetStep(c, p, it).Some?
    ensures var p' := NetStep(c, p, it).value;
            p'.spc == p.spc && p'.rpc == p.rpc && (p.overtaken ==> p'.overtaken) && (p.outran ==> p'.outran)
  {
  }

  /** A failure is for good, and the records only grow. */
  lemma FailedStays(c: Setup, p: Pair, t: Turn)
    requires Shape(c, p) && TakeTurn(c, p, t).Some?
    ensures var p' := TakeTurn(c, p, t).value;
            (AnyFailed(p) ==> AnyFailed(p')) && (p.overtaken ==> p'.overtaken) && (p.outran ==> p'.outran)
            && (!t.NetTurn? ==> p'.overtaken == p.overtaken && p'.outran == p.outran)
  {
    match t
    case SenderTurn => SenderStepStays(c, p);
    case ReceiverTurn => ReceiverStepStays(c, p);
    case NetTurn(it) => NetStepStays(c, p, it);
  }

  lemma TurnInv(c: Setup, p: Pair, t: Turn)
    requires Inv(c, p) && TakeTurn(c, p, t).Some?
    ensures Inv(c, TakeTurn(c, p, t).value)
  {
    TurnKeepsShape(c, p, t);
    FailedStays(c, p, t);
    if !AnyFailed(p) {
      match t
      case SenderTurn => SenderStepInv(c, p);
      case ReceiverTurn => ReceiverStepInv(c, p);
      case NetTurn(it) => NetStepInv(c, p, it);
    }
  }

  lemma {:induction false} RunInv(c: Setup, turns: seq<Turn>)
    ensures Inv(c, Run(c, turns))
  {
    if turns == [] {
      InitialInv(c);
    } else {
      RunInv(c, turns[..|turns| - 1]);
      var p, t := Run(c, turns[..|turns| - 1]), turns[|turns| - 1];
      if TakeTurn(c, p, t).Some? { TurnInv(c, p, t); }
    }
  }

  lemma OrderedTurnStays(c: Setup, p: Pair, t: Turn)
    requires Inv(c, p) && TakeTurn(c, p, t).Some? && (!p.outran ==> !p.overtaken)
    ensures !TakeTurn(c, p, t).value.outran ==> !TakeTurn(c, p, t).value.overtaken
  {
    FailedStays(c, p, t);
    if !AnyFailed(p) && t.NetTurn? { NetStepInv(c, p, t.it); }
  }

  lemma {:induction false} OrderedRun(c: Setup, turns: seq<Turn>)
    ensures !Run(c, turns).outran ==> !Run(c, turns).overtaken
  {
    if turns != [] {
      var before := turns[..|turns| - 1];
      OrderedRun(c, before);
      RunInv(c, before);
      var p, t := Run(c, before), turns[|turns| - 1];
      if TakeTurn(c, p, t).Some? { OrderedTurnStays(c, p, t); }
    }
  }

  // ---------- main results ----------

  /** For every order in which the network works, as long as nobody has failed: the receiver's i-th reception is trial i,
      the sender's i-th completion is the reply to trial i in the slot noted for trial i, and no queue of five events
      overflows. */
  lemma InOrder(c: Setup, turns: seq<Turn>)
    requires !AnyFailed(Run(c, turns))
    ensures var p := Run(c, turns);
            && (forall j | 0 <= j < |p.received| :: p.received[j] == j)
            && (forall j | 0 <= j < |p.completed| :: p.completed[j] == (j, j))
            && |p.completed| <= |p.received| <= c.trials
            && (forall s | 0 <= s < c.inflight :: |p.squeue[s]| <= 2 && |p.rqueue[s]| <= 2)
  {
    RunInv(c, turns);
    var p := Run(c, turns);
    forall s: nat | s < c.inflight ensures |p.squeue[s]| <= 2 && |p.rqueue[s]| <= 2 {
      assert SenderSlotOK(c, p, s) && ReceiverSlotOK(c, p, s);
    }
  }

  /** Nobody ever fails unless something has entered a queue before its SEND_END, and nothing does in a run in which every
      send ends before its message is delivered. */
  lemma FailsOnlyOvertaken(c: Setup, turns: seq<Turn>)
    ensures var p := Run(c, turns); (AnyFailed(p) ==> p.overtaken) && (!p.outran ==> !p.overtaken)
  {
    RunInv(c, turns);
    OrderedRun(c, turns);
  }

  lemma RunOn(c: Setup, turns: seq<Turn>, t: Turn)
    requires TakeTurn(c, Run(c, turns), t).Some?
    ensures Run(c, turns + [t]) == TakeTurn(c, Run(c, turns), t).value
  {
    assert (turns + [t])[..|turns|] == turns;
  }

  lemma WarmUpOutrun(c: Setup, p: Pair)
    requires c.src == 0 && p == Initial(c)
    ensures SenderStep(c, p).Some? && var p1 := SenderStep(c, p).value;
            NetStep(c, p1, PutOf(c, WARM_UP)).Some? && var p2 := NetStep(c, p1, PutOf(c, WARM_UP)).value;
            p2.spc.WarmSend? && AckBack in p2.net && Shape(c, p2) && p2.squeue[0] == []
  {
    SlotOfWarmUp(c);
  }

  lemma EarlyAckFails(c: Setup, p: Pair)
    requires Shape(c, p) && p.spc.WarmSend? && AckBack in p.net && p.squeue[0] == []
    ensures NetStep(c, p, AckBack).Some? && var p1 := NetStep(c, p, AckBack).value;
            Shape(c, p1) && SenderStep(c, p1).Some? && SenderStep(c, p1).value.spc.SenderFailed?
  {
  }

  /** The order of the network matters: the acknowledgement of the warm-up may come before the end of its send. */
  lemma OvertakingPossible(c: Setup) returns (turns: seq<Turn>)
    requires c.src == 0
    ensures AnyFailed(Run(c, turns))
  {
    turns := [];
    WarmUpOutrun(c, Run(c, turns));
    RunOn(c, turns, SenderTurn);
    turns := turns + [SenderTurn];
    RunOn(c, turns, NetTurn(PutOf(c, WARM_UP)));
    turns := turns + [NetTurn(PutOf(c, WARM_UP))];
    EarlyAckFails(c, Run(c, turns));
    RunOn(c, turns, NetTurn(AckBack));
    turns := turns + [NetTurn(AckBack)];
    RunOn(c, turns, SenderTurn);
    turns := turns + [SenderTurn];
  }

  ghost predicate Finished(c: Setup, p: Pair) {
    && p.spc.SenderDone? && p.rpc.ReceiverDone?
    && |p.completed| == |p.received| == c.trials
    && p.net == {}
    && forall s | 0 <= s < |p.squeue| == |p.rqueue| :: p.squeue[s] == [] && p.rqueue[s] == []
  }

  /** Both sides wait for the warm-up to be answered, and nothing is under way. */
  ghost predicate StuckWarmingUp(p: Pair) {
    p.spc.WarmAck? && p.rpc.WarmWait? && p.net == {}
  }

  ghost predicate Blocked(c: Setup, p: Pair)
    requires Shape(c, p)
  {
    forall t :: TakeTurn(c, p, t).None?
  }

  lemma QuietNet(c: Setup, p: Pair)
    requires Orderly(c, p) && Blocked(c, p)
    ensures p.net == {}
  {
    forall it ensures it !in p.net {
      assert TakeTurn(c, p, NetTurn(it)).None?;
      if it in p.net { NetStepInv(c, p, it); }
    }
  }

  /** With nothing under way a side that waits for the other finds what it waits for, or the other can move. */
  lemma WaitingProgress(c: Setup, p: Pair)
    requires Orderly(c, p) && p.net == {} && !Warming(p) && !p.spc.SenderDone?
    ensures SenderStep(c, p).Some? || ReceiverStep(c, p).Some?
  {
    var f, w, n := c.inflight, |p.completed|, |p.received|;
    if !p.spc.Putting? {
      WindowSlot(p.i, w, f);
      TrialAtUnique(w, w, f);
      TrialAtUnique(n, n, f);
      assert SenderSlotOK(c, p, w % f) && ReceiverSlotOK(c, p, n % f) && ReceiverSlotOK(c, p, 0);
      if n > 0 { assert ReceiverSlotOK(c, p, (n - 1) % f); }
    }
  }

  lemma WarmUpBlocked(c: Setup, p: Pair)
    requires Orderly(c, p) && Warming(p) && p.net == {} && SenderStep(c, p).None?
    ensures c.src != 0 && StuckWarmingUp(p) && !p.overtaken
  {
    assert SenderSlotOK(c, p, 0);
    assert !WrongAt(c, p, true, 0);
  }

  lemma AllEmpty(c: Setup, p: Pair)
    requires Orderly(c, p) && p.spc.SenderDone? && p.net == {} && ReceiverStep(c, p).None?
    ensures Finished(c, p) && !p.overtaken
  {
    var f, n := c.inflight, |p.received|;
    if n > 0 { assert ReceiverSlotOK(c, p, (n - 1) % f); }
    forall s: nat | s < f ensures p.squeue[s] == [] && p.rqueue[s] == [] {
      assert SenderSlotOK(c, p, s) && ReceiverSlotOK(c, p, s);
    }
  }

  /** For another source rank the exchange proper never begins. */
  lemma OtherSourceWarming(c: Setup, p: Pair)
    requires Orderly(c, p) && c.src != 0
    ensures Warming(p) && p.rpc.WarmWait? && !p.overtaken
  {
    assert SenderSlotOK(c, p, 0);
    assert !WrongAt(c, p, true, 0);
  }

  lemma OtherSourceGoesOn(c: Setup, p: Pair, t: Turn)
    requires c.src != 0 && Orderly(c, p) && TakeTurn(c, p, t).Some?
    ensures !AnyFailed(TakeTurn(c, p, t).value) && !TakeTurn(c, p, t).value.overtaken
  {
    OtherSourceWarming(c, p);
    TurnInv(c, p, t);
    FailedStays(c, p, t);
    if !AnyFailed(TakeTurn(c, p, t).value) { OtherSourceWarming(c, TakeTurn(c, p, t).value); }
    if t.NetTurn? { NetStepStays(c, p, t.it); }
  }

  lemma {:induction false} OtherSourceNeverFails(c: Setup, turns: seq<Turn>)
    requires c.src != 0
    ensures !AnyFailed(Run(c, turns)) && !Run(c, turns).overtaken
  {
    if turns != [] {
      var before, t := turns[..|turns| - 1], turns[|turns| - 1];
      OtherSourceNeverFails(c, before);
      RunInv(c, before);
      if TakeTurn(c, Run(c, before), t).Some? { OtherSourceGoesOn(c, Run(c, before), t); }
    }
  }

  /** How a run ends.  When nothing can move any more and nothing came too early: for source rank 0 both loops are over,
      every trial was received and completed, and no event or message is left; for every other rank both sides are still
      in the warm-up.  When something came too early somebody has failed. */
  lemma BlockedOutcome(c: Setup, turns: seq<Turn>)
    requires Blocked(c, Run(c, turns))
    ensures var p := Run(c, turns);
            && (AnyFailed(p) <==> p.overtaken)
            && (Finished(c, p) <==> c.src == 0 && !p.overtaken)
            && (StuckWarmingUp(p) <==> c.src != 0)
  {
    RunInv(c, turns);
    var p := Run(c, turns);
    if c.src != 0 { OtherSourceNeverFails(c, turns); }
    if !AnyFailed(p) { BlockedOrderly(c, p); }
  }

  lemma BlockedOrderly(c: Setup, p: Pair)
    requires Orderly(c, p) && Blocked(c, p)
    ensures !p.overtaken && if c.src == 0 then Finished(c, p) else StuckWarmingUp(p)
  {
    assert TakeTurn(c, p, SenderTurn).None? && TakeTurn(c, p, ReceiverTurn).None?;
    QuietNet(c, p);
    if Warming(p) {
      WarmUpBlocked(c, p);
    } else if p.spc.SenderDone? {
      AllEmpty(c, p);
    } else {
      WaitingProgress(c, p);
    }
  }

  // ---------- termination ----------

  function SenderWork(spc: SenderPC): nat {
    match spc
    case WarmPut => 20
    case WarmSend => 10
    case WarmAck => 9
    case Putting => 3
    case WaitSend => 2
    case WaitReply => 1
    case _ => 0
  }

  function ReceiverWork(rpc: ReceiverPC): nat {
    match rpc
    case WarmWait => 1
    case Replying => 4
    case WaitEnd => 1
    case _ => 0
  }

  /** What is left to do; the warm-up message counts twice, because its delivery puts the acknowledgement under way. */
  function Remaining(c: Setup, p: Pair): int {
    6 * (c.trials + c.inflight - p.i) + 3 * (c.trials - |p.completed|) + SenderWork(p.spc)
    + 6 * (c.trials - |p.received|) + ReceiverWork(p.rpc)
    + |p.net| + if PutOf(c, WARM_UP) in p.net then 1 else 0
  }

  lemma RemainingNonNegative(c: Setup, p: Pair)
    requires Orderly(c, p)
    ensures Remaining(c, p) >= 0
  {
  }

  lemma TwoMore(net: set<Item>, a: Item, b: Item)
    ensures |net + {a, b}| <= |net| + 2
  {
    assert net + {a, b} == net + {a} + {b};
  }

  lemma SenderPutDecreases(c: Setup, p: Pair)
    requires Shape(c, p) && p.spc.Putting?
    ensures Remaining(c, SenderPut(c, p)) < Remaining(c, p)
  {
    TwoMore(p.net, PutEndOf(c, p.i), PutOf(c, p.i));
  }

  lemma SenderStepDecreases(c: Setup, p: Pair)
    requires Shape(c, p) && SenderStep(c, p).Some? && !SenderStep(c, p).value.spc.SenderFailed?
    ensures Remaining(c, SenderStep(c, p).value) < Remaining(c, p)
  {
    match p.spc
    case WarmPut => TwoMore(p.net, PutEndOf(c, WARM_UP), PutOf(c, WARM_UP));
    case Putting => SenderPutDecreases(c, p);
    case _ =>
  }

  lemma ReceiverStepDecreases(c: Setup, p: Pair)
    requires Shape(c, p) && ReceiverStep(c, p).Some? && !ReceiverStep(c, p).value.rpc.ReceiverFailed?
    ensures Remaining(c, ReceiverStep(c, p).value) < Remaining(c, p)
  {
    var n := |p.received|;
    if p.rpc.Replying? {
      var t := p.received[n - 1];
      TwoMore(p.net, SendOver(false, (n - 1) % c.inflight, t), Message(false, Bits(c, (n - 1) % c.inflight), t));
    }
  }

  lemma NetStepDecreases(c: Setup, p: Pair, it: Item)
    requires Shape(c, p) && NetStep(c, p, it).Some? && ItemOK(c, p, it)
    ensures Remaining(c, NetStep(c, p, it).value) < Remaining(c, p)
  {
    var p' := NetStep(c, p, it).value;
    assert |p.net - {it}| == |p.net| - 1;
    if it == PutOf(c, WARM_UP) {
      assert p'.net <= p.net - {it} + {AckBack};
      assert |p'.net| <= |p.net|;
    } else {
      assert p'.net == p.net - {it};
    }
  }

  /** Every turn that changes anything lowers what is left to do, unless somebody fails: runs end. */
  lemma TurnDecreases(c: Setup, p: Pair, t: Turn)
    requires Orderly(c, p) && TakeTurn(c, p, t).Some? && !AnyFailed(TakeTurn(c, p, t).value)
    ensures Remaining(c, TakeTurn(c, p, t).value) < Remaining(c, p)
  {
    match t
    case SenderTurn => SenderStepDecreases(c, p);
    case ReceiverTurn => ReceiverStepDecreases(c, p);
    case NetTurn(it) =>
      assert ItemOK(c, p, it);
      NetStepDecreases(c, p, it);
  }

  /** After a turn: somebody has failed, or there is less to do. */
  lemma TurnProgress(c: Setup, p: Pair, t: Turn)
    requires Orderly(c, p) && TakeTurn(c, p, t).Some?
    ensures var p' := TakeTurn(c, p, t).value;
            && (AnyFailed(p') || 0 <= Remaining(c, p') < Remaining(c, p))
            && (c.src != 0 ==> !AnyFailed(p') && !p'.overtaken)
  {
    TurnInv(c, p, t);
    if c.src != 0 { OtherSourceGoesOn(c, p, t); }
    if !AnyFailed(TakeTurn(c, p, t).value) {
      TurnDecreases(c, p, t);
      RemainingNonNegative(c, TakeTurn(c, p, t).value);
    }
  }

  /** A turn that changes something and delivers nothing before its send has ended. */
  lemma OrderedTurn(c: Setup, p: Pair) returns (t: Turn)
    requires Orderly(c, p) && !Blocked(c, p) && !p.outran
    ensures TakeTurn(c, p, t).Some? && !TakeTurn(c, p, t).value.outran
  {
    if it :| it in p.net && it.SendOver? {
      t := NetTurn(it);
      NetStepInv(c, p, it);
    } else {
      t :| TakeTurn(c, p, t).Some?;
      FailedStays(c, p, t);
    }
  }

  /** For source rank 0 every run in order can be continued to its proper end. */
  lemma {:induction false} ExtendToFinish(c: Setup, turns: seq<Turn>, left: nat) returns (all: seq<Turn>)
    requires c.src == 0 && Remaining(c, Run(c, turns)) <= left && !Run(c, turns).outran
    ensures turns <= all && Finished(c, Run(c, all))
    decreases left
  {
    RunInv(c, turns);
    FailsOnlyOvertaken(c, turns);
    var p := Run(c, turns);
    if Blocked(c, p) {
      BlockedOutcome(c, turns);
      all := turns;
    } else {
      var t := OrderedTurn(c, p);
      assert (turns + [t])[..|turns|] == turns;
      RunInv(c, turns + [t]);
      FailsOnlyOvertaken(c, turns + [t]);
      TurnDecreases(c, p, t);
      RemainingNonNegative(c, Run(c, turns + [t]));
      all := ExtendToFinish(c, turns + [t], left - 1);
    }
  }

  ghost predicate CanFinish(c: Setup) {
    exists turns :: Finished(c, Run(c, turns))
  }

  /** The pair can finish at all exactly when its source rank is 0: any other pair stays in the warm-up. */
  lemma FinishesIffSourceZero(c: Setup)
    ensures CanFinish(c) <==> c.src == 0
  {
    if c.src == 0 {
      InitialInv(c);
      assert Run(c, []) == Initial(c);
      RemainingNonNegative(c, Run(c, []));
      var all := ExtendToFinish(c, [], Remaining(c, Run(c, [])));
    } else {
      forall turns ensures !Finished(c, Run(c, turns)) {
        RunInv(c, turns);
        OtherSourceNeverFails(c, turns);
        OtherSourceWarming(c, Run(c, turns));
      }
    }
  }
}
