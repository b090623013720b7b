/** The ring of message slots shared by the four Portals benchmarks. */
module Slots {
  import opened Arith

  /** Match bits: the source rank above five bits of slot number. */
  function MatchBits(src: bv64, slot: bv64): bv64 {
    (src << 5) | slot
  }

  lemma MatchBitsUnpack(src: bv64, slot: bv64)
    requires slot < 32 && src < 0x800_0000_0000_0000
    ensures (MatchBits(src, slot) >> 5) == src && (MatchBits(src, slot) & 31) == slot
  {
  }

  /** With at most 32 slots the bits name one rank and one slot. */
  lemma MatchBitsInjective(src: bv64, slot: bv64, src': bv64, slot': bv64)
    requires slot < 32 && slot' < 32
    requires src < 0x800_0000_0000_0000 && src' < 0x800_0000_0000_0000
    ensures MatchBits(src, slot) == MatchBits(src', slot') <==> src == src' && slot == slot'
  {
    MatchBitsUnpack(src, slot);
    MatchBitsUnpack(src', slot');
  }

  /** As a number the bits are the rank times 32 plus the slot. */
  lemma MatchBitsSum(src: bv64, slot: bv64)
    requires slot < 32
    ensures MatchBits(src, slot) == src * 32 + slot
  {
  }

  /** With 33 slots two of them would share their bits with a neighbouring pair's. */
  lemma MatchBitsOverflow()
    ensures MatchBits(0, 32) == MatchBits(1, 0)
  {
  }

  /** The message that warms the connection up carries the bare source rank as its match bits: none of the entries
      posted for that rank matches them, except the first one when the rank is 0. */
  lemma WarmUpMatchedIff(src: bv64, slot: bv64)
    requires slot < 32 && src < 0x800_0000_0000_0000
    ensures MatchBits(src, slot) == src <==> src == 0 && slot == 0
  {
    MatchBitsUnpack(src, slot);
  }

  /** The trial that uses slot `s` in a window of `f` consecutive trials starting at `lo`. */
  function TrialAt(s: nat, lo: nat, f: nat): (t: nat)
    requires s < f
    ensures lo <= t < lo + f && t % f == s
  {
    var q, m := lo / f, lo % f;
    assert lo == q * f + m;
    if s >= m then
      DivModUnique(q * f + s, f, q, s);
      q * f + s
    else
      assert (q + 1) * f == q * f + f;
      DivModUnique((q + 1) * f + s, f, q + 1, s);
      (q + 1) * f + s
  }

  lemma SameSlotSameTrial(t: nat, u: nat, lo: nat, f: nat)
    requires f > 0 && lo <= t < lo + f && lo <= u < lo + f
    requires t % f == u % f
    ensures t == u
  {
    SameRound(t, u, f);
    SameRound(u, t, f);
  }

  /** Trials with the same slot less than a round apart are in the same round. */
  lemma SameRound(t: nat, u: nat, f: nat)
    requires f > 0 && t % f == u % f && u < t + f
    ensures u <= t
  {
    var p, q := t / f, u / f;
    assert t == p * f + t % f && u == q * f + u % f;
    if p < q {
      MulMonotone(p + 1, q, f);
      MulSucc(p, f);
    } else {
      MulMonotone(q, p, f);
    }
  }

  lemma TrialAtUnique(t: nat, lo: nat, f: nat)
    requires f > 0 && lo <= t < lo + f
    ensures TrialAt(t % f, lo, f) == t
  {
    SameSlotSameTrial(t, TrialAt(t % f, lo, f), lo, f);
  }

  /** Moving the window on by one changes the trial of one slot only. */
  lemma TrialAtStep(s: nat, lo: nat, f: nat)
    requires s < f
    ensures TrialAt(s, lo + 1, f) == if s == lo % f then lo + f else TrialAt(s, lo, f)
  {
    if s == lo % f {
      DivModUnique(lo + f, f, lo / f + 1, s);
      TrialAtUnique(lo + f, lo + 1, f);
    } else {
      var t := TrialAt(s, lo, f);
      TrialAtUnique(t, lo + 1, f);
    }
  }
}

/** The sender's loop: puts run ahead of waits by the number of slots. */
module SendWindow {
  import Arith
  import opened Slots

  const U32 := 0x1_0000_0000
  const MAX_INFLIGHT := 32

  /** Increment and decrement of a 32-bit unsigned counter. */
  function Inc(i: nat): nat { if i + 1 == U32 then 0 else i + 1 }

  function Dec(i: nat): nat { if i == 0 then U32 - 1 else i - 1 }

  datatype Slot = Slot(id: nat, outstanding: bool)

  /** A slot and the trial it was used for. */
  datatype Use = Use(slot: nat, trial: nat)

  function Uses(n: nat, f: nat): (us: seq<Use>)
    requires f > 0
    ensures |us| == n
    ensures forall i | 0 <= i < n :: us[i] == Use(i % f, i)
  {
    seq(n, i requires 0 <= i => Use(i % f, i))
  }

  ghost predicate SlotOK(ms: seq<Slot>, s: nat, lo: nat, hi: nat)
    requires s < |ms|
  {
    var t := TrialAt(s, lo, |ms|);
    ms[s].outstanding == (t < hi) && (t < hi ==> ms[s].id == t)
  }

  /** Trials `lo` up to `hi` are outstanding, each in its own slot, and no other slot is. */
  ghost predicate Window(ms: seq<Slot>, lo: nat, hi: nat) {
    && lo <= hi <= lo + |ms|
    && forall s | 0 <= s < |ms| :: SlotOK(ms, s, lo, hi)
  }

  lemma PutKeepsWindow(ms: seq<Slot>, lo: nat, t: nat)
    requires 0 < |ms| && Window(ms, lo, t) && t < lo + |ms|
    ensures !ms[t % |ms|].outstanding
    ensures Window(ms[t % |ms| := Slot(t, true)], lo, t + 1)
  {
    TrialAtUnique(t, lo, |ms|);
    assert SlotOK(ms, t % |ms|, lo, t);
    var ms', hi := ms[t % |ms| := Slot(t, true)], t + 1;
    forall s | 0 <= s < |ms'| ensures SlotOK(ms', s, lo, hi) {
      assert SlotOK(ms, s, lo, t);
    }
  }

  lemma WaitKeepsWindow(ms: seq<Slot>, lo: nat, hi: nat)
    requires 0 < |ms| && Window(ms, lo, hi)
    ensures ms[lo % |ms|].outstanding <==> lo < hi
    ensures lo < hi ==> ms[lo % |ms|].id == lo && Window(ms[lo % |ms| := Slot(lo, false)], lo + 1, hi)
  {
    TrialAtUnique(lo, lo, |ms|);
    assert SlotOK(ms, lo % |ms|, lo, hi);
    if lo < hi {
      var ms', lo' := ms[lo % |ms| := Slot(lo, false)], lo + 1;
      forall s | 0 <= s < |ms'| ensures SlotOK(ms', s, lo', hi) {
        assert SlotOK(ms, s, lo, hi);
        TrialAtStep(s, lo, |ms|);
      }
    }
  }

  lemma EmptyWindow(ms: seq<Slot>, n: nat)
    requires Window(ms, n, n)
    ensures forall s | 0 <= s < |ms| :: !ms[s].outstanding
  {
    forall s | 0 <= s < |ms| ensures !ms[s].outstanding {
      assert SlotOK(ms, s, n, n);
    }
  }

  lemma UsesGrow(n: nat, f: nat)
    requires f > 0
    ensures Uses(n + 1, f) == Uses(n, f) + [Use(n % f, n)]
  {
  }

  lemma SlotStep(i: nat, f: nat)
    requires f > 0
    ensures (i % f + 1) % f == (i + 1) % f
    ensures i + 1 >= f ==> (i + 1) % f == (i + 1 - f) % f
  {
    Arith.DivModStep(i, f);
    if i % f == f - 1 { Arith.DivModUnique(f, f, 1, 0); } else { Arith.DivModUnique(i % f + 1, f, 0, i % f + 1); }
    if i + 1 >= f {
      var q := i + 1 - f;
      Arith.DivModUnique(i + 1, f, q / f + 1, q % f);
    }
  }

  /** Before the j-th wait f + j puts have been made, or all there are. */
  ghost predicate RunsAhead(ahead: seq<nat>, trials: nat, f: nat) {
    forall j | 0 <= j < |ahead| :: ahead[j] == if j + f < trials then j + f else trials
  }

  lemma RunsAheadOn(ahead: seq<nat>, trials: nat, f: nat, puts: nat)
    requires RunsAhead(ahead, trials, f) && puts == if |ahead| + f < trials then |ahead| + f else trials
    ensures RunsAhead(ahead + [puts], trials, f)
  {
  }

  /** `ahead` tells, for every wait, how many puts had been made before it. */
  class Sender {
    const msg: array<Slot>
    var puts: seq<Use>
    var waits: seq<Use>
    ghost var ahead: seq<nat>

    constructor (inflight: nat)
      ensures fresh(msg) && msg.Length == inflight && puts == [] && waits == [] && ahead == []
      ensures forall s | 0 <= s < inflight :: !msg[s].outstanding
    {
      msg := new Slot[inflight](_ => Slot(0, false));
      puts, waits, ahead := [], [], [];
    }

    /** Starts an operation on slot `m`, which must be idle: its buffer is reused. */
    method Put(m: nat, trial: nat)
      requires m < msg.Length && !msg[m].outstanding
      modifies msg, `puts
      ensures msg[..] == old(msg[..])[m := Slot(trial, true)]
      ensures puts == old(puts) + [Use(m, trial)]
    {
      msg[m] := Slot(trial, true);
      puts := puts + [Use(m, trial)];
    }

    /** Waits for the completion events of slot `m`; nothing ever arrives for an idle slot. */
    method Event(m: nat) returns (blocked: bool, id: nat)
      requires m < msg.Length
      modifies msg, `waits, `ahead
      ensures blocked <==> !old(msg[m].outstanding)
      ensures blocked ==> msg[..] == old(msg[..]) && waits == old(waits) && ahead == old(ahead)
      ensures !blocked ==> ahead == old(ahead) + [|puts|]
      ensures !blocked ==> id == old(msg[m].id)
      ensures !blocked ==> msg[..] == old(msg[..])[m := Slot(id, false)] && waits == old(waits) + [Use(m, id)]
    {
      blocked, id := !msg[m].outstanding, msg[m].id;
      if !blocked {
        msg[m] := Slot(id, false);
        waits, ahead := waits + [Use(m, id)], ahead + [|puts|];
      }
    }

    /** The put of trial `t` in its slot, the window being at trial `w`. */
    method PutTrial(m: nat, t: nat, ghost w: nat)
      requires 0 < msg.Length && m == t % msg.Length && t < w + msg.Length
      requires Window(msg[..], w, t) && puts == Uses(t, msg.Length)
      modifies msg, `puts
      ensures Window(msg[..], w, t + 1) && puts == Uses(t + 1, msg.Length)
    {
      PutKeepsWindow(msg[..], w, t);
      UsesGrow(t, msg.Length);
      Put(m, t);
    }

    /** The wait for trial `w` in its slot. */
    method WaitTrial(m: nat, ghost w: nat, ghost trials: nat) returns (blocked: bool, id: nat)
      requires 0 < msg.Length && m == w % msg.Length && Window(msg[..], w, |puts|) && waits == Uses(w, msg.Length)
      requires |puts| == if w + msg.Length < trials then w + msg.Length else trials
      requires |ahead| == w && RunsAhead(ahead, trials, msg.Length)
      modifies msg, `waits, `ahead
      ensures blocked <==> w == |puts|
      ensures blocked ==> msg[..] == old(msg[..]) && waits == old(waits) && ahead == old(ahead)
      ensures !blocked ==> id == w && Window(msg[..], w + 1, |puts|) && waits == Uses(w + 1, msg.Length)
      ensures !blocked ==> |ahead| == w + 1 && RunsAhead(ahead, trials, msg.Length)
    {
      WaitKeepsWindow(msg[..], w, |puts|);
      UsesGrow(w, msg.Length);
      RunsAheadOn(ahead, trials, msg.Length, |puts|);
      blocked, id := Event(m);
    }

    /** One message size of the benchmark.  The loop ends by itself exactly when there is a trial to make; then trial
        i went through slot i % inflight, the waits were for the trials in order, the puts running ahead by the whole window
        each time, and nothing is outstanding. */
    method SendTrials(trials: nat) returns (blocked: bool)
      requires 1 <= msg.Length <= MAX_INFLIGHT && trials + msg.Length <= U32
      requires puts == [] && waits == [] && ahead == [] && forall s | 0 <= s < msg.Length :: !msg[s].outstanding
      modifies this, msg
      ensures blocked <==> trials == 0
      ensures puts == Uses(trials, msg.Length) && waits == Uses(trials, msg.Length)
      ensures |ahead| == trials && RunsAhead(ahead, trials, msg.Length)
      ensures forall s | 0 <= s < msg.Length :: !msg[..][s].outstanding
    {
      var inflight := msg.Length;
      var i, m := 0, 0;
      while true
        invariant 0 <= i < trials + inflight && m == i % inflight
        invariant puts == Uses(if i < trials then i else trials, inflight)
        invariant waits == Uses(if i < inflight then 0 else i + 1 - inflight, inflight)
        invariant |waits| <= trials && (trials > 0 ==> |waits| < trials)
        invariant Window(msg[..], |waits|, |puts|)
        invariant |ahead| == |waits| && RunsAhead(ahead, trials, inflight)
        decreases trials + inflight - i
      {
        ghost var w := |waits|;
        SlotStep(i, inflight);
        if i < trials { PutTrial(m, i, w); }
        m := m + 1;
        m := m % inflight;
        i := Inc(i);
        if i < inflight { continue; }
        var id;
        blocked, id := WaitTrial(m, w, trials);
        if blocked {
          EmptyWindow(msg[..], w);
          return;
        }
        if id == Dec(trials) {
          assert w + 1 == trials == |puts|;
          EmptyWindow(msg[..], trials);
          return;
        }
      }
    }
  }
}
