/** The token format of the GSS sample programs: an optional flag byte, a four-byte big-endian length, the data. */
module TokenCodec {
  import opened Common

  datatype Token = Token(flags: Byte, value: Bytes)
  datatype Decoded = Decoded(tok: Token, rest: Bytes) | Failed

  const K24 := 0x100_0000
  const K31 := 0x8000_0000
  const K32 := 0x1_0000_0000

  /** The flag byte actually written for an `int` argument. */
  function CharFlags(flags: int): (b: Byte)
    ensures (flags - b) % 256 == 0
  {
    flags % 256
  }

  function LengthBytes(n: nat): Bytes
    requires n < K32
  {
    [n / K24, n / 0x1_0000 % 256, n / 256 % 256, n % 256]
  }

  function LengthOf(b: Bytes): nat
    requires |b| == 4
  {
    b[0] as int * K24 + b[1] as int * 0x1_0000 + b[2] as int * 256 + b[3] as int
  }

  /** A zero flag byte is not written at all. */
  function Encode(flags: Byte, value: Bytes): Bytes
    requires |value| < K32
  {
    (if flags != 0 then [flags] else []) + LengthBytes(|value|) + value
  }

  /** The flag byte and the length, or the length alone when its top byte is zero. */
  function HeaderLength(s: Bytes): nat {
    if s != [] && s[0] == 0 then 4 else 5
  }

  /** A first byte of zero is taken as the top byte of the length.  A length of 2^31 or more
      becomes negative in the receiver's `int` arithmetic and no memory is found for it. */
  function Decode(s: Bytes): Decoded {
    var header := HeaderLength(s);
    if |s| < header then Failed
    else
      var len := LengthOf(s[header - 4..header]);
      if len >= K31 || |s| < header + len then Failed
      else Decoded(Token(s[0], s[header..header + len]), s[header + len..])
  }

  /** Dividing by 256 twice, and three times. */
  lemma Shifted(n: nat)
    ensures n / 256 / 256 == n / 0x1_0000
    ensures n / 0x1_0000 / 256 == n / K24
  {
  }

  lemma LengthRoundTrip(n: nat)
    requires n < K32
    ensures LengthOf(LengthBytes(n)) == n
    ensures LengthBytes(n)[0] == 0 <==> n < K24
  {
    Shifted(n);
    var q1, q2, q3 := n / 256, n / 0x1_0000, n / K24;
    assert n == q1 * 256 + n % 256 && q1 == q2 * 256 + q1 % 256 && q2 == q3 * 256 + q2 % 256;
  }

  /** The bytes of the first difference decide. */
  predicate BytesBelow(a: Bytes, b: Bytes) {
    exists k :: 0 <= k < |a| && k < |b| && a[..k] == b[..k] && a[k] < b[k]
  }

  lemma BytesCompare(a: Bytes, b: Bytes)
    requires |a| == |b| == 4
    ensures a == b || BytesBelow(a, b) || BytesBelow(b, a)
  {
    var k := if a[0] != b[0] then 0 else if a[1] != b[1] then 1 else if a[2] != b[2] then 2 else 3;
    assert a[..k] == b[..k];
    if a[k] == b[k] { assert a == b; }
  }

  lemma BytesBelowLess(a: Bytes, b: Bytes)
    requires |a| == |b| == 4 && BytesBelow(a, b)
    ensures LengthOf(a) < LengthOf(b)
  {
    var k :| 0 <= k < |a| && k < |b| && a[..k] == b[..k] && a[k] < b[k];
    assert forall i | 0 <= i < k :: a[..k][i] == a[i] && b[..k][i] == b[i];
  }

  /** The most significant byte comes first: the order of the bytes is the order of the lengths. */
  lemma LengthOrder(a: Bytes, b: Bytes)
    requires |a| == |b| == 4
    ensures LengthOf(a) < LengthOf(b) <==> BytesBelow(a, b)
  {
    BytesCompare(a, b);
    if BytesBelow(a, b) { BytesBelowLess(a, b); }
    if BytesBelow(b, a) { BytesBelowLess(b, a); }
  }

  /** Any four bytes are the encoding of the length they are read as. */
  lemma LengthBytesOf(b: Bytes)
    requires |b| == 4
    ensures LengthOf(b) < K32 && LengthBytes(LengthOf(b)) == b
  {
    var b' := LengthBytes(LengthOf(b));
    LengthRoundTrip(LengthOf(b));
    BytesCompare(b, b');
    if BytesBelow(b, b') { BytesBelowLess(b, b'); }
    if BytesBelow(b', b) { BytesBelowLess(b', b); }
  }

  /** Where everything is on the wire: a flag byte unless it is zero, four bytes of length, the data as they are. */
  lemma EncodeLayout(flags: Byte, value: Bytes)
    requires |value| < K32
    ensures var wire, h := Encode(flags, value), if flags == 0 then 0 else 1;
            && |wire| == h + 4 + |value|
            && (flags != 0 ==> wire[0] == flags)
            && LengthOf(wire[h..h + 4]) == |value| && wire[h + 4..] == value
  {
    var wire, h, lb := Encode(flags, value), if flags == 0 then 0 else 1, LengthBytes(|value|);
    LengthRoundTrip(|value|);
    assert wire[h..h + 4] == lb;
  }

  /** What survives the wire: with a flag byte any length the receiver can hold, without one only lengths
      whose own top byte is zero. */
  predicate Transportable(flags: Byte, value: Bytes) {
    |value| < if flags == 0 then K24 else K31
  }

  /** What stands where after a header. */
  lemma HeaderParts(header: Bytes, value: Bytes, rest: Bytes)
    ensures var s, h := header + value + rest, |header|;
            s[..h] == header && s[h..h + |value|] == value && s[h + |value|..] == rest
  {
  }

  lemma DecodeFlagged(flags: Byte, lb: Bytes, value: Bytes, rest: Bytes)
    requires flags != 0 && |lb| == 4 && LengthOf(lb) == |value|
    ensures Decode([flags] + lb + value + rest) == if |value| < K31 then Decoded(Token(flags, value), rest) else Failed
  {
    var s := [flags] + lb + value + rest;
    HeaderParts([flags] + lb, value, rest);
    assert s[1..5] == s[..5][1..] == lb && s[0] == flags;
  }

  lemma DecodeBare(lb: Bytes, value: Bytes, rest: Bytes)
    requires |lb| == 4 && lb[0] == 0 && LengthOf(lb) == |value| < K31
    ensures Decode(lb + value + rest) == Decoded(Token(0, value), rest)
  {
    var s := lb + value + rest;
    HeaderParts(lb, value, rest);
    assert s[0..4] == s[..4] && s[0] == lb[0];
  }

  lemma DecodeMistaken(lb: Bytes, value: Bytes, rest: Bytes)
    requires |lb| == 4 && lb[0] != 0
    ensures Decode(lb + value + rest) != Decoded(Token(0, value), rest)
  {
    assert (lb + value + rest)[0] == lb[0];
  }

  /** A token is read back, whatever follows it, exactly when it is transportable. */
  lemma RoundTrip(flags: Byte, value: Bytes, rest: Bytes)
    requires |value| < K32
    ensures Decode(Encode(flags, value) + rest) == Decoded(Token(flags, value), rest) <==> Transportable(flags, value)
  {
    var lb := LengthBytes(|value|);
    LengthRoundTrip(|value|);
    if flags != 0 {
      DecodeFlagged(flags, lb, value, rest);
    } else {
      assert [] + lb == lb;
      if lb[0] == 0 { DecodeBare(lb, value, rest); } else { DecodeMistaken(lb, value, rest); }
    }
  }

  /** Cutting a sequence in three. */
  lemma CutInThree(s: Bytes, h: nat, len: nat)
    requires h + len <= |s|
    ensures s == s[..h] + s[h..h + len] + s[h + len..]
  {
  }

  lemma DecodedParts(s: Bytes, tok: Token, rest: Bytes)
    requires Decode(s) == Decoded(tok, rest)
    ensures Transportable(tok.flags, tok.value) && s == Encode(tok.flags, tok.value) + rest
  {
    var h := HeaderLength(s);
    var lb := s[h - 4..h];
    LengthBytesOf(lb);
    LengthRoundTrip(LengthOf(lb));
    CutInThree(s, h, LengthOf(lb));
    if s[0] == 0 {
      assert s[..h] == lb && [] + lb == lb;
    } else {
      assert s[..h] == [s[0]] + lb;
    }
  }

  /** Decoding is exactly the inverse of encoding: bytes decode to a token and a rest if and only if they are the encoding
      of that token, a transportable one, followed by that rest. */
  lemma DecodedIff(s: Bytes, tok: Token, rest: Bytes)
    ensures Decode(s) == Decoded(tok, rest) <==>
            Transportable(tok.flags, tok.value) && s == Encode(tok.flags, tok.value) + rest
  {
    if Decode(s) == Decoded(tok, rest) {
      DecodedParts(s, tok, rest);
    } else if Transportable(tok.flags, tok.value) {
      RoundTrip(tok.flags, tok.value, rest);
    }
  }

  predicate AllTransportable(toks: seq<Token>) {
    forall i | 0 <= i < |toks| :: Transportable(toks[i].flags, toks[i].value)
  }

  function EncodeAll(toks: seq<Token>): Bytes
    requires AllTransportable(toks)
  {
    if toks == [] then [] else Encode(toks[0].flags, toks[0].value) + EncodeAll(toks[1..])
  }

  function DecodeAll(s: Bytes, n: nat): seq<Token> {
    if n == 0 then []
    else match Decode(s)
      case Failed => []
      case Decoded(tok, rest) => [tok] + DecodeAll(rest, n - 1)
  }

  /** Token boundaries are recovered from the bare byte stream. */
  lemma {:induction false} StreamRoundTrip(toks: seq<Token>)
    requires AllTransportable(toks)
    ensures DecodeAll(EncodeAll(toks), |toks|) == toks
  {
    if toks != [] {
      RoundTrip(toks[0].flags, toks[0].value, EncodeAll(toks[1..]));
      StreamRoundTrip(toks[1..]);
    }
  }

  // ---------- interrupted calls ----------

  datatype IoEvent = Moved(n: nat) | Interrupted

  /** The memory of the program, in which a buffer is a stretch with bytes before and after it. */
  type Memory = int -> Byte

  function Stretch(mem: Memory, at: int, n: nat): (s: Bytes)
    ensures |s| == n && forall i | 0 <= i < n :: s[i] == mem(at + i)
  {
    seq(n, i requires 0 <= i => mem(at + i))
  }

  function Stored(mem: Memory, at: int, data: Bytes): Memory {
    x => if at <= x < at + |data| then data[x - at] else mem(x)
  }

  function Interruptions(evs: seq<IoEvent>): nat {
    multiset(evs)[Interrupted]
  }

  /** What a loop leaves: the bytes sent and the pointer at its end, when the schedule took it there. */
  datatype WriteRun = Written(out: Bytes, ptr: int) | NotWritten

  /** The write loop over a schedule of `send` results.  After an interrupted call the loop still runs its update step
      with a result of -1: the pointer steps back one byte, if need be out of the buffer, and one more byte is left. */
  function RunWrite(mem: Memory, ptr: int, nbyte: nat, evs: seq<IoEvent>): WriteRun
    decreases evs
  {
    if nbyte == 0 || evs == [] then if nbyte == 0 && evs == [] then Written([], ptr) else NotWritten
    else match evs[0]
      case Interrupted => RunWrite(mem, ptr - 1, nbyte + 1, evs[1..])
      case Moved(n) =>
        if n == 0 || n > nbyte then NotWritten
        else match RunWrite(mem, ptr + n, nbyte - n, evs[1..])
          case Written(out, end) => Written(Stretch(mem, ptr, n) + out, end)
          case NotWritten => NotWritten
  }

  /** The bytes that the calls move. */
  function MovedIn(evs: seq<IoEvent>): nat {
    if evs == [] then 0 else (if evs[0].Moved? then evs[0].n else 0) + MovedIn(evs[1..])
  }

  /** The bytes left after these calls: each interruption has added one. */
  function Left(nbyte: int, evs: seq<IoEvent>): int {
    nbyte + Interruptions(evs) - MovedIn(evs)
  }

  /** The calls fit the buffer: while bytes are left each call is interrupted or moves some of them, and in the end none
      are left. */
  ghost predicate Exhausts(nbyte: int, evs: seq<IoEvent>) {
    && Left(nbyte, evs) == 0
    && forall k | 0 <= k < |evs| :: CallFits(nbyte, evs, k)
  }

  predicate CallFits(nbyte: int, evs: seq<IoEvent>, k: nat)
    requires k < |evs|
  {
    0 < Left(nbyte, evs[..k]) && (evs[k].Moved? ==> 0 < evs[k].n <= Left(nbyte, evs[..k]))
  }

  function LeftBy(nbyte: int, ev: IoEvent): int {
    match ev
    case Interrupted => nbyte + 1
    case Moved(n) => nbyte - n
  }

  lemma LeftAfter(nbyte: int, evs: seq<IoEvent>, k: nat)
    requires 0 < k <= |evs|
    ensures Left(nbyte, evs[..k]) == Left(LeftBy(nbyte, evs[0]), evs[1..][..k - 1])
  {
    assert evs[..k][1..] == evs[1..][..k - 1];
    assert evs[..k] == [evs[0]] + evs[1..][..k - 1];
  }

  /** The first call fits, and the others fit what it leaves. */
  lemma ExhaustsStep(nbyte: nat, evs: seq<IoEvent>)
    requires evs != []
    ensures Exhausts(nbyte, evs) <==>
            nbyte > 0 && (evs[0].Moved? ==> 0 < evs[0].n <= nbyte) && Exhausts(LeftBy(nbyte, evs[0]), evs[1..])
  {
    var left, rest := LeftBy(nbyte, evs[0]), evs[1..];
    assert evs[..0] == [] && evs[..|evs|] == evs && rest[..|rest|] == rest;
    assert CallFits(nbyte, evs, 0) <==> nbyte > 0 && (evs[0].Moved? ==> 0 < evs[0].n <= nbyte);
    LeftAfter(nbyte, evs, |evs|);
    forall k | 0 <= k < |rest| ensures CallFits(left, rest, k) <==> CallFits(nbyte, evs, k + 1) {
      LeftAfter(nbyte, evs, k + 1);
    }
    if CallFits(nbyte, evs, 0) && Exhausts(left, rest) {
      forall k | 0 <= k < |evs| ensures CallFits(nbyte, evs, k) {
        if k > 0 { assert CallFits(left, rest, k - 1); }
      }
    }
  }

  lemma ExhaustsNothing(nbyte: nat)
    ensures Exhausts(nbyte, []) <==> nbyte == 0
  {
  }

  /** The write loop ends after exactly those calls that fit its buffer. */
  lemma {:induction false} WrittenIff(mem: Memory, ptr: int, nbyte: nat, evs: seq<IoEvent>)
    ensures RunWrite(mem, ptr, nbyte, evs).Written? <==> Exhausts(nbyte, evs)
    decreases evs
  {
    if evs == [] {
      ExhaustsNothing(nbyte);
    } else {
      ExhaustsStep(nbyte, evs);
      if nbyte > 0 {
        match evs[0]
        case Interrupted => WrittenIff(mem, ptr - 1, nbyte + 1, evs[1..]);
        case Moved(n) => if 0 < n <= nbyte { WrittenIff(mem, ptr + n, nbyte - n, evs[1..]); }
      }
    }
  }

  lemma {:induction false} WriteRunLength(mem: Memory, ptr: int, nbyte: nat, evs: seq<IoEvent>)
    requires RunWrite(mem, ptr, nbyte, evs).Written?
    ensures var r := RunWrite(mem, ptr, nbyte, evs);
            && r.ptr == ptr + nbyte && |r.out| == nbyte + Interruptions(evs)
            && (Interruptions(evs) == 0 ==> r.out == Stretch(mem, ptr, nbyte))
    decreases evs
  {
    if nbyte != 0 {
      assert evs == [evs[0]] + evs[1..];
      match evs[0]
      case Interrupted => WriteRunLength(mem, ptr - 1, nbyte + 1, evs[1..]);
      case Moved(n) => WriteRunLength(mem, ptr + n, nbyte - n, evs[1..]);
    }
  }

  /** Every write loop that ends reports the whole buffer written; it has sent exactly the buffer if and only if no call
      was interrupted on the way, the first one included. */
  lemma WrittenIffUninterrupted(mem: Memory, buf: int, nbyte: nat, evs: seq<IoEvent>)
    requires RunWrite(mem, buf, nbyte, evs).Written?
    ensures RunWrite(mem, buf, nbyte, evs).ptr - buf == nbyte
    ensures RunWrite(mem, buf, nbyte, evs).out == Stretch(mem, buf, nbyte) <==> Interrupted !in evs
  {
    WriteRunLength(mem, buf, nbyte, evs);
    assert Interrupted in evs <==> Interrupted in multiset(evs);
  }

  datatype ReadRun = Filled(mem: Memory, ptr: int, rest: Bytes) | NotFilled

  /** The read loop over a schedule of `recv` results, with the same step back after an interrupted call. */
  function RunRead(mem: Memory, ptr: int, nbyte: nat, inbox: Bytes, evs: seq<IoEvent>): ReadRun
    decreases evs
  {
    if nbyte == 0 || evs == [] then if nbyte == 0 && evs == [] then Filled(mem, ptr, inbox) else NotFilled
    else match evs[0]
      case Interrupted => RunRead(mem, ptr - 1, nbyte + 1, inbox, evs[1..])
      case Moved(n) =>
        if n == 0 || n > nbyte || n > |inbox| then NotFilled
        else RunRead(Stored(mem, ptr, inbox[..n]), ptr + n, nbyte - n, inbox[n..], evs[1..])
  }

  /** So does the read loop, if the peer sends as much as the calls move. */
  lemma {:induction false} FilledIff(mem: Memory, ptr: int, nbyte: nat, inbox: Bytes, evs: seq<IoEvent>)
    ensures RunRead(mem, ptr, nbyte, inbox, evs).Filled? <==> Exhausts(nbyte, evs) && MovedIn(evs) <= |inbox|
    decreases evs
  {
    if evs == [] {
      ExhaustsNothing(nbyte);
    } else {
      ExhaustsStep(nbyte, evs);
      if nbyte > 0 {
        match evs[0]
        case Interrupted => FilledIff(mem, ptr - 1, nbyte + 1, inbox, evs[1..]);
        case Moved(n) =>
          if 0 < n <= nbyte && n <= |inbox| {
            FilledIff(Stored(mem, ptr, inbox[..n]), ptr + n, nbyte - n, inbox[n..], evs[1..]);
          }
      }
    }
  }

  lemma {:induction false} ReadRunLength(mem: Memory, ptr: int, nbyte: nat, inbox: Bytes, evs: seq<IoEvent>)
    requires RunRead(mem, ptr, nbyte, inbox, evs).Filled?
    ensures var r := RunRead(mem, ptr, nbyte, inbox, evs);
            && r.ptr == ptr + nbyte && |r.rest| == |inbox| - nbyte - Interruptions(evs)
            && (Interruptions(evs) == 0 ==>
                  && r.rest == inbox[nbyte..]
                  && forall x :: r.mem(x) == if ptr <= x < ptr + nbyte then inbox[x - ptr] else mem(x))
    decreases evs
  {
    if nbyte != 0 {
      assert evs == [evs[0]] + evs[1..];
      match evs[0]
      case Interrupted => ReadRunLength(mem, ptr - 1, nbyte + 1, inbox, evs[1..]);
      case Moved(n) =>
        ReadRunLength(Stored(mem, ptr, inbox[..n]), ptr + n, nbyte - n, inbox[n..], evs[1..]);
        if Interruptions(evs[1..]) == 0 {
          assert inbox[n..][nbyte - n..] == inbox[nbyte..];
        }
    }
  }

  /** Every read loop that ends reports its buffer filled; it has split the incoming bytes into buffer and rest if and
      only if no call was interrupted, the first one included; otherwise it has taken too many. */
  lemma ReadIffUninterrupted(mem: Memory, buf: int, nbyte: nat, inbox: Bytes, evs: seq<IoEvent>)
    requires RunRead(mem, buf, nbyte, inbox, evs).Filled?
    ensures RunRead(mem, buf, nbyte, inbox, evs).ptr - buf == nbyte
    ensures var r := RunRead(mem, buf, nbyte, inbox, evs);
            Stretch(r.mem, buf, nbyte) + r.rest == inbox <==> Interrupted !in evs
  {
    ReadRunLength(mem, buf, nbyte, inbox, evs);
    assert Interrupted in evs <==> Interrupted in multiset(evs);
    var r := RunRead(mem, buf, nbyte, inbox, evs);
    if Interrupted !in evs {
      assert Stretch(r.mem, buf, nbyte) == inbox[..nbyte];
    }
  }
}

/** Sending and receiving tokens over sockets that move any number of bytes per call. */
module TokenStream {
  import opened Common
  import opened TokenCodec

  /** One end of a connection: what the peer has sent and not yet been read, and what was sent to the peer.
      A call that moves nothing although it could is a fault (error or time-out). */
  class Socket {
    var inbox: Bytes
    var outbox: Bytes
    ghost var faulty: bool

    constructor (inbox: Bytes)
      ensures this.inbox == inbox && outbox == [] && !faulty
    {
      this.inbox, outbox, faulty := inbox, [], false;
    }

    method Send(data: Bytes) returns (ret: int)
      requires data != []
      modifies this
      ensures inbox == old(inbox)
      ensures -1 <= ret <= |data|
      ensures outbox == if ret > 0 then old(outbox) + data[..ret] else old(outbox)
      ensures faulty == (old(faulty) || ret <= 0)
    {
      ret :| -1 <= ret <= |data|;
      if ret > 0 {
        outbox := outbox + data[..ret];
      } else {
        faulty := true;
      }
    }

    method Recv(buf: array<Byte>, pos: nat, n: nat) returns (ret: int)
      requires 0 < n && pos + n <= buf.Length
      modifies this, buf
      ensures outbox == old(outbox)
      ensures -1 <= ret <= n && ret <= |old(inbox)|
      ensures ret <= 0 ==> inbox == old(inbox)
      ensures ret > 0 ==> inbox == old(inbox)[ret..] && buf[pos..pos + ret] == old(inbox)[..ret]
      ensures buf[..pos] == old(buf[..pos])
      ensures faulty == (old(faulty) || (ret <= 0 && old(inbox) != []))
    {
      ret :| -1 <= ret <= n && ret <= |inbox|;
      if ret > 0 {
        forall i | 0 <= i < ret {
          buf[pos + i] := inbox[i];
        }
        inbox := inbox[ret..];
      } else {
        faulty := faulty || inbox != [];
      }
    }
  }

  /** The value of a byte count in a 32-bit signed return. */
  function ToInt32(x: int): (r: int)
    ensures -K31 <= r < K31 && (x - r) % K32 == 0
  {
    var w := x % K32;
    if w < K31 then w else w - K32
  }

  method WriteAll(s: Socket, buf: Bytes) returns (ret: int, ghost moved: nat)
    requires |buf| < K32
    modifies s
    ensures s.inbox == old(s.inbox)
    ensures moved <= |buf| && s.outbox == old(s.outbox) + buf[..moved]
    ensures ret == ToInt32(moved) || (ret == -1 && moved < |buf|)
    ensures s.faulty == (old(s.faulty) || moved < |buf|)
  {
    var ptr, nbyte := 0, |buf|;
    while nbyte != 0
      invariant 0 <= ptr && 0 <= nbyte && ptr + nbyte == |buf| && s.inbox == old(s.inbox)
      invariant s.outbox == old(s.outbox) + buf[..ptr]
      invariant s.faulty == old(s.faulty)
    {
      var n := s.Send(buf[ptr..]);
      if n < 0 { return n, ptr; }
      if n == 0 { return ToInt32(ptr), ptr; }
      assert buf[..ptr] + buf[ptr..][..n] == buf[..ptr + n];
      ptr, nbyte := ptr + n, nbyte - n;
    }
    return ToInt32(ptr), ptr;
  }

  lemma TakenOn(inbox: Bytes, done: nat, n: nat)
    requires done + n <= |inbox|
    ensures inbox[..done] + inbox[done..][..n] == inbox[..done + n] && inbox[done..][n..] == inbox[done + n..]
  {
  }

  method ReadAll(s: Socket, buf: array<Byte>, start: nat) returns (ret: int, ghost moved: nat)
    requires start <= buf.Length < K31
    modifies s, buf
    ensures s.outbox == old(s.outbox)
    ensures start + moved <= buf.Length && moved <= |old(s.inbox)| && s.inbox == old(s.inbox)[moved..]
    ensures buf[..start] == old(buf[..start]) && buf[start..start + moved] == old(s.inbox)[..moved]
    ensures ret == moved || (ret == -1 && start + moved < buf.Length)
    ensures s.faulty == (old(s.faulty) || (start + moved < buf.Length && s.inbox != []))
  {
    var ptr, nbyte := start, buf.Length - start;
    while nbyte != 0
      invariant start <= ptr && 0 <= nbyte && ptr + nbyte == buf.Length && s.outbox == old(s.outbox)
      invariant ptr - start <= |old(s.inbox)| && s.inbox == old(s.inbox)[ptr - start..]
      invariant buf[..start] == old(buf[..start]) && buf[start..ptr] == old(s.inbox)[..ptr - start]
      invariant s.faulty == old(s.faulty)
    {
      var n := RecvNext(s, buf, start, ptr, nbyte, old(s.inbox));
      if n < 0 { return n, ptr - start; }
      if n == 0 { return ptr - start, ptr - start; }
      ptr, nbyte := ptr + n, nbyte - n;
    }
    return ptr - start, ptr - start;
  }

  /** One read call: what it moves continues what the buffer holds of the incoming bytes. */
  method RecvNext(s: Socket, buf: array<Byte>, start: nat, ptr: nat, nbyte: nat, ghost incoming: Bytes) returns (n: int)
    requires 0 < nbyte && start <= ptr && ptr + nbyte == buf.Length
    requires ptr - start <= |incoming| && s.inbox == incoming[ptr - start..] && buf[start..ptr] == incoming[..ptr - start]
    modifies s, buf
    ensures s.outbox == old(s.outbox) && buf[..start] == old(buf[..start]) && -1 <= n <= nbyte
    ensures var done := ptr - start + if n > 0 then n else 0;
            && done <= |incoming| && s.inbox == incoming[done..] && buf[start..start + done] == incoming[..done]
    ensures s.faulty == (old(s.faulty) || (n <= 0 && incoming[ptr - start..] != []))
  {
    ghost var inbox, done, before := s.inbox, ptr - start, buf[..ptr];
    assert before[start..] == incoming[..done] && before[..start] == buf[..start];
    n := s.Recv(buf, ptr, nbyte);
    assert buf[..start] == before[..start] && buf[start..ptr] == before[start..];
    if n > 0 {
      TakenOn(incoming, done, n);
      assert buf[start..ptr + n] == buf[start..ptr] + buf[ptr..ptr + n];
    }
  }

  datatype SendResult = Sent | SendFailed | Aborted

  /** Whatever pieces the socket takes, a send that succeeds has put exactly the encoding on the wire. */
  method SendToken(s: Socket, flags: int, value: Bytes) returns (r: SendResult)
    modifies s
    ensures s.inbox == old(s.inbox) && old(s.outbox) <= s.outbox
    ensures r.Sent? ==> |value| < K31 && s.outbox == old(s.outbox) + Encode(CharFlags(flags), value)
    ensures !s.faulty ==> (r.Sent? <==> |value| < K31) && (r.Aborted? <==> |value| >= K32)
  {
    var charFlags := CharFlags(flags);
    var ret;
    ghost var moved;
    if charFlags != 0 {
      ret, moved := WriteAll(s, [charFlags]);
      if ret != 1 { return SendFailed; }
    }
    if |value| > 0xffff_ffff { return Aborted; }
    ghost var prefix := s.outbox;
    var sent := SendBody(s, value);
    assert prefix + (LengthBytes(|value|) + value) == prefix + LengthBytes(|value|) + value;
    return if sent then Sent else SendFailed;
  }

  /** The length and the data. */
  method SendBody(s: Socket, value: Bytes) returns (sent: bool)
    requires |value| < K32
    modifies s
    ensures s.inbox == old(s.inbox) && old(s.outbox) <= s.outbox
    ensures sent ==> |value| < K31 && s.outbox == old(s.outbox) + (LengthBytes(|value|) + value)
    ensures !s.faulty ==> !old(s.faulty) && (sent <==> |value| < K31)
  {
    var ret;
    ghost var moved;
    var lenbuf := LengthBytes(|value|);
    ret, moved := WriteAll(s, lenbuf);
    if ret != 4 { return false; }
    assert lenbuf[..4] == lenbuf && value[..|value|] == value;
    ret, moved := WriteAll(s, value);
    return ret >= 0 && ret == |value|;
  }

  /** The flag byte, if there is one, and the length. */
  method RecvHeader(s: Socket) returns (ok: bool, flags: Byte, len: nat)
    modifies s
    ensures s.outbox == old(s.outbox)
    ensures ok ==>
              var inbox, header := old(s.inbox), HeaderLength(old(s.inbox));
              && header <= |inbox| && flags == inbox[0] && len == LengthOf(inbox[header - 4..header])
              && s.inbox == inbox[header..]
    ensures !s.faulty ==> !old(s.faulty) && (ok <==> HeaderLength(old(s.inbox)) <= |old(s.inbox)|)
  {
    ghost var inbox := s.inbox;
    ok, flags, len := false, 0, 0;
    var charFlags := new Byte[1];
    var lenbuf := new Byte[4];
    var ret;
    ghost var moved;
    ret, moved := ReadAll(s, charFlags, 0);
    if ret <= 0 { return; }
    flags := charFlags[0];
    assert flags == charFlags[0..1][0] == inbox[0] && s.inbox == inbox[1..];
    if flags == 0 {
      lenbuf[0] := 0;
      ret, moved := ReadAll(s, lenbuf, 1);
      if ret != 3 { return; }
      assert lenbuf[..] == lenbuf[..1] + lenbuf[1..4] == inbox[0..4];
    } else {
      ret, moved := ReadAll(s, lenbuf, 0);
      if ret != 4 { return; }
      assert lenbuf[..] == lenbuf[0..4] == inbox[1..5];
    }
    assert s.inbox == inbox[HeaderLength(inbox)..];
    ok, len := true, LengthOf(lenbuf[..]);
  }

  /** Whatever pieces the socket delivers, a receive that succeeds has consumed exactly one encoded token;
      without faults it succeeds exactly when the bytes at hand decode. */
  method RecvToken(s: Socket) returns (ok: bool, flags: Byte, value: Bytes)
    modifies s
    ensures s.outbox == old(s.outbox)
    ensures ok ==> Decode(old(s.inbox)) == Decoded(Token(flags, value), s.inbox)
    ensures !s.faulty ==> (ok <==> Decode(old(s.inbox)).Decoded?)
  {
    ghost var inbox := s.inbox;
    var len;
    value := [];
    ok, flags, len := RecvHeader(s);
    if !ok { return; }
    ok := false;
    if len >= K31 { return; }
    var data := new Byte[len];
    ghost var after := s.inbox;
    var ret;
    ghost var moved;
    ret, moved := ReadAll(s, data, 0);
    if ret != len { return; }
    value := data[..];
    ok := true;
    assert value == data[0..len] == after[..len];
    DecodeParts(inbox, len);
  }

  lemma DecodeParts(s: Bytes, len: nat)
    requires var header := HeaderLength(s);
             header <= |s| && len == LengthOf(s[header - 4..header]) < K31 && header + len <= |s|
    ensures var after := s[HeaderLength(s)..]; Decode(s) == Decoded(Token(s[0], after[..len]), after[len..])
  {
    var header := HeaderLength(s);
    assert s[header..][..len] == s[header..header + len];
    assert s[header..][len..] == s[header + len..];
  }

  /** The wire after the first `i` tokens. */
  ghost predicate SentUpTo(s: Socket, toks: seq<Token>, i: nat)
    requires i <= |toks|
    reads s
  {
    AllTransportable(toks[..i]) && s.outbox == EncodeAll(toks[..i])
  }

  method SendNext(s: Socket, toks: seq<Token>, i: nat) returns (ok: bool)
    requires AllTransportable(toks) && i < |toks| && SentUpTo(s, toks, i)
    modifies s
    ensures ok ==> SentUpTo(s, toks, i + 1)
    ensures !s.faulty ==> ok
  {
    EncodePrefix(toks, i);
    var flags, value := toks[i].flags, toks[i].value;
    var r := SendToken(s, flags, value);
    ok := r.Sent?;
    assert CharFlags(flags) == flags;
    assert ok ==> s.outbox == EncodeAll(toks[..i]) + Encode(flags, value);
  }

  method SendAll(s: Socket, toks: seq<Token>) returns (ok: bool)
    requires AllTransportable(toks) && s.outbox == []
    modifies s
    ensures ok ==> s.outbox == EncodeAll(toks)
    ensures !s.faulty ==> ok
  {
    for i := 0 to |toks|
      invariant SentUpTo(s, toks, i)
    {
      ok := SendNext(s, toks, i);
      if !ok { return; }
    }
    assert toks[..|toks|] == toks;
    ok := true;
  }

  method RecvAll(s: Socket, n: nat, ghost toks: seq<Token>) returns (ok: bool, got: seq<Token>)
    requires n == |toks| && AllTransportable(toks) && s.inbox == EncodeAll(toks)
    modifies s
    ensures ok ==> got == toks && s.inbox == []
    ensures !s.faulty ==> ok
  {
    got := [];
    assert toks[0..] == toks;
    for i := 0 to n
      invariant got == toks[..i]
      invariant AllTransportable(toks[i..]) && s.inbox == EncodeAll(toks[i..])
    {
      var t := toks[i];
      assert toks[i..][0] == t && toks[i..][1..] == toks[i + 1..];
      RoundTrip(t.flags, t.value, EncodeAll(toks[i + 1..]));
      var flags, value;
      ok, flags, value := RecvToken(s);
      if !ok { return; }
      got := got + [Token(flags, value)];
    }
    ok := true;
  }

  /** Two programs on one connection: for every way the two sockets split the bytes, a fault-free transfer of
      transportable tokens delivers the same tokens in the same order. */
  method Transfer(toks: seq<Token>) returns (ok: bool, got: seq<Token>, ghost faulty: bool)
    requires AllTransportable(toks)
    ensures ok ==> got == toks
    ensures !faulty ==> ok
  {
    var sender := new Socket([]);
    ok := SendAll(sender, toks);
    faulty, got := sender.faulty, [];
    if !ok { return; }
    var receiver := new Socket(sender.outbox);
    ok, got := RecvAll(receiver, |toks|, toks);
    faulty := faulty || receiver.faulty;
  }

  /** One token more. */
  lemma EncodePrefix(toks: seq<Token>, i: nat)
    requires AllTransportable(toks) && i < |toks|
    ensures AllTransportable(toks[..i]) && AllTransportable(toks[..i + 1]) && Transportable(toks[i].flags, toks[i].value)
    ensures EncodeAll(toks[..i + 1]) == EncodeAll(toks[..i]) + Encode(toks[i].flags, toks[i].value)
  {
    EncodeAllAppend(toks[..i], toks[i]);
    assert toks[..i] + [toks[i]] == toks[..i + 1];
  }

  lemma {:induction false} EncodeAllAppend(toks: seq<Token>, t: Token)
    requires AllTransportable(toks) && Transportable(t.flags, t.value)
    ensures AllTransportable(toks + [t])
    ensures EncodeAll(toks + [t]) == EncodeAll(toks) + Encode(t.flags, t.value)
  {
    var all := toks + [t];
    assert forall i | 0 <= i < |all| :: Transportable(all[i].flags, all[i].value);
    if toks == [] {
      assert all[1..] == [];
    } else {
      var first := Encode(toks[0].flags, toks[0].value);
      assert all[1..] == toks[1..] + [t];
      EncodeAllAppend(toks[1..], t);
      assert first + (EncodeAll(toks[1..]) + Encode(t.flags, t.value)) == EncodeAll(toks) + Encode(t.flags, t.value);
    }
  }
}
