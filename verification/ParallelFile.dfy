/** All processes of a job writing disjoint regions of one shared file, between two barriers and an optional removal. */
module ParallelFile {
  import opened Arith
  import opened Common
  import opened Extents

  /** Number of processes, operations per process, bytes per operation, whether the file is removed at the end, and
      what the file system allows: to create a file under the name, and to remove the file so created. */
  datatype Setup = Setup(np: nat, n: nat, b: nat, removeFile: bool, mayCreate: bool, mayRemove: bool)

  /** What the file name refers to: nothing, a file left over from before, the file of this run. */
  datatype Name = Absent | Leftover(writable: bool, removable: bool, bytes: Bytes) | Shared(removable: bool)

  datatype PC =
    | Start
    | Barrier1
    | Creating
    | Barrier2
    | Opening
    | Writing(i: nat, pos: nat)
    | Closed
    | Done

  /** A write of the file; `rank` and `op` record where it comes from. */
  datatype Write = Write(rank: nat, op: nat, extent: Extent)

  /** `base` is what the shared file held when process 0 opened it, `log` what has been written to it since. */
  datatype Job = Job(pcs: seq<PC>, name: Name, base: Bytes, log: seq<Write>, aborted: bool)

  // ---------- the buffers ----------

  /** The fill pattern, reduced to a byte. */
  function Pattern(rank: nat, b: nat, j: nat): Byte {
    (rank * b + j) % 256
  }

  function Buffer(rank: nat, b: nat): (buf: Bytes)
    ensures |buf| == b
  {
    seq(b, j requires 0 <= j => Pattern(rank, b, j))
  }

  /** The buffers of all ranks, one after the other, count up through all byte values from 0: within a buffer. */
  lemma BufferCounts(rank: nat, b: nat, j: nat)
    requires j + 1 < b
    ensures Buffer(rank, b)[j + 1] == (Buffer(rank, b)[j] as int + 1) % 256
  {
    BufferByte(rank, b, rank * b, j);
    BufferByte(rank, b, rank * b, j + 1);
  }

  /** From one buffer to the next. */
  lemma BuffersContinue(rank: nat, b: nat)
    requires b > 0
    ensures Buffer(0, b)[0] == 0
    ensures Buffer(rank + 1, b)[0] == (Buffer(rank, b)[b - 1] as int + 1) % 256
  {
    var start := rank * b;
    MulSucc(rank, b);
    BufferByte(rank, b, start, b - 1);
    BufferByte(rank + 1, b, start + b, 0);
    assert 0 * b == 0;
  }

  lemma BufferByte(rank: nat, b: nat, start: nat, j: nat)
    requires j < b && start == rank * b
    ensures Buffer(rank, b)[j] == (start + j) % 256
    ensures (start + j + 1) % 256 == ((start + j) % 256 + 1) % 256
  {
  }

  method FillBuffer(rank: nat, bufsize: nat) returns (buf: array<Byte>)
    ensures fresh(buf) && buf[..] == Buffer(rank, bufsize)
  {
    buf := new Byte[bufsize](_ => 0);
    for i := 0 to bufsize
      invariant buf[..i] == Buffer(rank, bufsize)[..i]
    {
      var v: nat := rank * bufsize + i;
      buf[i] := v % 256;
      assert buf[..i + 1] == buf[..i] + [buf[i]];
    }
    assert buf[..] == buf[..bufsize];
  }

  // ---------- the programs ----------

  function Level(pc: PC): nat {
    match pc
    case Start => 0
    case Barrier1 => 1
    case Creating => 2
    case Barrier2 => 3
    case Opening => 4
    case Writing(_, _) => 5
    case Closed => 6
    case Done => 7
  }

  predicate AllReached(pcs: seq<PC>, level: nat) {
    forall r | 0 <= r < |pcs| :: Level(pcs[r]) >= level
  }

  function Seeked(c: Setup, r: nat): PC {
    Writing(0, c.n * c.b * r)
  }

  /** The removal before the first barrier: tried on a writable file only, its failure ignored. */
  function Cleared(name: Name): Name {
    if name.Leftover? && name.writable && name.removable then Absent else name
  }

  /** The open with creation: an existing file keeps its contents. */
  function Create(c: Setup, name: Name): Option<(Name, Bytes)> {
    match name
    case Absent => if c.mayCreate then Some((Shared(c.mayRemove), [])) else None
    case Leftover(writable, removable, bytes) => if writable then Some((Shared(removable), bytes)) else None
    case Shared(_) => Some((name, []))
  }

  /** The removal at the end: its failure is ignored, too. */
  function Removed(c: Setup, name: Name): Name {
    if c.removeFile && name.Shared? && name.removable then Absent else name
  }

  /** One step of process `r`.  A barrier is left once every process has entered it; a failed open aborts the job. */
  function Step(c: Setup, s: Job, r: nat): Option<Job>
    requires r < |s.pcs|
  {
    if s.aborted then None
    else match s.pcs[r]
      case Start =>
        Some(s.(pcs := s.pcs[r := Barrier1], name := if r == 0 then Cleared(s.name) else s.name))
      case Barrier1 =>
        if !AllReached(s.pcs, 1) then None
        else Some(s.(pcs := s.pcs[r := if r == 0 then Creating else Barrier2]))
      case Creating =>
        (match Create(c, s.name)
         case None => Some(s.(aborted := true))
         case Some(file) => Some(s.(pcs := s.pcs[r := Barrier2], name := file.0, base := file.1)))
      case Barrier2 =>
        if !AllReached(s.pcs, 3) then None
        else Some(s.(pcs := s.pcs[r := if r == 0 then Seeked(c, r) else Opening]))
      case Opening =>
        if !s.name.Shared? then Some(s.(aborted := true))
        else Some(s.(pcs := s.pcs[r := Seeked(c, r)]))
      case Writing(i, pos) =>
        if i < c.n then
          Some(s.(pcs := s.pcs[r := Writing(i + 1, pos + c.b)],
                  log := s.log + [Write(r, i, Extent(pos, Buffer(r, c.b)))]))
        else Some(s.(pcs := s.pcs[r := Closed]))
      case Closed =>
        Some(s.(pcs := s.pcs[r := Done], name := Removed(c, s.name)))
      case Done => None
  }

  function Initial(c: Setup, name: Name): Job {
    Job(seq(c.np, _ => Start), name, [], [], false)
  }

  /** The state after the processes have moved in this order; a blocked or missing process changes nothing. */
  function Run(c: Setup, name: Name, order: seq<nat>): Job {
    if order == [] then Initial(c, name)
    else
      var s, r := Run(c, name, order[..|order| - 1]), order[|order| - 1];
      if r >= |s.pcs| || Step(c, s, r).None? then s else Step(c, s, r).value
  }

  // ---------- bytes of the file ----------

  /** A file of just these bytes. */
  function File(bytes: Bytes): Contents {
    (k: nat) => if k < |bytes| then Some(bytes[k]) else None
  }

  function ExtentsOf(log: seq<Write>): (es: seq<Extent>)
    ensures |es| == |log| && forall i | 0 <= i < |log| :: es[i] == log[i].extent
  {
    seq(|log|, i requires 0 <= i < |log| => log[i].extent)
  }

  /** Byte `k` of the shared file: the last write that covers it, else what was there before. */
  function FileByte(s: Job, k: nat): Option<Byte> {
    ByteAt(File(s.base), ExtentsOf(s.log), k)
  }

  /** The number of a write among all writes of the job, in rank order. */
  function Number(c: Setup, w: Write): nat {
    w.rank * c.n + w.op
  }

  /** A write of this job: within its process's share, at its number's place. */
  ghost predicate WriteOK(c: Setup, w: Write) {
    w.rank < c.np && w.op < c.n && w.extent == Extent(Number(c, w) * c.b, Buffer(w.rank, c.b))
  }

  lemma CoversIffNumber(c: Setup, w: Write, k: nat)
    requires WriteOK(c, w)
    ensures Covers(w.extent, k) <==> c.b > 0 && Number(c, w) == k / c.b
    ensures Covers(w.extent, k) ==> w.extent.data[k - w.extent.offset] == OwnByte(c.n, c.b, k)
  {
    var e := Number(c, w);
    DivModUnique(e, c.n, w.rank, w.op);
    if c.b > 0 {
      assert k == k / c.b * c.b + k % c.b;
      if e * c.b <= k < e * c.b + c.b {
        DivModUnique(k, c.b, e, k - e * c.b);
      }
    }
  }

  ghost predicate Numbered(c: Setup, log: seq<Write>, e: nat) {
    exists j :: 0 <= j < |log| && Number(c, log[j]) == e
  }

  ghost predicate LogOK(c: Setup, log: seq<Write>) {
    forall j | 0 <= j < |log| :: WriteOK(c, log[j])
  }

  lemma NumberedSnoc(c: Setup, front: seq<Write>, w: Write, e: nat)
    ensures Numbered(c, front + [w], e) <==> Numbered(c, front, e) || Number(c, w) == e
  {
    var log := front + [w];
    if Numbered(c, front, e) {
      var j :| 0 <= j < |front| && Number(c, front[j]) == e;
      assert Number(c, log[j]) == e;
    }
    if Number(c, w) == e {
      assert Number(c, log[|front|]) == e;
    }
  }

  /** What the write numbers alone say about a byte. */
  ghost function NumberedByte(c: Setup, before: Contents, log: seq<Write>, k: nat): Option<Byte> {
    if c.b > 0 && Numbered(c, log, k / c.b) then Some(OwnByte(c.n, c.b, k)) else before(k)
  }

  lemma NumberedByteSnoc(c: Setup, before: Contents, front: seq<Write>, w: Write, k: nat)
    requires WriteOK(c, w)
    ensures NumberedByte(c, before, front + [w], k) ==
            if Covers(w.extent, k) then Some(w.extent.data[k - w.extent.offset]) else NumberedByte(c, before, front, k)
  {
    CoversIffNumber(c, w, k);
    if c.b > 0 { NumberedSnoc(c, front, w, k / c.b); }
  }

  /** Whatever the order of the writes, a byte is there when the write it belongs to is, and has that write's value. */
  lemma {:induction false} ByteOfLog(c: Setup, before: Contents, log: seq<Write>, k: nat)
    requires LogOK(c, log)
    ensures ByteAt(before, ExtentsOf(log), k) == NumberedByte(c, before, log, k)
  {
    if log != [] {
      var front, w := log[..|log| - 1], log[|log| - 1];
      ByteOfLog(c, before, front, k);
      assert log == front + [w] && ExtentsOf(log) == ExtentsOf(front) + [w.extent];
      ByteAfter(before, ExtentsOf(front), w.extent, k);
      NumberedByteSnoc(c, before, front, w, k);
    }
  }

  // ---------- the expected file ----------

  function Repeated(buf: Bytes, n: nat): Bytes {
    if n == 0 then [] else Repeated(buf, n - 1) + buf
  }

  /** The rank-ordered concatenation of `n` copies of each process's buffer. */
  function Expected(np: nat, n: nat, b: nat): Bytes {
    if np == 0 then [] else Expected(np - 1, n, b) + Repeated(Buffer(np - 1, b), n)
  }

  lemma {:induction false} RepeatedAt(buf: Bytes, n: nat, k: nat)
    ensures |Repeated(buf, n)| == n * |buf|
    ensures k < n * |buf| ==> |buf| > 0 && Repeated(buf, n)[k] == buf[k % |buf|]
  {
    if n == 0 {
      assert 0 * |buf| == 0;
    } else {
      RepeatedAt(buf, n - 1, k);
      MulSucc(n - 1, |buf|);
      if (n - 1) * |buf| <= k < n * |buf| {
        DivModUnique(k, |buf|, n - 1, k - (n - 1) * |buf|);
      }
    }
  }

  lemma {:induction false} ExpectedLength(np: nat, n: nat, b: nat, region: nat)
    requires region == n * b
    ensures |Expected(np, n, b)| == np * region
  {
    if np == 0 {
      assert 0 * region == 0;
    } else {
      ExpectedLength(np - 1, n, b, region);
      RepeatedAt(Buffer(np - 1, b), n, 0);
      MulSucc(np - 1, region);
    }
  }

  /** A byte of the file is a byte of one process's region. */
  lemma {:induction false} ExpectedInRegion(np: nat, n: nat, b: nat, region: nat, k: nat) returns (r: nat, j: nat)
    requires region == n * b && k < |Expected(np, n, b)|
    ensures r < np && j < region == |Repeated(Buffer(r, b), n)| && k == r * region + j
    ensures Expected(np, n, b)[k] == Repeated(Buffer(r, b), n)[j]
  {
    var front := Expected(np - 1, n, b);
    ExpectedLength(np - 1, n, b, region);
    RepeatedAt(Buffer(np - 1, b), n, 0);
    if k < |front| {
      r, j := ExpectedInRegion(np - 1, n, b, region, k);
    } else {
      r, j := np - 1, k - |front|;
    }
  }

  lemma ExpectedAt(np: nat, n: nat, b: nat, k: nat)
    requires k < np * (n * b)
    ensures |Expected(np, n, b)| == np * (n * b) && b > 0
    ensures Expected(np, n, b)[k] == OwnByte(n, b, k)
  {
    var region := n * b;
    ExpectedLength(np, n, b, region);
    var r, j := ExpectedInRegion(np, n, b, region, k);
    RepeatedAt(Buffer(r, b), n, j);
    RegionByte(r, n, b, region, j, k);
  }

  /** The byte that belongs at `k`: from the buffer of the process whose operation covers it. */
  function OwnByte(n: nat, b: nat, k: nat): Byte {
    if n == 0 || b == 0 then 0 else Buffer(k / b / n, b)[k % b]
  }

  /** With one operation each, byte `k` of the file is `k` itself, reduced to a byte. */
  lemma OneOpFile(np: nat, b: nat, k: nat)
    requires k < np * b
    ensures |Expected(np, 1, b)| == np * b && Expected(np, 1, b)[k] == k % 256
  {
    ExpectedAt(np, 1, b, k);
    OneOpByte(b, k);
  }

  lemma OneOpByte(b: nat, k: nat)
    requires b > 0
    ensures OwnByte(1, b, k) == k % 256
  {
    var q, m := k / b, k % b;
    assert k == q * b + m && q / 1 == q;
  }

  /** Byte `j` of process `r`'s region belongs to one of its operations. */
  lemma RegionByte(r: nat, n: nat, b: nat, region: nat, j: nat, k: nat)
    requires region == n * b && j < region && k == r * region + j
    ensures b > 0 && n > 0
    ensures OwnByte(n, b, k) == Buffer(r, b)[j % b]
  {
    ProductPositive(n, b);
    var q, m := j / b, j % b;
    assert j == q * b + m;
    QuotientBelow(j, n, b);
    MulAssociates(r, n, b);
    MulDistributes(r * n, q, b);
    DivModUnique(k, b, r * n + q, m);
    DivModUnique(r * n + q, n, r, q);
  }
}
