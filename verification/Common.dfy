/** Types the models share. */
module Common {

  datatype Option<T> = None | Some(value: T)

  type Byte = x: int | 0 <= x < 256
  type Bytes = seq<Byte>

  const NUL := '\0'

  predicate NoNul(s: string) {
    forall k | 0 <= k < |s| :: s[k] != NUL
  }
}

/** Writes at places of a file or an object, and what they leave behind. */
module Extents {
  import opened Common

  datatype Extent = Extent(offset: nat, data: Bytes)

  /** What is there before: a byte, or nothing. */
  type Contents = nat -> Option<Byte>

  predicate Covers(e: Extent, k: nat) {
    e.offset <= k < e.offset + |e.data|
  }

  /** Byte `k` after these writes, made in this order. */
  function ByteAt(before: Contents, log: seq<Extent>, k: nat): Option<Byte> {
    if log == [] then before(k)
    else
      var e := log[|log| - 1];
      if Covers(e, k) then Some(e.data[k - e.offset]) else ByteAt(before, log[..|log| - 1], k)
  }

  lemma ByteAfter(before: Contents, log: seq<Extent>, e: Extent, k: nat)
    ensures ByteAt(before, log + [e], k) == if Covers(e, k) then Some(e.data[k - e.offset]) else ByteAt(before, log, k)
  {
    assert (log + [e])[..|log|] == log;
  }
}
