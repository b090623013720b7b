/** Path strings, their components, and looking them up one after the other. */
module PathNames {
  import opened Common

  type ID = nat

  const ROOT: ID := 0
  const LWFS_NAME_LEN := 64

  /** What the naming service answers: the entry of a name in a directory, if any. */
  type Namespace = map<(ID, string), ID>

  function Lookup(ns: Namespace, dir: ID, name: string): Option<ID> {
    if (dir, name) in ns then Some(ns[(dir, name)]) else None
  }

  /** Looking up `names` one inside the other, starting at the root. */
  function Walk(ns: Namespace, names: seq<string>): Option<ID> {
    if names == [] then Some(ROOT)
    else match Walk(ns, names[..|names| - 1])
      case None => None
      case Some(dir) => Lookup(ns, dir, names[|names| - 1])
  }

  lemma WalkSnoc(ns: Namespace, names: seq<string>, name: string)
    ensures Walk(ns, names + [name]) ==
            match Walk(ns, names) case None => None case Some(dir) => Lookup(ns, dir, name)
  {
    assert (names + [name])[..|names|] == names;
  }

  lemma {:induction false} WalkFailsEarly(ns: Namespace, names: seq<string>, k: nat)
    requires k <= |names| && Walk(ns, names[..k]).None?
    ensures Walk(ns, names).None?
    decreases |names| - k
  {
    if k < |names| {
      assert names[..k + 1] == names[..k] + [names[k]];
      WalkSnoc(ns, names[..k], names[k]);
      WalkFailsEarly(ns, names, k + 1);
    } else {
      assert names[..k] == names;
    }
  }

  predicate Absolute(path: string) {
    path != "" && path[0] == '/' && NoNul(path)
  }

  predicate NoSlash(s: string, lo: nat, hi: nat)
    requires hi <= |s|
  {
    forall k | lo <= k < hi :: s[k] != '/'
  }

  ghost predicate IsFirstSlash(s: string, e: nat) {
    e <= |s| && NoSlash(s, 0, e) && (e < |s| ==> s[e] == '/')
  }

  lemma {:induction false} FirstSlashExists(s: string) returns (e: nat)
    ensures IsFirstSlash(s, e)
  {
    e := 0;
    while e < |s| && s[e] != '/'
      invariant e <= |s| && NoSlash(s, 0, e)
    {
      e := e + 1;
    }
  }

  /** The index of the first '/' or the length. */
  ghost function FirstSlash(s: string): (e: nat)
    ensures IsFirstSlash(s, e)
  {
    assert exists e :: IsFirstSlash(s, e) by {
      var e := FirstSlashExists(s);
    }
    var e :| IsFirstSlash(s, e);
    e
  }

  /** The stretches between slashes, empty ones included. */
  ghost function Pieces(s: string): (ps: seq<string>)
    ensures |ps| >= 1
    decreases |s|
  {
    var e := FirstSlash(s);
    if e == |s| then [s] else [s[..e]] + Pieces(s[e + 1..])
  }

  lemma FirstSlashUnique(s: string, e: nat)
    requires IsFirstSlash(s, e)
    ensures FirstSlash(s) == e
  {
    var f := FirstSlash(s);
  }

  /** The index of the last '/', as `rindex` finds it. */
  function LastSlash(s: string): (i: nat)
    requires s != "" && s[0] == '/'
    ensures i < |s| && s[i] == '/' && NoSlash(s, i + 1, |s|)
  {
    var last := |s| - 1;
    if s[last] == '/' then last
    else
      var i := LastSlash(s[..last]);
      assert forall k | i + 1 <= k < last :: s[k] == s[..last][k];
      i
  }

  function Suffix(path: string): string
    requires path != "" && path[0] == '/'
  {
    path[LastSlash(path) + 1..]
  }

  function Prefix(path: string): string
    requires path != "" && path[0] == '/'
  {
    if LastSlash(path) == 0 then "/" else path[..LastSlash(path)]
  }

  lemma LastSlashUnique(s: string, i: nat)
    requires s != "" && s[0] == '/' && i < |s| && s[i] == '/' && NoSlash(s, i + 1, |s|)
    ensures LastSlash(s) == i
  {
    var j := LastSlash(s);
  }

  /** Cutting before any later '/' keeps the first piece. */
  lemma PiecesOfPrefix(s: string, i: nat)
    requires FirstSlash(s) < i <= |s|
    ensures var e := FirstSlash(s); Pieces(s[..i]) == [s[..e]] + Pieces(s[e + 1..][..i - e - 1])
  {
    var e := FirstSlash(s);
    FirstSlashUnique(s[..i], e);
    assert s[..i][..e] == s[..e] && s[..i][e + 1..] == s[e + 1..][..i - e - 1];
  }

  lemma PiecesWithoutSlash(s: string)
    requires NoSlash(s, 0, |s|)
    ensures Pieces(s) == [s]
  {
    FirstSlashUnique(s, |s|);
  }

  /** Cutting at the last '/' cuts off the last piece. */
  lemma {:induction false} PiecesAtLastSlash(s: string, i: nat)
    requires i < |s| && s[i] == '/' && NoSlash(s, i + 1, |s|)
    ensures Pieces(s) == Pieces(s[..i]) + [s[i + 1..]]
    decreases |s|
  {
    var e := FirstSlash(s);
    if e == i {
      PiecesWithoutSlash(s[i + 1..]);
      PiecesWithoutSlash(s[..i]);
    } else {
      PiecesAtLastSlash(s[e + 1..], i - e - 1);
      PiecesOfPrefix(s, i);
      assert s[e + 1..][i - e..] == s[i + 1..];
    }
  }

  lemma {:induction false} PiecesHaveNoSlash(s: string, i: nat)
    requires i < |Pieces(s)|
    ensures NoSlash(Pieces(s)[i], 0, |Pieces(s)[i]|)
    decreases i
  {
    if i > 0 { PiecesHaveNoSlash(s[FirstSlash(s) + 1..], i - 1); }
  }

  ghost predicate NamesFit(path: string) {
    forall i | 0 <= i < |Pieces(path)| :: |Pieces(path)[i]| < LWFS_NAME_LEN
  }

  /** No two slashes together and none at the end, apart from the leading one. */
  ghost predicate Plain(path: string) {
    Absolute(path) && forall i | 1 <= i < |Pieces(path)| :: Pieces(path)[i] != ""
  }
}
