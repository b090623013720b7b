/** The scanning resolvers of the other FUSE driver: two pointers move over the path string. */
module PathScan {
  import opened Common
  import opened PathNames
  import PathFuse

  /** The character at an index of a C string. */
  function CharAt(path: string, i: nat): char
    requires i <= |path|
  {
    if i < |path| then path[i] else NUL
  }

  /** The name the scanner looks up for piece `i`: an empty piece reads as "/" unless it ends the path. */
  function ScanName(ps: seq<string>, i: nat): string
    requires i < |ps|
  {
    if ps[i] == "" && i + 1 < |ps| then "/" else ps[i]
  }

  ghost function ScanNames(path: string): (ns: seq<string>)
    ensures |ns| == |Pieces(path)| && forall i | 0 <= i < |ns| :: ns[i] == ScanName(Pieces(path), i)
  {
    seq(|Pieces(path)|, i requires 0 <= i < |Pieces(path)| => ScanName(Pieces(path), i))
  }

  /** The end of the piece that starts at `start`. */
  method PieceEnd(path: string, start: nat) returns (eptr: nat)
    requires start <= |path| && NoNul(path)
    ensures start <= eptr <= |path| && eptr - start == FirstSlash(path[start..])
    ensures CharAt(path, eptr) == NUL <==> eptr == |path|
  {
    eptr := start;
    while CharAt(path, eptr) != '/' && CharAt(path, eptr) != NUL
      invariant start <= eptr <= |path| && NoSlash(path, start, eptr)
      decreases |path| - eptr
    {
      eptr := eptr + 1;
    }
    assert forall k | 0 <= k < eptr - start :: path[start..][k] == path[start + k];
    FirstSlashUnique(path[start..], eptr - start);
  }

  /** The copied directory name: one character even when the piece is empty, so "/" or the terminator. */
  function DirName(path: string, sptr: nat, eptr: nat): string
    requires sptr <= eptr <= |path|
  {
    if eptr == sptr then (if eptr < |path| then [path[eptr]] else "") else path[sptr..eptr]
  }

  /** Where piece `k` starts. */
  ghost function PieceStart(path: string, k: nat): nat
    requires k < |Pieces(path)|
  {
    if k == 0 then 0 else PieceStart(path, k - 1) + |Pieces(path)[k - 1]| + 1
  }

  /** From the start of a piece on, the string is made of the remaining pieces. */
  lemma {:induction false} PiecesFrom(path: string, k: nat)
    requires k < |Pieces(path)|
    ensures PieceStart(path, k) <= |path|
    ensures Pieces(path)[k..] == Pieces(path[PieceStart(path, k)..])
  {
    if k == 0 {
      assert path[0..] == path && Pieces(path)[0..] == Pieces(path);
    } else {
      PiecesFrom(path, k - 1);
      var start := PieceStart(path, k - 1);
      var t := path[start..];
      var e := FirstSlash(t);
      assert Pieces(path)[k - 1] == Pieces(path)[k - 1..][0] == t[..e];
      assert t[e + 1..] == path[start + e + 1..];
      assert Pieces(path)[k..] == Pieces(path)[k - 1..][1..];
    }
  }

  /** Where a scan stands: `k` pieces are behind it and the next one starts at `sptr`. */
  ghost predicate ScanAt(path: string, sptr: nat, k: nat) {
    k < |Pieces(path)| && sptr == PieceStart(path, k)
  }

  lemma ScanStep(path: string, sptr: nat, eptr: nat, k: nat)
    requires ScanAt(path, sptr, k) && sptr <= eptr <= |path| && eptr - sptr == FirstSlash(path[sptr..])
    ensures DirName(path, sptr, eptr) == ScanNames(path)[k]
    ensures eptr == |path| <==> k + 1 == |Pieces(path)|
    ensures eptr < |path| ==> ScanAt(path, eptr + 1, k + 1)
  {
    PiecesFrom(path, k);
    var t, ps := path[sptr..], Pieces(path);
    assert ps[k] == ps[k..][0] == t[..eptr - sptr] == path[sptr..eptr];
  }

  /** One turn of either scan: the end and the name of the piece at `sptr`. */
  method NextName(path: string, sptr: nat, ghost k: nat) returns (eptr: nat, dirname: string)
    requires NoNul(path) && ScanAt(path, sptr, k)
    ensures sptr <= eptr <= |path|
    ensures CharAt(path, eptr) == NUL <==> k + 1 == |ScanNames(path)|
    ensures dirname == ScanNames(path)[k]
    ensures k + 1 < |ScanNames(path)| ==> eptr < |path| && ScanAt(path, eptr + 1, k + 1)
  {
    PiecesFrom(path, k);
    eptr := PieceEnd(path, sptr);
    dirname := DirName(path, sptr, eptr);
    ScanStep(path, sptr, eptr, k);
  }

  /** One more name looked up. */
  lemma WalkOn(ns: Namespace, names: seq<string>, k: nat, id: ID)
    requires k < |names| && Walk(ns, names[..k]) == Some(id)
    ensures Walk(ns, names[..k + 1]) == Lookup(ns, id, names[k])
    ensures Lookup(ns, id, names[k]).None? ==> Walk(ns, names).None?
  {
    assert names[..k + 1] == names[..k] + [names[k]];
    WalkSnoc(ns, names[..k], names[k]);
    if Lookup(ns, id, names[k]).None? {
      WalkFailsEarly(ns, names, k + 1);
    }
  }

  /** The node of a path: the walk over all scanned names. */
  method Path2NodeID(ns: Namespace, path: string) returns (rc: int, id: ID)
    requires Absolute(path) && NamesFit(path)
    ensures rc == 0 || rc == -1
    ensures path == "/" ==> rc == 0 && id == ROOT
    ensures path != "/" ==> (rc == 0 <==> Walk(ns, ScanNames(path)).Some?)
    ensures path != "/" && rc == 0 ==> Walk(ns, ScanNames(path)) == Some(id)
  {
    rc, id := 0, ROOT;
    if path == "/" { return; }
    ghost var names := ScanNames(path);
    var sptr, eptr := 0, 0;
    ghost var k := 0;
    while true
      invariant rc == 0 && ScanAt(path, sptr, k) && k < |names| && Walk(ns, names[..k]) == Some(id)
      decreases |path| - sptr
    {
      var dirname;
      eptr, dirname := NextName(path, sptr, k);
      WalkOn(ns, names, k, id);
      match Lookup(ns, id, dirname)
      case None =>
        return -1, id;
      case Some(next) => id := next;
      if CharAt(path, eptr) == NUL {
        assert names[..k + 1] == names;
        return;
      }
      eptr := eptr + 1;
      sptr := eptr;
      k := k + 1;
    }
  }

  /** The first position of `name` in `names`. */
  function FirstIndex(names: seq<string>, name: string): (i: nat)
    requires name in names
    ensures i < |names| && names[i] == name && name !in names[..i]
  {
    if names[0] == name then 0 else
      var i := 1 + FirstIndex(names[1..], name);
      assert names[..i] == [names[0]] + names[1..][..i - 1];
      i
  }

  lemma SuffixIsLast(path: string)
    requires Absolute(path)
    ensures ScanNames(path)[|ScanNames(path)| - 1] == Suffix(path)
    ensures Suffix(path) in ScanNames(path)
  {
    PiecesAtLastSlash(path, LastSlash(path));
  }

  /** How many names the parent scan looks up before it stops: never past the last component. */
  ghost function StopIndex(path: string): (k: nat)
    requires Absolute(path)
    ensures k < |ScanNames(path)|
  {
    SuffixIsLast(path);
    FirstIndex(ScanNames(path), Suffix(path))
  }

  /** What the parent scan finds. */
  ghost function ParentFound(ns: Namespace, path: string): Option<ID>
    requires Absolute(path)
  {
    Walk(ns, ScanNames(path)[..StopIndex(path)])
  }

  lemma StopsWhenEqual(path: string, k: nat)
    requires Absolute(path) && k <= StopIndex(path)
    ensures ScanNames(path)[k] == Suffix(path) <==> k == StopIndex(path)
  {
    SuffixIsLast(path);
    var names, stop := ScanNames(path), StopIndex(path);
    assert k < stop ==> names[k] == names[..stop][k];
  }

  /** The scan gets to the last component exactly when its name does not occur before. */
  lemma StopsAtLastIff(path: string)
    requires Absolute(path)
    ensures var n := |ScanNames(path)| - 1; StopIndex(path) == n <==> Suffix(path) !in ScanNames(path)[..n]
  {
    SuffixIsLast(path);
    var names, n, k := ScanNames(path), |ScanNames(path)| - 1, StopIndex(path);
    if k < n { assert names[..n][k] == Suffix(path); }
  }

  /** "/a/a" is the shortest kind of path it stops short on: it hands out the root as parent. */
  lemma StopsShortExample()
    ensures Absolute("/a/a") && ScanNames("/a/a") == ["/", "a", "a"] && StopIndex("/a/a") == 1
  {
    var p := "/a/a";
    FirstSlashUnique(p, 0);
    assert p[1..] == "a/a";
    assert "a/a"[..1] == "a" && "a/a"[2..] == "a";
    FirstSlashUnique("a/a", 1);
    FirstSlashUnique("a", 1);
    assert Pieces("a") == ["a"];
    assert Pieces("a/a") == ["a", "a"];
    assert Pieces(p) == ["", "a", "a"];
    SuffixIsLast(p);
    var k := StopIndex(p);
    assert ScanNames(p)[..2][1] == "a";
  }

  /** The backward search for the last component. */
  method BaseName(path: string) returns (name: string)
    requires Absolute(path)
    ensures name == Suffix(path)
  {
    var base := |path|;
    while base >= 0
      invariant 0 < base <= |path| && NoSlash(path, base, |path|)
    {
      base := base - 1;
      if path[base] == '/' { break; }
    }
    LastSlashUnique(path, base);
    base := base + 1;
    name := path[base..];
  }

  /** Parent and last name of a path: the walk over the names before the first that equals the last one. */
  method TraversePath(ns: Namespace, path: string) returns (rc: int, parentID: ID, nodename: string)
    requires Absolute(path) && NamesFit(path)
    ensures rc == 0 || rc == -1
    ensures path == "/" ==> rc == 0 && parentID == ROOT && nodename == "/"
    ensures path != "/" ==> nodename == Suffix(path)
    ensures path != "/" ==> (rc == 0 <==> ParentFound(ns, path).Some?)
    ensures path != "/" && rc == 0 ==> ParentFound(ns, path) == Some(parentID)
  {
    rc, parentID := 0, ROOT;
    if path == "/" {
      nodename := "/";
      return;
    }
    nodename := BaseName(path);
    ghost var stop := StopIndex(path);
    ghost var names := ScanNames(path)[..stop];
    var sptr, eptr := 0, 0;
    ghost var k := 0;
    while true
      invariant rc == 0 && ScanAt(path, sptr, k) && k <= stop && Walk(ns, names[..k]) == Some(parentID)
      decreases |path| - sptr
    {
      var dirname;
      eptr, dirname := NextName(path, sptr, k);
      StopsWhenEqual(path, k);
      if dirname == nodename {
        assert k == stop;
        assert names[..k] == names;
        return;
      }
      assert names[k] == dirname;
      WalkOn(ns, names, k, parentID);
      match Lookup(ns, parentID, dirname)
      case None =>
        return -1, parentID, nodename;
      case Some(next) => parentID := next;
      eptr := eptr + 1;
      sptr := eptr;
      k := k + 1;
    }
  }

  // ---------- the resolvers agree ----------

  /** On a plain path the scanned names are "/" and the components. */
  lemma PlainScan(path: string)
    requires Plain(path) && path != "/"
    ensures ScanNames(path) == ["/"] + PathFuse.SplitPath(path)
    ensures |PathFuse.SplitPath(path)| >= 1
  {
    FirstSlashUnique(path, 0);
    assert path[..0] == "";
  }

  lemma PlainSingleSlash(path: string)
    requires Plain(path)
    ensures !PathFuse.DoubleSlash(path)
  {
    if |path| >= 2 {
      FirstSlashUnique(path, 0);
      assert Pieces(path)[1] == Pieces(path[1..])[0] == path[1..][..FirstSlash(path[1..])];
      assert path[1..][0] == path[1];
    }
  }

  /** "/" names the root in the root. */
  ghost predicate RootNamed(ns: Namespace) {
    Lookup(ns, ROOT, "/") == Some(ROOT)
  }

  lemma {:induction false} WalkFromRootEntry(ns: Namespace, names: seq<string>)
    requires RootNamed(ns)
    ensures Walk(ns, ["/"] + names) == Walk(ns, names)
  {
    if names == [] {
      WalkSnoc(ns, [], "/");
      assert ["/"] + names == [] + ["/"];
    } else {
      var n := |names| - 1;
      WalkFromRootEntry(ns, names[..n]);
      assert ["/"] + names == (["/"] + names[..n]) + [names[n]];
      WalkSnoc(ns, ["/"] + names[..n], names[n]);
    }
  }

  /** On plain paths, if "/" names the root in the root, both drivers resolve every path to the same node: the walk
      over its components. */
  lemma ResolversAgree(ns: Namespace, path: string)
    requires Plain(path) && RootNamed(ns)
    ensures Walk(ns, PathFuse.ResolvedNames(path)) == Walk(ns, PathFuse.SplitPath(path))
    ensures path != "/" ==> Walk(ns, ScanNames(path)) == Walk(ns, PathFuse.SplitPath(path))
  {
    if path != "/" {
      PlainScan(path);
      WalkFromRootEntry(ns, PathFuse.SplitPath(path));
      PlainSingleSlash(path);
    }
    PathFuse.ResolvesSplitIff(path);
  }

  /** The node the scanner finds for a path. */
  ghost function NodeOf(ns: Namespace, path: string): Option<ID> {
    if path == "/" then Some(ROOT) else Walk(ns, ScanNames(path))
  }

  lemma PrefixNode(ns: Namespace, path: string)
    requires Plain(path) && path != "/" && RootNamed(ns)
    ensures NodeOf(ns, Prefix(path)) == Walk(ns, ScanNames(path)[..|ScanNames(path)| - 1])
  {
    var i, n := LastSlash(path), |ScanNames(path)| - 1;
    PiecesAtLastSlash(path, i);
    PathFuse.PrefixShorter(path);
    if i == 0 {
      assert path[..0] == "" && Pieces("") == [""];
      assert ScanNames(path)[..1] == ["/"] + [];
      WalkFromRootEntry(ns, []);
    } else {
      assert i == 1 ==> PathFuse.DoubleSlash(path);
      PlainSingleSlash(path);
      var qs := Pieces(path[..i]);
      assert Pieces(path)[..n] == qs;
      assert |qs| >= 2 by { FirstSlashUnique(path[..i], 0); }
      assert qs[|qs| - 1] == Pieces(path)[n - 1] != "";
      assert ScanNames(path)[..n] == ScanNames(path[..i]);
    }
  }

  /** A name space in which the names lead from node to node, each to the next. */
  ghost function Chain(names: seq<string>): (ns: Namespace)
    ensures RootNamed(ns)
  {
    (map j: nat | j < |names| :: (j, names[j]) := j + 1)[(ROOT, "/") := ROOT]
  }

  lemma {:induction false} WalkChain(names: seq<string>, k: nat)
    requires k <= |names| && (names != [] ==> names[0] != "/")
    ensures Walk(Chain(names), (["/"] + names)[..k + 1]) == Some(k)
  {
    var all := ["/"] + names;
    if k == 0 {
      assert all[..1] == [] + ["/"];
      WalkSnoc(Chain(names), [], "/");
    } else {
      WalkChain(names, k - 1);
      assert all[..k + 1] == all[..k] + [names[k - 1]];
      WalkSnoc(Chain(names), all[..k], names[k - 1]);
    }
  }

  lemma SlashFree(s: string)
    requires NoSlash(s, 0, |s|)
    ensures s != "/"
  {
    var slash := "/";
    assert slash[0] == '/';
  }

  /** The scan looks up the first `k` of these names only, and they are not all. */
  ghost predicate StopsEarly(path: string, names: seq<string>, k: nat)
    requires Absolute(path)
  {
    && ScanNames(path) == names && |names| >= 2 && names[0] == "/" && names[1] != "/"
    && 1 <= k == StopIndex(path) < |names| - 1
  }

  lemma StopsInside(path: string)
    requires Plain(path) && path != "/" && Suffix(path) in ScanNames(path)[..|ScanNames(path)| - 1]
    ensures StopsEarly(path, ScanNames(path), StopIndex(path))
  {
    PlainScan(path);
    PiecesHaveNoSlash(path, 1);
    SlashFree(Pieces(path)[1]);
    assert forall k | 0 <= k < |Suffix(path)| :: Suffix(path)[k] == path[LastSlash(path) + 1 + k];
    SlashFree(Suffix(path));
    StopsAtLastIff(path);
    StopsWhenEqual(path, 0);
  }

  /** In some name space the first `k` and the first `n` names lead to different nodes. */
  lemma DifferentNodes(names: seq<string>, rest: seq<string>, k: nat, n: nat) returns (ns: Namespace)
    requires names == ["/"] + rest && rest != [] && rest[0] != "/" && 1 <= k < n <= |names|
    ensures RootNamed(ns) && Walk(ns, names[..k]) != Walk(ns, names[..n])
  {
    ns := Chain(rest);
    WalkChain(rest, k - 1);
    WalkChain(rest, n - 1);
  }

  /** Then there is a name space in which the scan hands out the wrong node. */
  lemma WrongParent(path: string, names: seq<string>, k: nat) returns (ns: Namespace)
    requires Plain(path) && path != "/" && StopsEarly(path, names, k)
    ensures RootNamed(ns) && ParentFound(ns, path) != NodeOf(ns, Prefix(path))
  {
    assert names == ["/"] + names[1..];
    ns := DifferentNodes(names, names[1..], k, |names| - 1);
    PrefixNode(ns, path);
  }

  /** The parent found is the node of the path without its last component, whatever the names lead to, exactly when
      the last name does not occur before. */
  lemma ParentIsNodeOfPrefixIff(path: string)
    requires Plain(path) && path != "/"
    ensures (forall ns | RootNamed(ns) :: ParentFound(ns, path) == NodeOf(ns, Prefix(path)))
            <==> Suffix(path) !in ScanNames(path)[..|ScanNames(path)| - 1]
  {
    if Suffix(path) in ScanNames(path)[..|ScanNames(path)| - 1] {
      StopsInside(path);
      var ns := WrongParent(path, ScanNames(path), StopIndex(path));
    } else {
      StopsAtLastIff(path);
      forall ns | RootNamed(ns) ensures ParentFound(ns, path) == NodeOf(ns, Prefix(path)) {
        PrefixNode(ns, path);
      }
    }
  }
}
