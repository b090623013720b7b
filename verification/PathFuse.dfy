/** The recursive resolver of the FUSE callbacks: last name, prefix, recursion. */
module PathFuse {
  import opened Common
  import opened PathNames

  const LWFS_OK := 0
  const ENOENT := 2

  /** The C string a character buffer holds. */
  function CStr(s: seq<char>): string {
    if s == [] || s[0] == NUL then "" else [s[0]] + CStr(s[1..])
  }

  lemma {:induction false} CStrIs(s: seq<char>, t: string)
    requires |t| < |s| && s[..|t|] == t && s[|t|] == NUL && NoNul(t)
    ensures CStr(s) == t
  {
    if t != "" {
      assert s[0] == s[..|t|][0] == t[0];
      assert s[1..][..|t| - 1] == t[1..];
      CStrIs(s[1..], t[1..]);
    }
  }

  /** The recursion is well-founded on absolute paths and stays on absolute paths. */
  lemma PrefixShorter(path: string)
    requires Absolute(path) && path != "/"
    ensures Absolute(Prefix(path)) && |Prefix(path)| < |path|
    ensures NoNul(Suffix(path))
  {
    var i := LastSlash(path);
    assert forall k | 0 <= k < i :: path[..i][k] == path[k];
    var suffix := path[i + 1..];
    assert forall k | 0 <= k < |suffix| :: suffix[k] == path[i + 1 + k];
  }

  /** The names the resolver looks up, outermost first. */
  function ResolvedNames(path: string): seq<string>
    requires Absolute(path)
    decreases |path|
  {
    if path == "/" then []
    else
      PrefixShorter(path);
      ResolvedNames(Prefix(path)) + [Suffix(path)]
  }

  /** The components of an absolute path: what stands between its slashes after the first. */
  ghost function SplitPath(path: string): seq<string>
    requires Absolute(path)
  {
    if path == "/" then [] else Pieces(path)[1..]
  }

  predicate DoubleSlash(path: string) {
    |path| >= 2 && path[0] == '/' && path[1] == '/'
  }

  /** The resolved names are the components, less the empty first one after a double slash. */
  ghost predicate ResolvesSplit(path: string)
    requires Absolute(path)
  {
    var names := SplitPath(path);
    if DoubleSlash(path) then |names| >= 2 && ResolvedNames(path) == names[1..] else ResolvedNames(path) == names
  }

  lemma SnocAgrees(names: seq<string>, resolved: seq<string>, names': seq<string>, resolved': seq<string>, name: string,
                   double: bool)
    requires names == names' + [name] && resolved == resolved' + [name]
    requires if double then |names'| >= 2 && resolved' == names'[1..] else resolved' == names'
    ensures if double then |names| >= 2 && resolved == names[1..] else resolved == names
  {
  }

  /** A path is one component longer than its prefix, for the split as for the resolver. */
  lemma OneLonger(path: string)
    requires Absolute(path) && path != "/" && LastSlash(path) >= 2
    ensures var front, name := Prefix(path), Suffix(path);
            && Absolute(front) && (DoubleSlash(path) <==> DoubleSlash(front))
            && SplitPath(path) == SplitPath(front) + [name] && ResolvedNames(path) == ResolvedNames(front) + [name]
  {
    SplitStep(path);
    ResolvedStep(path);
  }

  lemma ResolvesLonger(path: string)
    requires Absolute(path) && path != "/" && LastSlash(path) >= 2
    requires Absolute(Prefix(path)) && ResolvesSplit(Prefix(path))
    ensures ResolvesSplit(path)
  {
    var front := Prefix(path);
    OneLonger(path);
    SnocAgrees(SplitPath(path), ResolvedNames(path), SplitPath(front), ResolvedNames(front), Suffix(path), DoubleSlash(path));
  }

  /** A second slash right after the first is swallowed. */
  lemma {:induction false} ResolvedIsSplit(path: string)
    requires Absolute(path)
    ensures ResolvesSplit(path)
    decreases |path|
  {
    if path != "/" {
      if LastSlash(path) >= 2 {
        PrefixShorter(path);
        ResolvedIsSplit(Prefix(path));
        ResolvesLonger(path);
      } else {
        SplitOneName(path);
      }
    }
  }

  lemma ResolvedStep(path: string)
    requires Absolute(path) && path != "/"
    ensures Absolute(Prefix(path)) && ResolvedNames(path) == ResolvedNames(Prefix(path)) + [Suffix(path)]
  {
    PrefixShorter(path);
  }

  lemma SplitOneName(path: string)
    requires Absolute(path) && path != "/" && LastSlash(path) <= 1
    ensures DoubleSlash(path) <==> LastSlash(path) == 1
    ensures SplitPath(path) == if DoubleSlash(path) then ["", Suffix(path)] else [Suffix(path)]
    ensures ResolvedNames(path) == [Suffix(path)]
  {
    var i := LastSlash(path);
    PiecesAtLastSlash(path, i);
    PiecesAtLastSlash("/", 0);
    assert Pieces("") == [""] && "/"[..0] == "" && "/"[1..] == "";
    assert path[..i] == if i == 0 then "" else "/";
    assert Prefix(path) == "/";
  }

  lemma SplitAtLastSlash(path: string, i: nat)
    requires Absolute(path) && 2 <= i == LastSlash(path)
    ensures Absolute(path[..i]) && path[..i] != "/"
    ensures DoubleSlash(path) <==> DoubleSlash(path[..i])
    ensures SplitPath(path) == SplitPath(path[..i]) + [path[i + 1..]]
  {
    PrefixShorter(path);
    PiecesAtLastSlash(path, i);
    FirstSlashUnique(path[..i], 0);
  }

  lemma SplitStep(path: string)
    requires Absolute(path) && path != "/" && LastSlash(path) >= 2
    ensures Absolute(Prefix(path)) && (DoubleSlash(path) <==> DoubleSlash(Prefix(path)))
    ensures SplitPath(path) == SplitPath(Prefix(path)) + [Suffix(path)]
  {
    var i := LastSlash(path);
    SplitAtLastSlash(path, i);
    assert Prefix(path) == path[..i] && Suffix(path) == path[i + 1..];
  }

  /** The recursion looks up exactly the split components unless the path starts with two slashes. */
  lemma ResolvesSplitIff(path: string)
    requires Absolute(path)
    ensures ResolvedNames(path) == SplitPath(path) <==> !DoubleSlash(path)
  {
    ResolvedIsSplit(path);
  }

  // ---------- the helpers, writing into the caller's buffers ----------

  /** `strncpy`: the source up to its end, then NUL characters; no terminator if the source is too long. */
  method Strncpy(dst: array<char>, src: string, n: nat)
    requires n <= dst.Length
    modifies dst
    ensures forall k | 0 <= k < n :: dst[k] == if k < |src| then src[k] else NUL
    ensures forall k | n <= k < dst.Length :: dst[k] == old(dst[k])
  {
    for i := 0 to n
      invariant forall k | 0 <= k < i :: dst[k] == if k < |src| then src[k] else NUL
      invariant forall k | i <= k < dst.Length :: dst[k] == old(dst[k])
    {
      dst[i] := if i < |src| then src[i] else NUL;
    }
  }

  method GetSuffix(name: array<char>, path: string, len: nat)
    requires Absolute(path) && NoNul(Suffix(path)) && |Suffix(path)| < len <= name.Length
    modifies name
    ensures CStr(name[..]) == Suffix(path)
  {
    var ptr := LastSlash(path);
    Strncpy(name, path[ptr + 1..], len);
    assert name[..][..|Suffix(path)|] == Suffix(path);
    CStrIs(name[..], Suffix(path));
  }

  /** The buffer of exactly the path's length is large enough, also when "" is rewritten to "/". */
  method GetPrefix(prefix: array<char>, path: string, maxlen: nat)
    requires Absolute(path) && path != "/" && maxlen == |path| == prefix.Length
    modifies prefix
    ensures CStr(prefix[..]) == Prefix(path)
  {
    var ptr := LastSlash(path);
    PrefixShorter(path);
    var prefixLen := ptr + 1;
    var len := if prefixLen > maxlen then maxlen else prefixLen;
    Strncpy(prefix, path, len);
    prefix[len - 1] := NUL;
    if prefix[0] == NUL {
      prefix[0] := '/';
      prefix[1] := NUL;
      assert prefix[..][..1] == "/";
      CStrIs(prefix[..], "/");
    } else {
      assert prefix[..][..ptr] == path[..ptr];
      CStrIs(prefix[..], path[..ptr]);
    }
  }

  predicate SuffixesFit(path: string)
    requires Absolute(path)
  {
    forall i | 0 <= i < |ResolvedNames(path)| :: |ResolvedNames(path)[i]| < LWFS_NAME_LEN
  }

  /** The resolver ends on every absolute path and is the walk over its resolved names. */
  method TraversePath(ns: Namespace, path: string) returns (rc: int, result: ID)
    requires Absolute(path) && SuffixesFit(path)
    ensures rc == LWFS_OK <==> Walk(ns, ResolvedNames(path)).Some?
    ensures rc == LWFS_OK ==> Walk(ns, ResolvedNames(path)) == Some(result)
    ensures rc != LWFS_OK ==> rc == -ENOENT
    decreases |path|
  {
    rc, result := LWFS_OK, ROOT;
    if path == "/" { return; }
    var parentPath := new char[|path|];
    var name := new char[LWFS_NAME_LEN];
    ghost var names := ResolvedNames(path);
    PrefixShorter(path);
    assert names[|names| - 1] == Suffix(path) && names[..|names| - 1] == ResolvedNames(Prefix(path));
    GetSuffix(name, path, LWFS_NAME_LEN);
    GetPrefix(parentPath, path, |path|);
    var parent;
    rc, parent := TraversePath(ns, CStr(parentPath[..]));
    if rc != LWFS_OK { return; }
    match Lookup(ns, parent, CStr(name[..]))
    case None => rc := -ENOENT;
    case Some(id) => result := id;
  }
}
