/** Overwriting an element by the last and dropping the last, which both the directory list and the request window do. */
module SwapLast {

  function SwapWithLast<T>(s: seq<T>, w: nat): (r: seq<T>)
    requires w < |s|
    ensures |r| == |s| - 1
    ensures forall k | 0 <= k < |r| :: r[k] == if k == w then s[|s| - 1] else s[k]
  {
    s[w := s[|s| - 1]][..|s| - 1]
  }

  lemma DropLast<T>(s: seq<T>)
    requires s != []
    ensures multiset(s) == multiset(s[..|s| - 1]) + multiset{s[|s| - 1]}
  {
    assert s == s[..|s| - 1] + [s[|s| - 1]];
  }

  lemma Overwrite<T>(s: seq<T>, w: nat, x: T)
    requires w < |s|
    ensures multiset(s[w := x]) + multiset{s[w]} == multiset(s) + multiset{x}
  {
  }

  lemma Cancel<T>(a: multiset<T>, b: multiset<T>, x: T)
    requires a + multiset{x} == b + multiset{x}
    ensures a == b
  {
    assert a == a + multiset{x} - multiset{x};
    assert b == b + multiset{x} - multiset{x};
  }

  /** It loses just that element. */
  lemma SwapRemove<T>(s: seq<T>, w: nat)
    requires w < |s|
    ensures multiset(SwapWithLast(s, w)) + multiset{s[w]} == multiset(s)
  {
    var l := s[|s| - 1];
    Overwrite(s, w, l);
    DropLast(s[w := l]);
    var rest := multiset(SwapWithLast(s, w));
    assert multiset(s[w := l]) == rest + multiset{l};
    assert rest + multiset{s[w]} + multiset{l} == multiset(s) + multiset{l};
    Cancel(rest + multiset{s[w]}, multiset(s), l);
  }
}
