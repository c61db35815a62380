/** Sequence vocabulary for the vector operations of the clustering engine: removal of
    one element (`std::vector::erase`), subsequences and order-preserving filtering. */
module Sequences {

  /** `s` with the element at index `w` removed; the later elements move down. */
  function Erase<T>(s: seq<T>, w: nat): (r: seq<T>)
    requires w < |s|
    ensures |r| == |s| - 1
    ensures forall k :: 0 <= k < |r| ==> r[k] == if k < w then s[k] else s[k + 1]
  {
    s[..w] + s[w + 1..]
  }

  /** `s` can be obtained from `t` by deleting elements. */
  ghost predicate IsSubseq<T>(s: seq<T>, t: seq<T>)
    decreases |t|
  {
    s == [] || (t != [] && ((s[0] == t[0] && IsSubseq(s[1..], t[1..])) || IsSubseq(s, t[1..])))
  }

  lemma {:induction false} SubseqReflexive<T>(s: seq<T>)
    ensures IsSubseq(s, s)
  {
    if s != [] {
      SubseqReflexive(s[1..]);
    }
  }

  lemma {:induction false} SubseqTransitive<T>(a: seq<T>, b: seq<T>, c: seq<T>)
    requires IsSubseq(a, b) && IsSubseq(b, c)
    ensures IsSubseq(a, c)
    decreases |c|
  {
    if a == [] {
    } else if b == [] {
    } else if b[0] == c[0] && IsSubseq(b[1..], c[1..]) {
      if a[0] == b[0] && IsSubseq(a[1..], b[1..]) {
        SubseqTransitive(a[1..], b[1..], c[1..]);
      } else {
        SubseqTransitive(a, b[1..], c[1..]);
      }
    } else {
      SubseqTransitive(a, b, c[1..]);
    }
  }

  /** Removing one element leaves a subsequence. */
  lemma {:induction false} EraseIsSubseq<T>(s: seq<T>, w: nat)
    requires w < |s|
    ensures IsSubseq(Erase(s, w), s)
  {
    if w == 0 {
      SubseqReflexive(s[1..]);
      assert Erase(s, w) == s[1..];
    } else {
      EraseIsSubseq(s[1..], w - 1);
      assert Erase(s, w) == [s[0]] + Erase(s[1..], w - 1);
      assert Erase(s, w)[1..] == Erase(s[1..], w - 1);
    }
  }

  /** Every element of a subsequence occurs in the sequence. */
  lemma {:induction false} SubseqMembers<T>(s: seq<T>, t: seq<T>)
    requires IsSubseq(s, t)
    ensures multiset(s) <= multiset(t)
    decreases |t|
  {
    if s == [] {
    } else if s[0] == t[0] && IsSubseq(s[1..], t[1..]) {
      SubseqMembers(s[1..], t[1..]);
      assert s == [s[0]] + s[1..] && t == [t[0]] + t[1..];
    } else {
      SubseqMembers(s, t[1..]);
      assert t == [t[0]] + t[1..];
    }
  }

  /** The elements of `s` whose flag in `keep` is set, in their original order. */
  function Keep<T>(s: seq<T>, keep: seq<bool>): (r: seq<T>)
    requires |s| == |keep|
    ensures |r| <= |s|
    decreases |s|
  {
    if s == [] then []
    else Keep(s[..|s| - 1], keep[..|s| - 1]) + (if keep[|s| - 1] then [s[|s| - 1]] else [])
  }

  /** A list none of whose flags is cleared is kept whole. */
  lemma {:induction false} KeepAll<T>(s: seq<T>, keep: seq<bool>)
    requires |s| == |keep| && forall k :: 0 <= k < |keep| ==> keep[k]
    ensures Keep(s, keep) == s
    decreases |s|
  {
    if s != [] {
      KeepAll(s[..|s| - 1], keep[..|s| - 1]);
    }
  }

  /** An element whose flag is set is kept. */
  lemma {:induction false} KeepHas<T>(s: seq<T>, keep: seq<bool>, k: nat)
    requires |s| == |keep| && k < |s| && keep[k]
    ensures s[k] in Keep(s, keep)
    decreases |s|
  {
    var n := |s| - 1;
    if k < n {
      KeepHas(s[..n], keep[..n], k);
    }
  }

  /** Erasing an element whose flag is cleared does not change what is kept. */
  lemma {:induction false} KeepErase<T>(s: seq<T>, keep: seq<bool>, w: nat)
    requires |s| == |keep| && w < |s| && !keep[w]
    ensures Keep(Erase(s, w), Erase(keep, w)) == Keep(s, keep)
    decreases |s|
  {
    var n := |s| - 1;
    if w == n {
      assert Erase(s, w) == s[..n] && Erase(keep, w) == keep[..n];
    } else {
      KeepErase(s[..n], keep[..n], w);
      assert Erase(s, w)[..n - 1] == Erase(s[..n], w);
      assert Erase(keep, w)[..n - 1] == Erase(keep[..n], w);
    }
  }

  /** What is kept is a subsequence. */
  lemma {:induction false} KeepIsSubseq<T>(s: seq<T>, keep: seq<bool>)
    requires |s| == |keep|
    ensures IsSubseq(Keep(s, keep), s)
    decreases |s|
  {
    if s != [] {
      var n := |s| - 1;
      KeepIsSubseq(s[..n], keep[..n]);
      SubseqAppend(Keep(s[..n], keep[..n]), s[..n], s[n], keep[n]);
      assert s == s[..n] + [s[n]];
    }
  }

  lemma {:induction false} SubseqAppend<T>(a: seq<T>, b: seq<T>, x: T, take: bool)
    requires IsSubseq(a, b)
    ensures IsSubseq(a + (if take then [x] else []), b + [x])
    decreases |b|
  {
    var a' := a + (if take then [x] else []);
    if b == [] {
      assert a == [];
      if take {
        assert a' == [x] && IsSubseq(a'[1..], (b + [x])[1..]);
      }
    } else if a == [] {
      if take {
        SubseqAppend(a, b[1..], x, take);
        assert (b + [x])[1..] == b[1..] + [x];
      }
    } else if a[0] == b[0] && IsSubseq(a[1..], b[1..]) {
      SubseqAppend(a[1..], b[1..], x, take);
      assert a'[1..] == a[1..] + (if take then [x] else []);
      assert (b + [x])[1..] == b[1..] + [x];
    } else {
      SubseqAppend(a, b[1..], x, take);
      assert (b + [x])[1..] == b[1..] + [x];
    }
  }
}
