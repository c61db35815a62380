/** Glyph chains of src/untypeset.cc. The glyphs live in one vector and are chained
    through their `next`/`prev` links; here the vector is a sequence of records (an
    arena) and a link is an index into it or `Nil`. A chunk (`StrBox`) names the
    head and the tail of its chain and caches the chain's bounding box. The ghost list
    of arena indices from head to tail that a chunk stands for is its member list. */
module Chains {
  import opened Geometry
  import opened Sequences

  datatype Link = Nil | Ref(index: nat)

  /** A glyph candidate. The score is an integer (0 is a perfect match); the source's
      debug id is not modelled. */
  datatype CharBox = CharBox(ch: char, score: int, bounds: Rect, wordBoundary: bool, next: Link, prev: Link)

  datatype StrBox = StrBox(first: nat, last: nat, bounds: Rect)

  /** Every link in the arena is null or names a glyph of the arena. */
  predicate LinksInRange(cells: seq<CharBox>) {
    forall k :: 0 <= k < |cells| ==>
      (cells[k].next.Ref? ==> cells[k].next.index < |cells|) &&
      (cells[k].prev.Ref? ==> cells[k].prev.index < |cells|)
  }

  predicate InRange(m: seq<nat>, n: nat) {
    forall p :: 0 <= p < |m| ==> m[p] < n
  }

  predicate Distinct(m: seq<nat>) {
    forall p, q :: 0 <= p < q < |m| ==> m[p] != m[q]
  }

  predicate Disjoint(m1: seq<nat>, m2: seq<nat>) {
    forall p, q :: 0 <= p < |m1| && 0 <= q < |m2| ==> m1[p] != m2[q]
  }

  /** The representation invariant `checkRep` checks, with `m` the path it walks: the
      head has no predecessor, the tail no successor, following `next` from the head
      visits the glyphs of `m` in order without repeating one and ends at the tail, and
      each glyph's `prev` points back along the path. */
  ghost predicate Linked(cells: seq<CharBox>, first: nat, last: nat, m: seq<nat>) {
    |m| > 0 && m[0] == first && m[|m| - 1] == last && InRange(m, |cells|) && Distinct(m) &&
    cells[first].prev == Nil && cells[last].next == Nil &&
    forall p :: 0 <= p < |m| - 1 ==> cells[m[p]].next == Ref(m[p + 1]) && cells[m[p + 1]].prev == Ref(m[p])
  }

  /** Some path links `first` to `last`. */
  ghost predicate HasChain(cells: seq<CharBox>, first: nat, last: nat) {
    exists m :: Linked(cells, first, last, m)
  }

  /** The union of the boxes of the glyphs in `m`, accumulated from the head. */
  function BoundsOf(cells: seq<CharBox>, m: seq<nat>): Rect
    requires |m| > 0 && InRange(m, |cells|)
    decreases |m|
  {
    if |m| == 1 then cells[m[0]].bounds
    else Union(BoundsOf(cells, m[..|m| - 1]), cells[m[|m| - 1]].bounds)
  }

  /** A chunk in good order: linked, its tail not flagged as a word end (the flag is
      only ever set on a glyph that is followed by another), and its cached box the
      union of its glyphs' boxes. */
  ghost predicate IsChain(cells: seq<CharBox>, s: StrBox, m: seq<nat>) {
    Linked(cells, s.first, s.last, m) && !cells[s.last].wordBoundary && s.bounds == BoundsOf(cells, m)
  }

  // ----------------------------------------------------------------- merge

  /** The arena after `merge(a, b, asWords)`: a's tail points forward to b's head, b's
      head points back to a's tail, and with `asWords` a's tail is flagged as the end
      of a word. */
  function Relink(cells: seq<CharBox>, a: StrBox, b: StrBox, asWords: bool): seq<CharBox>
    requires a.last < |cells| && b.first < |cells|
  {
    var tail := cells[a.last];
    var c1 := cells[a.last := tail.(next := Ref(b.first), wordBoundary := if asWords then true else tail.wordBoundary)];
    c1[b.first := c1[b.first].(prev := Ref(a.last))]
  }

  /** The chunk `a` becomes: a's head, b's tail, the union of both boxes. */
  function Merged(a: StrBox, b: StrBox): StrBox {
    StrBox(a.first, b.last, Union(a.bounds, b.bounds))
  }

  lemma {:induction false} BoundsOfConcat(cells: seq<CharBox>, ma: seq<nat>, mb: seq<nat>)
    requires |ma| > 0 && |mb| > 0 && InRange(ma, |cells|) && InRange(mb, |cells|)
    ensures InRange(ma + mb, |cells|)
    ensures BoundsOf(cells, ma + mb) == Union(BoundsOf(cells, ma), BoundsOf(cells, mb))
    decreases |mb|
  {
    var m := ma + mb;
    if |mb| == 1 {
      assert m[..|m| - 1] == ma;
    } else {
      var mb' := mb[..|mb| - 1];
      var last := cells[mb[|mb| - 1]].bounds;
      BoundsOfConcat(cells, ma, mb');
      assert m[..|m| - 1] == ma + mb' && m[|m| - 1] == mb[|mb| - 1];
      assert BoundsOf(cells, m) == Union(BoundsOf(cells, ma + mb'), last);
      assert BoundsOf(cells, mb) == Union(BoundsOf(cells, mb'), last);
      UnionAssociative(BoundsOf(cells, ma), BoundsOf(cells, mb'), last);
    }
  }

  lemma {:induction false} BoundsOfFrame(c1: seq<CharBox>, c2: seq<CharBox>, m: seq<nat>)
    requires |m| > 0 && InRange(m, |c1|) && |c1| == |c2|
    requires forall p :: 0 <= p < |m| ==> c1[m[p]].bounds == c2[m[p]].bounds
    ensures BoundsOf(c1, m) == BoundsOf(c2, m)
    decreases |m|
  {
    if |m| > 1 {
      BoundsOfFrame(c1, c2, m[..|m| - 1]);
    }
  }

  /** A chain none of whose glyphs changed is still a chain. */
  lemma ChainFrame(c1: seq<CharBox>, c2: seq<CharBox>, s: StrBox, m: seq<nat>)
    requires IsChain(c1, s, m) && |c1| == |c2|
    requires forall p :: 0 <= p < |m| ==> c2[m[p]] == c1[m[p]]
    ensures IsChain(c2, s, m)
  {
    BoundsOfFrame(c1, c2, m);
  }

  /** Merging two disjoint chains: the result is a chain from a's head to b's tail over
      a's glyphs followed by b's, its tail still unflagged; only a's tail and b's head
      changed, and only in their links and a's tail's flag. */
  lemma MergePreservesChain(cells: seq<CharBox>, a: StrBox, ma: seq<nat>, b: StrBox, mb: seq<nat>, asWords: bool)
    requires IsChain(cells, a, ma) && IsChain(cells, b, mb) && Disjoint(ma, mb)
    ensures IsChain(Relink(cells, a, b, asWords), Merged(a, b), ma + mb)
    ensures |Relink(cells, a, b, asWords)| == |cells|
    ensures forall x :: 0 <= x < |cells| && x != a.last && x != b.first ==> Relink(cells, a, b, asWords)[x] == cells[x]
    ensures forall x :: 0 <= x < |cells| ==>
      Relink(cells, a, b, asWords)[x].bounds == cells[x].bounds && Relink(cells, a, b, asWords)[x].ch == cells[x].ch
    ensures Relink(cells, a, b, asWords)[a.last].wordBoundary == asWords
  {
    var c := Relink(cells, a, b, asWords);
    var m := ma + mb;
    assert a.last != b.first by { assert ma[|ma| - 1] == a.last && mb[0] == b.first; }
    ConcatDistinct(ma, mb);
    RelinkLinks(cells, a, ma, b, mb, asWords);
    assert a.first != b.first by { assert ma[0] == a.first && mb[0] == b.first; }
    assert b.last != a.last by { assert ma[|ma| - 1] == a.last && mb[|mb| - 1] == b.last; }
    BoundsOfConcat(cells, ma, mb);
    BoundsOfFrame(cells, c, m);
  }

  /** Two disjoint lists without repeats make one without repeats. */
  lemma ConcatDistinct(ma: seq<nat>, mb: seq<nat>)
    requires Distinct(ma) && Distinct(mb) && Disjoint(ma, mb)
    ensures Distinct(ma + mb)
  {
    var m := ma + mb;
    forall p, q | 0 <= p < q < |m| ensures m[p] != m[q] {
      if q < |ma| {
      } else if p >= |ma| {
        assert m[p] == mb[p - |ma|] && m[q] == mb[q - |ma|];
      } else {
        assert m[q] == mb[q - |ma|];
      }
    }
  }

  /** After the relink, following the links walks a's glyphs and then b's. */
  lemma RelinkLinks(cells: seq<CharBox>, a: StrBox, ma: seq<nat>, b: StrBox, mb: seq<nat>, asWords: bool)
    requires IsChain(cells, a, ma) && IsChain(cells, b, mb) && Disjoint(ma, mb)
    ensures var c, m := Relink(cells, a, b, asWords), ma + mb;
      forall p :: 0 <= p < |m| - 1 ==> c[m[p]].next == Ref(m[p + 1]) && c[m[p + 1]].prev == Ref(m[p])
  {
    var c, m := Relink(cells, a, b, asWords), ma + mb;
    forall p | 0 <= p < |m| - 1 ensures c[m[p]].next == Ref(m[p + 1]) && c[m[p + 1]].prev == Ref(m[p]) {
      if p < |ma| - 1 {
        assert ma[p] != ma[|ma| - 1];
        assert m[p] != b.first by { assert mb[0] == b.first; }
        assert m[p + 1] != b.first by { assert mb[0] == b.first; }
      } else if p == |ma| - 1 {
        assert m[p + 1] == mb[0];
      } else {
        var q := p - |ma|;
        assert m[p] == mb[q] && m[p + 1] == mb[q + 1];
        assert mb[q + 1] != mb[0];
        assert mb[q] != a.last && mb[q + 1] != a.last by { assert ma[|ma| - 1] == a.last; }
      }
    }
  }

  // --------------------------------------------------- the chunk population

  /** The chunks and their member lists: each chunk other than `skip` is a chain, and
      the chains other than `skip` share no glyph. `skip` is -1 when every chunk counts;
      it names the chunk just absorbed while a join is in progress. */
  ghost predicate ChunksValid(cells: seq<CharBox>, chunks: seq<StrBox>, members: seq<seq<nat>>, skip: int) {
    |chunks| == |members| &&
    (forall k :: 0 <= k < |chunks| && k != skip ==> IsChain(cells, chunks[k], members[k])) &&
    (forall k1, k2 :: 0 <= k1 < |members| && 0 <= k2 < |members| && k1 != k2 && k1 != skip && k2 != skip ==>
       Disjoint(members[k1], members[k2]))
  }

  /** Every glyph some chunk holds. */
  ghost function Covered(members: seq<seq<nat>>): set<nat> {
    set k, x | 0 <= k < |members| && x in members[k] :: x
  }

  /** A join at `into` absorbing `from`: every chunk but the absorbed one is still a
      chain and they remain disjoint. */
  lemma JoinKeepsChunksValid(cells: seq<CharBox>, chunks: seq<StrBox>, members: seq<seq<nat>>,
                             into: nat, from: nat, asWords: bool)
    requires ChunksValid(cells, chunks, members, -1) && LinksInRange(cells)
    requires into < |chunks| && from < |chunks| && into != from
    ensures var a, b := chunks[into], chunks[from];
      ChunksValid(Relink(cells, a, b, asWords), chunks[into := Merged(a, b)],
                  members[into := members[into] + members[from]], from) &&
      LinksInRange(Relink(cells, a, b, asWords))
  {
    var a, b := chunks[into], chunks[from];
    var ma, mb := members[into], members[from];
    assert Disjoint(ma, mb);
    MergePreservesChain(cells, a, ma, b, mb, asWords);
    var c := Relink(cells, a, b, asWords);
    var chunks', members' := chunks[into := Merged(a, b)], members[into := ma + mb];
    forall k | 0 <= k < |chunks'| && k != from ensures IsChain(c, chunks'[k], members'[k]) {
      if k != into {
        var mk := members[k];
        assert Disjoint(ma, mk) && Disjoint(mb, mk);
        forall p | 0 <= p < |mk| ensures c[mk[p]] == cells[mk[p]] {
          assert mk[p] != ma[|ma| - 1] && mk[p] != mb[0];
        }
        ChainFrame(cells, c, chunks[k], mk);
      }
    }
    forall k1, k2 | 0 <= k1 < |members'| && 0 <= k2 < |members'| && k1 != k2 && k1 != from && k2 != from
      ensures Disjoint(members'[k1], members'[k2])
    {
      if k1 == into {
        ConcatDisjoint(ma, mb, members[k2]);
      } else if k2 == into {
        ConcatDisjoint(ma, mb, members[k1]);
      }
    }
  }

  /** The glyphs of two chunks, each apart from a third, are together apart from it. */
  lemma ConcatDisjoint(ma: seq<nat>, mb: seq<nat>, mk: seq<nat>)
    requires Disjoint(ma, mk) && Disjoint(mb, mk)
    ensures Disjoint(ma + mb, mk) && Disjoint(mk, ma + mb)
  {
    forall p, q | 0 <= p < |ma + mb| && 0 <= q < |mk| ensures (ma + mb)[p] != mk[q] {
      if p >= |ma| {
        assert (ma + mb)[p] == mb[p - |ma|];
      }
    }
  }

  /** The full invariant holds with any chunk set aside. */
  lemma ChunksValidSkip(cells: seq<CharBox>, chunks: seq<StrBox>, members: seq<seq<nat>>, skip: int)
    requires ChunksValid(cells, chunks, members, -1)
    ensures ChunksValid(cells, chunks, members, skip)
  {
  }

  /** Dropping the chunk that was not accounted for restores the full invariant. */
  lemma EraseKeepsChunksValid(cells: seq<CharBox>, chunks: seq<StrBox>, members: seq<seq<nat>>, w: nat)
    requires ChunksValid(cells, chunks, members, w) && w < |chunks|
    ensures ChunksValid(cells, Erase(chunks, w), Erase(members, w), -1)
  {
    EraseKeepsChains(cells, chunks, members, w);
    EraseKeepsDisjoint(members, w);
  }

  lemma EraseKeepsChains(cells: seq<CharBox>, chunks: seq<StrBox>, members: seq<seq<nat>>, w: nat)
    requires |chunks| == |members| && w < |chunks|
    requires forall k :: 0 <= k < |chunks| && k != w ==> IsChain(cells, chunks[k], members[k])
    ensures forall k :: 0 <= k < |chunks| - 1 ==> IsChain(cells, Erase(chunks, w)[k], Erase(members, w)[k])
  {
    var chunks', members' := Erase(chunks, w), Erase(members, w);
    forall k | 0 <= k < |chunks'| ensures IsChain(cells, chunks'[k], members'[k]) {
      var j := if k < w then k else k + 1;
      assert chunks'[k] == chunks[j] && members'[k] == members[j];
    }
  }

  lemma EraseKeepsDisjoint(members: seq<seq<nat>>, w: nat)
    requires w < |members|
    requires forall k1, k2 :: 0 <= k1 < |members| && 0 <= k2 < |members| && k1 != k2 && k1 != w && k2 != w ==>
       Disjoint(members[k1], members[k2])
    ensures forall k1, k2 :: 0 <= k1 < |members| - 1 && 0 <= k2 < |members| - 1 && k1 != k2 ==>
       Disjoint(Erase(members, w)[k1], Erase(members, w)[k2])
  {
    var members' := Erase(members, w);
    forall k1, k2 | 0 <= k1 < |members'| && 0 <= k2 < |members'| && k1 != k2
      ensures Disjoint(members'[k1], members'[k2])
    {
      var j1 := if k1 < w then k1 else k1 + 1;
      var j2 := if k2 < w then k2 else k2 + 1;
      assert members'[k1] == members[j1] && members'[k2] == members[j2];
    }
  }

  /** A join loses no glyph: the absorbed chunk's glyphs now belong to the survivor. */
  lemma JoinKeepsCovered(members: seq<seq<nat>>, into: nat, from: nat)
    requires into < |members| && from < |members| && into != from
    ensures Covered(Erase(members[into := members[into] + members[from]], from)) == Covered(members)
  {
    var members' := Erase(members[into := members[into] + members[from]], from);
    var into' := if into < from then into else into - 1;
    assert members'[into'] == members[into] + members[from];
    forall x | x in Covered(members) ensures x in Covered(members') {
      var k :| 0 <= k < |members| && x in members[k];
      if k == into || k == from {
        assert x in members'[into'];
      } else {
        var k' := if k < from then k else k - 1;
        assert members'[k'] == members[k];
      }
    }
    forall x | x in Covered(members') ensures x in Covered(members) {
      var k' :| 0 <= k' < |members'| && x in members'[k'];
      if k' == into' {
        assert x in members[into] || x in members[from];
      } else {
        var k := if k' < from then k' else k' + 1;
        assert members'[k'] == members[k];
      }
    }
  }

  /** The chunks of `initStrBoxes`: one per glyph, head and tail both that glyph. */
  function Singletons(cells: seq<CharBox>): (r: seq<StrBox>)
    ensures |r| == |cells|
    ensures forall k :: 0 <= k < |cells| ==> r[k] == StrBox(k, k, cells[k].bounds)
  {
    seq(|cells|, k requires 0 <= k < |cells| => StrBox(k, k, cells[k].bounds))
  }

  function SingletonMembers(n: nat): (r: seq<seq<nat>>)
    ensures |r| == n && forall k :: 0 <= k < n ==> r[k] == [k]
  {
    seq(n, k => [k])
  }

  /** Unlinked, unflagged glyphs (as the glyph search produces them) each form a chunk
      of their own, and together the chunks cover the arena. */
  lemma SingletonsValid(cells: seq<CharBox>)
    requires forall k :: 0 <= k < |cells| ==> cells[k].next == Nil && cells[k].prev == Nil && !cells[k].wordBoundary
    ensures ChunksValid(cells, Singletons(cells), SingletonMembers(|cells|), -1)
    ensures forall x: nat :: x in Covered(SingletonMembers(|cells|)) <==> x < |cells|
  {
    var ms := SingletonMembers(|cells|);
    forall k | 0 <= k < |cells| ensures IsChain(cells, Singletons(cells)[k], ms[k]) {
      assert ms[k] == [k];
    }
    forall x: nat ensures x in Covered(ms) <==> x < |cells| {
      if x < |cells| {
        assert x in ms[x];
      }
    }
  }

  // -------------------------------------------------------------- checkRep

  /** A list of distinct indices below n has at most n entries. */
  lemma {:induction false} DistinctBounded(m: seq<nat>, n: nat)
    requires Distinct(m) && InRange(m, n)
    ensures |m| <= n
    decreases n
  {
    assert |m| > 0 ==> m[0] < n;
    if |m| == 0 {
    } else if p :| 0 <= p < |m| && m[p] == n - 1 {
      var m' := Erase(m, p);
      forall i | 0 <= i < |m'| ensures m'[i] < n - 1 {
        var j := if i < p then i else i + 1;
        assert m'[i] == m[j] && j != p;
      }
      DistinctBounded(m', n - 1);
    } else {
      DistinctBounded(m, n - 1);
    }
  }

  /** The path followed from the head: consecutive entries joined both ways. */
  ghost predicate Walked(cells: seq<CharBox>, w: seq<nat>) {
    InRange(w, |cells|) &&
    forall p :: 0 <= p < |w| - 1 ==> cells[w[p]].next == Ref(w[p + 1]) && cells[w[p + 1]].prev == Ref(w[p])
  }

  /** Following `next` is deterministic: once a glyph repeats, so does everything after. */
  lemma {:induction false} WalkRepeats(cells: seq<CharBox>, w: seq<nat>, p: nat, q: nat, t: nat)
    requires Walked(cells, w) && p <= q && q + t < |w|
    ensures w[p] == w[q] ==> w[p + t] == w[q + t]
    decreases t
  {
    if t > 0 {
      WalkRepeats(cells, w, p, q, t - 1);
      assert cells[w[p + t - 1]].next == Ref(w[p + t]);
      assert cells[w[q + t - 1]].next == Ref(w[q + t]);
    }
  }

  /** A walk that reaches `last` for the first time at its end visited no glyph twice. */
  lemma FirstArrivalDistinct(cells: seq<CharBox>, w: seq<nat>, last: nat)
    requires Walked(cells, w) && |w| > 0 && w[|w| - 1] == last
    requires forall p :: 0 <= p < |w| - 1 ==> w[p] != last
    ensures Distinct(w)
  {
    forall p, q | 0 <= p < q < |w| ensures w[p] != w[q] {
      var t := |w| - 1 - q;
      WalkRepeats(cells, w, p, q, t);
      assert w[q + t] == last && w[p + t] != last;
    }
  }


  /** Where the hare lands: two links on, one if there is only one, or where it is. */
  function HareStep(cells: seq<CharBox>, x: nat): nat
    requires LinksInRange(cells) && x < |cells|
  {
    match cells[x].next
    case Nil => x
    case Ref(y) => match cells[y].next { case Nil => y case Ref(z) => z }
  }

  /** On a linked path the hare advances two entries, stopping at the tail. */
  lemma HareAdvance(cells: seq<CharBox>, first: nat, last: nat, path: seq<nat>, k: nat)
    requires LinksInRange(cells) && Linked(cells, first, last, path) && k < |path|
    ensures HareStep(cells, path[k]) == path[Min(k + 2, |path| - 1)]
  {
    if k + 1 < |path| {
      assert cells[path[k]].next == Ref(path[k + 1]);
      if k + 2 < |path| {
        assert cells[path[k + 1]].next == Ref(path[k + 2]);
      }
    }
  }

  /** Before the tail, the tortoise is on the path, not at the tail nor at the hare,
      and its links to the next entry hold both ways. */
  lemma TortoiseAdvance(cells: seq<CharBox>, first: nat, last: nat, path: seq<nat>, k: nat)
    requires Linked(cells, first, last, path) && k < |path| - 1
    ensures path[k] != last && path[k] != path[Min(2 * k + 1, |path| - 1)]
    ensures cells[path[k]].next == Ref(path[k + 1]) && cells[path[k + 1]].prev == Ref(path[k])
  {
  }

  /** A walk from an unlinked head that first reaches an unlinked tail at its end is
      a chain. */
  lemma ArrivalLinks(cells: seq<CharBox>, w: seq<nat>, first: nat, last: nat)
    requires Walked(cells, w) && |w| > 0 && w[0] == first && w[|w| - 1] == last
    requires forall p :: 0 <= p < |w| - 1 ==> w[p] != last
    requires first < |cells| && last < |cells| && cells[first].prev == Nil && cells[last].next == Nil
    ensures HasChain(cells, first, last)
  {
    FirstArrivalDistinct(cells, w, last);
    assert Linked(cells, first, last, w);
  }

  /** One round of the loop on a linked path: the tortoise is not yet at the tail,
      the hare is ahead of it, and both move on along the path. */
  lemma OnPathStep(cells: seq<CharBox>, first: nat, last: nat, path: seq<nat>, walked: seq<nat>, steps: nat)
    requires LinksInRange(cells) && Linked(cells, first, last, path)
    requires steps < |path| && walked == path[..steps + 1] && walked[steps] != last
    ensures steps + 1 < |path| && path[steps] != path[Min(2 * steps + 1, |path| - 1)]
    ensures cells[path[steps]].next == Ref(path[steps + 1]) && cells[path[steps + 1]].prev == Ref(path[steps])
    ensures walked + [path[steps + 1]] == path[..steps + 2]
    ensures HareStep(cells, path[Min(2 * steps + 1, |path| - 1)]) == path[Min(2 * (steps + 1) + 1, |path| - 1)]
  {
    TortoiseAdvance(cells, first, last, path, steps);
    HareAdvance(cells, first, last, path, Min(2 * steps + 1, |path| - 1));
    assert path[..steps + 2] == path[..steps + 1] + [path[steps + 1]];
  }

  lemma WalkExtend(cells: seq<CharBox>, w: seq<nat>, x: nat)
    requires Walked(cells, w) && |w| > 0 && x < |cells|
    requires cells[w[|w| - 1]].next == Ref(x) && cells[x].prev == Ref(w[|w| - 1])
    ensures Walked(cells, w + [x])
  {
  }

  /** In a chain of two or more glyphs the head's successor links back to the head. */
  lemma ChainHeadLinksBack(cells: seq<CharBox>, first: nat, last: nat)
    requires first < |cells| && first != last
    ensures HasChain(cells, first, last) ==>
      cells[first].next.Ref? && cells[first].next.index < |cells| &&
      cells[cells[first].next.index].prev == Ref(first)
  {
    if HasChain(cells, first, last) {
      var m :| Linked(cells, first, last, m);
      assert |m| > 1;
      assert cells[m[0]].next == Ref(m[1]) && cells[m[1]].prev == Ref(m[0]);
    }
  }

  /** The back-link step of `checkRep` as the source writes it: `=` in place of `==`
      stores the tortoise into its successor's back link, and the condition is the
      stored link, which is never null, so the step always passes. */
  function BackLinkAsWritten(cells: seq<CharBox>, t: nat): (r: (bool, seq<CharBox>))
    requires LinksInRange(cells) && t < |cells| && cells[t].next.Ref?
    ensures r.0 && |r.1| == |cells| && r.1[cells[t].next.index].prev == Ref(t)
    ensures forall k :: 0 <= k < |cells| && k != cells[t].next.index ==> r.1[k] == cells[k]
  {
    var n := cells[t].next.index;
    (true, cells[n := cells[n].(prev := Ref(t))])
  }

  /** Two glyphs where the head points to the tail but the tail does not point back:
      not a chain, yet the step as written passes it, and repairs the link while
      checking it. */
  lemma BackLinkAsWrittenPassesBrokenChain()
    ensures var cells := [CharBox('a', 0, Rect(0, 0, 1, 1), false, Ref(1), Nil),
                          CharBox('b', 0, Rect(1, 0, 1, 1), false, Nil, Nil)];
      BackLinkAsWritten(cells, 0).0 && !HasChain(cells, 0, 1) && HasChain(BackLinkAsWritten(cells, 0).1, 0, 1)
  {
    var cells := [CharBox('a', 0, Rect(0, 0, 1, 1), false, Ref(1), Nil),
                  CharBox('b', 0, Rect(1, 0, 1, 1), false, Nil, Nil)];
    ChainHeadLinksBack(cells, 0, 1);
    assert Linked(BackLinkAsWritten(cells, 0).1, 0, 1, [0, 1]);
  }

  /** `checkRep`, with the comparison of `src/untypeset.cc:57` read as the intended
      `==`. The tortoise walks one link and checks the back link, the hare runs two
      links ahead; meeting the hare before the tail means a cycle or a broken end, and
      a failed check throws (here: `ok` is false). The source's loop has no bound and
      ends by Floyd's argument; the walk here stops after as many steps as there are
      glyphs, which a chain from head to tail never needs. The verdict is exactly
      whether the chunk satisfies the representation invariant. */
  method CheckRep(arena: array<CharBox>, s: StrBox) returns (ok: bool)
    requires LinksInRange(arena[..]) && s.first < arena.Length && s.last < arena.Length
    ensures ok <==> HasChain(arena[..], s.first, s.last)
  {
    ghost var cells := arena[..];
    ghost var linked := HasChain(cells, s.first, s.last);
    if linked {
      ghost var path :| Linked(cells, s.first, s.last, path);
      if |path| > 1 {
        assert cells[s.first].next == Ref(path[1]);
      }
    }
    if arena[s.first].prev != Nil || arena[s.last].next != Nil {
      return false;
    }
    if s.first == s.last {
      assert Linked(cells, s.first, s.last, [s.first]);
      return true;
    }
    if arena[s.first].next == Nil {
      return false;
    }
    ok := Chase(arena, s);
  }

  /** The tortoise-and-hare loop of `checkRep`, entered once the end links are
      checked and the head has a successor. */
  method Chase(arena: array<CharBox>, s: StrBox) returns (ok: bool)
    requires LinksInRange(arena[..]) && s.first < arena.Length && s.last < arena.Length
    requires arena[s.first].prev == Nil && arena[s.last].next == Nil
    requires s.first != s.last && arena[s.first].next != Nil
    ensures ok <==> HasChain(arena[..], s.first, s.last)
  {
    ghost var cells := arena[..];
    ghost var linked := HasChain(cells, s.first, s.last);
    ghost var path: seq<nat> := [s.first];
    if linked {
      path :| Linked(cells, s.first, s.last, path);
      DistinctBounded(path, arena.Length);
      assert cells[path[0]].next == Ref(path[1]);
    }
    ok := Race(arena, s, linked, path);
  }

  /** The loop of the walk, given a path from head to tail whenever one exists. */
  method Race(arena: array<CharBox>, s: StrBox, ghost linked: bool, ghost path: seq<nat>) returns (ok: bool)
    requires LinksInRange(arena[..]) && s.first < arena.Length && s.last < arena.Length
    requires arena[s.first].prev == Nil && arena[s.last].next == Nil && arena[s.first].next != Nil
    requires linked == HasChain(arena[..], s.first, s.last)
    requires linked ==> (Linked(arena[..], s.first, s.last, path) && 1 < |path| <= arena.Length &&
                         path[1] == arena[s.first].next.index)
    ensures ok <==> linked
  {
    ghost var cells := arena[..];
    var tortoise: nat := s.first;
    var hare: nat := arena[s.first].next.index;
    ghost var walked: seq<nat> := [s.first];
    var steps := 0;
    while steps < arena.Length
      invariant tortoise < arena.Length && hare < arena.Length
      invariant |walked| == steps + 1 && walked[0] == s.first && walked[steps] == tortoise
      invariant Walked(cells, walked)
      invariant forall p :: 0 <= p < steps ==> walked[p] != s.last
      invariant linked ==> steps < |path| && walked == path[..steps + 1] && hare == path[Min(2 * steps + 1, |path| - 1)]
    {
      if tortoise == s.last {
        ArrivalLinks(cells, walked, s.first, s.last);
        return true;
      }
      if linked {
        OnPathStep(cells, s.first, s.last, path, walked, steps);
      }
      if tortoise == hare {
        return false;
      }
      var broken, nextTortoise, nextHare := Advance(arena, tortoise, hare);
      if broken {
        return false;
      }
      WalkExtend(cells, walked, nextTortoise);
      tortoise, hare := nextTortoise, nextHare;
      walked := walked + [tortoise];
      steps := steps + 1;
    }
    return false;
  }

  /** One move of the walk: the tortoise takes one link, which must link back (a
      null link there means the hare has already caught it), and the hare takes up
      to two. */
  method Advance(arena: array<CharBox>, tortoise: nat, hare: nat) returns (broken: bool, nextTortoise: nat, nextHare: nat)
    requires LinksInRange(arena[..]) && tortoise < arena.Length && hare < arena.Length
    ensures broken <==> arena[tortoise].next == Nil || arena[arena[tortoise].next.index].prev != Ref(tortoise)
    ensures !broken ==> arena[tortoise].next == Ref(nextTortoise) && nextTortoise < arena.Length
    ensures !broken ==> nextHare == HareStep(arena[..], hare)
  {
    var nx := arena[tortoise].next;
    if nx == Nil || arena[nx.index].prev != Ref(tortoise) {
      return true, 0, 0;
    }
    nextTortoise := nx.index;
    nextHare := hare;
    var h := arena[hare].next;
    if h != Nil {
      var h2 := arena[h.index].next;
      nextHare := if h2 != Nil then h2.index else h.index;
    }
    return false, nextTortoise, nextHare;
  }

  // ------------------------------------------------------ reading a chain

  /** The characters from the head up to, not including, the first glyph flagged as a
      word end: what the forward walk of `getBoundaryWordChars` collects. */
  function FirstRun(cells: seq<CharBox>, m: seq<nat>): string
    requires InRange(m, |cells|)
    decreases |m|
  {
    if m == [] || cells[m[0]].wordBoundary then [] else [cells[m[0]].ch] + FirstRun(cells, m[1..])
  }

  /** The characters after the last glyph flagged as a word end: what the backward walk
      of `getBoundaryWordChars` collects. */
  function LastWord(cells: seq<CharBox>, m: seq<nat>): string
    requires InRange(m, |cells|)
    decreases |m|
  {
    if m == [] || cells[m[|m| - 1]].wordBoundary then []
    else LastWord(cells, m[..|m| - 1]) + [cells[m[|m| - 1]].ch]
  }

  function FlaggedCount(cells: seq<CharBox>, m: seq<nat>): nat
    requires InRange(m, |cells|)
    decreases |m|
  {
    if m == [] then 0 else (if cells[m[0]].wordBoundary then 1 else 0) + FlaggedCount(cells, m[1..])
  }

  /** The glyphs' characters in chain order, a space after each glyph flagged as a word
      end. */
  function RawText(cells: seq<CharBox>, m: seq<nat>): string
    requires InRange(m, |cells|)
    decreases |m|
  {
    if m == [] then []
    else Piece(cells[m[0]]) + RawText(cells, m[1..])
  }

  /** The walk of `strBoxToString` from a chain's head along the `next` links: each
      glyph's character, and a space after a glyph that ends a word. */
  method ReadChain(arena: array<CharBox>, first: nat, ghost last: nat, ghost m: seq<nat>) returns (result: string)
    requires Linked(arena[..], first, last, m)
    ensures result == RawText(arena[..], m)
  {
    ghost var cells := arena[..];
    ghost var raw := RawText(cells, m);
    result := [];
    var ptr := Ref(first);
    ghost var p: nat := 0;
    while ptr != Nil
      invariant p <= |m| && ptr == (if p < |m| then Ref(m[p]) else Nil)
      invariant result + RawText(cells, m[p..]) == raw
      decreases |m| - p
    {
      RawTextStep(cells, m, p);
      var glyph := arena[ptr.index];
      ghost var before := result;
      result := result + [glyph.ch];
      if glyph.wordBoundary {
        result := result + " ";
      }
      assert result == before + Piece(cells[m[p]]);
      ptr := glyph.next;
      p := p + 1;
    }
    assert m[p..] == [];
  }

  /** The text one glyph contributes: its character, and a space when it ends a word. */
  function Piece(g: CharBox): string {
    [g.ch] + (if g.wordBoundary then " " else "")
  }

  /** The text from position p on starts with the piece of glyph m[p]. */
  lemma RawTextStep(cells: seq<CharBox>, m: seq<nat>, p: nat)
    requires InRange(m, |cells|) && p < |m|
    ensures InRange(m[p..], |cells|) && InRange(m[p + 1..], |cells|)
    ensures RawText(cells, m[p..]) == Piece(cells[m[p]]) + RawText(cells, m[p + 1..])
  {
    var t := m[p..];
    forall q | 0 <= q < |t| ensures t[q] < |cells| {
      assert t[q] == m[p + q];
    }
    assert t[0] == m[p] && t[1..] == m[p + 1..];
  }

  /** One character per glyph and one space per flagged glyph. */
  lemma {:induction false} RawTextLength(cells: seq<CharBox>, m: seq<nat>)
    requires InRange(m, |cells|)
    ensures |RawText(cells, m)| == |m| + FlaggedCount(cells, m)
    decreases |m|
  {
    if m != [] {
      RawTextLength(cells, m[1..]);
    }
  }

  /** The boundary runs are pieces of the text: the forward run is a prefix of the
      chain's characters and the backward run, on a chain with an unflagged tail, is
      non-empty and ends with the tail's character. */
  lemma {:induction false} BoundaryRuns(cells: seq<CharBox>, m: seq<nat>)
    requires InRange(m, |cells|)
    ensures |FirstRun(cells, m)| <= |m| && |LastWord(cells, m)| <= |m|
    ensures forall p :: 0 <= p < |FirstRun(cells, m)| ==> FirstRun(cells, m)[p] == cells[m[p]].ch && !cells[m[p]].wordBoundary
    ensures |m| > 0 && !cells[m[|m| - 1]].wordBoundary ==>
      |LastWord(cells, m)| > 0 && LastWord(cells, m)[|LastWord(cells, m)| - 1] == cells[m[|m| - 1]].ch
    decreases |m|
  {
    if m != [] {
      BoundaryRuns(cells, m[1..]);
      BoundaryRuns(cells, m[..|m| - 1]);
    }
  }
}
