/** The glyph-conflict filter of src/untypeset.cc: two candidate glyphs conflict when
    their overlap covers more than 40% of either one's box, and of two conflicting
    candidates the worse-scoring one (lower is better) is dropped. */
module Glyphs {
  import opened Geometry
  import opened Sequences
  import opened Chains

  /** `glyphsConflict`: the intersection's area exceeds 0.4 of either area. The
      source divides in single precision; `inter / area > 0.4` is written here as
      `5 * inter > 2 * area`, which also gives `false` for an empty box, where the
      source computes 0/0. */
  predicate Conflict(a: Rect, b: Rect) {
    var inter := Intersect(a, b).Area();
    5 * inter > 2 * a.Area() || 5 * inter > 2 * b.Area()
  }

  lemma ConflictSymmetric(a: Rect, b: Rect)
    ensures Conflict(a, b) <==> Conflict(b, a)
  {
    IntersectCommutative(a, b);
  }

  /** Conflicting boxes share a pixel. */
  lemma ConflictOverlaps(a: Rect, b: Rect)
    requires a.WellFormed() && b.WellFormed()
    ensures Conflict(a, b) ==> exists px, py :: a.Covers(px, py) && b.Covers(px, py)
  {
    var r := Intersect(a, b);
    if Conflict(a, b) {
      MulMonotonic(0, 0, a.width, a.height);
      MulMonotonic(0, 0, b.width, b.height);
      assert r.Area() > 0;
      assert r.width > 0 && r.height > 0;
      assert r.Covers(r.x, r.y);
    }
  }

  /** A non-empty box lying inside another conflicts with it: the overlap is all of
      the inner box. In particular two candidates found at the same place conflict. */
  lemma NestedConflict(a: Rect, b: Rect)
    requires a.width > 0 && a.height > 0 && a.Within(b)
    ensures Conflict(a, b) && Conflict(b, a)
  {
    InnerOverlap(a, b);
    var area := a.Area();
    assert area > 0;
    assert Intersect(a, b).Area() == area;
    assert 5 * area > 2 * area;
    ConflictSymmetric(a, b);
  }

  /** No two glyphs of the list conflict. */
  predicate ConflictFree(gs: seq<CharBox>) {
    forall i, j :: 0 <= i < |gs| && 0 <= j < |gs| && i != j ==> !Conflict(gs[i].bounds, gs[j].bounds)
  }

  /** Glyph p scores strictly better than every other glyph it conflicts with. */
  predicate Dominant(gs: seq<CharBox>, p: nat)
    requires p < |gs|
  {
    forall q :: 0 <= q < |gs| && q != p && Conflict(gs[p].bounds, gs[q].bounds) ==> gs[p].score < gs[q].score
  }

  /** `pos` maps each glyph of `cur` to the place it came from in `gs`, in order. */
  ghost predicate Embeds(cur: seq<CharBox>, gs: seq<CharBox>, pos: seq<nat>) {
    |pos| == |cur| &&
    (forall k :: 0 <= k < |pos| ==> pos[k] < |gs| && cur[k] == gs[pos[k]]) &&
    (forall k1, k2 :: 0 <= k1 < k2 < |pos| ==> pos[k1] < pos[k2])
  }

  /** Dropping the victim of a conflict keeps the embedding and every dominant glyph. */
  lemma DropVictim(gs: seq<CharBox>, cur: seq<CharBox>, pos: seq<nat>, i: nat, j: nat)
    requires Embeds(cur, gs, pos) && i < |cur| && j < |cur| && i != j
    requires Conflict(cur[i].bounds, cur[j].bounds)
    requires forall p :: 0 <= p < |gs| && Dominant(gs, p) ==> p in pos
    ensures var v := if cur[i].score < cur[j].score then j else i;
      Embeds(Erase(cur, v), gs, Erase(pos, v)) &&
      forall p :: 0 <= p < |gs| && Dominant(gs, p) ==> p in Erase(pos, v)
  {
    var v := if cur[i].score < cur[j].score then j else i;
    var o := if v == i then j else i;
    var pos' := Erase(pos, v);
    ConflictSymmetric(cur[i].bounds, cur[j].bounds);
    assert Conflict(gs[pos[v]].bounds, gs[pos[o]].bounds);
    assert pos[v] != pos[o] by {
      if v < o {
        assert pos[v] < pos[o];
      } else {
        assert pos[o] < pos[v];
      }
    }
    assert !Dominant(gs, pos[v]);
    EraseEmbeds(cur, gs, pos, v);
    forall p | 0 <= p < |gs| && Dominant(gs, p) ensures p in pos' {
      var k :| 0 <= k < |pos| && pos[k] == p;
      assert k != v;
      if k < v {
        assert pos'[k] == p;
      } else {
        assert pos'[k - 1] == p;
      }
    }
  }

  /** Erasing one glyph and its origin keeps the embedding. */
  lemma EraseEmbeds(cur: seq<CharBox>, gs: seq<CharBox>, pos: seq<nat>, v: nat)
    requires Embeds(cur, gs, pos) && v < |cur|
    ensures Embeds(Erase(cur, v), gs, Erase(pos, v))
  {
    var cur', pos' := Erase(cur, v), Erase(pos, v);
    forall k1, k2 | 0 <= k1 < k2 < |pos'| ensures pos'[k1] < pos'[k2] {
      var o1 := if k1 < v then k1 else k1 + 1;
      var o2 := if k2 < v then k2 else k2 + 1;
      assert pos'[k1] == pos[o1] && pos'[k2] == pos[o2];
    }
  }

  /** The inner loop of `filterConflictingGlyphs`: the first other glyph that
      conflicts with glyph i, or |gs| when there is none. */
  method FirstConflict(gs: seq<CharBox>, i: nat) returns (j: nat)
    requires i < |gs|
    ensures j <= |gs|
    ensures j < |gs| ==> j != i && Conflict(gs[i].bounds, gs[j].bounds)
    ensures forall b :: 0 <= b < j && b != i ==> !Conflict(gs[i].bounds, gs[b].bounds)
  {
    j := 0;
    while j < |gs|
      invariant j <= |gs|
      invariant forall b :: 0 <= b < j && b != i ==> !Conflict(gs[i].bounds, gs[b].bounds)
    {
      if i != j && Conflict(gs[i].bounds, gs[j].bounds) {
        return;
      }
      j := j + 1;
    }
  }

  /** `filterConflictingGlyphs`: scan all ordered pairs; on the first conflicting pair
      erase the worse-scoring glyph (on a tie, the one at the outer index) and restart
      the scan from the beginning. The survivors keep their order, no two of them
      conflict, none is lost that beat every candidate it conflicted with, and a
      non-empty input leaves a non-empty result. */
  method FilterConflictingGlyphs(chars: seq<CharBox>) returns (out: seq<CharBox>)
    ensures IsSubseq(out, chars)
    ensures ConflictFree(out)
    ensures forall p :: 0 <= p < |chars| && Dominant(chars, p) ==> chars[p] in out
    ensures |chars| > 0 ==> |out| > 0
  {
    out := chars;
    ghost var pos: seq<nat> := seq(|chars|, k => k);
    SubseqReflexive(chars);
    forall p | 0 <= p < |chars| ensures p in pos {
      assert pos[p] == p;
    }
    assert Embeds(out, chars, pos);
    var i := 0;
    while i < |out|
      invariant 0 <= i <= |out|
      invariant IsSubseq(out, chars) && Embeds(out, chars, pos)
      invariant forall p :: 0 <= p < |chars| && Dominant(chars, p) ==> p in pos
      invariant |chars| > 0 ==> |out| > 0
      invariant forall a, b :: 0 <= a < i && 0 <= b < |out| && a != b ==> !Conflict(out[a].bounds, out[b].bounds)
      decreases |out|, |out| - i
    {
      var j := FirstConflict(out, i);
      if j < |out| {
        var kill := if out[i].score < out[j].score then j else i;
        DropVictim(chars, out, pos, i, j);
        EraseIsSubseq(out, kill);
        SubseqTransitive(Erase(out, kill), out, chars);
        out := Erase(out, kill);
        pos := Erase(pos, kill);
        i := 0;
      } else {
        i := i + 1;
      }
    }
    forall p | 0 <= p < |chars| && Dominant(chars, p) ensures chars[p] in out {
      var k :| 0 <= k < |pos| && pos[k] == p;
      assert out[k] == chars[p];
    }
  }
}
