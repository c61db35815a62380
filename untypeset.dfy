/** The stage order of `untypeset` (src/untypeset.cc): the glyphs the template search
    found are filtered for conflicts, turned into single-glyph chunks, joined into
    words, then lines, garbage lines are dropped, lines are joined into bubbles, and
    the bubbles are placed into panels and sorted. */
module Untypeset {
  import opened Wrappers
  import opened Geometry
  import opened Page
  import opened Sequences
  import opened Chains
  import opened Glyphs
  import opened Clustering
  import opened Placement

  /** `checkRep` over every chunk between two stages: on a list in good order it
      always passes. */
  method CheckStage(c: Clusters) returns (ok: bool)
    requires c.Valid()
    ensures ok
  {
    assert c.ValidExcept(-1);
    forall k | 0 <= k < |c.chunks| ensures HasChain(c.arena[..], c.chunks[k].first, c.chunks[k].last) {
      c.ChainPasses(-1, k);
    }
    ok := c.CheckRepAll();
  }

  /** A glyph of a sub-sequence is a glyph of the whole. */
  lemma SubseqElements(s: seq<CharBox>, t: seq<CharBox>, k: nat)
    requires IsSubseq(s, t) && k < |s|
    ensures s[k] in t
  {
    SubseqMembers(s, t);
    assert s[k] in multiset(s);
  }

  /** The chunking stages of `untypeset`, each followed by `checkRep`: one chunk per
      glyph, then words, lines, the garbage filter and bubbles. The glyphs keep their
      characters, scores and boxes, there are no more chunks than glyphs, and at the
      end no two chunks make a bubble. The chunks hold only the glyphs, and every
      glyph whose character is not questionable is still held by one: the joins lose
      no glyph, and a garbage line is made of questionable glyphs only. */
  method Chunk(kept: seq<CharBox>) returns (c: Clusters)
    requires forall k :: 0 <= k < |kept| ==> kept[k].next == Nil && kept[k].prev == Nil && !kept[k].wordBoundary
    ensures fresh(c) && fresh(c.arena) && c.Valid()
    ensures SameGlyphs(kept, c.arena[..], false) && |c.chunks| <= |kept|
    ensures forall i, j :: 0 <= i < |c.chunks| && 0 <= j < |c.chunks| && i != j ==>
      Plan(Bubbles, c.arena[..], c.chunks, c.members, i, j) == None
    ensures forall x :: x in Covered(c.members) ==> x < |kept|
    ensures forall x :: 0 <= x < |kept| && !Questionable(kept[x].ch) ==> x in Covered(c.members)
  {
    c := ChunkLines(kept);
    FilterStage(c, kept);
    BubbleStage(c, kept);
    CoveredInArena(c);
  }

  /** The first stages: one chunk per glyph, then words, then lines. Every glyph is
      still held by a chunk. */
  method ChunkLines(kept: seq<CharBox>) returns (c: Clusters)
    requires forall k :: 0 <= k < |kept| ==> kept[k].next == Nil && kept[k].prev == Nil && !kept[k].wordBoundary
    ensures fresh(c) && fresh(c.arena) && c.Valid()
    ensures SameGlyphs(kept, c.arena[..], false) && |c.chunks| <= |kept|
    ensures forall x :: 0 <= x < |kept| ==> x in Covered(c.members)
  {
    c := new Clusters(kept);
    ghost var all := Covered(c.members);

    c.Collect(Words);
    var passed := CheckStage(c);
    ghost var afterWords := c.arena[..];

    c.Collect(Lines);
    passed := CheckStage(c);
    assert Covered(c.members) == all;
    assert SameGlyphs(kept, afterWords, true);
    assert SameGlyphs(afterWords, c.arena[..], false);
  }

  /** The garbage filter: when the lines hold every glyph, the lines it keeps hold
      every glyph that is not questionable. */
  method FilterStage(c: Clusters, ghost kept: seq<CharBox>)
    requires c.Valid() && SameGlyphs(kept, c.arena[..], false)
    requires forall x :: 0 <= x < |kept| ==> x in Covered(c.members)
    modifies c
    ensures c.Valid() && c.arena[..] == old(c.arena[..]) && |c.chunks| <= old(|c.chunks|)
    ensures forall x :: 0 <= x < |kept| && !Questionable(kept[x].ch) ==> x in Covered(c.members)
  {
    ghost var lines := c.members;
    c.FilterGarbageLines();
    var passed := CheckStage(c);
    FilterKeepsPlainGlyphs(kept, c.arena[..], lines);
  }

  /** The bubble stage keeps the glyphs the lines hold and ends at its fixed point. */
  method BubbleStage(c: Clusters, ghost kept: seq<CharBox>)
    requires c.Valid() && SameGlyphs(kept, c.arena[..], false)
    requires forall x :: 0 <= x < |kept| && !Questionable(kept[x].ch) ==> x in Covered(c.members)
    modifies c, c.arena
    ensures c.Valid() && SameGlyphs(kept, c.arena[..], false) && |c.chunks| <= old(|c.chunks|)
    ensures forall i, j :: 0 <= i < |c.chunks| && 0 <= j < |c.chunks| && i != j ==>
      Plan(Bubbles, c.arena[..], c.chunks, c.members, i, j) == None
    ensures forall x :: 0 <= x < |kept| && !Questionable(kept[x].ch) ==> x in Covered(c.members)
  {
    ghost var cells := c.arena[..];
    c.Collect(Bubbles);
    var passed := CheckStage(c);
    SameGlyphsTransitive(kept, cells, c.arena[..], false);
  }

  /** The glyphs the chunks hold are glyphs of the arena. */
  lemma CoveredInArena(c: Clusters)
    requires c.Valid()
    ensures forall x :: x in Covered(c.members) ==> x < c.arena.Length
  {
    assert c.ValidExcept(-1);
    forall x | x in Covered(c.members) ensures x < c.arena.Length {
      var k :| 0 <= k < |c.members| && x in c.members[k];
      var p :| 0 <= p < |c.members[k]| && c.members[k][p] == x;
    }
  }

  /** The last two stages: place every finished chunk and sort each panel's dialog. */
  method Distribute(ctx: Context, c: Clusters)
    requires c.Valid() && (|c.chunks| == 0 || |ctx.panels| > 0)
    modifies ctx
    ensures |ctx.panels| == |old(ctx.panels)|
    ensures forall p :: 0 <= p < |ctx.panels| ==>
      ctx.panels[p].bounds == old(ctx.panels[p].bounds) &&
      multiset(ctx.panels[p].dialog) == multiset(old(ctx.panels[p].dialog) + AssignedTo(old(ctx.panels), BubblesOf(c), p)) &&
      InOrder(ctx.panels[p].dialog)
    ensures |old(ctx.panels)| > 0 ==> forall k :: 0 <= k < |c.chunks| ==>
      BubblesOf(c)[k] in multiset(ctx.panels[ArgMin(old(ctx.panels), c.chunks[k].bounds)].dialog)
  {
    ghost var bs := BubblesOf(c);
    ghost var start := ctx.panels;
    PlaceBubblesInPanels(ctx, c);
    ghost var placed := ctx.panels;
    SortBubblesInPanels(ctx);
    Distributed(start, placed, ctx.panels, bs);
    BubbleBounds(c);
    assert BubblesOf(c) == bs;
  }

  /** Placement followed by sorting: each panel keeps its box and holds its earlier
      dialog plus the bubbles assigned to it, in reading order, and each bubble is in
      the panel its box chooses. */
  lemma Distributed(start: seq<Panel>, placed: seq<Panel>, final: seq<Panel>, bs: seq<Bubble>)
    requires bs == [] ==> placed == start
    requires bs != [] ==> |start| > 0 && placed == PlaceAll(start, bs)
    requires |final| == |placed|
    requires forall p :: 0 <= p < |final| ==>
      final[p].bounds == placed[p].bounds && multiset(final[p].dialog) == multiset(placed[p].dialog) && InOrder(final[p].dialog)
    ensures |final| == |start|
    ensures forall p :: 0 <= p < |final| ==>
      final[p].bounds == start[p].bounds &&
      multiset(final[p].dialog) == multiset(start[p].dialog + AssignedTo(start, bs, p)) &&
      InOrder(final[p].dialog)
    ensures |start| > 0 ==> forall k :: 0 <= k < |bs| ==> bs[k] in multiset(final[ArgMin(start, bs[k].bounds)].dialog)
  {
    PlacedDialogs(start, placed, bs);
    if |start| > 0 {
      AllPlaced(start, final, bs);
    }
  }

  /** After placement and sorting, each bubble is in the dialog of the panel its box
      chooses. */
  lemma AllPlaced(start: seq<Panel>, final: seq<Panel>, bs: seq<Bubble>)
    requires |start| > 0 && |final| == |start|
    requires forall p :: 0 <= p < |final| ==>
      multiset(final[p].dialog) == multiset(start[p].dialog + AssignedTo(start, bs, p))
    ensures forall k :: 0 <= k < |bs| ==> bs[k] in multiset(final[ArgMin(start, bs[k].bounds)].dialog)
  {
    forall k | 0 <= k < |bs| ensures bs[k] in multiset(final[ArgMin(start, bs[k].bounds)].dialog) {
      var p := ArgMin(start, bs[k].bounds);
      AssignedToHas(start, bs, k);
      assert bs[k] in multiset(start[p].dialog + AssignedTo(start, bs, p));
    }
  }

  /** What placement leaves in each panel, with or without bubbles. */
  lemma PlacedDialogs(start: seq<Panel>, placed: seq<Panel>, bs: seq<Bubble>)
    requires bs == [] ==> placed == start
    requires bs != [] ==> |start| > 0 && placed == PlaceAll(start, bs)
    ensures |placed| == |start|
    ensures forall p :: 0 <= p < |placed| ==>
      placed[p].bounds == start[p].bounds && placed[p].dialog == start[p].dialog + AssignedTo(start, bs, p)
  {
    forall p | 0 <= p < |placed| ensures placed[p].bounds == start[p].bounds && placed[p].dialog == start[p].dialog + AssignedTo(start, bs, p) {
      if bs != [] {
        PlaceAllDialogs(start, bs, p);
      }
    }
  }

  /** `untypeset`. The glyph search (`findGlyphs` over the loaded templates) is not
      part of this model: its result is the parameter `glyphs`, each one unlinked and
      without a word-end flag. The source asserts that every bubble finds a panel,
      so a page with glyphs needs a panel. The result is the surviving glyphs and the
      finished chunks; afterwards every panel keeps its box, its dialog holds its
      earlier bubbles plus exactly the new bubbles whose best panel it is, and it is
      sorted by the reading-order comparator. */
  method Untypeset(ctx: Context, glyphs: seq<CharBox>) returns (kept: seq<CharBox>, c: Clusters)
    requires forall k :: 0 <= k < |glyphs| ==> glyphs[k].next == Nil && glyphs[k].prev == Nil && !glyphs[k].wordBoundary
    requires |glyphs| == 0 || |ctx.panels| > 0
    modifies ctx
    ensures fresh(c) && c.Valid()
    ensures IsSubseq(kept, glyphs) && ConflictFree(kept)
    ensures forall p :: 0 <= p < |glyphs| && Dominant(glyphs, p) ==> glyphs[p] in kept
    ensures SameGlyphs(kept, c.arena[..], false) && ConflictFree(c.arena[..])
    ensures forall i, j :: 0 <= i < |c.chunks| && 0 <= j < |c.chunks| && i != j ==>
      Plan(Bubbles, c.arena[..], c.chunks, c.members, i, j) == None
    ensures forall x :: x in Covered(c.members) ==> x < |kept|
    ensures forall x :: 0 <= x < |kept| && !Questionable(kept[x].ch) ==> x in Covered(c.members)
    ensures |ctx.panels| == |old(ctx.panels)|
    ensures forall p :: 0 <= p < |ctx.panels| ==>
      ctx.panels[p].bounds == old(ctx.panels[p].bounds) &&
      multiset(ctx.panels[p].dialog) == multiset(old(ctx.panels[p].dialog) + AssignedTo(old(ctx.panels), BubblesOf(c), p)) &&
      InOrder(ctx.panels[p].dialog)
    ensures |c.chunks| > 0 ==> |old(ctx.panels)| > 0
    ensures |old(ctx.panels)| > 0 ==> forall k :: 0 <= k < |c.chunks| ==>
      BubblesOf(c)[k] in multiset(ctx.panels[ArgMin(old(ctx.panels), c.chunks[k].bounds)].dialog)
  {
    kept := FilterConflictingGlyphs(glyphs);
    forall k | 0 <= k < |kept| ensures kept[k].next == Nil && kept[k].prev == Nil && !kept[k].wordBoundary {
      SubseqElements(kept, glyphs, k);
    }
    c := Chunk(kept);
    SameGlyphsConflictFree(kept, c.arena[..]);
    if |glyphs| == 0 {
      assert kept == [];
    }
    Distribute(ctx, c);
  }

  /** Conflicts depend only on the boxes, which the stages do not change. */
  lemma SameGlyphsConflictFree(g0: seq<CharBox>, g: seq<CharBox>)
    requires SameGlyphs(g0, g, false) && ConflictFree(g0)
    ensures ConflictFree(g)
  {
    forall i, j | 0 <= i < |g| && 0 <= j < |g| && i != j ensures !Conflict(g[i].bounds, g[j].bounds) {
      assert g[i].bounds == g0[i].bounds && g[j].bounds == g0[j].bounds;
    }
  }
}
