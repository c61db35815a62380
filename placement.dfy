/** Putting the finished bubbles into panels and ordering each panel's dialog
    (src/untypeset.cc): a bubble goes to the first panel that leaves the least of its
    area outside, and each panel's dialog is then sorted top to bottom, left to right
    within a 5-pixel band. */
module Placement {
  import opened Wrappers
  import opened Geometry
  import opened Page
  import opened Text
  import opened Chains
  import opened Clustering

  /** `portionInPanel`: the area of the bubble's box that lies outside the panel. */
  function PortionInPanel(panel: Panel, box: Rect): int {
    box.Area() - Intersect(panel.bounds, box).Area()
  }

  /** The portion is never negative nor more than the box's area; it is zero when the
      box lies inside the panel, and for a box of positive size only then. */
  lemma PortionBounds(panel: Panel, box: Rect)
    requires box.WellFormed()
    ensures 0 <= PortionInPanel(panel, box) <= box.Area()
    ensures box.Within(panel.bounds) ==> PortionInPanel(panel, box) == 0
    ensures box.width > 0 && box.height > 0 && PortionInPanel(panel, box) == 0 ==> box.Within(panel.bounds)
  {
    PortionRange(panel, box);
    if box.width > 0 && box.height > 0 {
      if box.Within(panel.bounds) {
        InsideNoPortion(panel, box);
      }
      if PortionInPanel(panel, box) == 0 {
        NoPortionInside(panel, box);
      }
    }
  }

  /** The portion lies between zero and the box's area, and a box without area has
      none outside. */
  lemma PortionRange(panel: Panel, box: Rect)
    requires box.WellFormed()
    ensures 0 <= PortionInPanel(panel, box) <= box.Area()
    ensures box.width == 0 || box.height == 0 ==> PortionInPanel(panel, box) == 0
  {
    IntersectAreaAtMost(panel.bounds, box);
    MulMonotonic(0, 0, box.width, box.height);
    if box.width == 0 || box.height == 0 {
      assert box.Area() == 0;
    }
  }

  /** A box of positive size inside the panel has nothing outside it. */
  lemma InsideNoPortion(panel: Panel, box: Rect)
    requires box.width > 0 && box.height > 0 && box.Within(panel.bounds)
    ensures PortionInPanel(panel, box) == 0
  {
    InnerOverlap(box, panel.bounds);
    IntersectCommutative(panel.bounds, box);
  }

  /** A box of positive size with nothing outside the panel lies inside it. */
  lemma NoPortionInside(panel: Panel, box: Rect)
    requires box.width > 0 && box.height > 0 && PortionInPanel(panel, box) == 0
    ensures box.Within(panel.bounds)
  {
    var r := Intersect(panel.bounds, box);
    MulMonotonic(1, 1, box.width, box.height);
    assert r.Area() == box.Area() > 0;
    FullAreaIsWhole(r, box);
  }

  /** A sub-rectangle with the whole area of a non-empty rectangle is that rectangle. */
  lemma FullAreaIsWhole(r: Rect, box: Rect)
    requires r.WellFormed() && r.Within(box) && r.Area() == box.Area() > 0
    ensures r == box
  {
    MulMonotonic(0, 0, r.width, r.height);
    assert r.width <= box.width && r.height <= box.height;
    if r.width < box.width {
      MulMonotonic(r.width + 1, r.height, box.width, box.height);
      assert false;
    } else if r.height < box.height {
      MulMonotonic(r.width, r.height + 1, box.width, box.height);
      assert false;
    }
  }

  /** The panel `placeBubblesInPanels` picks for a box: the best of the panels before
      the last, replaced by the last only when it leaves strictly less outside. */
  function ArgMin(panels: seq<Panel>, box: Rect): (r: nat)
    requires |panels| > 0
    ensures r < |panels|
    decreases |panels|
  {
    if |panels| == 1 then 0
    else
      var n := |panels| - 1;
      var best := ArgMin(panels[..n], box);
      if PortionInPanel(panels[n], box) < PortionInPanel(panels[best], box) then n else best
  }

  /** The chosen panel is the first one with the least portion outside: none leaves
      less, and every earlier one leaves strictly more. */
  lemma {:induction false} ArgMinIsLeast(panels: seq<Panel>, box: Rect)
    requires |panels| > 0
    ensures var r := ArgMin(panels, box);
      (forall k :: 0 <= k < |panels| ==> PortionInPanel(panels[r], box) <= PortionInPanel(panels[k], box)) &&
      (forall k :: 0 <= k < r ==> PortionInPanel(panels[k], box) > PortionInPanel(panels[r], box))
    decreases |panels|
  {
    if |panels| > 1 {
      var n := |panels| - 1;
      ArgMinIsLeast(panels[..n], box);
      assert forall k :: 0 <= k < n ==> panels[..n][k] == panels[k];
    }
  }

  /** The choice depends only on the panels' boxes, not on their dialog. */
  lemma {:induction false} ArgMinBoundsOnly(p1: seq<Panel>, p2: seq<Panel>, box: Rect)
    requires |p1| == |p2| > 0 && forall k :: 0 <= k < |p1| ==> p1[k].bounds == p2[k].bounds
    ensures ArgMin(p1, box) == ArgMin(p2, box)
    decreases |p1|
  {
    if |p1| > 1 {
      ArgMinBoundsOnly(p1[..|p1| - 1], p2[..|p2| - 1], box);
    }
  }

  /** The inner loop of `placeBubblesInPanels`: scan the panels keeping the least
      portion seen so far (initially the largest float, here "none yet") and its
      index, replacing them only on a strictly smaller portion. */
  method ChoosePanel(panels: seq<Panel>, box: Rect) returns (minIndex: nat)
    requires |panels| > 0
    ensures minIndex == ArgMin(panels, box)
  {
    var minSoFar: Option<int> := None;
    minIndex := 0;
    var i := 0;
    while i < |panels|
      invariant 0 <= i <= |panels|
      invariant i == 0 <==> minSoFar == None
      invariant i > 0 ==> minIndex == ArgMin(panels[..i], box) && minSoFar == Some(PortionInPanel(panels[minIndex], box))
    {
      if i > 0 {
        ArgMinStep(panels, box, i);
      }
      var portion := PortionInPanel(panels[i], box);
      if minSoFar == None || portion < minSoFar.value {
        minSoFar := Some(portion);
        minIndex := i;
      }
      i := i + 1;
    }
    assert panels[..i] == panels;
  }

  /** Extending the panels considered by one: the new panel wins only when it leaves
      strictly less outside than the best so far. */
  lemma ArgMinStep(panels: seq<Panel>, box: Rect, i: nat)
    requires 0 < i < |panels|
    ensures var best := ArgMin(panels[..i], box);
      ArgMin(panels[..i + 1], box) == if PortionInPanel(panels[i], box) < PortionInPanel(panels[best], box) then i else best
  {
    assert panels[..i + 1][..i] == panels[..i];
  }

  /** A bubble of positive size that lies inside exactly one panel goes to that panel:
      only there is none of it left outside. */
  lemma ContainedGoesToPanel(panels: seq<Panel>, box: Rect, p: nat)
    requires p < |panels| && box.width > 0 && box.height > 0 && box.Within(panels[p].bounds)
    requires forall q :: 0 <= q < |panels| && q != p ==> !box.Within(panels[q].bounds)
    ensures ArgMin(panels, box) == p
  {
    var r := ArgMin(panels, box);
    ArgMinIsLeast(panels, box);
    PortionBounds(panels[p], box);
    PortionBounds(panels[r], box);
  }

  /** One bubble appended to the dialog of the panel chosen for its box. */
  function Place(panels: seq<Panel>, b: Bubble): (r: seq<Panel>)
    requires |panels| > 0
    ensures |r| == |panels| && forall k :: 0 <= k < |r| ==> r[k].bounds == panels[k].bounds
  {
    var i := ArgMin(panels, b.bounds);
    panels[i := panels[i].(dialog := panels[i].dialog + [b])]
  }

  /** The bubbles placed one after another. */
  function PlaceAll(panels: seq<Panel>, bs: seq<Bubble>): (r: seq<Panel>)
    requires |panels| > 0
    ensures |r| == |panels| && forall k :: 0 <= k < |r| ==> r[k].bounds == panels[k].bounds
    decreases |bs|
  {
    if bs == [] then panels else Place(PlaceAll(panels, bs[..|bs| - 1]), bs[|bs| - 1])
  }

  /** The bubbles, in order, whose box chooses panel p. */
  function AssignedTo(panels: seq<Panel>, bs: seq<Bubble>, p: nat): seq<Bubble>
    requires |panels| > 0
    decreases |bs|
  {
    if bs == [] then []
    else AssignedTo(panels, bs[..|bs| - 1], p) + (if ArgMin(panels, bs[|bs| - 1].bounds) == p then [bs[|bs| - 1]] else [])
  }

  /** Every bubble is assigned to the panel its box chooses. */
  lemma {:induction false} AssignedToHas(panels: seq<Panel>, bs: seq<Bubble>, k: nat)
    requires |panels| > 0 && k < |bs|
    ensures bs[k] in AssignedTo(panels, bs, ArgMin(panels, bs[k].bounds))
    decreases |bs|
  {
    var n := |bs| - 1;
    if k < n {
      AssignedToHas(panels, bs[..n], k);
    }
  }

  /** After placement each panel keeps its box and its earlier dialog, followed by
      exactly the bubbles whose best panel it is, in their order. */
  lemma {:induction false} PlaceAllDialogs(panels: seq<Panel>, bs: seq<Bubble>, p: nat)
    requires |panels| > 0 && p < |panels|
    ensures PlaceAll(panels, bs)[p].dialog == panels[p].dialog + AssignedTo(panels, bs, p)
    decreases |bs|
  {
    if bs != [] {
      var n := |bs| - 1;
      var before := PlaceAll(panels, bs[..n]);
      PlaceAllDialogs(panels, bs[..n], p);
      ArgMinBoundsOnly(before, panels, bs[n].bounds);
    }
  }

  /** Every bubble lands in exactly one panel: the dialogs added across all panels
      number as many as the bubbles. */
  lemma {:induction false} AssignedCount(panels: seq<Panel>, bs: seq<Bubble>)
    requires |panels| > 0
    ensures TotalAssigned(panels, bs, |panels|) == |bs|
    decreases |bs|
  {
    if bs != [] {
      var n := |bs| - 1;
      AssignedCount(panels, bs[..n]);
      AssignedSplit(panels, bs, |panels|);
      assert TotalAssigned(panels, bs[..n], |panels|) == n;
      assert ArgMin(panels, bs[n].bounds) < |panels|;
    } else {
      TotalAssignedNone(panels, |panels|);
    }
  }

  lemma {:induction false} TotalAssignedNone(panels: seq<Panel>, upto: nat)
    requires |panels| > 0
    ensures TotalAssigned(panels, [], upto) == 0
  {
    if upto > 0 {
      TotalAssignedNone(panels, upto - 1);
    }
  }

  function TotalAssigned(panels: seq<Panel>, bs: seq<Bubble>, upto: nat): nat
    requires |panels| > 0
  {
    if upto == 0 then 0 else TotalAssigned(panels, bs, upto - 1) + |AssignedTo(panels, bs, upto - 1)|
  }

  /** Adding one bubble adds one assignment among the panels up to the chosen one and
      beyond. */
  lemma {:induction false} AssignedSplit(panels: seq<Panel>, bs: seq<Bubble>, upto: nat)
    requires |panels| > 0 && bs != [] && upto <= |panels|
    ensures TotalAssigned(panels, bs, upto) ==
      TotalAssigned(panels, bs[..|bs| - 1], upto) + (if ArgMin(panels, bs[|bs| - 1].bounds) < upto then 1 else 0)
  {
    if upto > 0 {
      var front := bs[..|bs| - 1];
      var chosen := ArgMin(panels, bs[|bs| - 1].bounds);
      AssignedSplit(panels, bs, upto - 1);
      var before, frontBefore := TotalAssigned(panels, bs, upto - 1), TotalAssigned(panels, front, upto - 1);
      assert before == frontBefore + (if chosen < upto - 1 then 1 else 0);
      AssignedToStep(panels, bs, upto - 1);
      var here, frontHere := |AssignedTo(panels, bs, upto - 1)|, |AssignedTo(panels, front, upto - 1)|;
      assert here == frontHere + (if chosen == upto - 1 then 1 else 0);
      CountStep(TotalAssigned(panels, bs, upto), before, here, TotalAssigned(panels, front, upto), frontBefore, frontHere, chosen, upto);
    }
  }

  /** The arithmetic of one step of AssignedSplit. */
  lemma CountStep(total: int, before: int, here: int, frontTotal: int, frontBefore: int, frontHere: int, chosen: int, upto: int)
    requires total == before + here && frontTotal == frontBefore + frontHere
    requires before == frontBefore + (if chosen < upto - 1 then 1 else 0)
    requires here == frontHere + (if chosen == upto - 1 then 1 else 0)
    ensures total == frontTotal + (if chosen < upto then 1 else 0)
  {
  }

  /** The last bubble adds one assignment to the panel it chooses and none elsewhere. */
  lemma AssignedToStep(panels: seq<Panel>, bs: seq<Bubble>, p: nat)
    requires |panels| > 0 && bs != []
    ensures |AssignedTo(panels, bs, p)| ==
      |AssignedTo(panels, bs[..|bs| - 1], p)| + (if ArgMin(panels, bs[|bs| - 1].bounds) == p then 1 else 0)
  {
  }

  /** The bubbles of the finished chunks: their text and their box; the speaker is
      filled in by a later stage. */
  ghost function BubblesOf(c: Clusters): (r: seq<Bubble>)
    reads c, c.arena
    requires c.Valid()
    ensures |r| == |c.chunks|
  {
    var cells, chunks, members := c.arena[..], c.chunks, c.members;
    assert c.ValidExcept(-1);
    assert Indexed(cells, chunks, members);
    seq(|chunks|, k requires 0 <= k < |chunks| => Bubble(Dotted(RawText(cells, members[k])), "", chunks[k].bounds))
  }

  /** Each bubble keeps the box of its chunk. */
  lemma BubbleBounds(c: Clusters)
    requires c.Valid()
    ensures forall k :: 0 <= k < |c.chunks| ==> BubblesOf(c)[k].bounds == c.chunks[k].bounds
  {
  }

  /** The bubble of chunk k: the text its chain reads and its box. */
  lemma BubbleAt(c: Clusters, k: nat)
    requires c.Valid() && k < |c.chunks|
    ensures BubblesOf(c)[k] == Bubble(Dotted(RawText(c.arena[..], c.members[k])), "", c.chunks[k].bounds)
  {
  }

  /** `placeBubblesInPanels`: each chunk, read back as text, is appended to the
      dialog of its best panel. The source asserts a panel was found, so a non-empty
      chunk list needs a non-empty panel list. */
  method PlaceBubblesInPanels(ctx: Context, clusters: Clusters)
    requires clusters.Valid() && (|clusters.chunks| == 0 || |ctx.panels| > 0)
    modifies ctx
    ensures |clusters.chunks| == 0 ==> ctx.panels == old(ctx.panels)
    ensures |clusters.chunks| > 0 ==> ctx.panels == PlaceAll(old(ctx.panels), BubblesOf(clusters))
  {
    if |clusters.chunks| == 0 {
      return;
    }
    ghost var bs := BubblesOf(clusters);
    ghost var start := ctx.panels;
    assert bs[..0] == [];
    var n := |clusters.chunks|;
    var k := 0;
    while k < n
      invariant k <= n == |bs|
      invariant ctx.panels == PlaceAll(start, bs[..k])
    {
      ctx.panels := PlaceChunk(ctx.panels, clusters, k, start, bs);
      k := k + 1;
    }
    assert bs[..k] == bs;
  }

  /** One pass of the loop in `placeBubblesInPanels`: chunk k is read back as text
      and goes to the end of the dialog of the panel chosen for its box, which places
      one more of the bubbles. */
  method PlaceChunk(panels: seq<Panel>, clusters: Clusters, k: nat, ghost start: seq<Panel>, ghost bs: seq<Bubble>)
    returns (r: seq<Panel>)
    requires clusters.Valid() && bs == BubblesOf(clusters) && k < |bs| && |start| > 0
    requires panels == PlaceAll(start, bs[..k])
    ensures r == PlaceAll(start, bs[..k + 1])
  {
    PlaceAllStep(start, bs, k);
    var contents := clusters.StrBoxToString(k);
    var strBox := clusters.chunks[k];
    BubbleAt(clusters, k);
    var minIndex := ChoosePanel(panels, strBox.bounds);
    var panel := panels[minIndex];
    r := panels[minIndex := panel.(dialog := panel.dialog + [Bubble(contents, "", strBox.bounds)])];
  }

  lemma PlaceAllStep(panels: seq<Panel>, bs: seq<Bubble>, k: nat)
    requires |panels| > 0 && k < |bs|
    ensures PlaceAll(panels, bs[..k + 1]) == Place(PlaceAll(panels, bs[..k]), bs[k])
  {
    assert bs[..k + 1][..k] == bs[..k];
  }

  /** The comparator `sortBubblesInPanels` hands to `std::sort`: within 5 pixels of
      height, left before right; otherwise top before bottom. */
  predicate Less(a: Bubble, b: Bubble) {
    if Abs(a.bounds.y - b.bounds.y) <= 5 then a.bounds.x < b.bounds.x else a.bounds.y < b.bounds.y
  }

  lemma LessAsymmetric(a: Bubble, b: Bubble)
    ensures !(Less(a, b) && Less(b, a))
  {
  }

  /** The comparator is not transitive: with the 5-pixel band three bubbles can each
      come before the next in a cycle, so it is not the strict weak ordering
      `std::sort` requires. */
  lemma LessCycles()
    ensures exists a: Bubble, b: Bubble, c: Bubble :: Less(a, b) && Less(b, c) && Less(c, a)
  {
    var a := Bubble("", "", Rect(0, 10, 1, 1));
    var b := Bubble("", "", Rect(5, 6, 1, 1));
    var c := Bubble("", "", Rect(10, 2, 1, 1));
    assert Less(a, b) && Less(b, c);
    assert Less(c, a) by { assert Abs(c.bounds.y - a.bounds.y) == 8; }
  }

  predicate InOrder(r: seq<Bubble>) {
    forall k :: 0 <= k < |r| - 1 ==> !Less(r[k + 1], r[k])
  }

  /** Inserting a bubble after the last one it does not come before, and before one it
      does come before, keeps the order and adds it to the contents. */
  lemma InsertKeepsOrder(r: seq<Bubble>, j: nat, x: Bubble)
    requires InOrder(r) && j <= |r|
    requires j > 0 ==> !Less(x, r[j - 1])
    requires j < |r| ==> Less(x, r[j])
    ensures InOrder(r[..j] + [x] + r[j..])
  {
    var r' := r[..j] + [x] + r[j..];
    forall k | 0 <= k < |r'| - 1 ensures !Less(r'[k + 1], r'[k]) {
      InsertAt(r, j, x, k);
      InsertAt(r, j, x, k + 1);
      if k == j {
        LessAsymmetric(x, r[j]);
      } else if k > j {
        assert !Less(r[k], r[k - 1]);
      } else if k + 1 < j {
        assert !Less(r[k + 1], r[k]);
      }
    }
  }

  /** Insertion adds the bubble to the contents and nothing else. */
  lemma InsertAdds(r: seq<Bubble>, j: nat, x: Bubble)
    requires j <= |r|
    ensures multiset(r[..j] + [x] + r[j..]) == multiset(r) + multiset{x}
  {
    assert r == r[..j] + r[j..];
  }

  /** The element at each place of the sequence with x inserted at j. */
  lemma InsertAt(r: seq<Bubble>, j: nat, x: Bubble, k: nat)
    requires j <= |r| && k <= |r|
    ensures (r[..j] + [x] + r[j..])[k] == if k < j then r[k] else if k == j then x else r[k - 1]
  {
  }

  /** The sort of one dialog, by insertion: the result is a permutation in which no
      bubble comes before its predecessor. */
  method SortDialog(d: seq<Bubble>) returns (r: seq<Bubble>)
    ensures multiset(r) == multiset(d) && InOrder(r)
  {
    r := [];
    var n := 0;
    while n < |d|
      invariant n <= |d| && multiset(r) == multiset(d[..n]) && InOrder(r)
    {
      var x := d[n];
      var j := |r|;
      while j > 0 && Less(x, r[j - 1])
        invariant 0 <= j <= |r|
        invariant j < |r| ==> Less(x, r[j])
      {
        j := j - 1;
      }
      InsertKeepsOrder(r, j, x);
      InsertAdds(r, j, x);
      var r' := r[..j] + [x] + r[j..];
      assert d[..n + 1] == d[..n] + [x];
      r := r';
      n := n + 1;
    }
    assert d[..n] == d;
  }

  /** `sortBubblesInPanels`: each panel's dialog is sorted in place; the panels and
      their boxes stay as they were. */
  method SortBubblesInPanels(ctx: Context)
    modifies ctx
    ensures |ctx.panels| == |old(ctx.panels)|
    ensures forall p :: 0 <= p < |ctx.panels| ==>
      ctx.panels[p].bounds == old(ctx.panels[p].bounds) &&
      multiset(ctx.panels[p].dialog) == multiset(old(ctx.panels[p].dialog)) &&
      InOrder(ctx.panels[p].dialog)
  {
    var p := 0;
    while p < |ctx.panels|
      invariant p <= |ctx.panels| == |old(ctx.panels)|
      invariant forall q :: p <= q < |ctx.panels| ==> ctx.panels[q] == old(ctx.panels[q])
      invariant forall q :: 0 <= q < p ==>
        ctx.panels[q].bounds == old(ctx.panels[q].bounds) &&
        multiset(ctx.panels[q].dialog) == multiset(old(ctx.panels[q].dialog)) &&
        InOrder(ctx.panels[q].dialog)
    {
      var sorted := SortDialog(ctx.panels[p].dialog);
      ctx.panels := ctx.panels[p := ctx.panels[p].(dialog := sorted)];
      p := p + 1;
    }
  }
}
