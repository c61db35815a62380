/** The clustering engine of src/untypeset.cc: glyph chunks are joined into words, the
    words into lines, the lines into bubbles, by one restartable pairwise scan
    (`collect`) driven by a join rule per stage; garbage lines are dropped between the
    second and the third stage, and each finished chunk is read back as text. */
module Clustering {
  import opened Wrappers
  import opened Geometry
  import opened Sequences
  import opened Text
  import opened Chains

  /** The three join rules: `horizCollector` with the word spacing, with the line
      spacing, and the rule of `collectBubbles`. */
  datatype JoinKind = Words | Lines | Bubbles

  const IntraWordXSpacing := 3
  const InterWordXSpacing := 14
  const YSpacing := 3
  const InterLineSpacing := 5
  /** A boundary word longer than this many distinct characters always gets a space. */
  const MaxSplitWordChars := 6
  const MaxSuspiciousLength := 3

  /** What a successful join does: chunk `from` is appended to chunk `into`, with
      `asWords` telling whether the glyph at the seam ends a word. */
  datatype Join = Join(into: nat, from: nat, asWords: bool)

  predicate Inside(x: int, lo: int, hi: int) {
    lo <= x < hi
  }

  /** `intervalIntersects` of the half-open intervals [a0, a1) and [b0, b1). */
  function IntervalIntersects(a0: int, a1: int, b0: int, b1: int): bool {
    if a0 < b0 then b0 < a1 else a0 < b1
  }

  /** On non-empty intervals the test is exact: it holds when the intervals share a
      point, that is when the later start precedes the earlier end; and it is
      symmetric. */
  lemma IntervalIntersectsMeaning(a0: int, a1: int, b0: int, b1: int)
    requires a0 < a1 && b0 < b1
    ensures IntervalIntersects(a0, a1, b0, b1) <==> Max(a0, b0) < Min(a1, b1)
    ensures IntervalIntersects(a0, a1, b0, b1) <==> exists x :: Inside(x, a0, a1) && Inside(x, b0, b1)
    ensures IntervalIntersects(a0, a1, b0, b1) == IntervalIntersects(b0, b1, a0, a1)
  {
    if IntervalIntersects(a0, a1, b0, b1) {
      assert Inside(Max(a0, b0), a0, a1) && Inside(Max(a0, b0), b0, b1);
    }
  }

  /** The chunks' end glyphs and member lists index the arena. */
  predicate Indexed(cells: seq<CharBox>, chunks: seq<StrBox>, members: seq<seq<nat>>) {
    |chunks| == |members| &&
    forall k :: 0 <= k < |chunks| ==>
      chunks[k].first < |cells| && chunks[k].last < |cells| && InRange(members[k], |cells|)
  }

  /** The pair (a, b) a rule considers for the chunks at i and j: for the horizontal
      rules a's tail glyph must not start right of b's head glyph, for bubbles a's box
      must not start below b's; otherwise the two swap. */
  function Oriented(kind: JoinKind, cells: seq<CharBox>, chunks: seq<StrBox>, i: nat, j: nat): (nat, nat)
    requires i < |chunks| && j < |chunks|
    requires forall k :: 0 <= k < |chunks| ==> chunks[k].first < |cells| && chunks[k].last < |cells|
  {
    if kind == Bubbles then
      (if chunks[i].bounds.y > chunks[j].bounds.y then (j, i) else (i, j))
    else
      (if cells[chunks[i].last].bounds.x > cells[chunks[j].first].bounds.x then (j, i) else (i, j))
  }

  /** The distance test of a rule for a above-or-left-of b. Horizontally: the middle of
      the right edge of a's tail glyph and the middle of the left edge of b's head glyph
      lie within the stage's x spacing and 3 pixels of height (heights are halved as
      C++ does, toward zero). For bubbles: the x extents intersect and a's bottom is
      within 5 pixels of b's top. */
  function Near(kind: JoinKind, cells: seq<CharBox>, a: StrBox, b: StrBox): bool
    requires a.last < |cells| && b.first < |cells|
  {
    match kind
    case Bubbles =>
      IntervalIntersects(a.bounds.x, a.bounds.Right(), b.bounds.x, b.bounds.Right()) &&
      Abs(a.bounds.Bottom() - b.bounds.y) <= InterLineSpacing
    case _ =>
      var endOfA, startOfB := cells[a.last].bounds, cells[b.first].bounds;
      var aX, aY := endOfA.Right(), endOfA.y + HalfTowardZero(endOfA.height);
      var bX, bY := startOfB.x, startOfB.y + HalfTowardZero(startOfB.height);
      Abs(bX - aX) <= (if kind == Words then IntraWordXSpacing else InterWordXSpacing) &&
      Abs(bY - aY) <= YSpacing
  }

  /** Whether the seam gets a space: never inside a word, always between words, and
      between lines unless the last word of the upper line and the first run of the
      lower one hold the same (at most six) distinct characters, which is read as one
      long word split over two lines. */
  function JoinFlag(kind: JoinKind, cells: seq<CharBox>, ma: seq<nat>, mb: seq<nat>): bool
    requires InRange(ma, |cells|) && InRange(mb, |cells|)
  {
    match kind
    case Words => false
    case Lines => true
    case Bubbles =>
      var lastCharsInA := SortedUnique(LastWord(cells, ma));
      var firstCharsInB := SortedUnique(FirstRun(cells, mb));
      |lastCharsInA| > MaxSplitWordChars || lastCharsInA != firstCharsInB
  }

  /** The join a rule performs on the chunks at i and j, if any. */
  function Plan(kind: JoinKind, cells: seq<CharBox>, chunks: seq<StrBox>, members: seq<seq<nat>>, i: nat, j: nat): Option<Join>
    requires Indexed(cells, chunks, members) && i < |chunks| && j < |chunks|
  {
    var (a, b) := Oriented(kind, cells, chunks, i, j);
    if Near(kind, cells, chunks[a], chunks[b]) then Some(Join(a, b, JoinFlag(kind, cells, members[a], members[b])))
    else None
  }

  /** No rule applies to any ordered pair of distinct chunks: `collect`'s fixed point. */
  ghost predicate NoJoins(kind: JoinKind, cells: seq<CharBox>, chunks: seq<StrBox>, members: seq<seq<nat>>)
    requires Indexed(cells, chunks, members)
  {
    forall i, j :: 0 <= i < |chunks| && 0 <= j < |chunks| && i != j ==> Plan(kind, cells, chunks, members, i, j) == None
  }

  /** No rule applies to chunk i and any other. */
  ghost predicate RowDone(kind: JoinKind, cells: seq<CharBox>, chunks: seq<StrBox>, members: seq<seq<nat>>, i: nat)
    requires Indexed(cells, chunks, members) && i < |chunks|
  {
    forall b :: 0 <= b < |chunks| && b != i ==> Plan(kind, cells, chunks, members, i, b) == None
  }

  /** No rule applies to chunk i and any other before j. */
  ghost predicate RowUpTo(kind: JoinKind, cells: seq<CharBox>, chunks: seq<StrBox>, members: seq<seq<nat>>, i: nat, j: nat)
    requires Indexed(cells, chunks, members) && i < |chunks| && j <= |chunks|
  {
    forall b :: 0 <= b < j && b != i ==> Plan(kind, cells, chunks, members, i, b) == None
  }

  /** One more chunk checked against chunk i. */
  lemma RowUpToStep(kind: JoinKind, cells: seq<CharBox>, chunks: seq<StrBox>, members: seq<seq<nat>>, i: nat, j: nat)
    requires Indexed(cells, chunks, members) && i < |chunks| && j < |chunks|
    requires RowUpTo(kind, cells, chunks, members, i, j)
    requires j == i || Plan(kind, cells, chunks, members, i, j) == None
    ensures RowUpTo(kind, cells, chunks, members, i, j + 1)
  {
  }

  /** At the fixed point every row is done. */
  lemma NoJoinsRow(kind: JoinKind, cells: seq<CharBox>, chunks: seq<StrBox>, members: seq<seq<nat>>, i: nat)
    requires Indexed(cells, chunks, members) && i < |chunks| && NoJoins(kind, cells, chunks, members)
    ensures RowDone(kind, cells, chunks, members, i)
  {
  }

  /** The characters `filterGarbageLines` finds suspicious in a short line. */
  predicate Questionable(c: char) {
    c in {'-', '_', '.', '=', '/', '\\', '\'', '"', '|', ':', ';', ',', 'L', 'P', 'T', '!', '*'}
  }

  function QuestionableCount(cells: seq<CharBox>, m: seq<nat>): (r: nat)
    requires InRange(m, |cells|)
    decreases |m|
  {
    if m == [] then 0
    else QuestionableCount(cells, m[..|m| - 1]) + (if Questionable(cells[m[|m| - 1]].ch) then 1 else 0)
  }

  /** Every glyph is counted exactly when all of them are questionable. */
  lemma {:induction false} QuestionableCountAll(cells: seq<CharBox>, m: seq<nat>)
    requires InRange(m, |cells|)
    ensures QuestionableCount(cells, m) <= |m|
    ensures QuestionableCount(cells, m) == |m| <==> forall p :: 0 <= p < |m| ==> Questionable(cells[m[p]].ch)
    decreases |m|
  {
    if m != [] {
      var n := |m| - 1;
      QuestionableCountAll(cells, m[..n]);
      if QuestionableCount(cells, m) == |m| {
        forall p | 0 <= p < |m| ensures Questionable(cells[m[p]].ch) {
          if p < n {
            assert m[..n][p] == m[p];
          }
        }
      }
      if forall p :: 0 <= p < |m| ==> Questionable(cells[m[p]].ch) {
        assert forall p :: 0 <= p < n ==> Questionable(cells[m[..n][p]].ch);
      }
    }
  }

  /** A garbage line: at most four glyphs, all of them questionable. */
  predicate IsGarbage(cells: seq<CharBox>, m: seq<nat>)
    requires InRange(m, |cells|)
  {
    |m| <= MaxSuspiciousLength + 1 && forall p :: 0 <= p < |m| ==> Questionable(cells[m[p]].ch)
  }

  /** The flags "keep this chunk" `filterGarbageLines` acts on. */
  function KeepMask(cells: seq<CharBox>, members: seq<seq<nat>>): (r: seq<bool>)
    requires forall k :: 0 <= k < |members| ==> InRange(members[k], |cells|)
    ensures |r| == |members|
    ensures forall k :: 0 <= k < |members| ==> r[k] == !IsGarbage(cells, members[k])
  {
    seq(|members|, k requires 0 <= k < |members| => !IsGarbage(cells, members[k]))
  }

  lemma EraseKeepsIndexed(cells: seq<CharBox>, chunks: seq<StrBox>, members: seq<seq<nat>>, w: nat)
    requires Indexed(cells, chunks, members) && w < |chunks|
    ensures Indexed(cells, Erase(chunks, w), Erase(members, w))
  {
    var chunks', members' := Erase(chunks, w), Erase(members, w);
    forall k | 0 <= k < |chunks'|
      ensures chunks'[k].first < |cells| && chunks'[k].last < |cells| && InRange(members'[k], |cells|)
    {
      var k0 := if k < w then k else k + 1;
      assert chunks'[k] == chunks[k0] && members'[k] == members[k0];
    }
  }

  /** What a planned join does to the glyphs and to the glyphs held: the records
      keep their contents and the absorbed chunk's glyphs move to the survivor. */
  lemma JoinKeepsGlyphs(kind: JoinKind, cells: seq<CharBox>, chunks: seq<StrBox>, members: seq<seq<nat>>, i: nat, j: nat)
    requires Indexed(cells, chunks, members) && i < |chunks| && j < |chunks| && i != j
    requires Plan(kind, cells, chunks, members, i, j).Some?
    ensures var p := Plan(kind, cells, chunks, members, i, j).value;
      p.into < |chunks| && p.from < |chunks| && p.into != p.from &&
      SameGlyphs(cells, Relink(cells, chunks[p.into], chunks[p.from], p.asWords), kind == Words) &&
      Covered(Erase(members[p.into := members[p.into] + members[p.from]], p.from)) == Covered(members)
  {
    var p := Plan(kind, cells, chunks, members, i, j).value;
    RelinkKeepsGlyphs(cells, chunks[p.into], chunks[p.from], p.asWords);
    JoinKeepsCovered(members, p.into, p.from);
  }

  /** Erasing a garbage chunk does not change which chunks are kept. */
  lemma DropGarbageKeeps(cells: seq<CharBox>, chunks: seq<StrBox>, members: seq<seq<nat>>, w: nat)
    requires Indexed(cells, chunks, members) && w < |chunks| && IsGarbage(cells, members[w])
    ensures Indexed(cells, Erase(chunks, w), Erase(members, w))
    ensures Keep(Erase(chunks, w), KeepMask(cells, Erase(members, w))) == Keep(chunks, KeepMask(cells, members))
    ensures Keep(Erase(members, w), KeepMask(cells, Erase(members, w))) == Keep(members, KeepMask(cells, members))
  {
    EraseKeepsIndexed(cells, chunks, members, w);
    var mask := KeepMask(cells, members);
    EraseMask(cells, members, w);
    KeepErase(chunks, mask, w);
    KeepErase(members, mask, w);
  }

  /** A garbage line is made of questionable glyphs only, so the filter keeps every
      glyph whose character is not questionable. */
  lemma PlainGlyphSurvives(cells: seq<CharBox>, members: seq<seq<nat>>, x: nat)
    requires forall k :: 0 <= k < |members| ==> InRange(members[k], |cells|)
    requires x in Covered(members) && x < |cells| && !Questionable(cells[x].ch)
    ensures x in Covered(Keep(members, KeepMask(cells, members)))
  {
    var k :| 0 <= k < |members| && x in members[k];
    var p :| 0 <= p < |members[k]| && members[k][p] == x;
    assert !IsGarbage(cells, members[k]);
    var mask := KeepMask(cells, members);
    KeepHas(members, mask, k);
    var kept := Keep(members, mask);
    var j :| 0 <= j < |kept| && kept[j] == members[k];
    assert x in kept[j];
  }

  /** Over the whole filter: when the lines held every glyph, every glyph whose
      character is not questionable is held by a line the filter keeps. */
  lemma FilterKeepsPlainGlyphs(glyphs: seq<CharBox>, cells: seq<CharBox>, lines: seq<seq<nat>>)
    requires SameGlyphs(glyphs, cells, false)
    requires forall k :: 0 <= k < |lines| ==> InRange(lines[k], |cells|)
    requires forall x :: 0 <= x < |glyphs| ==> x in Covered(lines)
    ensures forall x :: 0 <= x < |glyphs| && !Questionable(glyphs[x].ch) ==>
      x in Covered(Keep(lines, KeepMask(cells, lines)))
  {
    forall x | 0 <= x < |glyphs| && !Questionable(glyphs[x].ch)
      ensures x in Covered(Keep(lines, KeepMask(cells, lines)))
    {
      assert cells[x].ch == glyphs[x].ch;
      PlainGlyphSurvives(cells, lines, x);
    }
  }

  /** The mask of the list without chunk w is the mask without its flag. */
  lemma EraseMask(cells: seq<CharBox>, members: seq<seq<nat>>, w: nat)
    requires (forall k :: 0 <= k < |members| ==> InRange(members[k], |cells|)) && w < |members|
    ensures forall k :: 0 <= k < |members| - 1 ==> InRange(Erase(members, w)[k], |cells|)
    ensures Erase(KeepMask(cells, members), w) == KeepMask(cells, Erase(members, w))
  {
    var mask, members' := KeepMask(cells, members), Erase(members, w);
    forall k | 0 <= k < |members'| ensures InRange(members'[k], |cells|) && members'[k] == members[if k < w then k else k + 1] {
    }
    var mask' := KeepMask(cells, members');
    forall k | 0 <= k < |mask'| ensures Erase(mask, w)[k] == mask'[k] {
      var k0 := if k < w then k else k + 1;
      assert members'[k] == members[k0];
    }
  }

  /** The glyph records themselves (character, score, box) are never changed by the
      clustering; a word-level join does not touch the word-end flags either. */
  predicate SameGlyphs(c0: seq<CharBox>, c: seq<CharBox>, flagsToo: bool) {
    |c| == |c0| &&
    forall x :: 0 <= x < |c| ==>
      c[x].ch == c0[x].ch && c[x].score == c0[x].score && c[x].bounds == c0[x].bounds &&
      (flagsToo ==> c[x].wordBoundary == c0[x].wordBoundary)
  }

  /** The head glyph of each chunk, in list order. A join keeps the surviving chunk's
      head, so this list tells which chunks survive and in what order. */
  function Heads(chunks: seq<StrBox>): seq<nat>
  {
    seq(|chunks|, k requires 0 <= k < |chunks| => chunks[k].first)
  }

  /** A join and the erasure of the absorbed chunk keep the others in their order:
      the heads lose the absorbed chunk's head and nothing else. */
  lemma JoinKeepsOrder(chunks: seq<StrBox>, into: nat, from: nat)
    requires into < |chunks| && from < |chunks|
    ensures Heads(Erase(chunks[into := Merged(chunks[into], chunks[from])], from)) == Erase(Heads(chunks), from)
    ensures IsSubseq(Heads(Erase(chunks[into := Merged(chunks[into], chunks[from])], from)), Heads(chunks))
  {
    var after := Erase(chunks[into := Merged(chunks[into], chunks[from])], from);
    assert Heads(after) == Erase(Heads(chunks), from);
    EraseIsSubseq(Heads(chunks), from);
  }

  /** The fixed point grows by a row: no rule applies from the rows before i, nor
      from row i. */
  lemma RowsDone(kind: JoinKind, cells: seq<CharBox>, chunks: seq<StrBox>, members: seq<seq<nat>>, i: nat)
    requires Indexed(cells, chunks, members) && i < |chunks|
    requires forall a, b :: 0 <= a < i && 0 <= b < |chunks| && a != b ==> Plan(kind, cells, chunks, members, a, b) == None
    requires forall b :: 0 <= b < |chunks| && b != i ==> Plan(kind, cells, chunks, members, i, b) == None
    ensures forall a, b :: 0 <= a < i + 1 && 0 <= b < |chunks| && a != b ==> Plan(kind, cells, chunks, members, a, b) == None
  {
  }

  lemma SameGlyphsTransitive(c0: seq<CharBox>, c1: seq<CharBox>, c2: seq<CharBox>, flagsToo: bool)
    requires SameGlyphs(c0, c1, flagsToo) && SameGlyphs(c1, c2, flagsToo)
    ensures SameGlyphs(c0, c2, flagsToo)
  {
  }

  lemma RelinkKeepsGlyphs(cells: seq<CharBox>, a: StrBox, b: StrBox, asWords: bool)
    requires a.last < |cells| && b.first < |cells|
    ensures SameGlyphs(cells, Relink(cells, a, b, asWords), !asWords)
  {
  }

  /** The glyph arena (the source's `std::vector<CharBox>`) and the chunk list that the
      stages rework in place. */
  class Clusters {
    const arena: array<CharBox>
    var chunks: seq<StrBox>
    ghost var members: seq<seq<nat>>

    /** The chunk invariant, `skip` being the chunk a join in progress has absorbed. */
    ghost predicate ValidExcept(skip: int)
      reads this, arena
    {
      ChunksValid(arena[..], chunks, members, skip) && LinksInRange(arena[..]) &&
      Indexed(arena[..], chunks, members)
    }

    ghost predicate Valid()
      reads this, arena
    {
      ValidExcept(-1)
    }

    /** `initStrBoxes` over the glyphs the search found, which are unlinked and carry
        no word-end flag: one single-glyph chunk per glyph, each passing `checkRep`. */
    constructor (glyphs: seq<CharBox>)
      requires forall k :: 0 <= k < |glyphs| ==> glyphs[k].next == Nil && glyphs[k].prev == Nil && !glyphs[k].wordBoundary
      ensures fresh(arena) && arena[..] == glyphs
      ensures chunks == Singletons(glyphs) && members == SingletonMembers(|glyphs|)
      ensures Valid() && forall x: nat :: x in Covered(members) <==> x < |glyphs|
    {
      arena := new CharBox[|glyphs|](k requires 0 <= k < |glyphs| => glyphs[k]);
      chunks := Singletons(glyphs);
      members := SingletonMembers(|glyphs|);
      new;
      assert arena[..] == glyphs;
      SingletonsValid(glyphs);
    }

    /** `merge(a, b, asWords)` for a = chunks[into], b = chunks[from]; the absorbed
        chunk is left in the list for the caller to erase. The source's assertions
        that neither tail is flagged hold by the invariant. */
    method Merge(into: nat, from: nat, asWords: bool)
      requires Valid() && into < |chunks| && from < |chunks| && into != from
      modifies this, arena
      ensures arena[..] == Relink(old(arena[..]), old(chunks[into]), old(chunks[from]), asWords)
      ensures chunks == old(chunks)[into := Merged(old(chunks[into]), old(chunks[from]))]
      ensures members == old(members)[into := old(members[into]) + old(members[from])]
      ensures ValidExcept(from)
    {
      var a, b := chunks[into], chunks[from];
      JoinKeepsChunksValid(arena[..], chunks, members, into, from, asWords);
      if asWords {
        assert !arena[a.last].wordBoundary && !arena[b.last].wordBoundary;
      }
      ghost var ma, mb := members[into], members[from];
      assert a.last != b.first by { assert ma[|ma| - 1] == a.last && mb[0] == b.first; }
      var tail := arena[a.last];
      arena[a.last] := tail.(next := Ref(b.first), wordBoundary := if asWords then true else tail.wordBoundary);
      var head := arena[b.first];
      arena[b.first] := head.(prev := Ref(a.last));
      chunks := chunks[into := Merged(a, b)];
      members := members[into := ma + mb];
    }

    /** `getBoundaryWordChars`: the distinct characters, sorted, of the run the walk
        collects from the head forward or from the tail backward, stopping at the first
        glyph flagged as a word end (which is not collected). */
    method BoundaryWordChars(k: nat, forward: bool) returns (r: string)
      requires Valid() && k < |chunks|
      ensures r == SortedUnique(if forward then FirstRun(arena[..], members[k]) else LastWord(arena[..], members[k]))
    {
      var str: string;
      if forward {
        str := WalkForward(k);
      } else {
        str := WalkBackward(k);
      }
      r := SortedUnique(str);
    }

    /** The forward walk: from the head along `next` while the glyph is not flagged. */
    method WalkForward(k: nat) returns (str: string)
      requires Valid() && k < |chunks|
      ensures str == FirstRun(arena[..], members[k])
    {
      ghost var cells, m := arena[..], members[k];
      assert IsChain(cells, chunks[k], m);
      str := [];
      var ptr := Ref(chunks[k].first);
      ghost var p: nat := 0;
      while ptr != Nil && !arena[ptr.index].wordBoundary
        invariant p <= |m| && ptr == (if p < |m| then Ref(m[p]) else Nil)
        invariant str + FirstRun(cells, m[p..]) == FirstRun(cells, m)
        decreases |m| - p
      {
        assert m[p..][1..] == m[p + 1..];
        str := str + [arena[ptr.index].ch];
        ptr := arena[ptr.index].next;
        p := p + 1;
      }
      assert FirstRun(cells, m[p..]) == [];
      assert str == FirstRun(cells, m);
    }

    /** The backward walk: from the tail along `prev` while the glyph is not flagged,
        each character put in front of those already collected. */
    method WalkBackward(k: nat) returns (str: string)
      requires Valid() && k < |chunks|
      ensures str == LastWord(arena[..], members[k])
    {
      ghost var cells, m := arena[..], members[k];
      assert IsChain(cells, chunks[k], m);
      str := [];
      var ptr := Ref(chunks[k].last);
      ghost var p: nat := |m|;
      assert m[..p] == m;
      while ptr != Nil && !arena[ptr.index].wordBoundary
        invariant p <= |m| && ptr == (if p > 0 then Ref(m[p - 1]) else Nil)
        invariant LastWord(cells, m[..p]) + str == LastWord(cells, m)
        decreases p
      {
        assert m[..p][..p - 1] == m[..p - 1];
        str := [arena[ptr.index].ch] + str;
        ptr := arena[ptr.index].prev;
        p := p - 1;
      }
      assert LastWord(cells, m[..p]) == [];
      assert str == LastWord(cells, m);
    }

    /** The state after one call of a join rule that was to perform `plan` on the
        state (c0, chunks0, members0): nothing changed and -1 returned, or chunk
        `from` appended to chunk `into`, the absorbed chunk left in place for the
        caller to erase, and its index returned. */
    ghost predicate Did(plan: Option<Join>, c0: seq<CharBox>, chunks0: seq<StrBox>, members0: seq<seq<nat>>, which: int)
      reads this, arena
    {
      match plan
      case None =>
        which == -1 && arena[..] == c0 && chunks == chunks0 && members == members0 && Valid()
      case Some(p) =>
        p.into < |chunks0| && p.from < |chunks0| && p.into != p.from && |members0| == |chunks0| &&
        chunks0[p.into].last < |c0| && chunks0[p.from].first < |c0| && which == p.from &&
        arena[..] == Relink(c0, chunks0[p.into], chunks0[p.from], p.asWords) &&
        chunks == chunks0[p.into := Merged(chunks0[p.into], chunks0[p.from])] &&
        members == members0[p.into := members0[p.into] + members0[p.from]] &&
        ValidExcept(p.from)
    }

    /** The `attemptToJoin` argument of `collect` for a stage: the rule of
        `horizCollector` for words and lines, that of `collectBubbles` for bubbles.
        Exactly the join `Plan` describes is performed. */
    method Attempt(kind: JoinKind, i: nat, j: nat) returns (which: int)
      requires Valid() && i < |chunks| && j < |chunks| && i != j
      modifies this, arena
      ensures Did(Plan(kind, old(arena[..]), old(chunks), old(members), i, j), old(arena[..]), old(chunks), old(members), which)
    {
      if kind == Bubbles {
        which := BubbleJoin(i, j);
      } else {
        which := HorizontalJoin(kind, i, j);
      }
    }

    /** `horizCollector`: orient the pair by the x of a's tail and b's head glyphs,
        compare the middle of a's right edge with the middle of b's left edge, and
        merge b into a (with a word-end flag between words) when they are close. */
    method HorizontalJoin(kind: JoinKind, i: nat, j: nat) returns (which: int)
      requires kind != Bubbles
      requires Valid() && i < |chunks| && j < |chunks| && i != j
      modifies this, arena
      ensures Did(Plan(kind, old(arena[..]), old(chunks), old(members), i, j), old(arena[..]), old(chunks), old(members), which)
    {
      ghost var plan := Plan(kind, arena[..], chunks, members, i, j);
      var a, b := i, j;
      var kXSpacing := if kind == Words then IntraWordXSpacing else InterWordXSpacing;
      var endOfA, startOfB := arena[chunks[i].last].bounds, arena[chunks[j].first].bounds;
      if endOfA.x > startOfB.x {
        a, b := j, i;
        endOfA, startOfB := arena[chunks[a].last].bounds, arena[chunks[b].first].bounds;
      }
      assert Oriented(kind, arena[..], chunks, i, j) == (a, b);
      var aX, aY := endOfA.x + endOfA.width, endOfA.y + HalfTowardZero(endOfA.height);
      var bX, bY := startOfB.x, startOfB.y + HalfTowardZero(startOfB.height);
      if Abs(bX - aX) > kXSpacing || Abs(bY - aY) > YSpacing {
        assert plan == None;
        return -1;
      }
      assert plan == Some(Join(a, b, kind == Lines));
      Merge(a, b, kind == Lines);
      which := b;
    }

    /** The rule of `collectBubbles`: orient the pair by the top of their boxes; join
        when the x extents intersect and the upper box's bottom is within 5 pixels of
        the lower one's top, with a space at the seam unless the boundary words look
        like one word split over two lines. */
    method BubbleJoin(i: nat, j: nat) returns (which: int)
      requires Valid() && i < |chunks| && j < |chunks| && i != j
      modifies this, arena
      ensures Did(Plan(Bubbles, old(arena[..]), old(chunks), old(members), i, j), old(arena[..]), old(chunks), old(members), which)
    {
      ghost var plan := Plan(Bubbles, arena[..], chunks, members, i, j);
      var a, b := i, j;
      if chunks[i].bounds.y > chunks[j].bounds.y {
        a, b := j, i;
      }
      assert Oriented(Bubbles, arena[..], chunks, i, j) == (a, b);
      var boxA, boxB := chunks[a].bounds, chunks[b].bounds;
      var yDist := Abs(boxA.y + boxA.height - boxB.y);
      if !IntervalIntersects(boxA.x, boxA.x + boxA.width, boxB.x, boxB.x + boxB.width) || yDist > InterLineSpacing {
        assert plan == None;
        return -1;
      }
      assert plan == Some(Join(a, b, JoinFlag(Bubbles, arena[..], members[a], members[b])));
      MergeLines(a, b);
      which := b;
    }

    /** The join of `collectBubbles` once the two lines are close: the seam gets a
        space unless the boundary words look like one word split over the lines. */
    method MergeLines(a: nat, b: nat)
      requires Valid() && a < |chunks| && b < |chunks| && a != b
      modifies this, arena
      ensures arena[..] == Relink(old(arena[..]), old(chunks[a]), old(chunks[b]),
                                  JoinFlag(Bubbles, old(arena[..]), old(members[a]), old(members[b])))
      ensures chunks == old(chunks)[a := Merged(old(chunks[a]), old(chunks[b]))]
      ensures members == old(members)[a := old(members[a]) + old(members[b])]
      ensures ValidExcept(b)
    {
      var lastCharsInA := BoundaryWordChars(a, false);
      var firstCharsInB := BoundaryWordChars(b, true);
      var asWords := |lastCharsInA| > MaxSplitWordChars || lastCharsInA != firstCharsInB;
      Merge(a, b, asWords);
    }

    /** `checkRep` over the whole list: every chunk is checked in turn and the first
        failure throws (here: `ok` is false). */
    method CheckRepAll() returns (ok: bool)
      requires LinksInRange(arena[..])
      requires forall k :: 0 <= k < |chunks| ==> chunks[k].first < arena.Length && chunks[k].last < arena.Length
      ensures ok <==> forall k :: 0 <= k < |chunks| ==> HasChain(arena[..], chunks[k].first, chunks[k].last)
    {
      var k := 0;
      while k < |chunks|
        invariant k <= |chunks|
        invariant forall q :: 0 <= q < k ==> HasChain(arena[..], chunks[q].first, chunks[q].last)
      {
        ok := CheckRep(arena, chunks[k]);
        if !ok {
          return;
        }
        k := k + 1;
      }
      return true;
    }

    /** Every chunk in good order passes `checkRep`. */
    lemma ChainPasses(skip: int, k: nat)
      requires ValidExcept(skip) && k < |chunks| && k != skip
      ensures HasChain(arena[..], chunks[k].first, chunks[k].last)
    {
      assert Linked(arena[..], chunks[k].first, chunks[k].last, members[k]);
    }

    /** The body of `collect` for one pair: try the rule; after a join check the
        surviving chunk (the check cannot fail) and erase the absorbed one. */
    method TryJoin(kind: JoinKind, i: nat, j: nat) returns (joined: bool)
      requires Valid() && i < |chunks| && j < |chunks| && i != j
      modifies this, arena
      ensures Valid() && Covered(members) == old(Covered(members))
      ensures SameGlyphs(old(arena[..]), arena[..], kind == Words)
      ensures joined <==> Plan(kind, old(arena[..]), old(chunks), old(members), i, j).Some?
      ensures joined ==> |chunks| == old(|chunks|) - 1
      ensures !joined ==> arena[..] == old(arena[..]) && chunks == old(chunks) && members == old(members)
      ensures IsSubseq(Heads(chunks), Heads(old(chunks)))
    {
      ghost var cellsBefore, chunksBefore, membersBefore := arena[..], chunks, members;
      var which := Attempt(kind, i, j);
      if which == -1 {
        SubseqReflexive(Heads(chunks));
        return false;
      }
      Settle(kind, i, j, which, cellsBefore, chunksBefore, membersBefore);
      return true;
    }

    /** After a join in `collect`: check the surviving chunk (the check cannot fail)
        and erase the absorbed one, whose index the rule returned. */
    method Settle(kind: JoinKind, i: nat, j: nat, which: int, ghost c0: seq<CharBox>,
                  ghost chunks0: seq<StrBox>, ghost members0: seq<seq<nat>>)
      requires Indexed(c0, chunks0, members0) && i < |chunks0| && j < |chunks0| && i != j
      requires Plan(kind, c0, chunks0, members0, i, j).Some?
      requires Did(Plan(kind, c0, chunks0, members0, i, j), c0, chunks0, members0, which)
      modifies this
      ensures Valid() && Covered(members) == Covered(members0)
      ensures SameGlyphs(c0, arena[..], kind == Words)
      ensures |chunks| == |chunks0| - 1
      ensures IsSubseq(Heads(chunks), Heads(chunks0))
    {
      ghost var p := Plan(kind, c0, chunks0, members0, i, j).value;
      JoinKeepsGlyphs(kind, c0, chunks0, members0, i, j);
      assert which == p.from && p.into == (if which == i then j else i);
      ChainPasses(which, p.into);
      var ok := CheckRep(arena, chunks[if which == i then j else i]);
      assert ok;
      Discard(which as nat);
      JoinKeepsOrder(chunks0, p.into, p.from);
    }

    /** `chunks.erase(chunks.begin() + w)` for the chunk a join absorbed. */
    method Discard(w: nat)
      requires ValidExcept(w) && w < |chunks|
      modifies this
      ensures chunks == Erase(old(chunks), w) && members == Erase(old(members), w)
      ensures Valid()
    {
      EraseKeepsChunksValid(arena[..], chunks, members, w);
      EraseKeepsIndexed(arena[..], chunks, members, w);
      chunks := Erase(chunks, w);
      members := Erase(members, w);
    }

    /** `collect` with a stage's rule: try every ordered pair of distinct chunks; after
        a join, check the surviving chunk (the check cannot fail), erase the absorbed
        one and restart from the first pair. On return no rule applies to any pair,
        every glyph is still held by exactly one chunk, and the glyphs themselves are
        unchanged (word joins leave the word-end flags alone too), and the surviving
        chunks keep their order. A list already at the fixed point comes back
        unchanged, so a second run over the result merges nothing. */
    method Collect(kind: JoinKind)
      requires Valid()
      modifies this, arena
      ensures Valid()
      ensures forall i, j :: 0 <= i < |chunks| && 0 <= j < |chunks| && i != j ==>
        Plan(kind, arena[..], chunks, members, i, j) == None
      ensures Covered(members) == old(Covered(members)) && |chunks| <= old(|chunks|)
      ensures SameGlyphs(old(arena[..]), arena[..], kind == Words)
      ensures IsSubseq(Heads(chunks), Heads(old(chunks)))
      ensures old(NoJoins(kind, arena[..], chunks, members)) ==>
        arena[..] == old(arena[..]) && chunks == old(chunks) && members == old(members)
    {
      ghost var settled := NoJoins(kind, arena[..], chunks, members);
      var i := 0;
      SubseqReflexive(Heads(chunks));
      while i < |chunks|
        invariant Valid() && 0 <= i <= |chunks|
        invariant Covered(members) == old(Covered(members)) && |chunks| <= old(|chunks|)
        invariant SameGlyphs(old(arena[..]), arena[..], kind == Words)
        invariant forall a, b :: 0 <= a < i && 0 <= b < |chunks| && a != b ==>
          Plan(kind, arena[..], chunks, members, a, b) == None
        invariant IsSubseq(Heads(chunks), Heads(old(chunks)))
        invariant settled ==> arena[..] == old(arena[..]) && chunks == old(chunks) && members == old(members)
        decreases |chunks|, |chunks| - i
      {
        ghost var before, cellsBefore := Heads(chunks), arena[..];
        if settled {
          NoJoinsRow(kind, arena[..], chunks, members, i);
        }
        var erased := ScanRow(kind, i);
        SubseqTransitive(Heads(chunks), before, Heads(old(chunks)));
        SameGlyphsTransitive(old(arena[..]), cellsBefore, arena[..], kind == Words);
        if erased {
          i := 0;
        } else {
          RowsDone(kind, arena[..], chunks, members, i);
          i := i + 1;
        }
      }
    }

    /** The inner loop of `collect` for the chunks at row i: try (i, j) for every other
        j until one joins. Without a join nothing changed and no rule applies to (i, j)
        for any j; after one the list is one shorter. */
    method ScanRow(kind: JoinKind, i: nat) returns (erased: bool)
      requires Valid() && i < |chunks|
      modifies this, arena
      ensures Valid() && Covered(members) == old(Covered(members))
      ensures SameGlyphs(old(arena[..]), arena[..], kind == Words)
      ensures erased ==> |chunks| < old(|chunks|)
      ensures !erased ==> arena[..] == old(arena[..]) && chunks == old(chunks) && members == old(members)
      ensures !erased ==> forall b :: 0 <= b < |chunks| && b != i ==> Plan(kind, arena[..], chunks, members, i, b) == None
      ensures IsSubseq(Heads(chunks), Heads(old(chunks)))
      ensures old(RowDone(kind, arena[..], chunks, members, i)) ==> !erased
    {
      ghost var done := RowDone(kind, arena[..], chunks, members, i);
      var j := 0;
      erased := false;
      SubseqReflexive(Heads(chunks));
      while j < |chunks| && !erased
        invariant Valid() && 0 <= j <= |chunks|
        invariant Covered(members) == old(Covered(members))
        invariant SameGlyphs(old(arena[..]), arena[..], kind == Words)
        invariant erased ==> |chunks| < old(|chunks|)
        invariant !erased ==> arena[..] == old(arena[..]) && chunks == old(chunks) && members == old(members)
        invariant !erased ==> RowUpTo(kind, arena[..], chunks, members, i, j)
        invariant IsSubseq(Heads(chunks), Heads(old(chunks)))
        invariant done ==> !erased
        decreases |chunks| - j + (if erased then 0 else 1)
      {
        if i == j {
          RowUpToStep(kind, arena[..], chunks, members, i, j);
          j := j + 1;
          continue;
        }
        ghost var before := Heads(chunks);
        ghost var cells, row, held := arena[..], chunks, members;
        if done {
          assert Plan(kind, arena[..], chunks, members, i, j) == None;
        }
        erased := TryJoin(kind, i, j);
        SubseqTransitive(Heads(chunks), before, Heads(old(chunks)));
        if !erased {
          RowUpToStep(kind, cells, row, held, i, j);
          j := j + 1;
        }
      }
    }

    /** The walk of `filterGarbageLines` over chunk k: it visits at most five glyphs
        and counts the questionable ones; the chunk is garbage when it has at most
        four glyphs and all of them are questionable. */
    method IsGarbageLine(k: nat) returns (garbage: bool)
      requires Valid() && k < |chunks|
      ensures garbage == IsGarbage(arena[..], members[k])
    {
      ghost var cells, m := arena[..], members[k];
      assert IsChain(cells, chunks[k], m);
      var length := 0;
      var questionableChars := 0;
      var ptr := chunks[k].first;
      var done := false;
      while !done
        invariant length < |m| && length <= MaxSuspiciousLength + 1
        invariant !done ==> length <= MaxSuspiciousLength
        invariant !done ==> ptr == m[length] && questionableChars == QuestionableCount(cells, m[..length])
        invariant done ==>
          (length == |m| - 1 && questionableChars == QuestionableCount(cells, m[..length + 1])) ||
          (length == MaxSuspiciousLength + 1 && questionableChars == QuestionableCount(cells, m[..length]))
        decreases MaxSuspiciousLength + 1 - length + (if done then 0 else 1)
      {
        assert m[..length + 1][..length] == m[..length];
        if Questionable(arena[ptr].ch) {
          questionableChars := questionableChars + 1;
        }
        var nx := arena[ptr].next;
        assert length < |m| - 1 ==> nx == Ref(m[length + 1]);
        if nx == Nil {
          done := true;
        } else {
          length := length + 1;
          if length > MaxSuspiciousLength {
            done := true;
          } else {
            ptr := nx.index;
          }
        }
      }
      if length == |m| - 1 {
        assert m[..length + 1] == m;
        QuestionableCountAll(cells, m);
      }
      garbage := !(length > MaxSuspiciousLength || questionableChars != length + 1);
    }

    /** `filterGarbageLines`: erase the first garbage chunk and restart from the
        beginning until none is left. What remains is exactly the chunks that were
        not garbage, in their order. */
    method FilterGarbageLines()
      requires Valid()
      modifies this
      ensures Valid()
      ensures chunks == Keep(old(chunks), KeepMask(arena[..], old(members)))
      ensures members == Keep(old(members), KeepMask(arena[..], old(members)))
      ensures forall k :: 0 <= k < |members| ==> !IsGarbage(arena[..], members[k])
    {
      ghost var cells := arena[..];
      ghost var mask0 := KeepMask(cells, members);
      ghost var keptChunks, keptMembers := Keep(chunks, mask0), Keep(members, mask0);
      var i := 0;
      while i < |chunks|
        invariant Valid() && arena[..] == cells && 0 <= i <= |chunks|
        invariant Keep(chunks, KeepMask(cells, members)) == keptChunks
        invariant Keep(members, KeepMask(cells, members)) == keptMembers
        invariant forall k :: 0 <= k < i ==> !IsGarbage(cells, members[k])
        decreases |chunks|, |chunks| - i
      {
        var garbage := IsGarbageLine(i);
        if garbage {
          DropLine(i);
          i := 0;
        } else {
          i := i + 1;
        }
      }
      ghost var mask := KeepMask(cells, members);
      assert forall k :: 0 <= k < |mask| ==> mask[k];
      KeepAll(chunks, mask);
      KeepAll(members, mask);
    }

    /** `lines.erase(lines.begin() + i)` for a garbage line: the chunks kept by the
        filter are the same before and after. */
    method DropLine(i: nat)
      requires Valid() && i < |chunks| && IsGarbage(arena[..], members[i])
      modifies this
      ensures Valid() && |chunks| == old(|chunks|) - 1
      ensures Keep(chunks, KeepMask(arena[..], members)) == Keep(old(chunks), KeepMask(arena[..], old(members)))
      ensures Keep(members, KeepMask(arena[..], members)) == Keep(old(members), KeepMask(arena[..], old(members)))
    {
      ghost var cells, before, held := arena[..], chunks, members;
      DropGarbageKeeps(cells, before, held, i);
      ChunksValidSkip(cells, before, held, i);
      Discard(i);
      assert arena[..] == cells && chunks == Erase(before, i) && members == Erase(held, i);
    }

    /** `strBoxToString`: the characters of chunk k in chain order with a space after
        every glyph that ends a word, then the `,.`/`.,` rewrite repeated until a
        round changes nothing. */
    method StrBoxToString(k: nat) returns (result: string)
      requires Valid() && k < |chunks|
      ensures result == Dotted(RawText(arena[..], members[k]))
    {
      assert IsChain(arena[..], chunks[k], members[k]);
      result := ReadChain(arena, chunks[k].first, chunks[k].last, members[k]);
      result := RewriteDots(result);
    }
  }
}
