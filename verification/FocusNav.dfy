/** Geometry of a split tree in the unit square, and arrow-style focus over it. */
module FocusNav {
  import opened Options
  import opened SplitTree

  datatype Rect = Rect(x: real, y: real, width: real, height: real)

  const UNIT := Rect(0.0, 0.0, 1.0, 1.0)

  datatype PaneRect = PaneRect(path: Path, rect: Rect)

  datatype Direction = Left | Right | Up | Down

  /** The slack the code allows when it compares edges. */
  const TOLERANCE := 0.000000001

  /** The part of a side that a divider gives to the first child. */
  function Portion(length: real, divider: real): real {
    length * divider
  }

  /** The two parts a divider cuts a rectangle into. */
  function FirstPart(orientation: Orientation, divider: real, rect: Rect): Rect {
    if orientation == Horizontal then rect.(width := Portion(rect.width, divider))
    else rect.(height := Portion(rect.height, divider))
  }

  function SecondPart(orientation: Orientation, divider: real, rect: Rect): Rect {
    if orientation == Horizontal then
      rect.(x := rect.x + Portion(rect.width, divider), width := rect.width - Portion(rect.width, divider))
    else
      rect.(y := rect.y + Portion(rect.height, divider), height := rect.height - Portion(rect.height, divider))
  }

  function ComputeRects(node: LayoutNode, rect: Rect, path: Path): seq<PaneRect> {
    if node.Pane? then [PaneRect(path, rect)]
    else
      ComputeRects(node.first, FirstPart(node.orientation, node.divider, rect), path + [First]) +
      ComputeRects(node.second, SecondPart(node.orientation, node.divider, rect), path + [Second])
  }

  // ---------------------------------------------------------------- tiling

  /** A point belongs to a rectangle with its left and top edges but not its right and bottom ones. */
  predicate Contains(rect: Rect, px: real, py: real) {
    rect.x <= px < rect.x + rect.width && rect.y <= py < rect.y + rect.height
  }

  function CountContaining(rects: seq<PaneRect>, px: real, py: real): nat {
    if rects == [] then 0
    else CountContaining(rects[..|rects| - 1], px, py) + if Contains(rects[|rects| - 1].rect, px, py) then 1 else 0
  }

  lemma {:induction false} CountAppend(a: seq<PaneRect>, b: seq<PaneRect>, px: real, py: real)
    ensures CountContaining(a + b, px, py) == CountContaining(a, px, py) + CountContaining(b, px, py)
  {
    if b == [] {
      assert a + b == a;
    } else {
      assert (a + b)[..|a + b| - 1] == a + b[..|b| - 1];
      CountAppend(a, b[..|b| - 1], px, py);
    }
  }

  /** A legal divider leaves both parts with a side of at least a tenth, and the parts partition the whole. */
  lemma PartsPartition(orientation: Orientation, divider: real, rect: Rect)
    requires LegalDivider(divider) && rect.width > 0.0 && rect.height > 0.0
    ensures var a, b := FirstPart(orientation, divider, rect), SecondPart(orientation, divider, rect);
            && a.width >= 0.1 * rect.width && a.height >= 0.1 * rect.height
            && b.width >= 0.1 * rect.width && b.height >= 0.1 * rect.height
            && rect.x <= a.x && a.x + a.width <= rect.x + rect.width
            && rect.y <= a.y && a.y + a.height <= rect.y + rect.height
            && rect.x <= b.x && b.x + b.width <= rect.x + rect.width
            && rect.y <= b.y && b.y + b.height <= rect.y + rect.height
            && forall px, py ::
                 !(Contains(a, px, py) && Contains(b, px, py)) &&
                 (Contains(rect, px, py) <==> Contains(a, px, py) || Contains(b, px, py))
  {
    hide Portion;
    Fraction(rect.width, divider);
    Fraction(rect.height, divider);
  }

  lemma Fraction(length: real, divider: real)
    requires LegalDivider(divider) && length > 0.0
    ensures Portion(length, divider) >= 0.1 * length && length - Portion(length, divider) >= 0.1 * length
  {
    ProductIsPositive(length, divider - 0.1);
    ProductIsPositive(length, 0.9 - divider);
    assert length * (divider - 0.1) == length * divider - 0.1 * length;
    assert length * (0.9 - divider) == 0.9 * length - length * divider;
  }

  lemma ProductIsPositive(a: real, b: real)
    requires a >= 0.0 && b >= 0.0
    ensures a * b >= 0.0
  {
  }

  /** Every point of the rectangle lies in exactly one leaf, and no leaf reaches outside it. */
  lemma {:induction false} LeavesTile(node: LayoutNode, rect: Rect, path: Path, px: real, py: real)
    requires Legal(node) && rect.width > 0.0 && rect.height > 0.0
    ensures CountContaining(ComputeRects(node, rect, path), px, py) == if Contains(rect, px, py) then 1 else 0
  {
    if node.Pane? {
      var rects := ComputeRects(node, rect, path);
      assert rects[..|rects| - 1] == [];
    } else {
      var a, b := FirstPart(node.orientation, node.divider, rect), SecondPart(node.orientation, node.divider, rect);
      PartsPartition(node.orientation, node.divider, rect);
      hide FirstPart, SecondPart;
      LeavesTile(node.first, a, path + [First], px, py);
      LeavesTile(node.second, b, path + [Second], px, py);
      CountAppend(ComputeRects(node.first, a, path + [First]), ComputeRects(node.second, b, path + [Second]), px, py);
      assert !(Contains(a, px, py) && Contains(b, px, py));
      assert Contains(rect, px, py) <==> Contains(a, px, py) || Contains(b, px, py);
    }
  }

  lemma {:induction false} CountZero(rects: seq<PaneRect>, px: real, py: real)
    requires CountContaining(rects, px, py) == 0
    ensures forall i :: 0 <= i < |rects| ==> !Contains(rects[i].rect, px, py)
  {
    if rects != [] {
      var init := rects[..|rects| - 1];
      CountZero(init, px, py);
      forall i | 0 <= i < |rects| ensures !Contains(rects[i].rect, px, py) {
        if i < |init| { assert rects[i] == init[i]; }
      }
    }
  }

  lemma {:induction false} CountOne(rects: seq<PaneRect>, px: real, py: real) returns (k: nat)
    requires CountContaining(rects, px, py) == 1
    ensures k < |rects| && Contains(rects[k].rect, px, py)
    ensures forall i :: 0 <= i < |rects| && Contains(rects[i].rect, px, py) ==> i == k
  {
    var init := rects[..|rects| - 1];
    if Contains(rects[|rects| - 1].rect, px, py) {
      k := |rects| - 1;
      CountZero(init, px, py);
      assert forall i :: 0 <= i < |init| ==> rects[i] == init[i];
    } else {
      k := CountOne(init, px, py);
      forall i | 0 <= i < |rects| && Contains(rects[i].rect, px, py) ensures i == k {
        assert init[i] == rects[i];
      }
    }
  }

  /** The tiling theorem: each point of the unit square is in one leaf and in no other. */
  lemma UnitSquareIsTiled(tree: LayoutNode, px: real, py: real) returns (k: nat)
    requires Legal(tree) && Contains(UNIT, px, py)
    ensures k < |ComputeRects(tree, UNIT, [])|
    ensures forall i :: 0 <= i < |ComputeRects(tree, UNIT, [])| ==>
              (Contains(ComputeRects(tree, UNIT, [])[i].rect, px, py) <==> i == k)
  {
    LeavesTile(tree, UNIT, [], px, py);
    k := CountOne(ComputeRects(tree, UNIT, []), px, py);
  }

  function Area(rect: Rect): real { rect.width * rect.height }

  function TotalArea(rects: seq<PaneRect>): real {
    if rects == [] then 0.0
    else TotalArea(rects[..|rects| - 1]) + Area(rects[|rects| - 1].rect)
  }

  lemma {:induction false} AreaAppend(a: seq<PaneRect>, b: seq<PaneRect>)
    ensures TotalArea(a + b) == TotalArea(a) + TotalArea(b)
  {
    if b == [] {
      assert a + b == a;
    } else {
      assert (a + b)[..|a + b| - 1] == a + b[..|b| - 1];
      AreaAppend(a, b[..|b| - 1]);
    }
  }

  /** No area is lost or counted twice, whatever the dividers are. */
  lemma {:induction false} AreaIsConserved(node: LayoutNode, rect: Rect, path: Path)
    ensures TotalArea(ComputeRects(node, rect, path)) == Area(rect)
  {
    hide FirstPart, SecondPart, Area;
    if node.Pane? {
      var rects := ComputeRects(node, rect, path);
      assert rects[..|rects| - 1] == [];
    } else {
      var a, b := FirstPart(node.orientation, node.divider, rect), SecondPart(node.orientation, node.divider, rect);
      AreaIsConserved(node.first, a, path + [First]);
      AreaIsConserved(node.second, b, path + [Second]);
      AreaAppend(ComputeRects(node.first, a, path + [First]), ComputeRects(node.second, b, path + [Second]));
      PartsConserveArea(node.orientation, node.divider, rect);
    }
  }

  lemma PartsConserveArea(orientation: Orientation, divider: real, rect: Rect)
    ensures var a, b := FirstPart(orientation, divider, rect), SecondPart(orientation, divider, rect);
            Area(a) + Area(b) == Area(rect)
  {
    hide Portion;
    if orientation == Horizontal {
      var w := Portion(rect.width, divider);
      assert w * rect.height + (rect.width - w) * rect.height == (w + (rect.width - w)) * rect.height;
    } else {
      var h := Portion(rect.height, divider);
      assert rect.width * h + rect.width * (rect.height - h) == rect.width * (h + (rect.height - h));
    }
  }

  /** A tenth to the power `n`. */
  function Tenth(n: nat): (t: real)
    ensures 0.0 < t <= 1.0
  {
    if n == 0 then 1.0 else 0.1 * Tenth(n - 1)
  }

  /** A leaf `n` splits down keeps at least 0.1^n of each side, inside the bounds of the whole. */
  lemma {:induction false} LeavesAreNotThin(node: LayoutNode, rect: Rect, path: Path, n: nat)
    requires Legal(node) && rect.width >= Tenth(n) && rect.height >= Tenth(n)
    ensures forall i :: 0 <= i < |ComputeRects(node, rect, path)| ==>
              var leaf := ComputeRects(node, rect, path)[i];
              |path| <= |leaf.path| &&
              leaf.rect.width >= Tenth(n + |leaf.path| - |path|) &&
              leaf.rect.height >= Tenth(n + |leaf.path| - |path|) &&
              rect.x <= leaf.rect.x && leaf.rect.x + leaf.rect.width <= rect.x + rect.width &&
              rect.y <= leaf.rect.y && leaf.rect.y + leaf.rect.height <= rect.y + rect.height
  {
    hide FirstPart, SecondPart;
    if node.Split? {
      var a, b := FirstPart(node.orientation, node.divider, rect), SecondPart(node.orientation, node.divider, rect);
      PartsPartition(node.orientation, node.divider, rect);
      LeavesAreNotThin(node.first, a, path + [First], n + 1);
      LeavesAreNotThin(node.second, b, path + [Second], n + 1);
    }
  }

  /** The rectangles carry exactly the paths of the panes, in the same order. */
  lemma {:induction false} RectsFollowPanes(node: LayoutNode, rect: Rect, path: Path)
    ensures |ComputeRects(node, rect, path)| == |CollectPanes(node, path)|
    ensures forall i :: 0 <= i < |CollectPanes(node, path)| ==>
              ComputeRects(node, rect, path)[i].path == CollectPanes(node, path)[i].path
  {
    if node.Split? {
      RectsFollowPanes(node.first, FirstPart(node.orientation, node.divider, rect), path + [First]);
      RectsFollowPanes(node.second, SecondPart(node.orientation, node.divider, rect), path + [Second]);
    }
  }

  // ---------------------------------------------------------------- focus

  predicate Overlap(aStart: real, aLength: real, bStart: real, bLength: real) {
    aStart < bStart + bLength && bStart < aStart + aLength
  }

  /** `cand` lies in `direction` from `from`, with overlap on the other axis. */
  predicate IsInDirection(from: Rect, cand: Rect, direction: Direction, tolerance: real) {
    match direction
    case Left => cand.x + cand.width <= from.x + tolerance && Overlap(from.y, from.height, cand.y, cand.height)
    case Right => cand.x >= from.x + from.width - tolerance && Overlap(from.y, from.height, cand.y, cand.height)
    case Up => cand.y + cand.height <= from.y + tolerance && Overlap(from.x, from.width, cand.x, cand.width)
    case Down => cand.y >= from.y + from.height - tolerance && Overlap(from.x, from.width, cand.x, cand.width)
  }

  /** Squared distance between centres. */
  function Distance(a: Rect, b: Rect): real {
    var dx := (b.x + b.width / 2.0) - (a.x + a.width / 2.0);
    var dy := (b.y + b.height / 2.0) - (a.y + a.height / 2.0);
    dx * dx + dy * dy
  }

  /** Pane `i` may be focused from pane `f`. */
  predicate Candidate(rects: seq<PaneRect>, f: nat, i: nat, direction: Direction, tolerance: real)
    requires f < |rects| && i < |rects|
  {
    rects[i].path != rects[f].path && IsInDirection(rects[f].rect, rects[i].rect, direction, tolerance)
  }

  /** Pane `best` is the nearest candidate among the first `n`; the earliest one wins a tie. */
  ghost predicate Nearest(rects: seq<PaneRect>, f: nat, best: nat, n: nat, direction: Direction, tolerance: real)
    requires f < |rects| && best < n <= |rects|
  {
    && Candidate(rects, f, best, direction, tolerance)
    && (forall i :: 0 <= i < n && Candidate(rects, f, i, direction, tolerance) ==>
          Distance(rects[f].rect, rects[best].rect) <= Distance(rects[f].rect, rects[i].rect))
    && (forall i :: 0 <= i < best && Candidate(rects, f, i, direction, tolerance) ==>
          Distance(rects[f].rect, rects[best].rect) < Distance(rects[f].rect, rects[i].rect))
  }

  ghost predicate NoCandidate(rects: seq<PaneRect>, f: nat, n: nat, direction: Direction, tolerance: real)
    requires f < |rects| && n <= |rects|
  {
    forall i :: 0 <= i < n ==> !Candidate(rects, f, i, direction, tolerance)
  }

  /** What a focus move may answer: nothing off the tree or with no candidate, else the nearest candidate's path. */
  ghost predicate FocusAnswer(tree: LayoutNode, from: Path, direction: Direction, tolerance: real,
                              answer: Option<Path>)
  {
    var rects := ComputeRects(tree, UNIT, []);
    if !IsLeaf(tree, from) then answer == None
    else exists f: nat :: f < |rects| && rects[f].path == from && AnswerFrom(rects, f, direction, tolerance, answer)
  }

  ghost predicate AnswerFrom(rects: seq<PaneRect>, f: nat, direction: Direction, tolerance: real, answer: Option<Path>)
    requires f < |rects|
  {
    match answer
    case None => NoCandidate(rects, f, |rects|, direction, tolerance)
    case Some(path) =>
      exists best: nat ::
        best < |rects| && rects[best].path == path && Nearest(rects, f, best, |rects|, direction, tolerance)
  }

  method FocusInDirection(tree: LayoutNode, from: Path, direction: Direction) returns (answer: Option<Path>)
    ensures FocusAnswer(tree, from, direction, TOLERANCE, answer)
  {
    hide IsInDirection, Distance, ComputeRects, IsLeaf, FocusAnswer;
    var rects := ComputeRects(tree, UNIT, []);
    var f := 0;
    while f < |rects| && rects[f].path != from
      invariant f <= |rects|
      invariant forall i :: 0 <= i < f ==> rects[i].path != from
    {
      f := f + 1;
    }
    if f == |rects| {
      NothingFocused(tree, from, direction, rects);
      return None;
    }
    var best: Option<nat> := None;
    var bestDist := 0.0;
    var i := 0;
    while i < |rects|
      invariant i <= |rects|
      invariant best.None? ==> NoCandidate(rects, f, i, direction, TOLERANCE)
      invariant best.Some? ==> best.value < i && Nearest(rects, f, best.value, i, direction, TOLERANCE) &&
                               bestDist == Distance(rects[f].rect, rects[best.value].rect)
    {
      if rects[i].path != from && IsInDirection(rects[f].rect, rects[i].rect, direction, TOLERANCE) {
        var dist := Distance(rects[f].rect, rects[i].rect);
        if best.None? || dist < bestDist {
          bestDist := dist;
          best := Some(i);
        }
      }
      i := i + 1;
    }
    answer := if best.Some? then Some(rects[best.value].path) else None;
    if best.Some? {
      assert Nearest(rects, f, best.value, |rects|, direction, TOLERANCE);
    }
    assert AnswerFrom(rects, f, direction, TOLERANCE, answer);
    AnsweredFrom(tree, from, direction, rects, f, answer);
  }

  lemma NothingFocused(tree: LayoutNode, from: Path, direction: Direction, rects: seq<PaneRect>)
    requires rects == ComputeRects(tree, UNIT, []) && forall i :: 0 <= i < |rects| ==> rects[i].path != from
    ensures FocusAnswer(tree, from, direction, TOLERANCE, None)
  {
    LeafRectIndex(tree, from);
  }

  lemma AnsweredFrom(tree: LayoutNode, from: Path, direction: Direction, rects: seq<PaneRect>, f: nat,
                     answer: Option<Path>)
    requires rects == ComputeRects(tree, UNIT, []) && f < |rects| && rects[f].path == from
    requires AnswerFrom(rects, f, direction, TOLERANCE, answer)
    ensures FocusAnswer(tree, from, direction, TOLERANCE, answer)
  {
    hide AnswerFrom;
    LeafRectIndex(tree, from);
  }

  lemma LeafRectIndex(tree: LayoutNode, from: Path)
    ensures IsLeaf(tree, from) <==>
            exists i :: 0 <= i < |ComputeRects(tree, UNIT, [])| && ComputeRects(tree, UNIT, [])[i].path == from
    ensures forall i, j :: 0 <= i < j < |ComputeRects(tree, UNIT, [])| ==>
              ComputeRects(tree, UNIT, [])[i].path != ComputeRects(tree, UNIT, [])[j].path
  {
    RectsFollowPanes(tree, UNIT, []);
    CollectPanesIsExact(tree, from);
  }

  /** The pane's edge is the workspace's edge on that side. */
  predicate Touches(rect: Rect, direction: Direction) {
    match direction
    case Left => rect.x == 0.0
    case Right => rect.x + rect.width == 1.0
    case Up => rect.y == 0.0
    case Down => rect.y + rect.height == 1.0
  }

  /** A point just across the edge, inside the workspace when the pane does not touch it. */
  function Across(rect: Rect, direction: Direction): (real, real) {
    match direction
    case Left => (0.0, rect.y)
    case Right => (rect.x + rect.width, rect.y)
    case Up => (rect.x, 0.0)
    case Down => (rect.x, rect.y + rect.height)
  }

  function Extent(rect: Rect, direction: Direction): real {
    if direction == Left || direction == Right then rect.width else rect.height
  }

  lemma LeafBounds(tree: LayoutNode, i: nat)
    requires Legal(tree) && i < |ComputeRects(tree, UNIT, [])|
    ensures var leaf := ComputeRects(tree, UNIT, [])[i];
            leaf.rect.width >= Tenth(|leaf.path|) && leaf.rect.height >= Tenth(|leaf.path|) &&
            0.0 <= leaf.rect.x && leaf.rect.x + leaf.rect.width <= 1.0 &&
            0.0 <= leaf.rect.y && leaf.rect.y + leaf.rect.height <= 1.0
  {
    LeavesAreNotThin(tree, UNIT, [], 0);
  }

  /** Two leaves that overlap on one axis are disjoint on the other. */
  lemma LeavesAreDisjoint(tree: LayoutNode, i: nat, j: nat)
    requires Legal(tree) && i < |ComputeRects(tree, UNIT, [])| && j < |ComputeRects(tree, UNIT, [])| && i != j
    ensures var a, b := ComputeRects(tree, UNIT, [])[i].rect, ComputeRects(tree, UNIT, [])[j].rect;
            !(Overlap(a.x, a.width, b.x, b.width) && Overlap(a.y, a.height, b.y, b.height))
  {
    var a, b := ComputeRects(tree, UNIT, [])[i].rect, ComputeRects(tree, UNIT, [])[j].rect;
    LeafBounds(tree, i);
    LeafBounds(tree, j);
    if Overlap(a.x, a.width, b.x, b.width) && Overlap(a.y, a.height, b.y, b.height) {
      var px := if a.x < b.x then b.x else a.x;
      var py := if a.y < b.y then b.y else a.y;
      var k := UnitSquareIsTiled(tree, px, py);
      assert Contains(a, px, py) && Contains(b, px, py);
    }
  }

  /** Completeness: away from the workspace's edge there is always somewhere to go. */
  lemma CandidateExists(tree: LayoutNode, f: nat, direction: Direction, tolerance: real)
    requires Legal(tree) && f < |ComputeRects(tree, UNIT, [])| && tolerance >= 0.0
    requires !Touches(ComputeRects(tree, UNIT, [])[f].rect, direction)
    ensures !NoCandidate(ComputeRects(tree, UNIT, []), f, |ComputeRects(tree, UNIT, [])|, direction, tolerance)
  {
    var rects := ComputeRects(tree, UNIT, []);
    var from := rects[f].rect;
    LeafBounds(tree, f);
    var p := Across(from, direction);
    var k := UnitSquareIsTiled(tree, p.0, p.1);
    assert !Contains(from, p.0, p.1);
    LeafBounds(tree, k);
    LeavesAreDisjoint(tree, f, k);
    LeafRectIndex(tree, rects[f].path);
    assert rects[k].path != rects[f].path by {
      if k < f { assert rects[k].path != rects[f].path; } else { assert rects[f].path != rects[k].path; }
    }
    assert Candidate(rects, f, k, direction, tolerance);
  }

  /** Soundness: at the workspace's edge there is nowhere to go, if the pane is not thinner than the slack. */
  lemma NoCandidateAtEdge(tree: LayoutNode, f: nat, direction: Direction, tolerance: real)
    requires Legal(tree) && f < |ComputeRects(tree, UNIT, [])|
    requires Touches(ComputeRects(tree, UNIT, [])[f].rect, direction)
    requires Extent(ComputeRects(tree, UNIT, [])[f].rect, direction) >= tolerance
    ensures NoCandidate(ComputeRects(tree, UNIT, []), f, |ComputeRects(tree, UNIT, [])|, direction, tolerance)
  {
    var rects := ComputeRects(tree, UNIT, []);
    LeafBounds(tree, f);
    forall i | 0 <= i < |rects| ensures !Candidate(rects, f, i, direction, tolerance) {
      LeafBounds(tree, i);
      if i != f {
        LeavesAreDisjoint(tree, f, i);
      }
    }
  }

  /** The focus theorem: stuck exactly at the edge; over exact reals (no slack) this holds for every pane. */
  lemma StuckExactlyAtEdge(tree: LayoutNode, f: nat, direction: Direction, tolerance: real, answer: Option<Path>)
    requires Legal(tree) && f < |ComputeRects(tree, UNIT, [])| && tolerance >= 0.0
    requires FocusAnswer(tree, ComputeRects(tree, UNIT, [])[f].path, direction, tolerance, answer)
    ensures !Touches(ComputeRects(tree, UNIT, [])[f].rect, direction) ==> answer.Some?
    ensures Extent(ComputeRects(tree, UNIT, [])[f].rect, direction) >= tolerance ==>
              (answer.None? <==> Touches(ComputeRects(tree, UNIT, [])[f].rect, direction))
  {
    var rects := ComputeRects(tree, UNIT, []);
    LeafRectIndex(tree, rects[f].path);
    LeafBounds(tree, f);
    assert IsLeaf(tree, rects[f].path);
    var g: nat :| g < |rects| && rects[g].path == rects[f].path && AnswerFrom(rects, g, direction, tolerance, answer);
    assert g == f by {
      assert !(g < f) && !(f < g);
    }
    if Touches(rects[f].rect, direction) {
      if Extent(rects[f].rect, direction) >= tolerance {
        NoCandidateAtEdge(tree, f, direction, tolerance);
      }
    } else {
      CandidateExists(tree, f, direction, tolerance);
    }
  }

  // ---------------------------------------------------------------- how deep the slack is harmless

  /** From this pane, no answer means the workspace's edge and an answer means it is not. */
  ghost predicate StuckOnlyAtEdge(tree: LayoutNode, f: nat, direction: Direction)
    requires f < |ComputeRects(tree, UNIT, [])|
  {
    forall answer ::
      FocusAnswer(tree, ComputeRects(tree, UNIT, [])[f].path, direction, TOLERANCE, answer) ==>
      (answer.None? <==> Touches(ComputeRects(tree, UNIT, [])[f].rect, direction))
  }

  ghost predicate ExactToDepth(n: nat) {
    forall tree, f: nat, direction ::
      Legal(tree) && f < |ComputeRects(tree, UNIT, [])| && |ComputeRects(tree, UNIT, [])[f].path| <= n ==>
      StuckOnlyAtEdge(tree, f, direction)
  }

  lemma {:induction false} TenthDecreases(m: nat, n: nat)
    requires m <= n
    ensures Tenth(n) <= Tenth(m)
  {
    if m < n { TenthDecreases(m, n - 1); }
  }

  /** A best candidate exists as soon as there is a candidate. */
  lemma {:induction false} NearestExists(rects: seq<PaneRect>, f: nat, n: nat, direction: Direction, tolerance: real)
    returns (best: Option<nat>)
    requires f < |rects| && n <= |rects|
    ensures best.None? ==> NoCandidate(rects, f, n, direction, tolerance)
    ensures best.Some? ==> best.value < n && Nearest(rects, f, best.value, n, direction, tolerance)
  {
    if n == 0 { return None; }
    best := NearestExists(rects, f, n - 1, direction, tolerance);
    if Candidate(rects, f, n - 1, direction, tolerance) &&
       (best.None? || Distance(rects[f].rect, rects[n - 1].rect) < Distance(rects[f].rect, rects[best.value].rect))
    {
      best := Some(n - 1);
    }
  }

  /** The leftmost pane is split off at a tenth, `n` times over. */
  function Thin(n: nat): LayoutNode {
    if n == 0 then Pane([], None) else Split(Horizontal, 0.1, Thin(n - 1), Pane([], None))
  }

  lemma {:induction false} ThinRects(n: nat, rect: Rect, path: Path, k: nat)
    requires n > 0 && rect.width == Tenth(k)
    ensures Legal(Thin(n))
    ensures var rects := ComputeRects(Thin(n), rect, path);
            |rects| >= 2 && |rects[0].path| == |path| + n && rects[0].path != rects[1].path &&
            rects[0].rect == rect.(width := Tenth(k + n)) &&
            rects[1].rect == rect.(x := rect.x + Tenth(k + n), width := Tenth(k + n - 1) - Tenth(k + n))
  {
    var first := rect.(width := Portion(rect.width, 0.1));
    assert first.width == Tenth(k + 1);
    if n > 1 {
      ThinRects(n - 1, first, path + [First], k + 1);
    } else {
      assert ComputeRects(Thin(0), first, path + [First]) == [PaneRect(path + [First], first)];
      assert (path + [First])[|path|] != (path + [Second])[|path|];
    }
  }

  /** Down to nine splits the slack never matters; at ten a pane at the left edge can move "left" to the right. */
  lemma SlackIsHarmlessToDepthNine(n: nat)
    ensures ExactToDepth(n) <==> n <= 9
  {
    if n <= 9 {
      TenthDecreases(n, 9);
      assert Tenth(9) == TOLERANCE;
      forall tree, f: nat, direction |
        Legal(tree) && f < |ComputeRects(tree, UNIT, [])| && |ComputeRects(tree, UNIT, [])[f].path| <= n
        ensures StuckOnlyAtEdge(tree, f, direction)
      {
        LeafBounds(tree, f);
        TenthDecreases(|ComputeRects(tree, UNIT, [])[f].path|, n);
        forall answer | FocusAnswer(tree, ComputeRects(tree, UNIT, [])[f].path, direction, TOLERANCE, answer)
          ensures answer.None? <==> Touches(ComputeRects(tree, UNIT, [])[f].rect, direction)
        {
          StuckExactlyAtEdge(tree, f, direction, TOLERANCE, answer);
        }
      }
    } else {
      var tree := Thin(10);
      ThinRects(10, UNIT, [], 0);
      var rects := ComputeRects(tree, UNIT, []);
      assert Tenth(9) == TOLERANCE;
      assert Candidate(rects, 0, 1, Left, TOLERANCE);
      var best := NearestExists(rects, 0, |rects|, Left, TOLERANCE);
      var answer := Some(rects[best.value].path);
      LeafRectIndex(tree, rects[0].path);
      assert AnswerFrom(rects, 0, Left, TOLERANCE, answer);
      assert FocusAnswer(tree, rects[0].path, Left, TOLERANCE, answer);
      assert !StuckOnlyAtEdge(tree, 0, Left);
    }
  }
}
