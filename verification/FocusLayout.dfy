/** Where the panes of a split lie: which axis it cuts, where, and what that means for moving the focus. */
module FocusLayout {
  import opened Options
  import opened SplitTree
  import opened FocusNav

  // ---------------------------------------------------------------- the region of a node

  /** The rectangle that the node at `path` fills. */
  function RegionOf(node: LayoutNode, rect: Rect, path: Path): Rect
    requires At(node, path).Some?
  {
    if path == [] then rect
    else if path[0] == First then
      RegionOf(node.first, FirstPart(node.orientation, node.divider, rect), path[1..])
    else
      RegionOf(node.second, SecondPart(node.orientation, node.divider, rect), path[1..])
  }

  lemma {:induction false} PathsExtend(node: LayoutNode, rect: Rect, base: Path, leaf: PaneRect)
    requires leaf in ComputeRects(node, rect, base)
    ensures base <= leaf.path
  {
    hide FirstPart, SecondPart;
    if node.Split? {
      var a, b := FirstPart(node.orientation, node.divider, rect), SecondPart(node.orientation, node.divider, rect);
      if leaf in ComputeRects(node.first, a, base + [First]) {
        PathsExtend(node.first, a, base + [First], leaf);
      } else {
        PathsExtend(node.second, b, base + [Second], leaf);
      }
    }
  }

  lemma PrefixesAgree(base: Path, branch: Branch, rest: Path, path: Path)
    requires base + [branch] <= path
    ensures base + ([branch] + rest) == base + [branch] + rest
    ensures forall other, more: Path :: base + ([other] + more) <= path ==> other == branch
  {
    assert path[|base|] == branch;
    forall other, more: Path | base + ([other] + more) <= path ensures other == branch {
      assert (base + ([other] + more))[|base|] == other;
    }
  }

  /** The panes below a node are those that the node lays out in its own region. */
  lemma {:induction false} UnderPath(node: LayoutNode, rect: Rect, base: Path, path: Path, leaf: PaneRect)
    requires At(node, path).Some?
    ensures leaf in ComputeRects(At(node, path).value, RegionOf(node, rect, path), base + path) <==>
            leaf in ComputeRects(node, rect, base) && base + path <= leaf.path
    decreases |path|
  {
    hide FirstPart, SecondPart;
    if path == [] {
      assert base + path == base;
      if leaf in ComputeRects(node, rect, base) { PathsExtend(node, rect, base, leaf); }
    } else {
      var a, b := FirstPart(node.orientation, node.divider, rect), SecondPart(node.orientation, node.divider, rect);
      var branch, rest := path[0], path[1..];
      assert path == [branch] + rest && base + path == base + [branch] + rest;
      UnderPath(node.Child(branch), if branch == First then a else b, base + [branch], rest, leaf);
      if leaf in ComputeRects(node.first, a, base + [First]) {
        PathsExtend(node.first, a, base + [First], leaf);
        PrefixesAgree(base, First, rest, leaf.path);
      }
      if leaf in ComputeRects(node.second, b, base + [Second]) {
        PathsExtend(node.second, b, base + [Second], leaf);
        PrefixesAgree(base, Second, rest, leaf.path);
      }
    }
  }

  lemma {:induction false} RegionIsProper(node: LayoutNode, rect: Rect, path: Path)
    requires At(node, path).Some? && Legal(node) && rect.width > 0.0 && rect.height > 0.0
    ensures var region := RegionOf(node, rect, path); region.width > 0.0 && region.height > 0.0
    ensures Legal(At(node, path).value)
    decreases |path|
  {
    if path != [] {
      PartsPartition(node.orientation, node.divider, rect);
      hide FirstPart, SecondPart;
      if path[0] == First {
        RegionIsProper(node.first, FirstPart(node.orientation, node.divider, rect), path[1..]);
      } else {
        RegionIsProper(node.second, SecondPart(node.orientation, node.divider, rect), path[1..]);
      }
    }
  }

  lemma LeavesInside(node: LayoutNode, rect: Rect, path: Path, leaf: PaneRect)
    requires Legal(node) && rect.width > 0.0 && rect.height > 0.0 && leaf in ComputeRects(node, rect, path)
    ensures rect.x <= leaf.rect.x && leaf.rect.x + leaf.rect.width <= rect.x + rect.width
    ensures rect.y <= leaf.rect.y && leaf.rect.y + leaf.rect.height <= rect.y + rect.height
    decreases node
  {
    if node.Split? {
      var a, b := FirstPart(node.orientation, node.divider, rect), SecondPart(node.orientation, node.divider, rect);
      PartsPartition(node.orientation, node.divider, rect);
      hide FirstPart, SecondPart;
      if leaf in ComputeRects(node.first, a, path + [First]) {
        LeavesInside(node.first, a, path + [First], leaf);
      } else {
        LeavesInside(node.second, b, path + [Second], leaf);
      }
    }
  }

  /** The rectangle ends at or before the cut of a split that fills `region`. */
  predicate BeforeCut(split: LayoutNode, region: Rect, rect: Rect)
    requires split.Split?
  {
    match split.orientation
    case Horizontal => rect.x + rect.width <= region.x + split.divider * region.width
    case Vertical => rect.y + rect.height <= region.y + split.divider * region.height
  }

  predicate BehindCut(split: LayoutNode, region: Rect, rect: Rect)
    requires split.Split?
  {
    match split.orientation
    case Horizontal => region.x + split.divider * region.width <= rect.x
    case Vertical => region.y + split.divider * region.height <= rect.y
  }

  /**
   * Where a split is cut: its panes fill a rectangle, the whole square for the root. A horizontal split cuts it at
   * `divider` of its width, a vertical one at `divider` of its height; the panes of the first child lie before the cut
   * and those of the second child behind it.
   */
  lemma DividerCuts(tree: LayoutNode, path: Path) returns (region: Rect)
    requires Legal(tree) && At(tree, path).Some? && At(tree, path).value.Split?
    ensures path == [] ==> region == Rect(0.0, 0.0, 1.0, 1.0)
    ensures forall px, py ::
              Contains(region, px, py) <==>
              exists leaf :: leaf in ComputeRects(tree, UNIT, []) && path <= leaf.path && Contains(leaf.rect, px, py)
    ensures forall leaf :: leaf in ComputeRects(tree, UNIT, []) ==>
              (path + [First] <= leaf.path ==> BeforeCut(At(tree, path).value, region, leaf.rect)) &&
              (path + [Second] <= leaf.path ==> BehindCut(At(tree, path).value, region, leaf.rect))
  {
    hide Contains, BeforeCut, BehindCut, Legal;
    region := RegionOf(tree, UNIT, path);
    forall px, py
      ensures Contains(region, px, py) <==>
              exists leaf :: leaf in ComputeRects(tree, UNIT, []) && path <= leaf.path && Contains(leaf.rect, px, py)
    {
      RegionIsFilled(tree, path, px, py);
    }
    forall leaf | leaf in ComputeRects(tree, UNIT, [])
      ensures path + [First] <= leaf.path ==> BeforeCut(At(tree, path).value, region, leaf.rect)
      ensures path + [Second] <= leaf.path ==> BehindCut(At(tree, path).value, region, leaf.rect)
    {
      if path + [First] <= leaf.path { ChildLies(tree, path, First, leaf); }
      if path + [Second] <= leaf.path { ChildLies(tree, path, Second, leaf); }
    }
  }

  lemma RegionIsFilled(tree: LayoutNode, path: Path, px: real, py: real)
    requires Legal(tree) && At(tree, path).Some?
    ensures Contains(RegionOf(tree, UNIT, path), px, py) <==>
            exists leaf :: leaf in ComputeRects(tree, UNIT, []) && path <= leaf.path && Contains(leaf.rect, px, py)
  {
    hide Contains;
    var region, node := RegionOf(tree, UNIT, path), At(tree, path).value;
    var rects := ComputeRects(node, region, path);
    RegionIsProper(tree, UNIT, path);
    LeavesTile(node, region, path, px, py);
    assert [] + path == path;
    forall leaf ensures leaf in rects <==> leaf in ComputeRects(tree, UNIT, []) && path <= leaf.path {
      UnderPath(tree, UNIT, [], path, leaf);
    }
    if Contains(region, px, py) {
      var k := CountOne(rects, px, py);
      assert rects[k] in rects;
    } else {
      CountZero(rects, px, py);
    }
  }

  lemma ChildLies(tree: LayoutNode, path: Path, branch: Branch, leaf: PaneRect)
    requires Legal(tree) && At(tree, path).Some? && At(tree, path).value.Split?
    requires leaf in ComputeRects(tree, UNIT, []) && path + [branch] <= leaf.path
    ensures var region, split := RegionOf(tree, UNIT, path), At(tree, path).value;
            if branch == First then BeforeCut(split, region, leaf.rect) else BehindCut(split, region, leaf.rect)
  {
    var region, split := RegionOf(tree, UNIT, path), At(tree, path).value;
    RegionIsProper(tree, UNIT, path);
    assert [] + path == path && path <= leaf.path;
    UnderPath(tree, UNIT, [], path, leaf);
    hide ComputeRects, FirstPart, SecondPart, BeforeCut, BehindCut;
    InPart(split, region, path, branch, leaf);
  }

  lemma InPart(split: LayoutNode, region: Rect, path: Path, branch: Branch, leaf: PaneRect)
    requires split.Split? && Legal(split) && region.width > 0.0 && region.height > 0.0
    requires leaf in ComputeRects(split, region, path) && path + [branch] <= leaf.path
    ensures if branch == First then BeforeCut(split, region, leaf.rect) else BehindCut(split, region, leaf.rect)
  {
    var part := if branch == First then FirstPart(split.orientation, split.divider, region)
                else SecondPart(split.orientation, split.divider, region);
    PartsPartition(split.orientation, split.divider, region);
    assert [branch][1..] == [] && At(split, [branch]) == Some(split.Child(branch));
    assert RegionOf(split, region, [branch]) == part;
    hide FirstPart, SecondPart, ComputeRects;
    UnderPath(split, region, path, [branch], leaf);
    LeavesInside(split.Child(branch), part, path + [branch], leaf);
    PartIsCut(split, region);
  }

  lemma PartIsCut(split: LayoutNode, region: Rect)
    requires split.Split?
    ensures forall rect: Rect ::
              var part := FirstPart(split.orientation, split.divider, region);
              rect.x + rect.width <= part.x + part.width && rect.y + rect.height <= part.y + part.height ==>
              BeforeCut(split, region, rect)
    ensures forall rect: Rect ::
              var part := SecondPart(split.orientation, split.divider, region);
              part.x <= rect.x && part.y <= rect.y ==> BehindCut(split, region, rect)
  {
  }

  /** So the panes of the two children of a split lie side by side: on x when it is horizontal, on y when vertical. */
  lemma ChildrenLieApart(tree: LayoutNode, path: Path, a: PaneRect, b: PaneRect)
    requires Legal(tree) && At(tree, path).Some? && At(tree, path).value.Split?
    requires a in ComputeRects(tree, UNIT, []) && path + [First] <= a.path
    requires b in ComputeRects(tree, UNIT, []) && path + [Second] <= b.path
    ensures match At(tree, path).value.orientation
            case Horizontal => a.rect.x + a.rect.width <= b.rect.x
            case Vertical => a.rect.y + a.rect.height <= b.rect.y
  {
    var region := DividerCuts(tree, path);
  }

  // ---------------------------------------------------------------- who is beside whom

  /** The stretch of a rectangle on the axis across a direction. */
  predicate Spans(rect: Rect, direction: Direction, t: real) {
    match direction
    case Left => rect.y <= t < rect.y + rect.height
    case Right => rect.y <= t < rect.y + rect.height
    case Up => rect.x <= t < rect.x + rect.width
    case Down => rect.x <= t < rect.x + rect.width
  }

  /** The rectangle lies beyond the edge of `from` on that side, up to a billionth of the workspace. */
  predicate Beyond(from: Rect, rect: Rect, direction: Direction) {
    match direction
    case Left => rect.x + rect.width <= from.x + 1.0 / 1000000000.0
    case Right => rect.x >= from.x + from.width - 1.0 / 1000000000.0
    case Up => rect.y + rect.height <= from.y + 1.0 / 1000000000.0
    case Down => rect.y >= from.y + from.height - 1.0 / 1000000000.0
  }

  /** A pane may get the focus exactly when it lies beyond that edge and a line in that direction meets both panes. */
  lemma CandidateExactlyWhen(tree: LayoutNode, f: nat, i: nat, direction: Direction)
    requires Legal(tree) && f < |ComputeRects(tree, UNIT, [])| && i < |ComputeRects(tree, UNIT, [])|
    ensures var rects := ComputeRects(tree, UNIT, []);
            Candidate(rects, f, i, direction, TOLERANCE) <==>
            i != f && Beyond(rects[f].rect, rects[i].rect, direction) &&
            exists t :: Spans(rects[f].rect, direction, t) && Spans(rects[i].rect, direction, t)
  {
    var rects := ComputeRects(tree, UNIT, []);
    var a, b := rects[f].rect, rects[i].rect;
    LeafBounds(tree, f);
    LeafBounds(tree, i);
    LeafRectIndex(tree, rects[f].path);
    assert i != f ==> rects[i].path != rects[f].path;
    hide ComputeRects;
    if Candidate(rects, f, i, direction, TOLERANCE) {
      var t := if direction == Left || direction == Right then (if a.y < b.y then b.y else a.y)
               else if a.x < b.x then b.x else a.x;
      assert Spans(a, direction, t) && Spans(b, direction, t);
    }
  }

  /** Of two candidates the one whose centre is nearer is nearer; with doubled centres no fractions are needed. */
  lemma DistanceIsBetweenCentres(a: Rect, b: Rect)
    ensures var dx := (2.0 * b.x + b.width) - (2.0 * a.x + a.width);
            var dy := (2.0 * b.y + b.height) - (2.0 * a.y + a.height);
            4.0 * Distance(a, b) == dx * dx + dy * dy
  {
    var dx, dy := (2.0 * b.x + b.width) - (2.0 * a.x + a.width), (2.0 * b.y + b.height) - (2.0 * a.y + a.height);
    Half(dx);
    Half(dy);
    assert (b.x + b.width / 2.0) - (a.x + a.width / 2.0) == dx / 2.0;
    assert (b.y + b.height / 2.0) - (a.y + a.height / 2.0) == dy / 2.0;
  }

  lemma Half(d: real)
    ensures 4.0 * ((d / 2.0) * (d / 2.0)) == d * d
  {
  }

  // ---------------------------------------------------------------- two panes

  /** The direction that leads from the first child of such a split to the second. */
  function Onward(orientation: Orientation): Direction {
    match orientation case Horizontal => Right case Vertical => Down
  }

  function Back(orientation: Orientation): Direction {
    match orientation case Horizontal => Left case Vertical => Up
  }

  lemma TwoCandidates(orientation: Orientation, divider: real, p: LayoutNode, q: LayoutNode, direction: Direction)
    requires p.Pane? && q.Pane? && LegalDivider(divider)
    ensures var rects := ComputeRects(Split(orientation, divider, p, q), UNIT, []);
            && |rects| == 2 && rects[0].path == [First] && rects[1].path == [Second]
            && (Candidate(rects, 0, 1, direction, TOLERANCE) <==> direction == Onward(orientation))
            && (Candidate(rects, 1, 0, direction, TOLERANCE) <==> direction == Back(orientation))
            && !Candidate(rects, 0, 0, direction, TOLERANCE) && !Candidate(rects, 1, 1, direction, TOLERANCE)
  {
    RectsOfTwo(orientation, divider, p, q);
    PartsPartition(orientation, divider, UNIT);
    assert [First][0] != [Second][0];
    hide ComputeRects;
  }

  /** In a workspace of two panes, right or down leads from the first to the second, left or up leads back. */
  lemma TwoPanes(orientation: Orientation, divider: real, p: LayoutNode, q: LayoutNode, from: Branch,
                 direction: Direction, answer: Option<Path>)
    requires p.Pane? && q.Pane? && LegalDivider(divider)
    requires FocusAnswer(Split(orientation, divider, p, q), [from], direction, TOLERANCE, answer)
    ensures answer == if from == First && direction == Onward(orientation) then Some([Second])
                      else if from == Second && direction == Back(orientation) then Some([First])
                      else None
  {
    var tree := Split(orientation, divider, p, q);
    var rects := ComputeRects(tree, UNIT, []);
    TwoCandidates(orientation, divider, p, q, direction);
    assert [from][1..] == [] && At(tree, [from]) == Some(tree.Child(from));
    hide ComputeRects, Distance, Candidate;
    var f: nat :| f < |rects| && rects[f].path == [from] && AnswerFrom(rects, f, direction, TOLERANCE, answer);
    assert f == if from == First then 0 else 1 by { assert [First][0] != [Second][0]; }
  }

  lemma RectsOfTwo(orientation: Orientation, divider: real, p: LayoutNode, q: LayoutNode)
    requires p.Pane? && q.Pane?
    ensures ComputeRects(Split(orientation, divider, p, q), UNIT, []) ==
            [PaneRect([First], FirstPart(orientation, divider, UNIT)),
             PaneRect([Second], SecondPart(orientation, divider, UNIT))]
  {
    hide FirstPart, SecondPart;
    var a, b := FirstPart(orientation, divider, UNIT), SecondPart(orientation, divider, UNIT);
    assert [] + [First] == [First] && [] + [Second] == [Second];
    assert ComputeRects(p, a, [First]) == [PaneRect([First], a)];
    assert ComputeRects(q, b, [Second]) == [PaneRect([Second], b)];
  }
}
