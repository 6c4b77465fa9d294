/** The binary split tree: addressing, structural edits and the leaves they keep. */
module SplitTree {
  import opened Options

  datatype Error = PastLeaf | NotAPane | NotASplit

  datatype Result<+T> = Ok(value: T) | Err(error: Error)

  datatype Orientation = Horizontal | Vertical

  datatype LayoutNode =
    | Pane(panelIds: seq<string>, selectedPanelId: Option<string>)
    | Split(orientation: Orientation, divider: real, first: LayoutNode, second: LayoutNode)
  {
    function Child(branch: Branch): LayoutNode
      requires Split?
    {
      if branch == First then first else second
    }

    function WithChild(branch: Branch, child: LayoutNode): LayoutNode
      requires Split?
    {
      if branch == First then this.(first := child) else this.(second := child)
    }
  }

  datatype Branch = First | Second

  function Other(branch: Branch): Branch {
    if branch == First then Second else First
  }

  type Path = seq<Branch>

  const DIVIDER_MIN := 0.1
  const DIVIDER_MAX := 0.9

  function ClampDivider(position: real): real {
    var raised := if position < DIVIDER_MIN then DIVIDER_MIN else position;
    if raised > DIVIDER_MAX then DIVIDER_MAX else raised
  }

  function Gap(a: real, b: real): real {
    if a < b then b - a else a - b
  }

  /** Of the positions from a tenth to nine tenths the one nearest to what was asked for. */
  lemma ClampIsNearest(position: real, other: real)
    requires 0.1 <= other <= 0.9
    ensures 0.1 <= ClampDivider(position) <= 0.9
    ensures Gap(ClampDivider(position), position) <= Gap(other, position)
  {
  }

  predicate LegalDivider(divider: real) {
    DIVIDER_MIN <= divider <= DIVIDER_MAX
  }

  predicate Legal(tree: LayoutNode) {
    tree.Split? ==> LegalDivider(tree.divider) && Legal(tree.first) && Legal(tree.second)
  }

  // ---------------------------------------------------------------- addressing

  /** The node a path leads to, or none when it runs off a leaf. */
  function At(tree: LayoutNode, path: Path): Option<LayoutNode> {
    if path == [] then Some(tree)
    else if tree.Pane? then None
    else At(tree.Child(path[0]), path[1..])
  }

  method GetNode(tree: LayoutNode, path: Path) returns (node: Option<LayoutNode>)
    ensures node == At(tree, path)
  {
    var cursor := tree;
    for i := 0 to |path|
      invariant At(cursor, path[i..]) == At(tree, path)
    {
      if cursor.Pane? {
        return None;
      }
      assert path[i..][1..] == path[i + 1..];
      cursor := cursor.Child(path[i]);
    }
    return Some(cursor);
  }

  predicate IsLeaf(tree: LayoutNode, path: Path) {
    At(tree, path).Some? && At(tree, path).value.Pane?
  }

  lemma {:induction false} AtAppend(tree: LayoutNode, p: Path, q: Path)
    ensures At(tree, p + q) == if At(tree, p).None? then None else At(At(tree, p).value, q)
  {
    if p == [] {
      assert p + q == q;
    } else if tree.Split? {
      assert (p + q)[1..] == p[1..] + q;
      AtAppend(tree.Child(p[0]), p[1..], q);
    }
  }

  // ---------------------------------------------------------------- edits

  /** Rebuild the tree with the node at `path` replaced; the edit may refuse the node it is given. */
  function MapAt(node: LayoutNode, path: Path, edit: LayoutNode -> Result<LayoutNode>): Result<LayoutNode> {
    if path == [] then edit(node)
    else if node.Pane? then Err(PastLeaf)
    else match MapAt(node.Child(path[0]), path[1..], edit)
      case Ok(child) => Ok(node.WithChild(path[0], child))
      case Err(error) => Err(error)
  }

  function NewSplit(orientation: Orientation, first: LayoutNode, second: LayoutNode, divider: real): LayoutNode {
    Split(orientation, ClampDivider(divider), first, second)
  }

  function SplitPane(orientation: Orientation, newLeaf: LayoutNode, divider: real, newFirst: bool)
    : LayoutNode -> Result<LayoutNode>
  {
    (n: LayoutNode) =>
      if n.Split? then Err(NotAPane)
      else if newFirst then Ok(NewSplit(orientation, newLeaf, n, divider))
      else Ok(NewSplit(orientation, n, newLeaf, divider))
  }

  function SplitLeaf(tree: LayoutNode, path: Path, orientation: Orientation, newLeaf: LayoutNode,
                     divider: real, newFirst: bool): Result<LayoutNode>
  {
    MapAt(tree, path, SplitPane(orientation, newLeaf, divider, newFirst))
  }

  /** Closing the root leaves no tree. */
  function ClosePane(tree: LayoutNode, path: Path): Result<Option<LayoutNode>> {
    if path == [] then Ok(None)
    else match RemoveAt(tree, path)
      case Ok(rest) => Ok(Some(rest))
      case Err(error) => Err(error)
  }

  function RemoveAt(node: LayoutNode, path: Path): Result<LayoutNode>
    requires path != []
  {
    if node.Pane? then Err(PastLeaf)
    else if |path| == 1 then Ok(node.Child(Other(path[0])))
    else match RemoveAt(node.Child(path[0]), path[1..])
      case Ok(child) => Ok(node.WithChild(path[0], child))
      case Err(error) => Err(error)
  }

  function SetDivider(position: real): LayoutNode -> Result<LayoutNode> {
    (n: LayoutNode) => if n.Pane? then Err(NotASplit) else Ok(n.(divider := ClampDivider(position)))
  }

  function ResizeDivider(tree: LayoutNode, path: Path, position: real): Result<LayoutNode> {
    MapAt(tree, path, SetDivider(position))
  }

  function Equalize(node: LayoutNode): LayoutNode {
    if node.Pane? then node
    else node.(divider := 0.5, first := Equalize(node.first), second := Equalize(node.second))
  }

  // ---------------------------------------------------------------- leaves

  datatype LocatedPane = LocatedPane(path: Path, pane: LayoutNode)

  function CollectPanes(node: LayoutNode, path: Path): seq<LocatedPane> {
    if node.Pane? then [LocatedPane(path, node)]
    else CollectPanes(node.first, path + [First]) + CollectPanes(node.second, path + [Second])
  }

  /** Every leaf is listed under the path that leads to it. */
  lemma {:induction false} CollectedAreLeaves(node: LayoutNode, path: Path)
    ensures forall i :: 0 <= i < |CollectPanes(node, path)| ==>
              var located := CollectPanes(node, path)[i];
              path <= located.path && At(node, located.path[|path|..]) == Some(located.pane) && located.pane.Pane?
  {
    if node.Split? {
      CollectedAreLeaves(node.first, path + [First]);
      CollectedAreLeaves(node.second, path + [Second]);
      var all := CollectPanes(node, path);
      var left := CollectPanes(node.first, path + [First]);
      forall i | 0 <= i < |all|
        ensures path <= all[i].path && At(node, all[i].path[|path|..]) == Some(all[i].pane) && all[i].pane.Pane?
      {
        var branch := if i < |left| then First else Second;
        assert path + [branch] <= all[i].path;
        assert all[i].path[|path|..][1..] == all[i].path[|path + [branch]|..];
      }
    }
  }

  /** The position of a leaf in the list of leaves. */
  function LeafIndex(node: LayoutNode, path: Path): (i: nat)
    requires IsLeaf(node, path)
  {
    if path == [] then 0
    else if path[0] == First then LeafIndex(node.first, path[1..])
    else |CollectPanes(node.first, [])| + LeafIndex(node.second, path[1..])
  }

  lemma {:induction false} CollectShift(node: LayoutNode, path: Path)
    ensures |CollectPanes(node, path)| == |CollectPanes(node, [])|
    ensures forall i :: 0 <= i < |CollectPanes(node, path)| ==>
              CollectPanes(node, path)[i].pane == CollectPanes(node, [])[i].pane
  {
    if node.Split? {
      CollectShift(node.first, path + [First]);
      CollectShift(node.first, [] + [First]);
      CollectShift(node.second, path + [Second]);
      CollectShift(node.second, [] + [Second]);
    }
  }

  /** The list and the addressing are inverse: the leaf at `q` sits at index `LeafIndex(q)`, and nowhere else. */
  lemma {:induction false} CollectListsLeaf(node: LayoutNode, path: Path, q: Path)
    requires IsLeaf(node, q)
    ensures LeafIndex(node, q) < |CollectPanes(node, path)|
    ensures CollectPanes(node, path)[LeafIndex(node, q)] == LocatedPane(path + q, At(node, q).value)
    ensures forall i :: 0 <= i < |CollectPanes(node, path)| && CollectPanes(node, path)[i].path == path + q ==>
              i == LeafIndex(node, q)
  {
    if q == [] {
      assert path + q == path;
    } else {
      var branch := q[0];
      assert path + q == path + [branch] + q[1..];
      CollectListsLeaf(node.Child(branch), path + [branch], q[1..]);
      CollectShift(node.first, path + [First]);
      CollectedAreLeaves(node.Child(Other(branch)), path + [Other(branch)]);
      var other := CollectPanes(node.Child(Other(branch)), path + [Other(branch)]);
      forall i | 0 <= i < |other| ensures other[i].path != path + q {
        assert path + [Other(branch)] <= other[i].path;
        assert other[i].path[|path|] == Other(branch) && (path + q)[|path|] == branch;
      }
    }
  }

  /** Every leaf path is listed exactly once, and nothing else is. */
  lemma CollectPanesIsExact(tree: LayoutNode, q: Path)
    ensures IsLeaf(tree, q) <==> exists i :: 0 <= i < |CollectPanes(tree, [])| && CollectPanes(tree, [])[i].path == q
    ensures forall i, j :: 0 <= i < j < |CollectPanes(tree, [])| ==>
              CollectPanes(tree, [])[i].path != CollectPanes(tree, [])[j].path
  {
    var all := CollectPanes(tree, []);
    CollectedAreLeaves(tree, []);
    forall i | 0 <= i < |all| ensures IsLeaf(tree, all[i].path) {
      assert all[i].path[0..] == all[i].path;
    }
    if IsLeaf(tree, q) {
      CollectListsLeaf(tree, [], q);
      assert [] + q == q;
    }
    forall i, j | 0 <= i < j < |all| ensures all[i].path != all[j].path {
      CollectListsLeaf(tree, [], all[i].path);
      assert [] + all[i].path == all[i].path;
    }
  }

  /** The panes of the tree, left to right. */
  function Panes(node: LayoutNode): seq<LayoutNode> {
    if node.Pane? then [node] else Panes(node.first) + Panes(node.second)
  }

  lemma {:induction false} CollectPanesLists(node: LayoutNode, path: Path)
    ensures |CollectPanes(node, path)| == |Panes(node)|
    ensures forall i :: 0 <= i < |Panes(node)| ==> CollectPanes(node, path)[i].pane == Panes(node)[i]
  {
    if node.Split? {
      CollectPanesLists(node.first, path + [First]);
      CollectPanesLists(node.second, path + [Second]);
    }
  }

  /** The panes to the left and to the right of the subtree at `path`. */
  function Before(node: LayoutNode, path: Path): seq<LayoutNode>
    requires At(node, path).Some?
  {
    if path == [] then []
    else if path[0] == First then Before(node.first, path[1..])
    else Panes(node.first) + Before(node.second, path[1..])
  }

  function After(node: LayoutNode, path: Path): seq<LayoutNode>
    requires At(node, path).Some?
  {
    if path == [] then []
    else if path[0] == First then After(node.first, path[1..]) + Panes(node.second)
    else After(node.second, path[1..])
  }

  lemma {:induction false} PanesAround(node: LayoutNode, path: Path)
    requires At(node, path).Some?
    ensures Panes(node) == Before(node, path) + Panes(At(node, path).value) + After(node, path)
  {
    if path != [] {
      PanesAround(node.Child(path[0]), path[1..]);
    }
  }

  // ---------------------------------------------------------------- what the edits keep

  /** An edit touches the addressed node only: the node there is edited, every other pane stays in its place. */
  lemma {:induction false} MapAtReplaces(node: LayoutNode, path: Path, edit: LayoutNode -> Result<LayoutNode>)
    ensures MapAt(node, path, edit).Ok? <==> At(node, path).Some? && edit(At(node, path).value).Ok?
    ensures MapAt(node, path, edit).Ok? ==>
              var edited := MapAt(node, path, edit).value;
              At(edited, path) == Some(edit(At(node, path).value).value) &&
              Before(edited, path) == Before(node, path) && After(edited, path) == After(node, path)
    ensures MapAt(node, path, edit).Err? ==>
              MapAt(node, path, edit).error ==
              if At(node, path).None? then PastLeaf else edit(At(node, path).value).error
  {
    if path != [] && node.Split? {
      MapAtReplaces(node.Child(path[0]), path[1..], edit);
    }
  }

  /** Off the edited path nothing changes. */
  lemma {:induction false} MapAtFrame(node: LayoutNode, path: Path, edit: LayoutNode -> Result<LayoutNode>, q: Path)
    requires MapAt(node, path, edit).Ok? && !(path <= q)
    ensures var edited := MapAt(node, path, edit).value;
            if q <= path then
              At(edited, q).Some? && At(node, q).Some? &&
              At(edited, q).value.Split? && At(node, q).value.Split? &&
              At(edited, q).value.orientation == At(node, q).value.orientation &&
              At(edited, q).value.divider == At(node, q).value.divider
            else At(edited, q) == At(node, q)
  {
    if path != [] && q != [] && path[0] == q[0] {
      assert path[1..] <= q[1..] ==> path <= q by {
        assert path == [path[0]] + path[1..] && q == [q[0]] + q[1..];
      }
      assert q[1..] <= path[1..] ==> q <= path by {
        assert path == [path[0]] + path[1..] && q == [q[0]] + q[1..];
      }
      MapAtFrame(node.Child(path[0]), path[1..], edit, q[1..]);
    }
  }

  lemma {:induction false} MapAtLegal(node: LayoutNode, path: Path, edit: LayoutNode -> Result<LayoutNode>)
    requires Legal(node) && MapAt(node, path, edit).Ok?
    requires forall n :: Legal(n) && edit(n).Ok? ==> Legal(edit(n).value)
    ensures Legal(MapAt(node, path, edit).value)
  {
    if path != [] {
      MapAtLegal(node.Child(path[0]), path[1..], edit);
    }
  }

  /** Splitting works exactly on leaves and puts the new pane on the asked side of the old one. */
  lemma SplitLeafInserts(tree: LayoutNode, path: Path, orientation: Orientation, newLeaf: LayoutNode, divider: real,
                         newFirst: bool)
    ensures SplitLeaf(tree, path, orientation, newLeaf, divider, newFirst).Ok? <==> IsLeaf(tree, path)
    ensures IsLeaf(tree, path) ==>
              var after := SplitLeaf(tree, path, orientation, newLeaf, divider, newFirst).value;
              var old' := [At(tree, path).value];
              Panes(after) == Before(tree, path) +
                              (if newFirst then Panes(newLeaf) + old' else old' + Panes(newLeaf)) + After(tree, path)
    ensures IsLeaf(tree, path) ==>
              At(SplitLeaf(tree, path, orientation, newLeaf, divider, newFirst).value, path) ==
              Some(Split(orientation, ClampDivider(divider),
                         if newFirst then newLeaf else At(tree, path).value,
                         if newFirst then At(tree, path).value else newLeaf))
    ensures IsLeaf(tree, path) && Legal(tree) && Legal(newLeaf) ==>
              Legal(SplitLeaf(tree, path, orientation, newLeaf, divider, newFirst).value)
  {
    var edit := SplitPane(orientation, newLeaf, divider, newFirst);
    MapAtReplaces(tree, path, edit);
    if IsLeaf(tree, path) {
      var after := MapAt(tree, path, edit).value;
      PanesAround(after, path);
      if Legal(tree) && Legal(newLeaf) {
        MapAtLegal(tree, path, edit);
      }
    }
  }

  /** Closing the leaf that a split just added gives back the very same tree. */
  lemma {:induction false} CloseUndoesSplit(tree: LayoutNode, path: Path, orientation: Orientation,
                                            newLeaf: LayoutNode, divider: real, newFirst: bool)
    requires IsLeaf(tree, path)
    ensures SplitLeaf(tree, path, orientation, newLeaf, divider, newFirst).Ok?
    ensures var after := SplitLeaf(tree, path, orientation, newLeaf, divider, newFirst).value;
            ClosePane(after, path + [if newFirst then First else Second]) == Ok(Some(tree))
  {
    var added := if newFirst then First else Second;
    if path != [] {
      CloseUndoesSplit(tree.Child(path[0]), path[1..], orientation, newLeaf, divider, newFirst);
      assert (path + [added])[1..] == path[1..] + [added];
    }
  }

  /** Closing works exactly on paths that exist; it drops the addressed panes and keeps the order of the rest. */
  lemma {:induction false} ClosePaneRemoves(tree: LayoutNode, path: Path)
    requires path != []
    ensures ClosePane(tree, path).Ok? <==> At(tree, path).Some?
    ensures ClosePane(tree, path).Ok? ==>
              ClosePane(tree, path).value.Some? &&
              Panes(ClosePane(tree, path).value.value) == Before(tree, path) + After(tree, path)
    ensures ClosePane(tree, path).Ok? && Legal(tree) ==> Legal(ClosePane(tree, path).value.value)
  {
    if tree.Split? {
      if |path| == 1 {
        assert At(tree, path) == Some(tree.Child(path[0]));
        assert Before(tree, path) + After(tree, path) == Panes(tree.Child(Other(path[0])));
      } else {
        ClosePaneRemoves(tree.Child(path[0]), path[1..]);
      }
    }
  }

  function KeepOther(branch: Branch): LayoutNode -> Result<LayoutNode> {
    (n: LayoutNode) => if n.Split? then Ok(if branch == First then n.second else n.first) else Err(PastLeaf)
  }

  /** Closing replaces the parent by the sibling, as an edit of the parent: what holds of edits holds of closing. */
  lemma {:induction false} CloseReplacesParent(tree: LayoutNode, parent: Path, branch: Branch)
    ensures ClosePane(tree, parent + [branch]) ==
            match MapAt(tree, parent, KeepOther(branch)) case Ok(rest) => Ok(Some(rest)) case Err(error) => Err(error)
    ensures ClosePane(tree, []) == Ok(None)
  {
    if parent == [] {
      assert parent + [branch] == [branch];
    } else if tree.Split? {
      assert (parent + [branch])[1..] == parent[1..] + [branch] && |parent + [branch]| > 1;
      CloseReplacesParent(tree.Child(parent[0]), parent[1..], branch);
    }
  }

  /** So the sibling takes the parent's place, and off the path to it no pane, orientation or divider changes. */
  lemma CloseKeepsTheRest(tree: LayoutNode, parent: Path, branch: Branch, q: Path)
    requires ClosePane(tree, parent + [branch]).Ok?
    ensures At(tree, parent).Some? && At(tree, parent).value.Split?
    ensures ClosePane(tree, parent + [branch]).value.Some?
    ensures var split, after := At(tree, parent).value, ClosePane(tree, parent + [branch]).value.value;
            && At(after, parent) == Some(if branch == First then split.second else split.first)
            && (!(parent <= q) ==>
                 if q <= parent then
                   At(after, q).Some? && At(tree, q).Some? && At(after, q).value.Split? && At(tree, q).value.Split? &&
                   At(after, q).value.orientation == At(tree, q).value.orientation &&
                   At(after, q).value.divider == At(tree, q).value.divider
                 else At(after, q) == At(tree, q))
  {
    CloseReplacesParent(tree, parent, branch);
    MapAtReplaces(tree, parent, KeepOther(branch));
    if !(parent <= q) { MapAtFrame(tree, parent, KeepOther(branch), q); }
  }

  /** Panes are listed from left to right, top to bottom: where two paths part, the one that goes first comes first. */
  predicate PartInOrder(p: Path, q: Path, k: nat) {
    k < |p| && k < |q| && p[..k] == q[..k] && p[k] == First && q[k] == Second
  }

  lemma {:induction false} CollectInOrder(node: LayoutNode, path: Path, i: nat, j: nat) returns (k: nat)
    requires i < j < |CollectPanes(node, path)|
    ensures PartInOrder(CollectPanes(node, path)[i].path, CollectPanes(node, path)[j].path, k)
  {
    var left, right := CollectPanes(node.first, path + [First]), CollectPanes(node.second, path + [Second]);
    if j < |left| {
      k := CollectInOrder(node.first, path + [First], i, j);
    } else if i >= |left| {
      k := CollectInOrder(node.second, path + [Second], i - |left|, j - |left|);
    } else {
      k := |path|;
      CollectedAreLeaves(node.first, path + [First]);
      CollectedAreLeaves(node.second, path + [Second]);
      var p, q := left[i].path, right[j - |left|].path;
      assert p[..k] == (path + [First])[..k] && q[..k] == (path + [Second])[..k];
    }
  }

  /** Two trees with the same shape, the same panes and the same orientations. */
  predicate SameLayout(a: LayoutNode, b: LayoutNode) {
    if a.Pane? then a == b
    else b.Split? && a.orientation == b.orientation && SameLayout(a.first, b.first) && SameLayout(a.second, b.second)
  }

  lemma {:induction false} SameLayoutSameLeaves(a: LayoutNode, b: LayoutNode, path: Path)
    requires SameLayout(a, b)
    ensures CollectPanes(a, path) == CollectPanes(b, path)
  {
    if a.Split? {
      SameLayoutSameLeaves(a.first, b.first, path + [First]);
      SameLayoutSameLeaves(a.second, b.second, path + [Second]);
    }
  }

  lemma {:induction false} SameLayoutReflexive(a: LayoutNode)
    ensures SameLayout(a, a)
  {
    if a.Split? {
      SameLayoutReflexive(a.first);
      SameLayoutReflexive(a.second);
    }
  }

  lemma {:induction false} ResizeKeepsLayout(tree: LayoutNode, path: Path, position: real)
    requires ResizeDivider(tree, path, position).Ok?
    ensures SameLayout(tree, ResizeDivider(tree, path, position).value)
  {
    SameLayoutReflexive(tree);
    if path != [] {
      SameLayoutReflexive(tree.Child(Other(path[0])));
      ResizeKeepsLayout(tree.Child(path[0]), path[1..], position);
    } else {
      SameLayoutReflexive(tree.first);
      SameLayoutReflexive(tree.second);
    }
  }

  /** Resizing works exactly on splits, sets the clamped divider, keeps the leaves where they are and stays legal. */
  lemma ResizeSetsDivider(tree: LayoutNode, path: Path, position: real)
    ensures ResizeDivider(tree, path, position).Ok? <==> At(tree, path).Some? && At(tree, path).value.Split?
    ensures ResizeDivider(tree, path, position).Ok? ==>
              var after := ResizeDivider(tree, path, position).value;
              At(after, path) == Some(At(tree, path).value.(divider := ClampDivider(position))) &&
              CollectPanes(after, []) == CollectPanes(tree, []) && (Legal(tree) ==> Legal(after))
  {
    var edit := SetDivider(position);
    MapAtReplaces(tree, path, edit);
    if ResizeDivider(tree, path, position).Ok? {
      ResizeKeepsLayout(tree, path, position);
      SameLayoutSameLeaves(tree, ResizeDivider(tree, path, position).value, []);
      if Legal(tree) {
        MapAtLegal(tree, path, edit);
      }
    }
  }

  predicate Even(tree: LayoutNode) {
    tree.Split? ==> tree.divider == 0.5 && Even(tree.first) && Even(tree.second)
  }

  /** Equalizing evens every divider, whatever it was, and moves no leaf. */
  lemma {:induction false} EqualizeEvens(tree: LayoutNode)
    ensures Even(Equalize(tree)) && Legal(Equalize(tree)) && SameLayout(tree, Equalize(tree))
    ensures forall path :: CollectPanes(Equalize(tree), path) == CollectPanes(tree, path)
  {
    if tree.Split? {
      EqualizeEvens(tree.first);
      EqualizeEvens(tree.second);
    }
    forall path ensures CollectPanes(Equalize(tree), path) == CollectPanes(tree, path) {
      SameLayoutSameLeaves(tree, Equalize(tree), path);
    }
  }
}
