/** What the parts of a printed path say, one by one. */
module PathParts {
  import opened Options
  import opened Dom
  import opened CssPaths

  /** The children among the first `n` that have this tag. */
  function WithTag(children: seq<Element>, tag: string, n: nat): set<nat>
    requires n <= |children|
  {
    set i: nat | i < n && children[i].tag == tag
  }

  lemma {:induction false} CountTagCounts(children: seq<Element>, tag: string, n: nat)
    requires n <= |children|
    ensures CountTag(children, tag, n) == |WithTag(children, tag, n)|
  {
    if n > 0 {
      CountTagCounts(children, tag, n - 1);
      var before := WithTag(children, tag, n - 1);
      assert WithTag(children, tag, n) == if children[n - 1].tag == tag then before + {n - 1} else before;
    }
  }

  /** The element `j` levels up. */
  function Ancestor(at: Address, j: nat): Address
    requires j <= |at|
  {
    at[..|at| - j]
  }

  lemma {:induction false} AncestorExists(root: Element, at: Address, j: nat)
    requires Exists(root, at) && j <= |at|
    ensures Exists(root, Ancestor(at, j))
    decreases j
  {
    if j > 0 {
      ParentHolds(root, at);
      AncestorExists(root, Parent(at), j - 1);
      assert Ancestor(at, j) == Ancestor(Parent(at), j - 1);
    } else {
      assert Ancestor(at, 0) == at;
    }
  }

  /** The position among the element's siblings of its tag, from 1; none for an only one and for the root. */
  function Position(root: Element, at: Address): Option<nat>
    requires Exists(root, at)
  {
    if at == [] then None
    else
      ParentHolds(root, at);
      var siblings, tag := Get(root, Parent(at)).children, Get(root, at).tag;
      if |WithTag(siblings, tag, |siblings|)| == 1 then None
      else Some(1 + |WithTag(siblings, tag, ChildIndex(at))|)
  }

  /** `#id` for an element with an id, `tag#id` for an ancestor with one, else the tag and the position if needed. */
  predicate Describes(root: Element, at: Address, part: Part, innermost: bool)
    requires Exists(root, at)
  {
    var el := Get(root, at);
    if el.id != "" then part == Part(if innermost then None else Some(el.tag), Some(el.id), None)
    else part == Part(Some(el.tag), None, Position(root, at))
  }

  lemma PlainPartDescribes(root: Element, at: Address)
    requires Exists(root, at)
    ensures PlainPart(root, at) == Part(Some(Get(root, at).tag), None, Position(root, at))
  {
    if at != [] {
      ParentHolds(root, at);
      var siblings, tag := Get(root, Parent(at)).children, Get(root, at).tag;
      CountTagCounts(siblings, tag, |siblings|);
      CountTagCounts(siblings, tag, ChildIndex(at));
      PrintedPositionCounts(siblings, tag, |siblings|, ChildIndex(at));
      SameTagAt(siblings, tag, |siblings|, ChildIndex(at));
      hide CountTag, SameTag, IndexOf, WithTag, Exists;
    }
  }

  /** From the back, the parts describe the element, its parent, its parent's parent, and so on. */
  predicate DescribesAncestors(root: Element, at: Address, path: Selector, innermost: bool)
    requires Exists(root, at) && |path| <= |at| + 1
  {
    forall j :: 0 <= j < |path| ==>
      (AncestorExists(root, at, j);
       Describes(root, Ancestor(at, j), path[|path| - 1 - j], innermost && j == 0))
  }

  /** The walk ends with this many parts: an ancestor with an id, the root, or enough parts. */
  predicate Stops(root: Element, at: Address, parts: nat, cap: Option<nat>, taken: nat)
    requires Exists(root, at) && 0 < parts <= |at| + 1
  {
    AncestorExists(root, at, parts - 1);
    Get(root, Ancestor(at, parts - 1)).id != "" || parts == |at| + 1 || (cap.Some? && taken + parts >= cap.value)
  }

  lemma OneUp(at: Address, j: nat)
    requires 0 < j <= |at|
    ensures Ancestor(at, j) == Ancestor(Parent(at), j - 1)
  {
  }

  lemma DescribesOneMore(root: Element, at: Address, upper: Selector, part: Part)
    requires at != [] && Exists(root, at) && Exists(root, Parent(at)) && |upper| <= |at|
    requires DescribesAncestors(root, Parent(at), upper, false) && Describes(root, at, part, false)
    ensures DescribesAncestors(root, at, upper + [part], false)
  {
    hide Position, Exists, Get, Describes;
    var path := upper + [part];
    assert Ancestor(at, 0) == at;
    forall j | 0 < j < |path| ensures Ancestor(at, j) == Ancestor(Parent(at), j - 1) { OneUp(at, j); }
    hide Ancestor;
  }

  lemma StopsOneUp(root: Element, at: Address, parts: nat, cap: Option<nat>, taken: nat)
    requires at != [] && Exists(root, at) && Exists(root, Parent(at)) && 1 < parts <= |at| + 1
    ensures Stops(root, at, parts, cap, taken) == Stops(root, Parent(at), parts - 1, cap, taken + 1)
  {
    hide Exists, Get;
    OneUp(at, parts - 1);
  }

  lemma {:induction false} WalkDescribes(root: Element, at: Address, cap: Option<nat>, taken: nat)
    requires Exists(root, at)
    ensures var path := Walk(root, at, cap, taken);
            && |path| <= |at| + 1 && DescribesAncestors(root, at, path, false)
            && Stops(root, at, |path|, cap, taken) && forall n :: 0 < n < |path| ==> !Stops(root, at, n, cap, taken)
    decreases |at|
  {
    assert Ancestor(at, 0) == at;
    PlainPartDescribes(root, at);
    if Get(root, at).id == "" && at != [] && !Full(cap, taken + 1) {
      ParentHolds(root, at);
      WalkDescribes(root, Parent(at), cap, taken + 1);
      var upper, part := Walk(root, Parent(at), cap, taken + 1), PlainPart(root, at);
      assert Walk(root, at, cap, taken) == upper + [part];
      assert Describes(root, at, part, false) && !Stops(root, at, 1, cap, taken);
      hide PlainPart, Position, Exists, Get, Walk, Describes, DescribesAncestors, Stops;
      DescribesOneMore(root, at, upper, part);
      forall n | 1 < n <= |upper| + 1
        ensures Stops(root, at, n, cap, taken) == Stops(root, Parent(at), n - 1, cap, taken + 1)
      {
        StopsOneUp(root, at, n, cap, taken);
      }
    }
  }

  /**
   * The printed path of any element at any cap: its parts describe the element and its ancestors, and it ends at the
   * first ancestor with an id, at the root, or when the cap is reached, whichever comes first.
   */
  lemma PathDescribesAncestors(root: Element, at: Address, cap: Option<nat>)
    requires Exists(root, at)
    ensures var path := CssPath(root, at, cap);
            && |path| <= |at| + 1 && DescribesAncestors(root, at, path, true)
            && Stops(root, at, |path|, cap, 0) && forall n :: 0 < n < |path| ==> !Stops(root, at, n, cap, 0)
  {
    assert Ancestor(at, 0) == at;
    WalkDescribes(root, at, cap, 0);
  }
}
