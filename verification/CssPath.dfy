/** Element trees, child-combinator selectors and how they resolve. */
module Dom {
  import opened Options

  /** An empty id is no id; tags are lower-case names. */
  datatype Element = Element(tag: string, id: string, children: seq<Element>)

  /** The child indices that lead from the root to an element. */
  type Address = seq<nat>

  predicate Exists(root: Element, at: Address) {
    at == [] || (at[0] < |root.children| && Exists(root.children[at[0]], at[1..]))
  }

  function Get(root: Element, at: Address): Element
    requires Exists(root, at)
  {
    if at == [] then root else Get(root.children[at[0]], at[1..])
  }

  function Parent(at: Address): Address
    requires at != []
  {
    at[..|at| - 1]
  }

  function ChildIndex(at: Address): nat
    requires at != []
  {
    at[|at| - 1]
  }

  lemma {:induction false} ParentHolds(root: Element, at: Address)
    requires at != []
    ensures Exists(root, at) <==> Exists(root, Parent(at)) && ChildIndex(at) < |Get(root, Parent(at)).children|
    ensures Exists(root, at) ==> Get(root, at) == Get(root, Parent(at)).children[ChildIndex(at)]
  {
    if |at| > 1 && at[0] < |root.children| {
      assert Parent(at)[1..] == Parent(at[1..]);
      ParentHolds(root.children[at[0]], at[1..]);
    }
  }

  // ---------------------------------------------------------------- selectors

  /** One compound selector: a type, an id and an `:nth-of-type` position, each optional. */
  datatype Part = Part(tag: Option<string>, id: Option<string>, nth: Option<nat>)

  /** Parts joined by child combinators, outermost first. */
  type Selector = seq<Part>

  /** How many of the first `n` children have this tag. */
  function CountTag(children: seq<Element>, tag: string, n: nat): nat
    requires n <= |children|
  {
    if n == 0 then 0 else CountTag(children, tag, n - 1) + if children[n - 1].tag == tag then 1 else 0
  }

  /** Selectors Level 3, section 6.6.5.4: `n - 1` siblings of the same type before it, and a parent. */
  predicate IsNthOfType(root: Element, at: Address, n: nat)
    requires Exists(root, at)
  {
    at != [] &&
    (ParentHolds(root, at);
     CountTag(Get(root, Parent(at)).children, Get(root, at).tag, ChildIndex(at)) + 1 == n)
  }

  predicate MatchesPart(root: Element, at: Address, part: Part)
    requires Exists(root, at)
  {
    && (part.tag.Some? ==> part.tag.value == Get(root, at).tag)
    && (part.id.Some? ==> part.id.value == Get(root, at).id)
    && (part.nth.Some? ==> IsNthOfType(root, at, part.nth.value))
  }

  /** Section 8.2: the last part describes the element, the part before it the element's parent, and so on. */
  predicate Matches(root: Element, at: Address, selector: Selector)
    requires Exists(root, at)
    decreases |selector|
  {
    && selector != []
    && MatchesPart(root, at, selector[|selector| - 1])
    && (|selector| > 1 ==>
          at != [] && (ParentHolds(root, at); Matches(root, Parent(at), selector[..|selector| - 1])))
  }

  /** Every address in document order. */
  function Preorder(root: Element, base: Address): seq<Address>
    decreases root, 1
  {
    [base] + PreorderOf(root.children, base, 0)
  }

  function PreorderOf(children: seq<Element>, base: Address, i: nat): seq<Address>
    requires i <= |children|
    decreases children, 0, |children| - i
  {
    if i == |children| then [] else Preorder(children[i], base + [i]) + PreorderOf(children, base, i + 1)
  }

  lemma {:induction false} PreorderLists(root: Element, base: Address, at: Address)
    ensures base + at in Preorder(root, base) <==> Exists(root, at)
    ensures forall x :: x in Preorder(root, base) ==> base <= x
    decreases root, 1
  {
    PreorderOfLists(root.children, base, 0, at);
    if at == [] {
      assert base + at == base;
    } else if base + at == base {
      assert false;
    }
  }

  lemma {:induction false} PreorderOfLists(children: seq<Element>, base: Address, i: nat, at: Address)
    requires i <= |children|
    ensures base + at in PreorderOf(children, base, i) <==>
            at != [] && i <= at[0] < |children| && Exists(children[at[0]], at[1..])
    ensures forall x :: x in PreorderOf(children, base, i) ==> base < x && i <= x[|base|]
    decreases children, 0, |children| - i
  {
    if i < |children| {
      var head, tail := Preorder(children[i], base + [i]), PreorderOf(children, base, i + 1);
      PreorderOfLists(children, base, i + 1, at);
      PreorderLists(children[i], base + [i], if at == [] then [] else at[1..]);
      forall x | x in head ensures base < x && x[|base|] == i {
        assert base + [i] <= x;
      }
      if at != [] && at[0] == i {
        assert base + at == base + [i] + at[1..];
      }
      if base + at in head {
        assert (base + at)[|base|] == i;
      }
    }
  }

  /** The first element of the document that a selector matches. */
  function QuerySelector(root: Element, selector: Selector): (found: Option<Address>)
    ensures found.Some? ==> Exists(root, found.value) && Matches(root, found.value, selector)
    ensures found.None? ==> forall at :: Exists(root, at) ==> !Matches(root, at, selector)
  {
    var order := Preorder(root, []);
    assert forall at :: at in order <==> Exists(root, at) by {
      forall at ensures at in order <==> Exists(root, at) {
        PreorderLists(root, [], at);
        assert [] + at == at;
      }
    }
    FirstMatch(root, selector, order)
  }

  function FirstMatch(root: Element, selector: Selector, order: seq<Address>): (found: Option<Address>)
    requires forall at :: at in order ==> Exists(root, at)
    ensures found.Some? ==> found.value in order && Matches(root, found.value, selector)
    ensures found.None? ==> forall at :: at in order ==> !Matches(root, at, selector)
  {
    if order == [] then None
    else if Matches(root, order[0], selector) then Some(order[0])
    else FirstMatch(root, selector, order[1..])
  }
}

/** The path printer that refs are made of. */
module CssPaths {
  import opened Options
  import opened Dom

  /** The children with this tag, by index, as the filter over the parent's children lists them. */
  function SameTag(children: seq<Element>, tag: string, n: nat): (indices: seq<nat>)
    requires n <= |children|
    ensures |indices| == CountTag(children, tag, n)
    ensures forall k :: 0 <= k < |indices| ==> indices[k] < n && children[indices[k]].tag == tag
    ensures forall i :: 0 <= i < n && children[i].tag == tag ==> i in indices
    ensures forall j, k :: 0 <= j < k < |indices| ==> indices[j] < indices[k]
  {
    if n == 0 then []
    else
      var before := SameTag(children, tag, n - 1);
      if children[n - 1].tag == tag then before + [n - 1] else before
  }

  function IndexOf(indices: seq<nat>, i: nat): (k: nat)
    requires i in indices
    ensures k < |indices| && indices[k] == i
  {
    if indices[0] == i then 0 else 1 + IndexOf(indices[1..], i)
  }

  /** The part of a path for an element without an id. */
  function PlainPart(root: Element, at: Address): Part
    requires Exists(root, at)
  {
    var tag := Get(root, at).tag;
    if at == [] then Part(Some(tag), None, None)
    else
      ParentHolds(root, at);
      var siblings := Get(root, Parent(at)).children;
      var same := SameTag(siblings, tag, |siblings|);
      if |same| > 1 then Part(Some(tag), None, Some(IndexOf(same, ChildIndex(at)) + 1))
      else Part(Some(tag), None, None)
  }

  /** Reaching the cap ends the walk; no cap stands for infinity. */
  predicate Full(cap: Option<nat>, taken: nat) {
    cap.Some? && taken >= cap.value
  }

  /** The parts from `at` up, once `taken` parts are already there. */
  function Walk(root: Element, at: Address, cap: Option<nat>, taken: nat): (parts: Selector)
    requires Exists(root, at)
    ensures parts != []
    decreases |at|
  {
    var el := Get(root, at);
    if el.id != "" then [Part(Some(el.tag), Some(el.id), None)]
    else
      var part := PlainPart(root, at);
      if at == [] || Full(cap, taken + 1) then [part]
      else
        ParentHolds(root, at);
        Walk(root, Parent(at), cap, taken + 1) + [part]
  }

  function CssPath(root: Element, at: Address, cap: Option<nat>): (path: Selector)
    requires Exists(root, at)
    ensures path != []
  {
    var el := Get(root, at);
    if el.id != "" then [Part(None, Some(el.id), None)] else Walk(root, at, cap, 0)
  }

  method ComputeCssPath(root: Element, at: Address, cap: Option<nat>) returns (path: Selector)
    requires Exists(root, at)
    ensures path == CssPath(root, at, cap)
  {
    hide PlainPart;
    if Get(root, at).id != "" {
      return [Part(None, Some(Get(root, at).id), None)];
    }
    var parts: Selector := [];
    var cur := at;
    while true
      invariant Exists(root, cur)
      invariant Walk(root, cur, cap, |parts|) + parts == CssPath(root, at, cap)
      decreases |cur|
    {
      var el := Get(root, cur);
      if el.id != "" {
        return [Part(Some(el.tag), Some(el.id), None)] + parts;
      }
      parts := [PlainPart(root, cur)] + parts;
      if cur == [] || Full(cap, |parts|) {
        return parts;
      }
      ParentHolds(root, cur);
      cur := Parent(cur);
      assert Walk(root, cur, cap, |parts|) + [parts[0]] + parts[1..] == Walk(root, cur, cap, |parts|) + parts;
    }
  }

  // ---------------------------------------------------------------- every path matches its own element

  lemma {:induction false} CountTagGrows(children: seq<Element>, tag: string, i: nat, j: nat)
    requires i <= j <= |children|
    ensures CountTag(children, tag, i) <= CountTag(children, tag, j)
  {
    if i < j { CountTagGrows(children, tag, i, j - 1); }
  }

  /** The position the code prints is the one the selector counts. */
  lemma {:induction false} PrintedPositionCounts(children: seq<Element>, tag: string, n: nat, i: nat)
    requires i < n <= |children| && children[i].tag == tag
    ensures IndexOf(SameTag(children, tag, n), i) == CountTag(children, tag, i)
  {
    SameTagAt(children, tag, n, i);
    var indices := SameTag(children, tag, n);
    var k := IndexOf(indices, i);
    var c := CountTag(children, tag, i);
    assert k == c by {
      assert !(k < c) && !(c < k);
    }
  }

  lemma {:induction false} SameTagAt(children: seq<Element>, tag: string, n: nat, i: nat)
    requires i < n <= |children| && children[i].tag == tag
    ensures CountTag(children, tag, i) < |SameTag(children, tag, n)|
    ensures SameTag(children, tag, n)[CountTag(children, tag, i)] == i
  {
    hide CountTag;
    var before := SameTag(children, tag, n - 1);
    if i == n - 1 {
      assert SameTag(children, tag, n) == before + [i];
    } else {
      SameTagAt(children, tag, n - 1, i);
      assert before <= SameTag(children, tag, n);
    }
  }

  lemma PlainPartMatches(root: Element, at: Address)
    requires Exists(root, at)
    ensures MatchesPart(root, at, PlainPart(root, at))
  {
    if at != [] {
      ParentHolds(root, at);
      var siblings := Get(root, Parent(at)).children;
      PrintedPositionCounts(siblings, Get(root, at).tag, |siblings|, ChildIndex(at));
    }
  }

  lemma {:induction false} WalkMatches(root: Element, at: Address, cap: Option<nat>, taken: nat)
    requires Exists(root, at)
    ensures Matches(root, at, Walk(root, at, cap, taken))
    decreases |at|
  {
    if Get(root, at).id == "" {
      PlainPartMatches(root, at);
      if at != [] && !Full(cap, taken + 1) {
        ParentHolds(root, at);
        WalkMatches(root, Parent(at), cap, taken + 1);
        var upper := Walk(root, Parent(at), cap, taken + 1);
        assert Walk(root, at, cap, taken)[..|upper|] == upper;
      }
    }
  }

  /** On any document and at any cap, an element matches its own path. */
  lemma PathMatchesItsElement(root: Element, at: Address, cap: Option<nat>)
    requires Exists(root, at)
    ensures Matches(root, at, CssPath(root, at, cap))
  {
    if Get(root, at).id == "" {
      WalkMatches(root, at, cap, 0);
    }
  }

  // ---------------------------------------------------------------- when a path matches nothing else

  ghost predicate UniqueIds(root: Element) {
    forall a, b :: Exists(root, a) && Exists(root, b) && Get(root, a).id == Get(root, b).id != "" ==> a == b
  }

  ghost predicate RootTagOnlyAtRoot(root: Element) {
    forall a :: Exists(root, a) && Get(root, a).tag == root.tag ==> a == []
  }

  /** Two children of one tag with the same position, or the only one of it, are the same child. */
  lemma SamePositionSameChild(children: seq<Element>, tag: string, i: nat, j: nat)
    requires i < |children| && j < |children| && children[i].tag == children[j].tag == tag
    requires CountTag(children, tag, i) == CountTag(children, tag, j) || |SameTag(children, tag, |children|)| <= 1
    ensures i == j
  {
    hide SameTag;
    var low, high := if i < j then i else j, if i < j then j else i;
    CountTagGrows(children, tag, high + 1, |children|);
    if low < high {
      CountTagGrows(children, tag, low + 1, high);
    }
  }

  /** Siblings that the part of one of them cannot tell apart are the same. */
  lemma PlainPartIsExact(root: Element, at: Address, other: Address)
    requires Exists(root, at) && Exists(root, other) && at != [] && other != [] && Parent(at) == Parent(other)
    requires MatchesPart(root, other, PlainPart(root, at))
    ensures other == at
  {
    hide SameTag;
    ParentHolds(root, at);
    ParentHolds(root, other);
    var siblings := Get(root, Parent(at)).children;
    var tag := Get(root, at).tag;
    var i, j := ChildIndex(at), ChildIndex(other);
    PrintedPositionCounts(siblings, tag, |siblings|, i);
    SamePositionSameChild(siblings, tag, i, j);
    assert at == Parent(at) + [i] && other == Parent(other) + [j];
  }

  lemma {:induction false} WalkIsExact(root: Element, at: Address, other: Address)
    requires Exists(root, at) && Exists(root, other)
    requires UniqueIds(root) && (root.id != "" || RootTagOnlyAtRoot(root))
    requires Matches(root, other, Walk(root, at, None, 0))
    ensures other == at
    decreases |at|
  {
    if Get(root, at).id == "" && at != [] {
      ParentHolds(root, at);
      var upper := Walk(root, Parent(at), None, 1);
      WalkIgnoresTaken(root, Parent(at), 1, 0);
      assert Walk(root, at, None, 0)[..|upper|] == upper;
      ParentHolds(root, other);
      WalkIsExact(root, Parent(at), Parent(other));
      PlainPartIsExact(root, at, other);
    }
  }

  lemma {:induction false} WalkIgnoresTaken(root: Element, at: Address, m: nat, n: nat)
    requires Exists(root, at)
    ensures Walk(root, at, None, m) == Walk(root, at, None, n)
    decreases |at|
  {
    if at != [] {
      ParentHolds(root, at);
      WalkIgnoresTaken(root, Parent(at), m + 1, n + 1);
    }
  }

  /** The fully qualified path of every element matches that element only. */
  ghost predicate Unambiguous(root: Element) {
    forall at, other ::
      Exists(root, at) && Exists(root, other) && Matches(root, other, CssPath(root, at, None)) ==> other == at
  }

  /** Exactly the documents with unique ids whose root has an id or a tag of its own are unambiguous. */
  lemma UnambiguousExactlyWhen(root: Element)
    ensures Unambiguous(root) <==> UniqueIds(root) && (root.id != "" || RootTagOnlyAtRoot(root))
  {
    if UniqueIds(root) && (root.id != "" || RootTagOnlyAtRoot(root)) {
      forall at, other |
        Exists(root, at) && Exists(root, other) && Matches(root, other, CssPath(root, at, None))
        ensures other == at
      {
        if Get(root, at).id == "" {
          WalkIsExact(root, at, other);
        }
      }
    }
    if Unambiguous(root) {
      forall a, b | Exists(root, a) && Exists(root, b) && Get(root, a).id == Get(root, b).id != "" ensures a == b {
        assert Matches(root, b, CssPath(root, a, None));
      }
      if root.id == "" {
        forall a | Exists(root, a) && Get(root, a).tag == root.tag ensures a == [] {
          assert CssPath(root, [], None) == [Part(Some(root.tag), None, None)];
          assert Matches(root, a, CssPath(root, [], None));
        }
      }
    }
  }

  /** Resolving the path that `find` returns gives back the element it was made for. */
  lemma FindRoundTrip(root: Element, at: Address)
    requires Exists(root, at) && UniqueIds(root) && (root.id != "" || RootTagOnlyAtRoot(root))
    ensures QuerySelector(root, CssPath(root, at, None)) == Some(at)
  {
    UnambiguousExactlyWhen(root);
    PathMatchesItsElement(root, at, None);
  }

  // ---------------------------------------------------------------- the cap

  /** The cap keeps the innermost parts of the full path. */
  lemma {:induction false} CapKeepsInnermost(root: Element, at: Address, cap: nat, taken: nat)
    requires Exists(root, at) && taken < cap
    ensures var full := Walk(root, at, None, 0);
            var keep := if |full| < cap - taken then |full| else cap - taken;
            Walk(root, at, Some(cap), taken) == full[|full| - keep..]
    decreases |at|
  {
    hide PlainPart;
    if Get(root, at).id == "" && at != [] {
      ParentHolds(root, at);
      WalkIgnoresTaken(root, Parent(at), 1, 0);
      if taken + 1 < cap {
        CapKeepsInnermost(root, Parent(at), cap, taken + 1);
      }
    }
  }

  /** A path that fits under the cap is the full path, so it is as unambiguous as that. */
  lemma ShortPathsResolve(root: Element, at: Address, cap: nat)
    requires Exists(root, at) && UniqueIds(root) && (root.id != "" || RootTagOnlyAtRoot(root))
    requires |CssPath(root, at, None)| <= cap
    ensures QuerySelector(root, CssPath(root, at, Some(cap))) == Some(at)
  {
    if Get(root, at).id == "" {
      CapKeepsInnermost(root, at, cap, 0);
    }
    FindRoundTrip(root, at);
  }

  /** Every element at most `n` parts deep has a path that, cut to `cap` parts, matches nothing else. */
  ghost predicate CapIsHarmless(cap: nat, n: nat) {
    forall root, at, other |
      UniqueIds(root) && (root.id != "" || RootTagOnlyAtRoot(root)) && Exists(root, at) && Exists(root, other) ::
      |CssPath(root, at, None)| <= n && Matches(root, other, CssPath(root, at, Some(cap))) ==> other == at
  }

  /** A cap of `cap` parts is harmless exactly for paths that fit under it. */
  lemma CapIsHarmlessExactlyWhen(cap: nat, n: nat)
    requires cap > 0
    ensures CapIsHarmless(cap, n) <==> n <= cap
  {
    if n <= cap {
      forall root, at, other |
        UniqueIds(root) && (root.id != "" || RootTagOnlyAtRoot(root)) && Exists(root, at) && Exists(root, other) &&
        |CssPath(root, at, None)| <= n && Matches(root, other, CssPath(root, at, Some(cap)))
        ensures other == at
      {
        UnambiguousExactlyWhen(root);
        if Get(root, at).id == "" {
          CapKeepsInnermost(root, at, cap, 0);
        }
      }
    } else {
      CappedPathsCollide(cap, n);
    }
  }

  const DIV := Part(Some("div"), None, None)

  function Divs(n: nat): (parts: Selector)
    ensures |parts| == n
  {
    seq(n, _ => DIV)
  }

  /** `n` elements of one tag, each the only child of the one before. */
  function Nest(n: nat): Element {
    Element("div", "", if n == 0 then [] else [Nest(n - 1)])
  }

  function Downwards(n: nat): Address {
    seq(n, _ => 0)
  }

  /** The same nest twice: once below the root and once a level further down. */
  function TwoNests(n: nat): Element {
    Element("html", "", [Nest(n), Element("main", "", [Nest(n)])])
  }

  lemma {:induction false} InNest(n: nat, at: Address)
    requires Exists(Nest(n), at)
    ensures |at| <= n && at == Downwards(|at|) && Get(Nest(n), at) == Nest(n - |at|)
  {
    if at != [] {
      InNest(n - 1, at[1..]);
      assert at == [0] + at[1..];
    }
  }

  lemma {:induction false} NestReaches(n: nat, k: nat)
    requires k <= n
    ensures Exists(Nest(n), Downwards(k))
  {
    if k > 0 {
      assert Downwards(k)[1..] == Downwards(k - 1);
      NestReaches(n - 1, k - 1);
    }
  }

  /** Below either nest's top every part is a plain `div`. */
  lemma NestPart(n: nat, top: Address, k: nat)
    requires k <= n && (top == [0] || top == [1, 0])
    ensures Exists(TwoNests(n), top + Downwards(k))
    ensures Get(TwoNests(n), top + Downwards(k)) == Nest(n - k)
    ensures PlainPart(TwoNests(n), top + Downwards(k)) == DIV
  {
    var root, at := TwoNests(n), top + Downwards(k);
    Below(n, top, k);
    ParentHolds(root, at);
    var siblings := Get(root, Parent(at)).children;
    if k > 0 {
      assert Parent(at) == top + Downwards(k - 1);
      Below(n, top, k - 1);
      assert siblings == [Nest(n - k)];
    } else {
      assert at == top;
      assert Parent(at) == top[..|top| - 1];
    }
    assert |SameTag(siblings, "div", |siblings|)| <= 1 by {
      assert CountTag(siblings, "div", 1) <= 1;
      assert |siblings| == 2 ==> CountTag(siblings, "div", 2) == CountTag(siblings, "div", 1);
    }
  }

  lemma Below(n: nat, top: Address, k: nat)
    requires k <= n && (top == [0] || top == [1, 0])
    ensures Exists(TwoNests(n), top + Downwards(k)) && Get(TwoNests(n), top + Downwards(k)) == Nest(n - k)
  {
    var root, at := TwoNests(n), top + Downwards(k);
    NestReaches(n, k);
    InNest(n, Downwards(k));
    if top == [0] {
      assert at[1..] == Downwards(k);
    } else {
      assert at[1..] == [0] + Downwards(k);
      assert at[1..][1..] == Downwards(k);
    }
  }

  lemma {:induction false} NestWalk(n: nat, top: Address, k: nat, taken: nat)
    requires k <= n && (top == [0] || top == [1, 0])
    requires Exists(TwoNests(n), top + Downwards(k))
    ensures Walk(TwoNests(n), top + Downwards(k), Some(taken + k + 1), taken) == Divs(k + 1)
    decreases k
  {
    var root, at := TwoNests(n), top + Downwards(k);
    hide PlainPart, TwoNests;
    NestPart(n, top, k);
    assert Get(root, at).id == "";
    if k > 0 {
      assert Parent(at) == top + Downwards(k - 1);
      ParentHolds(root, at);
      NestWalk(n, top, k - 1, taken + 1);
    } else {
      assert Divs(1) == [DIV];
    }
  }

  lemma TwoNestsIsGood(n: nat)
    ensures UniqueIds(TwoNests(n)) && RootTagOnlyAtRoot(TwoNests(n))
  {
    forall at | Exists(TwoNests(n), at)
      ensures Get(TwoNests(n), at).id == "" && (at != [] ==> Get(TwoNests(n), at).tag != "html")
    {
      PlainEverywhere(n, at);
    }
  }

  lemma PlainEverywhere(n: nat, at: Address)
    requires Exists(TwoNests(n), at)
    ensures Get(TwoNests(n), at).id == "" && (at != [] ==> Get(TwoNests(n), at).tag != "html")
  {
    if at != [] {
      var main := Element("main", "", [Nest(n)]);
      if at[0] == 0 {
        InNest(n, at[1..]);
      } else {
        assert TwoNests(n).children[at[0]] == main;
        assert Exists(main, at[1..]) && Get(TwoNests(n), at) == Get(main, at[1..]);
        if |at| > 1 {
          assert main.children[at[1..][0]] == Nest(n);
          InNest(n, at[1..][1..]);
        }
      }
    }
  }

  /** The bottom of either nest: its path fills the cap with plain `div`s. */
  lemma NestBottom(cap: nat, top: Address)
    requires cap > 0 && (top == [0] || top == [1, 0])
    ensures Exists(TwoNests(cap - 1), top + Downwards(cap - 1))
    ensures CssPath(TwoNests(cap - 1), top + Downwards(cap - 1), Some(cap)) == Divs(cap)
  {
    hide TwoNests, Downwards, Divs, Walk, PlainPart, Exists, Get;
    var k := cap - 1;
    NestPart(k, top, k);
    NestWalk(k, top, k, 0);
    assert Nest(0).id == "";
  }

  lemma HarmedBy(cap: nat, n: nat, root: Element, at: Address, other: Address)
    requires UniqueIds(root) && RootTagOnlyAtRoot(root) && Exists(root, at) && Exists(root, other) && other != at
    requires |CssPath(root, at, None)| <= n && Matches(root, other, CssPath(root, at, Some(cap)))
    ensures !CapIsHarmless(cap, n)
  {
    hide UniqueIds, RootTagOnlyAtRoot, Exists, CssPath, Matches;
  }

  /** One part beyond the cap, two elements of a good document can share their capped path. */
  lemma CappedPathsCollide(cap: nat, n: nat)
    requires 0 < cap < n
    ensures !CapIsHarmless(cap, n)
  {
    var root := TwoNests(cap - 1);
    var at, other := [0] + Downwards(cap - 1), [1, 0] + Downwards(cap - 1);
    assert |other| == |at| + 1 == cap + 1;
    hide TwoNests, Downwards, Divs, Walk, UniqueIds, RootTagOnlyAtRoot, Matches, CapIsHarmless, Exists;
    TwoNestsIsGood(cap - 1);
    NestBottom(cap, [0]);
    NestBottom(cap, [1, 0]);
    PathMatchesItsElement(root, other, Some(cap));
    PathLength(root, at, 0);
    HarmedBy(cap, n, root, at, other);
  }

  lemma {:induction false} PathLength(root: Element, at: Address, taken: nat)
    requires Exists(root, at)
    ensures |Walk(root, at, None, taken)| <= |at| + 1
    decreases |at|
  {
    if at != [] {
      ParentHolds(root, at);
      PathLength(root, Parent(at), taken + 1);
    }
  }
}
