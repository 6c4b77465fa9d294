/** Document order: what `querySelector` finds first, and what a snapshot reaches and lists. */
module DocumentOrder {
  import opened Options
  import opened Dom
  import opened CssPaths
  import opened Snapshots

  /** Strictly before in the document: an ancestor, or in an earlier branch where the two part. */
  predicate Before(a: Address, b: Address) {
    b != [] && (a == [] || a[0] < b[0] || (a[0] == b[0] && Before(a[1..], b[1..])))
  }

  lemma {:induction false} BeforeIsOneWay(a: Address, b: Address)
    ensures !(Before(a, b) && Before(b, a)) && (Before(a, b) ==> a != b)
  {
    if a != [] && b != [] { BeforeIsOneWay(a[1..], b[1..]); }
  }

  lemma {:induction false} BeforeBelow(base: Address, a: Address, b: Address)
    ensures Before(base + a, base + b) == Before(a, b)
  {
    if base == [] {
      assert base + a == a && base + b == b;
    } else {
      assert (base + a)[1..] == base[1..] + a && (base + b)[1..] == base[1..] + b;
      BeforeBelow(base[1..], a, b);
    }
  }

  lemma Descendant(base: Address, x: Address) returns (rest: Address)
    requires base <= x
    ensures x == base + rest && rest == x[|base|..]
  {
    rest := x[|base|..];
  }

  /** Two branches below one element. */
  lemma BranchesInOrder(base: Address, i: nat, j: nat, a: Address, b: Address)
    requires i < j && base + [i] <= a && base + [j] <= b
    ensures Before(a, b)
  {
    assert base <= a && base <= b;
    var x := Descendant(base, a);
    var y := Descendant(base, b);
    assert x[0] == i && y[0] == j;
    BeforeBelow(base, x, y);
  }

  lemma AncestorFirst(base: Address, b: Address)
    requires base < b
    ensures Before(base, b)
  {
    var y := Descendant(base, b);
    BeforeBelow(base, [], y);
    assert base + [] == base;
  }

  ghost predicate Ascending(order: seq<Address>) {
    forall i, j :: 0 <= i < j < |order| ==> Before(order[i], order[j])
  }

  lemma AscendingAppend(a: seq<Address>, b: seq<Address>)
    requires Ascending(a) && Ascending(b)
    requires forall x, y :: x in a && y in b ==> Before(x, y)
    ensures Ascending(a + b)
  {
    hide Before;
  }

  // ---------------------------------------------------------------- querySelector

  lemma {:induction false} PreorderAscends(root: Element, base: Address)
    ensures Ascending(Preorder(root, base))
    decreases root, 1
  {
    PreorderOfAscends(root.children, base, 0);
    forall x | x in PreorderOf(root.children, base, 0) ensures Before(base, x) {
      PreorderOfLists(root.children, base, 0, []);
      AncestorFirst(base, x);
    }
    AscendingAppend([base], PreorderOf(root.children, base, 0));
  }

  lemma {:induction false} PreorderOfAscends(children: seq<Element>, base: Address, i: nat)
    requires i <= |children|
    ensures Ascending(PreorderOf(children, base, i))
    decreases children, 0, |children| - i
  {
    if i < |children| {
      var head, tail := Preorder(children[i], base + [i]), PreorderOf(children, base, i + 1);
      PreorderAscends(children[i], base + [i]);
      PreorderOfAscends(children, base, i + 1);
      PreorderLists(children[i], base + [i], []);
      PreorderOfLists(children, base, i + 1, []);
      forall x, y | x in head && y in tail ensures Before(x, y) {
        assert y[..|base|] == base && y == y[..|base|] + y[|base|..];
        assert base + [y[|base|]] <= y;
        BranchesInOrder(base, i, y[|base|], x, y);
      }
      AscendingAppend(head, tail);
    }
  }

  lemma {:induction false} FirstMatchIsFirst(root: Element, selector: Selector, order: seq<Address>)
    requires forall at :: at in order ==> Exists(root, at)
    ensures var found := FirstMatch(root, selector, order);
            found.Some? ==> exists k :: 0 <= k < |order| && order[k] == found.value &&
                                        forall i :: 0 <= i < k ==> !Matches(root, order[i], selector)
  {
    hide Matches;
    if order != [] && !Matches(root, order[0], selector) {
      FirstMatchIsFirst(root, selector, order[1..]);
      var found := FirstMatch(root, selector, order);
      if found.Some? {
        var k :| 0 <= k < |order[1..]| && order[1..][k] == found.value &&
                 forall i :: 0 <= i < k ==> !Matches(root, order[1..][i], selector);
        assert order[k + 1] == found.value;
        forall i | 0 <= i < k + 1 ensures !Matches(root, order[i], selector) {
          assert i > 0 ==> order[i] == order[1..][i - 1];
        }
      }
    }
  }

  lemma PreorderHasAll(root: Element)
    ensures forall x :: x in Preorder(root, []) <==> Exists(root, x)
  {
    forall x ensures x in Preorder(root, []) <==> Exists(root, x) {
      PreorderLists(root, [], x);
      assert [] + x == x;
    }
  }

  /** `querySelector` finds the match that comes first in the document. */
  lemma QuerySelectorFindsFirst(root: Element, selector: Selector, at: Address)
    requires Exists(root, at) && Matches(root, at, selector)
    ensures var found := QuerySelector(root, selector);
            found.Some? && (found.value == at || Before(found.value, at))
  {
    hide Matches, Exists, Before, Preorder;
    var order := Preorder(root, []);
    PreorderHasAll(root);
    FirstMatchIsFirst(root, selector, order);
    PreorderAscends(root, []);
    var found := QuerySelector(root, selector);
    assert found == FirstMatch(root, selector, order);
    hide QuerySelector, FirstMatch;
    var k :| 0 <= k < |order| && order[k] == found.value &&
             forall i :: 0 <= i < k ==> !Matches(root, order[i], selector);
    var i :| 0 <= i < |order| && order[i] == at;
    assert i >= k;
  }

  // ---------------------------------------------------------------- what a snapshot reaches

  /** A walk from `at` reaches exactly its descendants down to the depth limit, itself included, with their depths. */
  lemma {:induction false} ReachedExactly(root: Element, at: Address, depth: nat, maxDepth: nat, to: Address, d: nat)
    requires Exists(root, at)
    ensures (to, d) in Reached(root, at, depth, maxDepth) <==>
            at <= to && Exists(root, to) && d == depth + (|to| - |at|) && d <= maxDepth
    decreases Get(root, at), 1
  {
    hide Exists;
    if depth <= maxDepth {
      ReachedChildrenExactly(root, at, Get(root, at).children, 0, depth, maxDepth, to, d);
      if at < to && Exists(root, to) { BranchExists(root, at, to); }
      if at <= to && |to| == |at| { assert to == at; }
    }
  }

  lemma {:induction false} ReachedChildrenExactly(root: Element, at: Address, children: seq<Element>, i: nat,
                                                  depth: nat, maxDepth: nat, to: Address, d: nat)
    requires Exists(root, at) && children == Get(root, at).children && i <= |children|
    ensures (to, d) in ReachedChildren(root, at, children, i, depth, maxDepth) <==>
            at < to && i <= to[|at|] && Exists(root, to) && d == depth + (|to| - |at|) && d <= maxDepth
    decreases children, 0, |children| - i
  {
    hide Exists;
    if at < to && Exists(root, to) { BranchExists(root, at, to); }
    if i < |children| {
      ChildHolds(root, at, i);
      ReachedExactly(root, at + [i], depth + 1, maxDepth, to, d);
      ReachedChildrenExactly(root, at, children, i + 1, depth, maxDepth, to, d);
      assert at + [i] <= to <==> at < to && to[|at|] == i;
    }
  }

  lemma {:induction false} BranchExists(root: Element, at: Address, to: Address)
    requires Exists(root, at) && Exists(root, to) && at < to
    ensures to[|at|] < |Get(root, at).children|
    decreases |at|
  {
    if at != [] { BranchExists(root.children[at[0]], at[1..], to[1..]); }
  }

  function Addresses(reached: seq<(Address, nat)>): (order: seq<Address>)
    ensures |order| == |reached| && forall i :: 0 <= i < |reached| ==> order[i] == reached[i].0
  {
    seq(|reached|, i requires 0 <= i < |reached| => reached[i].0)
  }

  lemma AddressesAppend(a: seq<(Address, nat)>, b: seq<(Address, nat)>)
    ensures Addresses(a + b) == Addresses(a) + Addresses(b)
  {
  }

  lemma AddressIn(reached: seq<(Address, nat)>, x: Address)
    requires x in Addresses(reached)
    ensures exists d :: (x, d) in reached
  {
    var i :| 0 <= i < |reached| && Addresses(reached)[i] == x;
    assert reached[i] == (x, reached[i].1);
  }

  /** It reaches them in document order, so none of them twice. */
  lemma {:induction false} ReachedInOrder(root: Element, at: Address, depth: nat, maxDepth: nat)
    requires Exists(root, at)
    ensures Ascending(Addresses(Reached(root, at, depth, maxDepth)))
    decreases Get(root, at), 1
  {
    hide Exists, Before;
    if depth <= maxDepth {
      var children := Get(root, at).children;
      var below := ReachedChildren(root, at, children, 0, depth, maxDepth);
      ReachedChildrenInOrder(root, at, children, 0, depth, maxDepth);
      AddressesAppend([(at, depth)], below);
      forall x | x in Addresses(below) ensures Before(at, x) {
        AddressIn(below, x);
        var d :| (x, d) in below;
        ReachedChildrenExactly(root, at, children, 0, depth, maxDepth, x, d);
        AncestorFirst(at, x);
      }
      assert Addresses([(at, depth)]) == [at];
      AscendingAppend([at], Addresses(below));
    }
  }

  lemma {:induction false} ReachedChildrenInOrder(root: Element, at: Address, children: seq<Element>, i: nat,
                                                  depth: nat, maxDepth: nat)
    requires Exists(root, at) && children == Get(root, at).children && i <= |children|
    ensures Ascending(Addresses(ReachedChildren(root, at, children, i, depth, maxDepth)))
    decreases children, 0, |children| - i
  {
    hide Exists, Before;
    if i < |children| {
      ChildHolds(root, at, i);
      var head := Reached(root, at + [i], depth + 1, maxDepth);
      var tail := ReachedChildren(root, at, children, i + 1, depth, maxDepth);
      ReachedInOrder(root, at + [i], depth + 1, maxDepth);
      ReachedChildrenInOrder(root, at, children, i + 1, depth, maxDepth);
      AddressesAppend(head, tail);
      forall x, y | x in Addresses(head) && y in Addresses(tail) ensures Before(x, y) {
        AddressIn(head, x);
        AddressIn(tail, y);
        var d :| (x, d) in head;
        var e :| (y, e) in tail;
        ReachedExactly(root, at + [i], depth + 1, maxDepth, x, d);
        ReachedChildrenExactly(root, at, children, i + 1, depth, maxDepth, y, e);
        assert at + [y[|at|]] <= y;
        BranchesInOrder(at, i, y[|at|], x, y);
      }
      AscendingAppend(Addresses(head), Addresses(tail));
    }
  }

  // ---------------------------------------------------------------- what a snapshot lists

  /** An eligible element at most `maxDepth` below `scope`, and no eligible one before it has the same six-part path. */
  ghost predicate FirstOfItsPath(root: Element, eligible: Address -> bool, reached: seq<Address>, at: Address) {
    && at in reached && Exists(root, at) && eligible(at)
    && forall x :: x in reached && Exists(root, x) && eligible(x) && Before(x, at) ==>
                   CssPath(root, x, Some(6)) != CssPath(root, at, Some(6))
  }

  predicate IsListed(entries: seq<Entry>, at: Address) {
    exists e :: e in entries && e.at == at
  }

  lemma EarlierUnchanged(root: Element, eligible: Address -> bool, earlier: seq<Address>, last: Address, at: Address)
    requires Ascending(earlier + [last]) && at in earlier
    ensures FirstOfItsPath(root, eligible, earlier + [last], at) == FirstOfItsPath(root, eligible, earlier, at)
  {
    var all := earlier + [last];
    var i :| 0 <= i < |earlier| && earlier[i] == at;
    assert all[i] == at && all[|earlier|] == last;
    BeforeIsOneWay(at, last);
    hide Before, CssPath, Exists;
  }

  lemma LastIsFirst(root: Element, eligible: Address -> bool, earlier: seq<(Address, nat)>, last: Address)
    requires AllExist(root, earlier) && Exists(root, last) && Ascending(Addresses(earlier) + [last])
    ensures FirstOfItsPath(root, eligible, Addresses(earlier) + [last], last) <==>
            eligible(last) && CssPath(root, last, MAX_PARTS) !in Seen(Listed(root, eligible, earlier))
  {
    var all := Addresses(earlier) + [last];
    var entries := Listed(root, eligible, earlier);
    ListingIsFaithful(root, eligible, earlier);
    BeforeIsOneWay(last, last);
    hide Before, CssPath, Exists, Listed;
    forall x | x in Addresses(earlier) ensures Before(x, last) && Exists(root, x) && exists d :: (x, d) in earlier {
      AddressIn(earlier, x);
      var i :| 0 <= i < |earlier| && Addresses(earlier)[i] == x;
      assert all[i] == x && all[|earlier|] == last;
    }
    forall r | r in earlier ensures r.0 in Addresses(earlier) {
      var i :| 0 <= i < |earlier| && earlier[i] == r;
      assert Addresses(earlier)[i] == r.0;
    }
    if eligible(last) && CssPath(root, last, MAX_PARTS) in Seen(entries) {
      var e :| e in entries && e.selector == CssPath(root, last, MAX_PARTS);
      assert (e.at, e.depth) in earlier && Before(e.at, last);
    }
  }

  /** The entries are exactly the first eligible elements of each six-part path, in document order. */
  lemma {:induction false} ListedExactly(root: Element, eligible: Address -> bool, reached: seq<(Address, nat)>)
    requires AllExist(root, reached) && Ascending(Addresses(reached))
    ensures var entries := Listed(root, eligible, reached);
            && (forall at :: IsListed(entries, at) <==> FirstOfItsPath(root, eligible, Addresses(reached), at))
            && (forall i, j :: 0 <= i < j < |entries| ==> Before(entries[i].at, entries[j].at))
  {
    hide Before, CssPath, Exists, FirstOfItsPath, Seen;
    if reached == [] {
      forall at ensures !FirstOfItsPath(root, eligible, Addresses(reached), at) { NothingIsFirst(root, eligible, at); }
    } else {
      var earlier, last := reached[..|reached| - 1], reached[|reached| - 1].0;
      assert reached == earlier + [reached[|reached| - 1]];
      assert Addresses(reached) == Addresses(earlier) + [last];
      forall i, j | 0 <= i < j < |earlier| ensures Before(Addresses(earlier)[i], Addresses(earlier)[j]) {
        assert Before(Addresses(reached)[i], Addresses(reached)[j]);
      }
      ListedExactly(root, eligible, earlier);
      LastIsFirst(root, eligible, earlier, last);
      OneMoreListed(root, eligible, reached);
    }
  }

  lemma NothingIsFirst(root: Element, eligible: Address -> bool, at: Address)
    ensures !FirstOfItsPath(root, eligible, Addresses([]), at)
  {
  }

  lemma OneMoreListed(root: Element, eligible: Address -> bool, reached: seq<(Address, nat)>)
    requires reached != [] && AllExist(root, reached) && Ascending(Addresses(reached))
    requires var earlier, last := reached[..|reached| - 1], reached[|reached| - 1].0;
             var before := Listed(root, eligible, earlier);
             && Addresses(reached) == Addresses(earlier) + [last]
             && (forall at :: IsListed(before, at) <==> FirstOfItsPath(root, eligible, Addresses(earlier), at))
             && (forall i, j :: 0 <= i < j < |before| ==> Before(before[i].at, before[j].at))
             && (FirstOfItsPath(root, eligible, Addresses(reached), last) <==>
                 eligible(last) && CssPath(root, last, MAX_PARTS) !in Seen(before))
    ensures var entries := Listed(root, eligible, reached);
            && (forall at :: IsListed(entries, at) <==> FirstOfItsPath(root, eligible, Addresses(reached), at))
            && (forall i, j :: 0 <= i < j < |entries| ==> Before(entries[i].at, entries[j].at))
  {
    var earlier, last := reached[..|reached| - 1], reached[|reached| - 1].0;
    var before, entries := Listed(root, eligible, earlier), Listed(root, eligible, reached);
    forall at
      ensures FirstOfItsPath(root, eligible, Addresses(reached), at) <==>
              FirstOfItsPath(root, eligible, Addresses(earlier), at) ||
              (at == last && FirstOfItsPath(root, eligible, Addresses(reached), last))
    {
      InEarlier(root, eligible, Addresses(earlier), last, at);
    }
    forall e | e in before ensures Before(e.at, last) {
      assert IsListed(before, e.at);
      OnlyReached(root, eligible, Addresses(earlier), e.at);
      var i :| 0 <= i < |earlier| && Addresses(earlier)[i] == e.at;
      assert Addresses(reached)[i] == e.at && Addresses(reached)[|earlier|] == last;
    }
    hide Before, CssPath, Exists, FirstOfItsPath, Seen;
    forall at ensures IsListed(entries, at) <==> IsListed(before, at) || (at == last && entries != before) {
      if entries != before {
        assert entries == before + [entries[|before|]] && entries[|before|].at == last;
      }
    }
  }

  lemma InEarlier(root: Element, eligible: Address -> bool, earlier: seq<Address>, last: Address, at: Address)
    requires Ascending(earlier + [last])
    ensures FirstOfItsPath(root, eligible, earlier + [last], at) <==>
            FirstOfItsPath(root, eligible, earlier, at) ||
            (at == last && FirstOfItsPath(root, eligible, earlier + [last], last))
  {
    if at in earlier {
      EarlierUnchanged(root, eligible, earlier, last, at);
      hide Before, CssPath, Exists;
      var i :| 0 <= i < |earlier| && earlier[i] == at;
      assert (earlier + [last])[i] == at && (earlier + [last])[|earlier|] == last;
    }
  }

  lemma OnlyReached(root: Element, eligible: Address -> bool, reached: seq<Address>, at: Address)
    requires FirstOfItsPath(root, eligible, reached, at)
    ensures at in reached
  {
  }
}
