/** Ephemeral refs: the table, the snapshot that refills it and the find that extends it. */
module Snapshots {
  import opened Options
  import opened Dom
  import opened CssPaths

  // ---------------------------------------------------------------- tokens

  const DIGITS := "0123456789"

  function Decimal(n: nat): (text: string)
    ensures text != ""
  {
    (if n < 10 then "" else Decimal(n / 10)) + [DIGITS[n % 10]]
  }

  lemma {:induction false} DecimalIsInjective(m: nat, n: nat)
    requires Decimal(m) == Decimal(n)
    ensures m == n
  {
    var a, b := Decimal(m), Decimal(n);
    assert a[|a| - 1] == DIGITS[m % 10] && b[|b| - 1] == DIGITS[n % 10];
    assert m % 10 == n % 10;
    assert a[..|a| - 1] == (if m < 10 then "" else Decimal(m / 10));
    assert b[..|b| - 1] == (if n < 10 then "" else Decimal(n / 10));
    if m >= 10 && n >= 10 {
      DecimalIsInjective(m / 10, n / 10);
    }
  }

  /** The number that decimal digits stand for. */
  function Number(text: string): int {
    if text == "" then 0
    else 10 * Number(text[..|text| - 1]) + (text[|text| - 1] as int - '0' as int)
  }

  /** Written in decimal: digits only, the right number, no zero in front. */
  lemma {:induction false} DecimalReads(n: nat)
    ensures Number(Decimal(n)) == n
    ensures forall i :: 0 <= i < |Decimal(n)| ==> '0' <= Decimal(n)[i] <= '9'
    ensures n > 0 ==> Decimal(n)[0] != '0'
  {
    var text := Decimal(n);
    assert text[..|text| - 1] == if n < 10 then "" else Decimal(n / 10);
    DigitsCount(n % 10);
    if n >= 10 { DecimalReads(n / 10); }
  }

  lemma DigitsCount(d: nat)
    requires d < 10
    ensures DIGITS[d] as int == '0' as int + d
  {
  }

  /** The `n`-th ref. */
  function Token(n: nat): string {
    "e" + Decimal(n)
  }

  /** A ref is an `e` and the number in decimal. */
  lemma TokenReads(n: nat)
    ensures |Token(n)| > 1 && Token(n)[0] == 'e' && Number(Token(n)[1..]) == n
    ensures forall i :: 1 <= i < |Token(n)| ==> '0' <= Token(n)[i] <= '9'
    ensures n > 0 ==> Token(n)[1] != '0'
  {
    DecimalReads(n);
    assert Token(n)[1..] == Decimal(n);
  }

  lemma TokenIsInjective(m: nat, n: nat)
    ensures Token(m) == Token(n) ==> m == n
  {
    if Token(m) == Token(n) {
      assert Token(m)[1..] == Decimal(m) && Token(n)[1..] == Decimal(n);
      DecimalIsInjective(m, n);
    }
  }

  // ---------------------------------------------------------------- walk

  /** One listed element; its selector is its path cut to six parts. */
  datatype Entry = Entry(at: Address, selector: Selector, depth: nat)

  const MAX_PARTS: Option<nat> := Some(6)

  /** The elements the walk reaches below `at`, in the order it reaches them. */
  function Reached(root: Element, at: Address, depth: nat, maxDepth: nat): seq<(Address, nat)>
    requires Exists(root, at)
    decreases Get(root, at), 1
  {
    if depth > maxDepth then []
    else [(at, depth)] + ReachedChildren(root, at, Get(root, at).children, 0, depth, maxDepth)
  }

  function ReachedChildren(root: Element, at: Address, children: seq<Element>, i: nat, depth: nat, maxDepth: nat)
    : seq<(Address, nat)>
    requires Exists(root, at) && children == Get(root, at).children && i <= |children|
    decreases children, 0, |children| - i
  {
    if i == |children| then []
    else
      ChildHolds(root, at, i);
      Reached(root, at + [i], depth + 1, maxDepth) + ReachedChildren(root, at, children, i + 1, depth, maxDepth)
  }

  lemma ChildHolds(root: Element, at: Address, i: nat)
    requires Exists(root, at) && i < |Get(root, at).children|
    ensures Exists(root, at + [i]) && Get(root, at + [i]) == Get(root, at).children[i]
  {
    assert Parent(at + [i]) == at;
    ParentHolds(root, at + [i]);
  }

  /** Selectors already listed. */
  function Seen(entries: seq<Entry>): set<Selector> {
    set e | e in entries :: e.selector
  }

  /** What listing the reached elements one by one adds: eligible elements whose selector is new. */
  ghost function Listed(root: Element, eligible: Address -> bool, reached: seq<(Address, nat)>): (entries: seq<Entry>)
    requires forall r :: r in reached ==> Exists(root, r.0)
  {
    if reached == [] then []
    else
      var entries := Listed(root, eligible, reached[..|reached| - 1]);
      var (at, depth) := reached[|reached| - 1];
      var selector := CssPath(root, at, MAX_PARTS);
      if eligible(at) && selector !in Seen(entries) then entries + [Entry(at, selector, depth)] else entries
  }

  ghost predicate AllExist(root: Element, reached: seq<(Address, nat)>) {
    forall r :: r in reached ==> Exists(root, r.0)
  }

  lemma {:induction false} ListedAppend(root: Element, eligible: Address -> bool, a: seq<(Address, nat)>,
                                        at: Address, depth: nat)
    requires AllExist(root, a) && Exists(root, at)
    ensures AllExist(root, a + [(at, depth)])
    ensures var entries := Listed(root, eligible, a);
            var selector := CssPath(root, at, MAX_PARTS);
            Listed(root, eligible, a + [(at, depth)]) ==
            if eligible(at) && selector !in Seen(entries) then entries + [Entry(at, selector, depth)] else entries
  {
    assert (a + [(at, depth)])[..|a|] == a;
  }

  /** The recursive walk; `done` is what earlier branches reached. */
  method ListFrom(root: Element, eligible: Address -> bool, at: Address, depth: nat, maxDepth: nat, entries: seq<Entry>,
               ghost done: seq<(Address, nat)>)
    returns (out: seq<Entry>)
    requires Exists(root, at) && AllExist(root, done) && entries == Listed(root, eligible, done)
    ensures AllExist(root, done + Reached(root, at, depth, maxDepth))
    ensures out == Listed(root, eligible, done + Reached(root, at, depth, maxDepth))
    decreases Get(root, at)
  {
    hide CssPath, Listed, Seen;
    out := entries;
    if depth > maxDepth {
      assert done + [] == done;
      return;
    }
    var selector := CssPath(root, at, MAX_PARTS);
    if eligible(at) && selector !in Seen(out) {
      out := out + [Entry(at, selector, depth)];
    }
    ListedAppend(root, eligible, done, at, depth);
    ghost var reached := done + [(at, depth)];
    var children := Get(root, at).children;
    var i := 0;
    while i < |children|
      invariant i <= |children|
      invariant AllExist(root, reached) && out == Listed(root, eligible, reached)
      invariant reached + ReachedChildren(root, at, children, i, depth, maxDepth) ==
                done + Reached(root, at, depth, maxDepth)
    {
      ChildHolds(root, at, i);
      ghost var more := Reached(root, at + [i], depth + 1, maxDepth);
      ghost var rest := ReachedChildren(root, at, children, i + 1, depth, maxDepth);
      assert reached + (more + rest) == reached + more + rest;
      out := ListFrom(root, eligible, at + [i], depth + 1, maxDepth, out, reached);
      reached := reached + more;
      i := i + 1;
    }
    assert reached + [] == reached;
  }

  /** No selector is listed twice, and every eligible element reached is represented by its selector. */
  lemma {:induction false} ListingIsFaithful(root: Element, eligible: Address -> bool, reached: seq<(Address, nat)>)
    requires AllExist(root, reached)
    ensures var entries := Listed(root, eligible, reached);
            && (forall i, j :: 0 <= i < j < |entries| ==> entries[i].selector != entries[j].selector)
            && (forall e :: e in entries ==> eligible(e.at) && (e.at, e.depth) in reached && Exists(root, e.at) &&
                                             e.selector == CssPath(root, e.at, MAX_PARTS))
            && (forall r :: r in reached && eligible(r.0) ==> CssPath(root, r.0, MAX_PARTS) in Seen(entries))
  {
    if reached != [] {
      var init, last := reached[..|reached| - 1], reached[|reached| - 1];
      ListingIsFaithful(root, eligible, init);
      var before, entries := Listed(root, eligible, init), Listed(root, eligible, reached);
      assert forall e :: e in before ==> e in entries && e.selector in Seen(before);
      if entries != before {
        assert entries[|before|] in entries;
      }
    }
  }

  // ---------------------------------------------------------------- table

  class RefTable {
    var paths: map<string, Selector>
    var counter: nat

    ghost predicate Valid()
      reads this
    {
      forall token :: token in paths <==> exists n :: 1 <= n <= counter && token == Token(n)
    }

    constructor ()
      ensures Valid() && paths == map[] && counter == 0
    {
      paths := map[];
      counter := 0;
    }

    method Reset()
      modifies this
      ensures Valid() && paths == map[] && counter == 0
    {
      paths := map[];
      counter := 0;
    }

    /** The new ref was not in use; every other ref keeps its path. */
    method Alloc(path: Selector) returns (token: string)
      requires Valid()
      modifies this
      ensures Valid() && counter == old(counter) + 1
      ensures token == Token(counter) && token !in old(paths) && paths == old(paths)[token := path]
    {
      counter := counter + 1;
      token := Token(counter);
      forall n | 1 <= n < counter ensures Token(n) != token {
        TokenIsInjective(n, counter);
      }
      paths := paths[token := path];
    }

    /** A fresh table whose `n`-th ref is the path of the `n`-th listed element, and no other ref. */
    method Snapshot(root: Element, eligible: Address -> bool, scope: Address, maxDepth: nat)
      returns (entries: seq<Entry>)
      requires Exists(root, scope)
      modifies this
      ensures Valid() && counter == |entries|
      ensures AllExist(root, Reached(root, scope, 0, maxDepth))
      ensures entries == Listed(root, eligible, Reached(root, scope, 0, maxDepth))
      ensures forall n :: 1 <= n <= |entries| ==> Token(n) in paths && paths[Token(n)] == entries[n - 1].selector
    {
      Reset();
      entries := ListFrom(root, eligible, scope, 0, maxDepth, [], []);
      assert [] + Reached(root, scope, 0, maxDepth) == Reached(root, scope, 0, maxDepth);
      AllocAll(entries);
    }

    method AllocAll(entries: seq<Entry>)
      requires Valid() && counter == 0
      modifies this
      ensures Valid() && counter == |entries|
      ensures forall n :: 1 <= n <= |entries| ==> Token(n) in paths && paths[Token(n)] == entries[n - 1].selector
    {
      hide Token;
      var i := 0;
      while i < |entries|
        invariant i <= |entries| && Valid() && counter == i
        invariant forall n :: 1 <= n <= i ==> Token(n) in paths && paths[Token(n)] == entries[n - 1].selector
      {
        var token := Alloc(entries[i].selector);
        i := i + 1;
      }
    }

    /** `find`: the first match gets a fresh ref to its full path; without a match nothing changes. */
    method Find(root: Element, selector: Selector) returns (token: Option<string>)
      requires Valid()
      modifies this
      ensures Valid()
      ensures token.None? <==> QuerySelector(root, selector).None?
      ensures token.None? ==> paths == old(paths) && counter == old(counter)
      ensures token.Some? ==>
                token.value !in old(paths) &&
                paths == old(paths)[token.value := CssPath(root, QuerySelector(root, selector).value, None)]
    {
      var found := QuerySelector(root, selector);
      if found.None? {
        return None;
      }
      var path := ComputeCssPath(root, found.value, None);
      var ref := Alloc(path);
      token := Some(ref);
    }

    /**
     * The element that a ref, with or without `@`, or else a selector text stands for; `read` tells what selector a
     * text denotes, if any.
     */
    method Resolve(root: Element, text: string, read: string -> Option<Selector>) returns (found: Option<Address>)
      ensures var token := Unmarked(text);
              token in paths ==> found == QuerySelector(root, paths[token])
      ensures Unmarked(text) !in paths ==>
                found == if text == "" || read(text).None? then None else QuerySelector(root, read(text).value)
    {
      var token := if text != "" && text[0] == '@' then text[1..] else text;
      var selector := if token in paths then Some(paths[token]) else if text == "" then None else read(text);
      found := if selector.None? then None else QuerySelector(root, selector.value);
    }
  }

  function Unmarked(text: string): string {
    if text != "" && text[0] == '@' then text[1..] else text
  }

  /** One at sign in front of a ref does not count; any other text is taken as it is. */
  lemma MarkIsDropped(text: string)
    ensures Unmarked("@" + text) == text && (text != "" && text[0] != '@' ==> Unmarked(text) == text)
    ensures Unmarked("") == ""
  {
  }

  /** On a good document the ref of a listed element at most six parts deep resolves to that element. */
  lemma SnapshotRefsResolve(root: Element, eligible: Address -> bool, reached: seq<(Address, nat)>, i: nat)
    requires UniqueIds(root) && (root.id != "" || RootTagOnlyAtRoot(root)) && AllExist(root, reached)
    requires i < |Listed(root, eligible, reached)|
    ensures var entry := Listed(root, eligible, reached)[i];
            Exists(root, entry.at) &&
            (|CssPath(root, entry.at, None)| <= 6 ==> QuerySelector(root, entry.selector) == Some(entry.at))
  {
    ListingIsFaithful(root, eligible, reached);
    var entry := Listed(root, eligible, reached)[i];
    assert entry in Listed(root, eligible, reached);
    if |CssPath(root, entry.at, None)| <= 6 {
      ShortPathsResolve(root, entry.at, 6);
    }
  }
}
