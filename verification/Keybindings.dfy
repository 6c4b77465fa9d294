/** The keybinding registry: defaults, overrides, lookup and conflicts. */
module Keybindings {
  import opened Options
  import opened Chords

  // ---------------------------------------------------------------- the order of the map

  /** Strings are ordered by their octets. */
  predicate Before(a: string, b: string) {
    b != "" && (a == "" || a[0] < b[0] || (a[0] == b[0] && Before(a[1..], b[1..])))
  }

  lemma {:induction false} BeforeIsStrict(a: string)
    ensures !Before(a, a)
  {
    if a != "" { BeforeIsStrict(a[1..]); }
  }

  lemma {:induction false} BeforeIsTransitive(a: string, b: string, c: string)
    requires Before(a, b) && Before(b, c)
    ensures Before(a, c)
  {
    if a != "" && a[0] == b[0] == c[0] { BeforeIsTransitive(a[1..], b[1..], c[1..]); }
  }

  lemma {:induction false} BeforeIsTotal(a: string, b: string)
    ensures a == b || Before(a, b) || Before(b, a)
  {
    if a != "" && b != "" && a[0] == b[0] {
      BeforeIsTotal(a[1..], b[1..]);
      assert a == [a[0]] + a[1..] && b == [b[0]] + b[1..];
    }
  }

  lemma {:induction false} BeforeIsOneWay(a: string, b: string)
    requires Before(a, b)
    ensures !Before(b, a)
  {
    if a != "" && a[0] == b[0] { BeforeIsOneWay(a[1..], b[1..]); }
  }

  predicate IsLeast(m: string, s: set<string>) {
    m in s && forall x :: x in s && x != m ==> Before(m, x)
  }

  lemma {:induction false} LeastExists(s: set<string>)
    requires s != {}
    ensures exists m :: IsLeast(m, s)
    decreases s
  {
    hide Before;
    var x :| x in s;
    if s - {x} == {} {
      assert s == {x};
      assert IsLeast(x, s);
    } else {
      LeastExists(s - {x});
      var m :| IsLeast(m, s - {x});
      BeforeIsTotal(m, x);
      if Before(m, x) {
        assert IsLeast(m, s);
      } else {
        forall y | y in s && y != x ensures Before(x, y) {
          if y != m { BeforeIsTransitive(x, m, y); }
        }
        assert IsLeast(x, s);
      }
    }
  }

  predicate Ascending(s: seq<string>) {
    forall i, j :: 0 <= i < j < |s| ==> Before(s[i], s[j])
  }

  /** The keys of a map in the order in which it is walked. */
  method SortedKeys(keys: set<string>) returns (sorted: seq<string>)
    ensures Ascending(sorted) && forall k :: k in sorted <==> k in keys
  {
    hide Before;
    sorted := [];
    var rest := keys;
    while rest != {}
      invariant Ascending(sorted) && (forall k :: k in keys <==> k in sorted || k in rest)
      invariant forall a, b :: a in sorted && b in rest ==> Before(a, b)
      decreases rest
    {
      LeastExists(rest);
      var m :| IsLeast(m, rest);
      sorted := sorted + [m];
      rest := rest - {m};
    }
  }

  // ---------------------------------------------------------------- bindings

  type Bindings = map<string, string>

  function DefaultPairs(): (pairs: seq<(string, string)>)
    ensures |pairs| == 14
  {
    [
      ("palette.commands", "ctrl+shift+p"),
      ("palette.switcher", "ctrl+p"),
      ("surface.newTerminal", "ctrl+t"),
      ("surface.close", "ctrl+w"),
      ("split.right", "ctrl+shift+e"),
      ("split.down", "ctrl+shift+o"),
      ("focus.left", "ctrl+alt+left"),
      ("focus.right", "ctrl+alt+right"),
      ("focus.up", "ctrl+alt+up"),
      ("focus.down", "ctrl+alt+down"),
      ("find.open", "ctrl+f"),
      ("find.next", "ctrl+g"),
      ("find.previous", "ctrl+alt+g"),
      ("app.openSettings", "ctrl+comma")
    ]
  }

  /** Later pairs win. */
  function Collected(pairs: seq<(string, string)>): Bindings {
    if pairs == [] then map[]
    else Collected(pairs[..|pairs| - 1])[pairs[|pairs| - 1].0 := pairs[|pairs| - 1].1]
  }

  function DefaultChords(): Bindings {
    Collected(DefaultPairs())
  }

  function DefaultBindings(): Bindings {
    map action | action in DefaultChords() :: Normalized(DefaultChords()[action])
  }

  /** Binding an action to a chord; a chord without tokens unbinds it. */
  function Bind(bindings: Bindings, action: string, chord: string): Bindings {
    if Normalized(chord) == "" then bindings - {action} else bindings[action := Normalized(chord)]
  }

  /** Every override counts on its own: the defaults with each overridden action bound or unbound. */
  function WithOverrides(overrides: Bindings): Bindings {
    map action | action in DefaultBindings().Keys + overrides.Keys &&
                 (action in overrides ==> Normalized(overrides[action]) != "")
      :: if action in overrides then Normalized(overrides[action]) else DefaultBindings()[action]
  }

  /** Changing one binding is rebuilding the registry with one more override. */
  lemma SetIsRebuild(overrides: Bindings, action: string, chord: string)
    ensures Bind(WithOverrides(overrides), action, chord) == WithOverrides(overrides[action := chord])
  {
    hide DefaultBindings, Normalized;
    var after := overrides[action := chord];
    assert after.Keys == overrides.Keys + {action};
  }

  /** All chords of a registry are in normal form, whatever was typed. */
  lemma ChordsAreNormal(overrides: Bindings, action: string)
    requires action in WithOverrides(overrides)
    ensures Normalized(WithOverrides(overrides)[action]) == WithOverrides(overrides)[action]
  {
    hide Normalized, DefaultChords;
    if action in overrides {
      NormalizeIsIdempotent(overrides[action]);
    } else {
      NormalizeIsIdempotent(DefaultChords()[action]);
    }
  }

  // ---------------------------------------------------------------- conflicts

  datatype Conflict = Conflict(chord: string, actionA: string, actionB: string)

  /** Two actions in order that share a chord. */
  predicate Conflicting(bindings: Bindings, c: Conflict) {
    && c.actionA in bindings && c.actionB in bindings && Before(c.actionA, c.actionB)
    && bindings[c.actionA] == c.chord == bindings[c.actionB]
  }

  predicate NoDuplicates<T(==)>(s: seq<T>) {
    forall i, j :: 0 <= i < j < |s| ==> s[i] != s[j]
  }

  /** All pairs of the actions of one chord. */
  method PairsOf(chord: string, actions: seq<string>) returns (pairs: seq<Conflict>)
    requires Ascending(actions)
    ensures NoDuplicates(pairs)
    ensures forall c :: c in pairs <==> c.chord == chord && c.actionA in actions && c.actionB in actions &&
                                         Before(c.actionA, c.actionB)
  {
    hide Before;
    pairs := [];
    forall i | 0 <= i < |actions| ensures !Before(actions[i], actions[i]) { BeforeIsStrict(actions[i]); }
    forall i, j | 0 <= i < j < |actions| ensures !Before(actions[j], actions[i]) {
      BeforeIsOneWay(actions[i], actions[j]);
    }
    for i := 0 to |actions|
      invariant NoDuplicates(pairs)
      invariant forall c :: c in pairs ==>
        c.chord == chord && c.actionA in actions[..i] && c.actionB in actions && Before(c.actionA, c.actionB)
      invariant forall p, q :: 0 <= p < i && p < q < |actions| ==> Conflict(chord, actions[p], actions[q]) in pairs
    {
      for j := i + 1 to |actions|
        invariant NoDuplicates(pairs)
        invariant forall c :: c in pairs ==>
          c.chord == chord && c.actionB in actions && Before(c.actionA, c.actionB) &&
          (c.actionA in actions[..i] || (c.actionA == actions[i] && c.actionB in actions[i + 1..j]))
        invariant forall p, q :: 0 <= p < i && p < q < |actions| ==> Conflict(chord, actions[p], actions[q]) in pairs
        invariant forall q :: i < q < j ==> Conflict(chord, actions[i], actions[q]) in pairs
      {
        pairs := pairs + [Conflict(chord, actions[i], actions[j])];
      }
    }
  }

  class KeybindingRegistry {
    var bindings: Bindings

    constructor Default()
      ensures bindings == DefaultBindings()
    {
      bindings := DefaultBindings();
    }

    constructor FromOverrides(overrides: Bindings)
      ensures bindings == WithOverrides(overrides)
    {
      hide DefaultBindings, Normalized, WithOverrides;
      new;
      bindings := DefaultBindings();
      var actions := SortedKeys(overrides.Keys);
      ghost var seen: Bindings := map[];
      NoOverrides();
      for i := 0 to |actions|
        invariant bindings == WithOverrides(seen)
        invariant seen.Keys == set a | a in actions[..i]
        invariant forall a :: a in seen ==> a in overrides && seen[a] == overrides[a]
      {
        var action := actions[i];
        assert action in actions;
        SetIsRebuild(seen, action, overrides[action]);
        var norm := NormalizeChord(overrides[action]);
        if norm == "" {
          bindings := bindings - {action};
        } else {
          bindings := bindings[action := norm];
        }
        assert actions[..i + 1] == actions[..i] + [action];
        seen := seen[action := overrides[action]];
      }
      assert actions[..|actions|] == actions;
      assert seen == overrides;
    }

    function Resolve(action: string): (chord: Option<string>)
      reads this
      ensures chord.Some? <==> action in bindings
      ensures chord.Some? ==> bindings[action] == chord.value
    {
      if action in bindings then Some(bindings[action]) else None
    }

    /** The least action bound to the chord, in whatever form the chord is given. */
    method ActionForChord(chord: string) returns (r: Option<string>)
      ensures r.None? ==> forall a :: a in bindings ==> bindings[a] != Normalized(chord)
      ensures r.Some? ==> r.value in bindings && bindings[r.value] == Normalized(chord)
      ensures r.Some? ==>
                forall a :: a in bindings && bindings[a] == Normalized(chord) ==> a == r.value || Before(r.value, a)
    {
      hide Before, Normalized;
      var norm := NormalizeChord(chord);
      var actions := SortedKeys(bindings.Keys);
      for i := 0 to |actions|
        invariant forall j :: 0 <= j < i ==> bindings[actions[j]] != norm
      {
        if bindings[actions[i]] == norm {
          forall a | a in bindings && bindings[a] == norm ensures a == actions[i] || Before(actions[i], a) {
            var j :| 0 <= j < |actions| && actions[j] == a;
          }
          return Some(actions[i]);
        }
      }
      return None;
    }

    /** All bindings, by action. */
    method List() returns (list: seq<(string, string)>)
      ensures forall i, j :: 0 <= i < j < |list| ==> Before(list[i].0, list[j].0)
      ensures forall p: (string, string) :: p in list <==> p.0 in bindings && bindings[p.0] == p.1
    {
      hide Before;
      list := [];
      var actions := SortedKeys(bindings.Keys);
      for i := 0 to |actions|
        invariant |list| == i
        invariant forall j :: 0 <= j < i ==> actions[j] in bindings && list[j] == (actions[j], bindings[actions[j]])
      {
        list := list + [(actions[i], bindings[actions[i]])];
      }
    }

    method Set(action: string, chord: string)
      modifies this
      ensures bindings == Bind(old(bindings), action, chord)
    {
      var norm := NormalizeChord(chord);
      if norm == "" {
        bindings := bindings - {action};
      } else {
        bindings := bindings[action := norm];
      }
    }

    /** Every pair of actions that share a chord, once. */
    method DetectConflicts() returns (conflicts: seq<Conflict>)
      ensures forall c :: c in conflicts <==> Conflicting(bindings, c)
      ensures NoDuplicates(conflicts)
    {
      hide Before, Ascending;
      var byChord := GroupByChord(bindings);
      conflicts := [];
      var chords := SortedKeys(byChord.Keys);
      AscendingIsDistinct(chords);
      for i := 0 to |chords|
        invariant NoDuplicates(conflicts)
        invariant forall c :: c in conflicts <==> c.chord in chords[..i] && Conflicting(bindings, c)
      {
        var chord := chords[i];
        assert chord in chords && chord !in chords[..i];
        assert chords[..i + 1] == chords[..i] + [chord];
        if |byChord[chord]| >= 2 {
          var pairs := PairsOf(chord, byChord[chord]);
          assert forall c :: c in pairs <==> c.chord == chord && Conflicting(bindings, c);
          NoDuplicatesConcat(conflicts, pairs);
          conflicts := conflicts + pairs;
        } else {
          LonelyChord(bindings, chord, byChord[chord]);
        }
      }
      assert chords[..|chords|] == chords;
      assert forall c :: Conflicting(bindings, c) ==> c.actionA in byChord[c.chord];
    }
  }

  /** The actions of each chord, in order. */
  method GroupByChord(bindings: Bindings) returns (byChord: map<string, seq<string>>)
    ensures forall c :: c in byChord ==> Ascending(byChord[c])
    ensures forall c, a :: c in byChord && a in byChord[c] ==> a in bindings && bindings[a] == c
    ensures forall a :: a in bindings ==> bindings[a] in byChord && a in byChord[bindings[a]]
  {
    hide Before;
    var actions := SortedKeys(bindings.Keys);
    byChord := map[];
    for i := 0 to |actions|
      invariant forall c :: c in byChord ==> Ascending(byChord[c])
      invariant forall c, a :: c in byChord && a in byChord[c] ==>
                  a in bindings && bindings[a] == c && a in actions[..i]
      invariant forall j :: 0 <= j < i ==>
                  bindings[actions[j]] in byChord && actions[j] in byChord[bindings[actions[j]]]
    {
      var chord := bindings[actions[i]];
      var before := if chord in byChord then byChord[chord] else [];
      forall a | a in before ensures Before(a, actions[i]) {
        assert a in actions[..i];
        var j :| 0 <= j < i && actions[..i][j] == a;
      }
      assert actions[..i + 1] == actions[..i] + [actions[i]];
      byChord := byChord[chord := before + [actions[i]]];
    }
  }

  lemma NoDuplicatesConcat<T>(a: seq<T>, b: seq<T>)
    requires NoDuplicates(a) && NoDuplicates(b) && forall x :: x in a ==> x !in b
    ensures NoDuplicates(a + b)
  {
    assert forall i :: 0 <= i < |a| ==> a[i] in a;
    assert forall i :: 0 <= i < |b| ==> b[i] in b;
  }

  lemma AscendingIsDistinct(s: seq<string>)
    requires Ascending(s)
    ensures NoDuplicates(s)
  {
    hide Before;
    forall i | 0 <= i < |s| ensures !Before(s[i], s[i]) { BeforeIsStrict(s[i]); }
  }

  lemma LonelyChord(bindings: Bindings, chord: string, actions: seq<string>)
    requires |actions| < 2 && forall a :: a in bindings && bindings[a] == chord ==> a in actions
    ensures forall c :: Conflicting(bindings, c) ==> c.chord != chord
  {
    hide Before;
    forall c | Conflicting(bindings, c) ensures c.chord != chord { BeforeIsStrict(c.actionA); }
  }

  lemma NoOverrides()
    ensures WithOverrides(map[]) == DefaultBindings()
  {
    hide DefaultBindings, Normalized;
  }
}
