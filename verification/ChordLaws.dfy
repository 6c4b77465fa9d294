/** Chords spelled out: which names a modifier has, what is ignored, and the default bindings. */
module ChordLaws {
  import opened Options
  import AsciiCase
  import opened Chords
  import opened Keybindings

  // ---------------------------------------------------------------- one token

  predicate AllWhite(s: string) {
    forall i :: 0 <= i < |s| ==> s[i] in {' ', '\t', '\n', '\U{0B}', '\U{0C}', '\r'}
  }

  /** The same text in lower case. */
  predicate Lowers(text: string, low: string) {
    |text| == |low| &&
    forall i :: 0 <= i < |text| ==>
      if 'A' <= text[i] <= 'Z' then low[i] as int == text[i] as int + 32 else low[i] == text[i]
  }

  /** The names of the modifiers; every other word is a key and stands for itself. */
  predicate Named(low: string, token: string) {
    if low == "cmd" || low == "command" || low == "super" || low == "win" || low == "meta" then token == "meta"
    else if low == "control" || low == "ctrl" then token == "ctrl"
    else if low == "option" || low == "alt" then token == "alt"
    else token == low
  }

  /** What one piece of a chord stands for: nothing when blank, else its word, in any case, without blanks around it. */
  ghost predicate Reads(raw: string, token: Option<string>) {
    match token
    case None => AllWhite(raw)
    case Some(t) =>
      exists lead, word, trail, low ::
        raw == lead + word + trail && AllWhite(lead) && AllWhite(trail) && Lowers(word, low) && Named(low, t) &&
        word != "" && !AllWhite([word[0]]) && !AllWhite([word[|word| - 1]])
  }

  lemma WhiteMeans(c: char)
    ensures White(c) <==> c in {' ', '\t', '\n', '\U{0B}', '\U{0C}', '\r'}
  {
  }

  lemma {:induction false} TrimStartDrops(lead: string, rest: string)
    requires AllWhite(lead) && (rest != "" ==> !White(rest[0]))
    ensures TrimStart(lead + rest) == rest
  {
    if lead == "" {
      assert lead + rest == rest;
    } else {
      WhiteMeans(lead[0]);
      assert (lead + rest)[1..] == lead[1..] + rest;
      TrimStartDrops(lead[1..], rest);
    }
  }

  lemma {:induction false} TrimEndDrops(rest: string, trail: string)
    requires AllWhite(trail) && (rest != "" ==> !White(rest[|rest| - 1]))
    ensures TrimEnd(rest + trail) == rest
    decreases |trail|
  {
    if trail == "" {
      assert rest + trail == rest;
    } else {
      WhiteMeans(trail[|trail| - 1]);
      assert (rest + trail)[..|rest + trail| - 1] == rest + trail[..|trail| - 1];
      TrimEndDrops(rest, trail[..|trail| - 1]);
    }
  }

  lemma LowersIsLower(text: string, low: string)
    requires Lowers(text, low)
    ensures Lower(text) == low
  {
  }

  lemma NamedIsAlias(low: string, token: string)
    requires Named(low, token)
    ensures Alias(low) == token
  {
  }

  lemma ReadsAsFolded(raw: string, token: Option<string>)
    requires Reads(raw, token)
    ensures Lower(Trim(raw)) == "" <==> token.None?
    ensures token.Some? ==> Fold(raw) == token.value
  {
    if token.None? {
      TrimStartDrops(raw, "");
      assert raw + "" == raw;
    } else {
      var lead, word, trail, low :|
        raw == lead + word + trail && AllWhite(lead) && AllWhite(trail) &&
        Lowers(word, low) && Named(low, token.value) &&
        word != "" && !AllWhite([word[0]]) && !AllWhite([word[|word| - 1]]);
      WhiteMeans(word[0]);
      WhiteMeans(word[|word| - 1]);
      assert raw == lead + (word + trail) && (word + trail)[0] == word[0];
      hide Lower, Alias, White;
      TrimStartDrops(lead, word + trail);
      TrimEndDrops(word, trail);
      LowersIsLower(word, low);
      NamedIsAlias(low, token.value);
    }
  }

  // ---------------------------------------------------------------- a whole chord

  function Present(tokens: seq<Option<string>>): seq<string> {
    if tokens == [] then []
    else (if tokens[0].Some? then [tokens[0].value] else []) + Present(tokens[1..])
  }

  /** The tokens that are none of the four modifiers. */
  function Others(tokens: seq<string>): seq<string> {
    if tokens == [] then []
    else (if tokens[0] in {"ctrl", "alt", "shift", "meta"} then [] else [tokens[0]]) + Others(tokens[1..])
  }

  function If(present: bool, token: string): seq<string> {
    if present then [token] else []
  }

  lemma {:induction false} TokensAreRead(raws: seq<string>, tokens: seq<Option<string>>)
    requires |raws| == |tokens| && forall i :: 0 <= i < |raws| ==> Reads(raws[i], tokens[i])
    ensures Tokens(raws) == Present(tokens)
  {
    hide Lower, Trim, Fold, Reads;
    if raws != [] {
      ReadsAsFolded(raws[0], tokens[0]);
      TokensAreRead(raws[1..], tokens[1..]);
    }
  }

  lemma {:induction false} KeysAreOthers(tokens: seq<string>)
    ensures Keys(tokens) == Others(tokens)
  {
    if tokens != [] { KeysAreOthers(tokens[1..]); }
  }

  lemma ModsInOrder(tokens: seq<string>)
    ensures ModsOf(tokens, 0) ==
            If("ctrl" in tokens, "ctrl") + If("alt" in tokens, "alt") + If("shift" in tokens, "shift") +
            If("meta" in tokens, "meta")
  {
  }

  /**
   * The normal form of any chord: control, alt, shift and meta in this order, each once however often and under
   * whatever name it was given, then the keys as they came, in lower case and without blanks; blank pieces do not
   * count.
   */
  lemma NormalFormIs(raws: seq<string>, tokens: seq<Option<string>>)
    requires raws != [] && forall i :: 0 <= i < |raws| ==> '+' !in raws[i]
    requires |raws| == |tokens| && forall i :: 0 <= i < |raws| ==> Reads(raws[i], tokens[i])
    ensures var present := Present(tokens);
            Normalized(Join(raws)) ==
            Join(If("ctrl" in present, "ctrl") + If("alt" in present, "alt") + If("shift" in present, "shift") +
                 If("meta" in present, "meta") + Others(present))
  {
    hide Tokens, Split, Join, Keys, ModsOf, Reads, If, Others, Present;
    NoPlusIn(raws);
    SplitJoin(raws);
    TokensAreRead(raws, tokens);
    KeysAreOthers(Present(tokens));
    ModsInOrder(Present(tokens));
  }

  lemma NoPlusIn(raws: seq<string>)
    requires forall i :: 0 <= i < |raws| ==> '+' !in raws[i]
    ensures forall p :: p in raws ==> '+' !in p
  {
  }

  // ---------------------------------------------------------------- the order of actions

  /** Up to `k` the two agree; there the first is smaller, or at its end. */
  predicate DiffersAt(a: string, b: string, k: nat) {
    k <= |a| && k < |b| && a[..k] == b[..k] && (k == |a| || a[k] < b[k])
  }

  /** Actions are listed as in a dictionary. */
  lemma {:induction false} BeforeAsInDictionary(a: string, b: string)
    ensures Before(a, b) <==> exists k: nat :: DiffersAt(a, b, k)
  {
    SameFirst(a, b);
    if b == "" {
    } else if a == "" || a[0] < b[0] {
      assert DiffersAt(a, b, 0);
    } else if a[0] == b[0] {
      BeforeAsInDictionary(a[1..], b[1..]);
      if Before(a, b) {
        var k: nat :| DiffersAt(a[1..], b[1..], k);
        assert a[..k + 1] == [a[0]] + a[1..][..k] && b[..k + 1] == [b[0]] + b[1..][..k];
        assert DiffersAt(a, b, k + 1);
      }
      forall k: nat | DiffersAt(a, b, k) ensures k > 0 && DiffersAt(a[1..], b[1..], k - 1) {
        assert k > 0 ==> a[1..][..k - 1] == a[..k][1..] && b[1..][..k - 1] == b[..k][1..];
      }
    }
  }

  lemma SameFirst(a: string, b: string)
    ensures forall k: nat :: 0 < k <= |a| && k <= |b| && a[..k] == b[..k] ==> a[0] == b[0]
  {
    forall k: nat | 0 < k <= |a| && k <= |b| && a[..k] == b[..k] ensures a[0] == b[0] {
      assert a[0] == a[..k][0];
    }
  }

  // ---------------------------------------------------------------- the default bindings

  /** A control chord with one key. */
  function ControlChord(alt: bool, shift: bool, key: string): seq<string> {
    ["ctrl"] + If(alt, "alt") + If(shift, "shift") + [key]
  }

  lemma PlainKey(key: string)
    requires LowerWord(key) && key !in {"cmd", "command", "super", "win", "control", "option"}
    requires key !in {"ctrl", "alt", "shift", "meta"}
    ensures Settled(key) && !Mod(key)
  {
    WordSettles(key);
    hide Trim, Lower;
  }

  lemma ControlChordIsNormal(alt: bool, shift: bool, key: string)
    requires Settled(key) && !Mod(key)
    ensures Normalized(Join(ControlChord(alt, shift, key))) == Join(ControlChord(alt, shift, key))
  {
    var parts := ControlChord(alt, shift, key);
    ModsSettle();
    hide Settled, Normalized, Join, Lower, Trim, Alias, Split, Tokens;
    forall t | t in parts ensures Settled(t) {}
    NoPlus(parts);
    SplitJoin(parts);
    SettledTokens(parts);
    ControlChordIsCanonical(alt, shift, key);
    NormalizedIs(parts);
  }

  lemma NormalizedIs(parts: seq<string>)
    requires Split(Join(parts)) == parts && Tokens(parts) == parts && Canonical(parts) == parts
    ensures Normalized(Join(parts)) == Join(parts)
  {
    hide Split, Join, Tokens, Canonical;
  }

  lemma MembersOf(alt: bool, shift: bool, key: string)
    requires !Mod(key)
    ensures var parts := ControlChord(alt, shift, key);
            "ctrl" in parts && ("alt" in parts <==> alt) && ("shift" in parts <==> shift) && "meta" !in parts
  {
    var parts := ControlChord(alt, shift, key);
    assert parts[0] == "ctrl";
    assert key != "alt" && key != "shift" && key != "meta";
    if alt { assert parts[1] == "alt"; }
    if shift { assert parts[|parts| - 2] == "shift"; }
  }

  lemma ModsOnly(alt: bool, shift: bool)
    ensures forall m :: m in ["ctrl"] + If(alt, "alt") + If(shift, "shift") ==> Mod(m)
  {
  }

  lemma ControlChordParts(alt: bool, shift: bool, key: string)
    ensures ControlChord(alt, shift, key) == ["ctrl"] + If(alt, "alt") + If(shift, "shift") + [key]
    ensures If(true, "ctrl") + If(alt, "alt") + If(shift, "shift") + If(false, "meta") ==
            ["ctrl"] + If(alt, "alt") + If(shift, "shift")
  {
  }

  lemma ControlChordIsCanonical(alt: bool, shift: bool, key: string)
    requires !Mod(key)
    ensures Canonical(ControlChord(alt, shift, key)) == ControlChord(alt, shift, key)
  {
    hide Mods, Mod, ModsOf, Keys, If, ControlChord;
    var mods := ["ctrl"] + If(alt, "alt") + If(shift, "shift");
    ControlChordParts(alt, shift, key);
    MembersOf(alt, shift, key);
    ModsOnly(alt, shift);
    OneKey(key);
    KeysConcat(mods, [key]);
    ModsInOrder(ControlChord(alt, shift, key));
    NoKeysInMods(mods);
    assert ControlChord(alt, shift, key) == mods + [key];
  }

  lemma OneKey(key: string)
    requires !Mod(key)
    ensures Keys([key]) == [key]
  {
    assert [key][1..] == [];
  }

  /** The default chords: control, perhaps alt or shift, and one key. */
  datatype Default = Default(action: string, alt: bool, shift: bool, key: string)

  function Defaults(): (defaults: seq<Default>)
    ensures |defaults| == 14
  {
    [
      Default("palette.commands", false, true, "p"), Default("palette.switcher", false, false, "p"),
      Default("surface.newTerminal", false, false, "t"), Default("surface.close", false, false, "w"),
      Default("split.right", false, true, "e"), Default("split.down", false, true, "o"),
      Default("focus.left", true, false, "left"), Default("focus.right", true, false, "right"),
      Default("focus.up", true, false, "up"), Default("focus.down", true, false, "down"),
      Default("find.open", false, false, "f"), Default("find.next", false, false, "g"),
      Default("find.previous", true, false, "g"), Default("app.openSettings", false, false, "comma")
    ]
  }

  function Spelled(d: Default): string {
    "ctrl+" + (if d.alt then "alt+" else "") + (if d.shift then "shift+" else "") + d.key
  }

  lemma DefaultsAre(i: nat)
    requires i < 14
    ensures DefaultPairs()[i] == (Defaults()[i].action, Spelled(Defaults()[i]))
  {
    var d := Defaults()[i];
    assert Spelled(d) == DefaultPairs()[i].1;
  }

  lemma JoinFirst(part: string, parts: seq<string>)
    requires parts != []
    ensures Join([part] + parts) == part + "+" + Join(parts) && Join([part]) == part
  {
    assert ([part] + parts)[1..] == parts;
  }

  lemma JoinIf(present: bool, part: string, parts: seq<string>)
    requires parts != []
    ensures Join(If(present, part) + parts) == (if present then part + "+" else "") + Join(parts)
  {
    hide Join;
    JoinFirst(part, parts);
    assert [] + parts == parts && "" + Join(parts) == Join(parts);
  }

  lemma JoinsOf(alt: bool, shift: bool, key: string)
    ensures Join(ControlChord(alt, shift, key)) ==
            "ctrl+" + (if alt then "alt+" else "") + (if shift then "shift+" else "") + key
  {
    hide Join, If;
    var two := If(shift, "shift") + [key];
    JoinFirst(key, [""]);
    JoinIf(shift, "shift", [key]);
    JoinIf(alt, "alt", two);
    JoinFirst("ctrl", If(alt, "alt") + two);
    assert ControlChord(alt, shift, key) == ["ctrl"] + (If(alt, "alt") + two);
    assert "alt" + "+" == "alt+" && "shift" + "+" == "shift+" && "ctrl" + "+" == "ctrl+";
  }

  lemma DefaultKeys(i: nat)
    requires i < 14
    ensures Settled(Defaults()[i].key) && !Mod(Defaults()[i].key)
  {
    KeysArePlain(i);
    hide Settled, Mod, Defaults;
    PlainKey(Defaults()[i].key);
  }

  lemma KeysArePlain(i: nat)
    requires i < 14
    ensures var key := Defaults()[i].key;
            LowerWord(key) && key !in {"cmd", "command", "super", "win", "control", "option"} &&
            key !in {"ctrl", "alt", "shift", "meta"}
  {
  }

  lemma DefaultsDiffer(i: nat, j: nat)
    requires i < j < 14
    ensures DefaultPairs()[i].0 != DefaultPairs()[j].0 && DefaultPairs()[i].1 != DefaultPairs()[j].1
  {
  }

  lemma DefaultIsNormal(i: nat)
    requires i < 14
    ensures Normalized(DefaultPairs()[i].1) == DefaultPairs()[i].1
  {
    hide Normalized, Join, Settled, Mod, DefaultPairs, Defaults, ControlChord;
    var d := Defaults()[i];
    DefaultsAre(i);
    JoinsOf(d.alt, d.shift, d.key);
    DefaultKeys(i);
    ControlChordIsNormal(d.alt, d.shift, d.key);
  }

  lemma {:induction false} CollectedAre(pairs: seq<(string, string)>, action: string)
    requires forall i, j :: 0 <= i < j < |pairs| ==> pairs[i].0 != pairs[j].0
    ensures action in Collected(pairs) <==> exists i :: 0 <= i < |pairs| && pairs[i].0 == action
    ensures forall i :: 0 <= i < |pairs| && pairs[i].0 == action ==>
              action in Collected(pairs) && Collected(pairs)[action] == pairs[i].1
  {
    if pairs != [] {
      CollectedAre(pairs[..|pairs| - 1], action);
    }
  }

  /** The registry starts with exactly these bindings, every chord of which is in normal form as it is written. */
  lemma DefaultBindingsAre(action: string, chord: string)
    ensures action in DefaultBindings() && DefaultBindings()[action] == chord <==>
            exists i :: 0 <= i < 14 && Defaults()[i].action == action && Spelled(Defaults()[i]) == chord
  {
    hide Normalized, DefaultPairs, Defaults, Spelled, Collected;
    forall i, j | 0 <= i < j < 14 ensures DefaultPairs()[i].0 != DefaultPairs()[j].0 { DefaultsDiffer(i, j); }
    forall i | 0 <= i < 14
      ensures DefaultPairs()[i] == (Defaults()[i].action, Spelled(Defaults()[i]))
      ensures Normalized(DefaultPairs()[i].1) == DefaultPairs()[i].1
    {
      DefaultsAre(i);
      DefaultIsNormal(i);
    }
    CollectedAre(DefaultPairs(), action);
  }

  /** No two of them share a chord. */
  lemma DefaultsHaveNoConflicts(c: Conflict)
    ensures !Conflicting(DefaultBindings(), c)
  {
    hide DefaultBindings, Defaults, Spelled, DefaultPairs;
    if Conflicting(DefaultBindings(), c) {
      BeforeIsStrict(c.actionA);
      DefaultBindingsAre(c.actionA, c.chord);
      DefaultBindingsAre(c.actionB, c.chord);
      var i :| 0 <= i < 14 && Defaults()[i].action == c.actionA && Spelled(Defaults()[i]) == c.chord;
      var j :| 0 <= j < 14 && Defaults()[j].action == c.actionB && Spelled(Defaults()[j]) == c.chord;
      DefaultsAre(i);
      DefaultsAre(j);
      if i < j { DefaultsDiffer(i, j); } else if j < i { DefaultsDiffer(j, i); }
    }
  }
}
