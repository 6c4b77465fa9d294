/** Chords in normal form: modifiers in one order and once, then the keys; a char stands for one ASCII byte. */
module Chords {
  import AsciiCase

  // ---------------------------------------------------------------- text

  predicate White(c: char) { c == ' ' || '\t' <= c <= '\r' }

  function Lower(s: string): (r: string)
    ensures |r| == |s| && forall i :: 0 <= i < |s| ==> r[i] == AsciiCase.Lower(s[i])
  {
    if s == "" then "" else [AsciiCase.Lower(s[0])] + Lower(s[1..])
  }

  function TrimStart(s: string): (r: string)
    ensures r != "" ==> !White(r[0])
    ensures forall c :: c in r ==> c in s
    ensures s != "" && !White(s[0]) ==> r == s
  {
    if s == "" || !White(s[0]) then s else TrimStart(s[1..])
  }

  function TrimEnd(s: string): (r: string)
    ensures r <= s
    ensures r != "" ==> !White(r[|r| - 1])
    ensures s != "" && !White(s[|s| - 1]) ==> r == s
  {
    if s == "" || !White(s[|s| - 1]) then s else TrimEnd(s[..|s| - 1])
  }

  function Trim(s: string): string {
    TrimEnd(TrimStart(s))
  }

  function Split(s: string): (parts: seq<string>)
    ensures parts != [] && forall p :: p in parts ==> '+' !in p
  {
    if s == "" then [""]
    else
      var rest := Split(s[1..]);
      if s[0] == '+' then [""] + rest else [[s[0]] + rest[0]] + rest[1..]
  }

  function Join(parts: seq<string>): string {
    if parts == [] then ""
    else if |parts| == 1 then parts[0]
    else parts[0] + "+" + Join(parts[1..])
  }

  lemma {:induction false} SplitFirst(part: string, rest: string)
    requires '+' !in part
    ensures Split(part + "+" + rest) == [part] + Split(rest)
    ensures Split(part) == [part]
  {
    if part == "" {
      assert "" + "+" + rest == "+" + rest && ("+" + rest)[1..] == rest;
    } else {
      SplitFirst(part[1..], rest);
      assert (part + "+" + rest)[1..] == part[1..] + "+" + rest;
      assert [part[0]] + part[1..] == part;
    }
  }

  /** Splitting undoes joining. */
  lemma {:induction false} SplitJoin(parts: seq<string>)
    requires parts != [] && forall p :: p in parts ==> '+' !in p
    ensures Split(Join(parts)) == parts
  {
    SplitFirst(parts[0], if |parts| == 1 then "" else Join(parts[1..]));
    if |parts| > 1 { SplitJoin(parts[1..]); }
  }

  // ---------------------------------------------------------------- tokens

  function Ctrl(): string { "ctrl" }
  function Alt(): string { "alt" }
  function Shift(): string { "shift" }
  function Meta(): string { "meta" }

  /** The modifiers, in canonical order. */
  function Mods(): seq<string> { [Ctrl(), Alt(), Shift(), Meta()] }

  predicate Mod(token: string) { token in Mods() }

  function Alias(token: string): string {
    if token == "cmd" || token == "command" || token == "super" || token == "win" then Meta()
    else if token == "control" then Ctrl()
    else if token == "option" then Alt()
    else token
  }

  function Fold(raw: string): string { Alias(Lower(Trim(raw))) }

  /** The tokens of a chord; empty ones do not count. */
  function Tokens(raws: seq<string>): seq<string> {
    if raws == [] then []
    else (if Lower(Trim(raws[0])) == "" then [] else [Fold(raws[0])]) + Tokens(raws[1..])
  }

  /** The tokens that are no modifiers, in order. */
  function Keys(tokens: seq<string>): seq<string> {
    if tokens == [] then [] else (if Mod(tokens[0]) then [] else [tokens[0]]) + Keys(tokens[1..])
  }

  /** The modifiers from `from` on that occur. */
  function ModsOf(tokens: seq<string>, from: nat): seq<string>
    requires from <= |Mods()|
    decreases |Mods()| - from
  {
    if from == |Mods()| then []
    else (if Mods()[from] in tokens then [Mods()[from]] else []) + ModsOf(tokens, from + 1)
  }

  /** The normal form: canonical modifiers, then keys. */
  function Canonical(tokens: seq<string>): seq<string> {
    ModsOf(tokens, 0) + Keys(tokens)
  }

  function Normalized(chord: string): string {
    Join(Canonical(Tokens(Split(chord))))
  }

  // ---------------------------------------------------------------- a token is settled

  /** Folding leaves it alone, and it survives joining. */
  predicate Settled(token: string) {
    token != "" && Lower(Trim(token)) == token && Alias(token) == token && '+' !in token
  }

  lemma {:induction false} LowerTwice(s: string)
    ensures Lower(Lower(s)) == Lower(s)
  {
    assert forall i :: 0 <= i < |s| ==> Lower(Lower(s))[i] == Lower(s)[i];
  }

  lemma TrimmedStays(s: string)
    requires s != "" && !White(s[0]) && !White(s[|s| - 1])
    ensures Trim(s) == s
  {
  }

  lemma {:induction false} FoldSettles(raw: string)
    requires Lower(Trim(raw)) != "" && '+' !in raw
    ensures Settled(Fold(raw))
  {
    var t := Trim(raw);
    var low := Lower(t);
    hide Trim, Lower, Alias, Ctrl, Alt, Shift, Meta;
    TrimShape(raw);
    assert low[0] == AsciiCase.Lower(t[0]) && low[|low| - 1] == AsciiCase.Lower(t[|t| - 1]);
    TrimmedStays(low);
    LowerTwice(t);
    forall i | 0 <= i < |low| ensures low[i] != '+' { assert low[i] == AsciiCase.Lower(t[i]); assert t[i] in t; }
    AliasSettles(low);
  }

  lemma AliasSettles(low: string)
    requires low != "" && Lower(Trim(low)) == low && '+' !in low
    ensures Settled(Alias(low))
  {
    hide Lower, Trim;
    ModsSettle();
  }

  lemma TrimShape(raw: string)
    ensures var t := Trim(raw); (t != "" ==> !White(t[0]) && !White(t[|t| - 1])) && forall c :: c in t ==> c in raw
  {
    var s, t := TrimStart(raw), Trim(raw);
    assert t <= s;
    assert t != "" ==> t[0] == s[0];
    assert forall i :: 0 <= i < |t| ==> t[i] == s[i];
  }

  lemma WordSettles(s: string)
    requires LowerWord(s)
    ensures s != "" && Lower(Trim(s)) == s && '+' !in s
  {
    hide Trim;
    TrimmedStays(s);
    LowerIsSame(s);
  }

  lemma ModsAreNoAliases()
    ensures Alias(Ctrl()) == Ctrl() && Alias(Alt()) == Alt() && Alias(Shift()) == Shift() && Alias(Meta()) == Meta()
  {
  }

  lemma ModsSettle()
    ensures Settled(Ctrl()) && Settled(Alt()) && Settled(Shift()) && Settled(Meta())
  {
    ModsAreNoAliases();
    ModsAreWords();
    hide Alias, Lower, Trim, Ctrl, Alt, Shift, Meta;
    WordSettles(Ctrl());
    WordSettles(Alt());
    WordSettles(Shift());
    WordSettles(Meta());
  }

  predicate LowerWord(s: string) { s != "" && forall i :: 0 <= i < |s| ==> 'a' <= s[i] <= 'z' }

  lemma ModsAreWords()
    ensures LowerWord(Ctrl()) && LowerWord(Alt()) && LowerWord(Shift()) && LowerWord(Meta())
  {
  }

  lemma LowerIsSame(s: string)
    requires forall i :: 0 <= i < |s| ==> !('A' <= s[i] <= 'Z')
    ensures Lower(s) == s
  {
  }

  lemma {:induction false} TokensSettle(raws: seq<string>)
    requires forall p :: p in raws ==> '+' !in p
    ensures forall t :: t in Tokens(raws) ==> Settled(t)
  {
    hide Settled, Lower, Trim, Fold;
    if raws != [] {
      if Lower(Trim(raws[0])) != "" { FoldSettles(raws[0]); }
      TokensSettle(raws[1..]);
    }
  }

  lemma {:induction false} SettledTokens(tokens: seq<string>)
    requires forall t :: t in tokens ==> Settled(t)
    ensures Tokens(tokens) == tokens
  {
    hide Lower, Trim, Alias;
    if tokens != [] {
      SettledTokens(tokens[1..]);
      assert Settled(tokens[0]);
    }
  }

  // ---------------------------------------------------------------- canonical form

  lemma {:induction false} KeysAreTokens(tokens: seq<string>)
    ensures forall t :: t in Keys(tokens) <==> t in tokens && !Mod(t)
    ensures (forall t :: t in tokens ==> !Mod(t)) ==> Keys(tokens) == tokens
  {
    hide Mod;
    if tokens != [] { KeysAreTokens(tokens[1..]); }
  }

  lemma {:induction false} ModsAreTokens(tokens: seq<string>, from: nat)
    requires from <= |Mods()|
    ensures forall t :: t in ModsOf(tokens, from) <==> t in tokens && t in Mods()[from..]
    decreases |Mods()| - from
  {
    hide Mods;
    if from < |Mods()| {
      ModsAreTokens(tokens, from + 1);
      assert Mods()[from..] == [Mods()[from]] + Mods()[from + 1..];
    }
  }

  lemma {:induction false} SameModsSameOrder(a: seq<string>, b: seq<string>, from: nat)
    requires from <= |Mods()| && forall m :: m in Mods() ==> (m in a <==> m in b)
    ensures ModsOf(a, from) == ModsOf(b, from)
    decreases |Mods()| - from
  {
    hide Mods;
    if from < |Mods()| { SameModsSameOrder(a, b, from + 1); }
  }

  lemma {:induction false} KeysConcat(a: seq<string>, b: seq<string>)
    ensures Keys(a + b) == Keys(a) + Keys(b)
  {
    hide Mod;
    if a == [] {
      assert a + b == b;
    } else {
      assert (a + b)[1..] == a[1..] + b;
      KeysConcat(a[1..], b);
    }
  }

  lemma {:induction false} NoKeysInMods(mods: seq<string>)
    requires forall m :: m in mods ==> Mod(m)
    ensures Keys(mods) == []
  {
    hide Mod;
    if mods != [] { NoKeysInMods(mods[1..]); }
  }

  /** Nothing is lost and nothing invented. */
  lemma CanonicalHasTokens(tokens: seq<string>)
    ensures forall t :: t in Canonical(tokens) <==> t in tokens
    ensures tokens == [] ==> Canonical(tokens) == []
  {
    if tokens == [] { NoMods(0); }
    ModsAreTokens(tokens, 0);
    assert Mods()[0..] == Mods();
    KeysAreTokens(tokens);
    hide Mods, ModsOf, Keys;
  }

  lemma {:induction false} NoMods(from: nat)
    requires from <= |Mods()|
    ensures ModsOf([], from) == []
    decreases |Mods()| - from
  {
    hide Mods;
    if from < |Mods()| { NoMods(from + 1); }
  }

  lemma ModsAreMods(tokens: seq<string>)
    ensures forall m :: m in ModsOf(tokens, 0) ==> Mod(m)
  {
    ModsAreTokens(tokens, 0);
    assert Mods()[0..] == Mods();
    hide Mods, ModsOf;
  }

  /** The normal form of a normal form is itself, and has the same modifiers and keys. */
  lemma CanonicalReads(tokens: seq<string>)
    ensures var c := Canonical(tokens);
            Canonical(c) == c && Keys(c) == Keys(tokens) && forall m :: m in Mods() ==> (m in c <==> m in tokens)
  {
    hide Mods, Mod, ModsOf, Keys;
    var mods, keys := ModsOf(tokens, 0), Keys(tokens);
    CanonicalHasTokens(tokens);
    KeysConcat(mods, keys);
    ModsAreMods(tokens);
    NoKeysInMods(mods);
    KeysAreTokens(tokens);
    KeysAreTokens(keys);
    SameModsSameOrder(mods + keys, tokens, 0);
  }

  /** The tokens of a normalized chord are its canonical tokens. */
  lemma NormalizedTokens(chord: string)
    ensures Tokens(Split(Normalized(chord))) == Canonical(Tokens(Split(chord)))
  {
    var tokens := Tokens(Split(chord));
    TokensSettle(Split(chord));
    CanonicalHasTokens(tokens);
    var c := Canonical(tokens);
    assert forall t :: t in c ==> Settled(t);
    if c == [] {
      NoTokens();
    } else {
      NoPlus(c);
      SplitJoin(c);
      SettledTokens(c);
    }
  }

  lemma NoPlus(tokens: seq<string>)
    requires forall t :: t in tokens ==> Settled(t)
    ensures forall t :: t in tokens ==> '+' !in t
  {
    hide Lower, Trim, Alias;
  }

  lemma NoTokens()
    ensures Tokens(Split("")) == []
  {
  }

  /** Normalizing twice is normalizing once. */
  lemma NormalizeIsIdempotent(chord: string)
    ensures Normalized(Normalized(chord)) == Normalized(chord)
  {
    hide Tokens, Split, Canonical, Join;
    NormalizedTokens(chord);
    CanonicalReads(Tokens(Split(chord)));
  }

  /** Two chords are the same exactly when they have the same modifiers, in any order and number, and the same keys. */
  lemma SameChordExactlyWhen(a: string, b: string)
    ensures Normalized(a) == Normalized(b) <==>
            Keys(Tokens(Split(a))) == Keys(Tokens(Split(b))) &&
            forall m :: m in Mods() ==> (m in Tokens(Split(a)) <==> m in Tokens(Split(b)))
  {
    hide Tokens, Split, Join, Mods, Keys;
    var s, t := Tokens(Split(a)), Tokens(Split(b));
    if Normalized(a) == Normalized(b) {
      NormalizedTokens(a);
      NormalizedTokens(b);
      CanonicalReads(s);
      CanonicalReads(t);
    }
    if Keys(s) == Keys(t) && forall m :: m in Mods() ==> (m in s <==> m in t) {
      SameModsSameOrder(s, t, 0);
    }
  }

  /** Exactly the chords without tokens normalize to nothing, which unbinds. */
  lemma EmptyExactlyWhenNoTokens(chord: string)
    ensures Normalized(chord) == "" <==> Tokens(Split(chord)) == []
  {
    hide Tokens, Split, Join, Keys;
    var tokens := Tokens(Split(chord));
    CanonicalHasTokens(tokens);
    if tokens == [] {
      JoinNothing(Canonical(tokens));
    } else {
      NormalizedTokens(chord);
      NoTokens();
      assert tokens[0] in Canonical(tokens);
    }
  }

  lemma JoinNothing(parts: seq<string>)
    requires parts == []
    ensures Join(parts) == ""
  {
  }

  // ---------------------------------------------------------------- the loop

  /** The modifiers in canonical order; none occurs twice. */
  method SortMods(mods: seq<string>) returns (sorted: seq<string>)
    ensures sorted == ModsOf(mods, 0)
  {
    hide Mods, ModsOf;
    sorted := [];
    var i := 0;
    assert [] + ModsOf(mods, 0) == ModsOf(mods, 0);
    while i < |Mods()|
      invariant i <= |Mods()| && sorted + ModsOf(mods, i) == ModsOf(mods, 0)
    {
      NextMod(mods, i);
      ghost var later := ModsOf(mods, i + 1);
      assert sorted + ([Mods()[i]] + later) == sorted + [Mods()[i]] + later && [] + later == later;
      if Mods()[i] in mods {
        sorted := sorted + [Mods()[i]];
      }
      i := i + 1;
    }
    NoModLeft(mods, i);
    assert sorted + [] == sorted;
  }

  lemma NextMod(mods: seq<string>, i: nat)
    requires i < |Mods()|
    ensures ModsOf(mods, i) == (if Mods()[i] in mods then [Mods()[i]] else []) + ModsOf(mods, i + 1)
  {
    hide Mods;
  }

  lemma NoModLeft(mods: seq<string>, i: nat)
    requires i == |Mods()|
    ensures ModsOf(mods, i) == []
  {
    hide Mods;
  }

  lemma {:induction false} OneMoreToken(raws: seq<string>, i: nat)
    requires i < |raws|
    ensures Tokens(raws[..i + 1]) == Tokens(raws[..i]) + if Lower(Trim(raws[i])) == "" then [] else [Fold(raws[i])]
  {
    hide Tokens, Lower, Trim, Fold;
    NoTokensNoKeys();
    FirstToken(raws[..i + 1]);
    if i == 0 {
      assert raws[..1][1..] == [] == raws[..0];
    } else {
      FirstToken(raws[..i]);
      OneMoreToken(raws[1..], i - 1);
      assert raws[..i + 1][1..] == raws[1..][..i] && raws[..i][1..] == raws[1..][..i - 1];
    }
  }

  lemma FirstToken(raws: seq<string>)
    requires raws != []
    ensures Tokens(raws) == (if Lower(Trim(raws[0])) == "" then [] else [Fold(raws[0])]) + Tokens(raws[1..])
  {
    hide Lower, Trim, Fold;
  }

  lemma OneMoreKey(tokens: seq<string>, t: string)
    ensures Keys(tokens + [t]) == if Mod(t) then Keys(tokens) else Keys(tokens) + [t]
  {
    hide Mod;
    KeysConcat(tokens, [t]);
  }

  method NormalizeChord(chord: string) returns (r: string)
    ensures r == Normalized(chord)
  {
    hide Split, Tokens, Keys, Lower, Trim, Mods, ModsOf, Join, Alias;
    var raws := Split(chord);
    var mods: seq<string>, keys: seq<string> := [], [];
    var i := 0;
    NoTokensNoKeys();
    assert raws[..0] == [];
    while i < |raws|
      invariant i <= |raws| && keys == Keys(Tokens(raws[..i]))
      invariant forall m :: m in mods <==> m in Tokens(raws[..i]) && Mod(m)
    {
      OneMoreToken(raws, i);
      var low := Lower(Trim(raws[i]));
      assert Tokens(raws[..i]) + [] == Tokens(raws[..i]);
      if low != "" {
        var token := Alias(low);
        OneMoreKey(Tokens(raws[..i]), token);
        if !Mod(token) {
          keys := keys + [token];
        } else if token !in mods {
          mods := mods + [token];
        }
      }
      i := i + 1;
    }
    assert raws[..i] == raws;
    SameModsSameOrder(mods, Tokens(raws), 0);
    var sorted := SortMods(mods);
    return Join(sorted + keys);
  }

  lemma NoTokensNoKeys()
    ensures Tokens([]) == [] && Keys([]) == []
  {
  }
}
