/** Redacting redacted text: what changes, when, and why a second time is always enough. */
module RedactionSettles {
  import opened Options
  import opened AsciiCase
  import opened RedactionRules
  import opened RedactionPasses
  import opened RedactionMarkers
  import opened RedactionFixpoint

  // ---------------------------------------------------------------- one pass on its own output

  lemma HitRescans(rule: Rule, t: string, rest: string)
    requires Apply(rule, true, t).Some? && Stopped(WholeLine(rule, t), rest)
    ensures var shown := Apply(rule, true, t).value.shown;
            shown != "" && shown[|shown| - 1] == '>' && Apply(rule, true, shown + rest) == Some(Hit(|shown|, shown))
  {
    if rule == Assignments {
      AssignmentRescans(t, rest);
    } else if Word(t, Authorization()) {
      HeaderRescans(rest);
    } else {
      CredentialRescans(rest);
    }
  }

  /** A marker in front of where its value stopped is passed over unchanged. */
  lemma ShownIsKept(rule: Rule, t: string, rest: string)
    requires Apply(rule, true, t).Some? && Stopped(WholeLine(rule, t), rest)
    ensures var shown := Apply(rule, true, t).value.shown;
            Pass(rule, true, shown + rest) == shown + Pass(rule, true, rest)
  {
    HitRescans(rule, t, rest);
    MarkerIsKept(rule, Apply(rule, true, t).value.shown, rest);
  }

  lemma MarkerIsKept(rule: Rule, shown: string, rest: string)
    requires shown != "" && shown[|shown| - 1] == '>' && Apply(rule, true, shown + rest) == Some(Hit(|shown|, shown))
    ensures Pass(rule, true, shown + rest) == shown + Pass(rule, true, rest)
  {
    hide Apply, Pass;
    PassReplaces(rule, true, shown + rest);
    assert (shown + rest)[|shown|..] == rest;
  }

  lemma HitsStartWords(rule: Rule, start: bool, t: string)
    requires Apply(rule, start, t).Some?
    ensures start
  {
  }

  /** Each pass leaves its own output alone. */
  lemma {:induction false} PassIsIdempotent(rule: Rule, start: bool, t: string)
    ensures Pass(rule, start, Pass(rule, start, t)) == Pass(rule, start, t)
    decreases |t|
  {
    hide Apply, Pass;
    PassHead(rule, start, t);
    if t == "" {
    } else if Apply(rule, start, t).None? {
      PassCopies(rule, start, t);
      CopyKeepsMisses(rule, rule, start, t);
      PassIsIdempotent(rule, !WordChar(t[0]), t[1..]);
      var out := Pass(rule, start, t);
      PassCopies(rule, start, out);
      assert out[1..] == Pass(rule, !WordChar(t[0]), t[1..]);
    } else {
      HitsStartWords(rule, start, t);
      var hit := Apply(rule, start, t).value;
      var s, rest := !WordChar(t[hit.taken - 1]), t[hit.taken..];
      var line := WholeLine(rule, t);
      PassReplaces(rule, start, t);
      HitStops(rule, start, t);
      PassIsIdempotent(rule, s, rest);
      StartIrrelevant(rule, line, s, true, rest);
      var out := Pass(rule, s, rest);
      StartIrrelevant(rule, line, s, true, out);
      ShownIsKept(rule, t, out);
    }
  }

  // ---------------------------------------------------------------- stable text

  predicate Stable(rule: Rule, start: bool, t: string) {
    Pass(rule, start, t) == t
  }

  /** A hit in stable text is a marker that stays, and the text after it is stable. */
  lemma StableHit(rule: Rule, start: bool, t: string) returns (rest: string)
    requires Stable(rule, start, t) && Apply(rule, start, t).Some?
    ensures var hit := Apply(rule, start, t).value;
            start && hit.taken == |hit.shown| && t == hit.shown + rest
    ensures Stopped(WholeLine(rule, t), rest) && Stable(rule, true, rest)
  {
    hide Apply, Pass;
    HitsStartWords(rule, start, t);
    var hit := Apply(rule, start, t).value;
    var s, tail := !WordChar(t[hit.taken - 1]), t[hit.taken..];
    PassReplaces(rule, start, t);
    HitStops(rule, start, t);
    StartIrrelevant(rule, WholeLine(rule, t), s, true, tail);
    rest := Pass(rule, s, tail);
    HitRescans(rule, t, rest);
    assert t[|hit.shown|..] == rest;
  }

  lemma StableCopy(rule: Rule, start: bool, t: string)
    requires t != "" && Stable(rule, start, t) && Apply(rule, start, t).None?
    ensures Stable(rule, !WordChar(t[0]), t[1..])
  {
    hide Apply, Pass;
    PassCopies(rule, start, t);
    assert Pass(rule, start, t)[1..] == Pass(rule, !WordChar(t[0]), t[1..]);
  }

  lemma {:induction false} StableQuiet(rule: Rule, start: bool, p: string, rest: string)
    requires Quiet(rule, start, p, rest)
    ensures Stable(rule, start, p + rest) <==> Stable(rule, After(start, p), rest)
  {
    hide Apply, Pass;
    QuietPass(rule, start, p, rest);
    assert (p + rest)[|p|..] == rest;
    assert (p + Pass(rule, After(start, p), rest))[|p|..] == Pass(rule, After(start, p), rest);
  }

  // ---------------------------------------------------------------- dropped values

  /** An authorization word starts somewhere in `s`. */
  predicate HasHeader(start: bool, s: string)
    decreases |s|
  {
    s != "" && ((start && Word(s, Authorization())) || HasHeader(!WordChar(s[0]), s[1..]))
  }

  /** The value that the assignment hit at the front of `t` drops. */
  function DroppedValue(t: string): string
    requires Apply(Assignments, true, t).Some?
  {
    var k := FirstKey(t).value;
    AssignmentHit(t, k);
    var n := |Keys()[k].word|;
    t[n + |Separators(t, n)|..Apply(Assignments, true, t).value.taken]
  }

  /** No value that the assignment pass over `t` drops contains an authorization word. */
  predicate KeepsHeaders(start: bool, t: string)
    decreases |t|
  {
    t == "" ||
    match Apply(Assignments, start, t)
    case None => KeepsHeaders(!WordChar(t[0]), t[1..])
    case Some(hit) =>
      HitsStartWords(Assignments, start, t);
      !HasHeader(true, DroppedValue(t)) && KeepsHeaders(!WordChar(t[hit.taken - 1]), t[hit.taken..])
  }

  lemma KeepsIrrelevantStart(line: bool, s: bool, s': bool, rest: string)
    requires Stopped(line, rest)
    ensures KeepsHeaders(s, rest) == KeepsHeaders(s', rest)
  {
    if Apply(Assignments, s, rest).Some? { HitsStartWithLetter(Assignments, s, rest); }
    if Apply(Assignments, s', rest).Some? { HitsStartWithLetter(Assignments, s', rest); }
    hide Apply, DroppedValue;
  }

  lemma {:induction false} KeepsQuiet(start: bool, p: string, rest: string)
    requires Quiet(Assignments, start, p, rest)
    ensures KeepsHeaders(start, p + rest) == KeepsHeaders(After(start, p), rest)
    decreases |p|
  {
    hide Apply, DroppedValue;
    if p == "" {
      assert p + rest == rest;
    } else {
      Behead(p, rest);
      KeepsQuiet(!WordChar(p[0]), p[1..], rest);
    }
  }

  /** What is left of a header marker when a value token ends inside it. */
  function Stray(): string { " " + HeaderValue() }

  lemma CutAtFirstEnd(u: string, x: string, p: string, q: string)
    requires u + x == p + q
    requires (forall i :: 0 <= i < |u| ==> !EndsValue(u[i])) && (forall i :: 0 <= i < |p| ==> !EndsValue(p[i]))
    requires Stopped(false, x) && Stopped(false, q)
    ensures u == p && x == q
  {
    var t := u + x;
    CutIsNotEarlier(t, u, x, p, q);
    CutIsNotEarlier(t, p, q, u, x);
    assert u == t[..|u|] && p == t[..|u|];
    assert x == t[|u|..] && q == t[|u|..];
  }

  lemma CutIsNotEarlier(t: string, u: string, x: string, p: string, q: string)
    requires t == u + x == p + q && Stopped(false, x) && forall i :: 0 <= i < |p| ==> !EndsValue(p[i])
    ensures |u| >= |p|
  {
    assert x != "" ==> (u + x)[|u|] == x[0];
    assert forall i :: 0 <= i < |p| ==> (u + x)[i] == p[i];
  }

  lemma {:induction false} NoHeaderInsideWord(p: string)
    requires forall i :: 0 <= i < |p| ==> WordChar(p[i])
    ensures !HasHeader(false, p)
    decreases |p|
  {
    if p != "" { NoHeaderInsideWord(p[1..]); }
  }

  lemma HeaderHasHeader()
    ensures HasHeader(true, Authorization() + ":")
    ensures forall i :: 0 <= i < |Authorization() + ":"| ==> !EndsValue((Authorization() + ":")[i])
    ensures Header() == Authorization() + ":" + Stray() && Stray() != "" && EndsValue(Stray()[0])
  {
    LiteralsAreWords();
    WordIsItself(Authorization(), ":");
    HeaderParts();
  }

  lemma BearerHasNoHeader()
    ensures !HasHeader(true, "Bearer")
    ensures forall i :: 0 <= i < |"Bearer"| ==> !EndsValue("Bearer"[i])
  {
    assert !Word("Bearer", Authorization());
    NoHeaderInsideWord("Bearer"[1..]);
  }

  /** Whether a word stands at the front of a value token does not depend on what ends the token. */
  lemma WordInToken(u: string, x: string)
    requires Word(u, Authorization()) && Stopped(false, x)
    ensures Word(u + x, Authorization())
  {
    forall i | 0 <= i < |Authorization()| ensures Lower((u + x)[i]) == Authorization()[i] {
      assert (u + x)[i] == u[i];
    }
  }

  /** In text the header pass leaves alone, a value token that holds a header ends right after its colon. */
  lemma HitInToken(start: bool, u: string, x: string) returns (rest: string)
    requires Stable(Headers, start, u + x) && Stopped(false, x) && Apply(Headers, start, u + x).Some?
    requires forall i :: 0 <= i < |u| ==> !EndsValue(u[i])
    ensures start && (HasHeader(true, u) ==> x == Stray() + rest && Stopped(true, rest) && Stable(Headers, true, rest))
    ensures !HasHeader(true, u) ==> Stable(Headers, true, x)
  {
    var t := u + x;
    rest := StableHit(Headers, start, t);
    var header := Word(t, Authorization());
    assert Apply(Headers, start, t).value.shown == if header then Header() else Credential();
    hide Apply, HasHeader, Word;
    if header {
      HeaderInToken(u, x, rest);
    } else {
      CredentialInToken(u, x, rest);
    }
  }

  lemma HeaderInToken(u: string, x: string, rest: string)
    requires u + x == Header() + rest && Stopped(false, x) && forall i :: 0 <= i < |u| ==> !EndsValue(u[i])
    ensures HasHeader(true, u) && x == Stray() + rest
  {
    hide HasHeader, Header, Stray, Authorization;
    HeaderHasHeader();
    TokenCut(u, x, Authorization() + ":", Stray(), rest);
  }

  lemma TokenCut(u: string, x: string, p: string, tail: string, rest: string)
    requires u + x == p + tail + rest && tail != "" && EndsValue(tail[0]) && Stopped(false, x)
    requires (forall i :: 0 <= i < |u| ==> !EndsValue(u[i])) && (forall i :: 0 <= i < |p| ==> !EndsValue(p[i]))
    ensures u == p && x == tail + rest
  {
    assert p + tail + rest == p + (tail + rest);
    CutAtFirstEnd(u, x, p, tail + rest);
  }

  lemma CredentialInToken(u: string, x: string, rest: string)
    requires u + x == Credential() + rest && Stopped(false, x) && forall i :: 0 <= i < |u| ==> !EndsValue(u[i])
    requires Stable(Headers, true, rest)
    ensures !HasHeader(true, u) && Stable(Headers, true, x)
  {
    hide HasHeader, Apply, Credential, CredentialValue, Stable;
    CredentialParts();
    BearerHasNoHeader();
    TokenCut(u, x, "Bearer", " " + CredentialValue(), rest);
    CredentialTailIsStable(rest);
  }

  lemma CredentialTailIsStable(rest: string)
    requires Stable(Headers, true, rest)
    ensures Stable(Headers, true, " " + CredentialValue() + rest)
  {
    hide Apply, CredentialValue, Stable;
    CredentialParts();
    var tail := " " + CredentialValue();
    QuietMarks(Headers, true, " ", CredentialValue() + rest);
    CredentialValueIsQuiet(Headers, After(true, " "), rest);
    QuietConcat(Headers, true, " ", CredentialValue(), rest);
    StableQuiet(Headers, true, tail, rest);
  }

  lemma {:induction false} ValueCut(start: bool, u: string, x: string) returns (rest: string)
    requires Stable(Headers, start, u + x) && Stopped(false, x)
    requires forall i :: 0 <= i < |u| ==> !EndsValue(u[i])
    ensures HasHeader(start, u) ==> x == Stray() + rest && Stopped(true, rest) && Stable(Headers, true, rest)
    ensures !HasHeader(start, u) ==> Stable(Headers, true, x)
    decreases |u|
  {
    rest := "";
    if u == "" {
      assert u + x == x;
      StartIrrelevant(Headers, false, start, true, x);
    } else if Apply(Headers, start, u + x).Some? {
      rest := HitInToken(start, u, x);
    } else {
      Behead(u, x);
      StableCopy(Headers, start, u + x);
      if start && Word(u, Authorization()) { WordInToken(u, x); }
      assert !(start && Word(u, Authorization()));
      hide Apply, Word;
      rest := ValueCut(!WordChar(u[0]), u[1..], x);
    }
  }

  // ---------------------------------------------------------------- both passes, twice

  /**
   * After the assignment pass over text the header pass leaves alone, another header pass only ever adds, adds
   * nothing exactly when every dropped value was free of headers, and leaves nothing for the assignment pass.
   */
  predicate Settled(start: bool, t: string) {
    var once := Pass(Assignments, start, t);
    var twice := Pass(Headers, start, once);
    && Pass(Assignments, start, twice) == twice
    && |once| <= |twice|
    && (|once| == |twice| <==> KeepsHeaders(start, t))
    && (KeepsHeaders(start, t) ==> once == twice)
  }

  lemma SettledCopy(start: bool, t: string)
    requires t != "" && Apply(Headers, start, t).None? && Apply(Assignments, start, t).None?
    requires Settled(!WordChar(t[0]), t[1..])
    ensures Settled(start, t)
  {
    var s := !WordChar(t[0]);
    CopyKeepsMisses(Headers, Assignments, start, t);
    CopyKeepsMisses(Assignments, Assignments, start, t);
    hide Apply, Pass;
    var once, twice := Pass(Assignments, s, t[1..]), Pass(Headers, s, Pass(Assignments, s, t[1..]));
    PassCopies(Assignments, start, t);
    var r := [t[0]] + once;
    assert r[1..] == once;
    PassCopies(Headers, start, r);
    CopyKeepsMisses(Assignments, Headers, start, r);
    var b := [t[0]] + twice;
    assert b[1..] == twice;
    PassCopies(Assignments, start, b);
  }

  /** A marker of the header pass in front changes nothing. */
  lemma SettledHeader(t: string, rest: string)
    requires Apply(Headers, true, t).Some? && t == Apply(Headers, true, t).value.shown + rest
    requires Stopped(WholeLine(Headers, t), rest) && Settled(true, rest)
    ensures Settled(true, t)
  {
    hide Apply, Pass, Header, Credential, Authorization, Word, Stopped;
    var shown := Apply(Headers, true, t).value.shown;
    var line := WholeLine(Headers, t);
    HitRescans(Headers, t, rest);
    var once := Pass(Assignments, true, rest);
    var twice := Pass(Headers, true, once);
    StartIrrelevant(Assignments, line, true, true, rest);
    StartIrrelevant(Headers, line, true, true, once);
    ShownIsKept(Headers, t, once);
    HeaderMarkerIsQuiet(t, rest);
    HeaderMarkerIsQuiet(t, twice);
    QuietPass(Assignments, true, shown, rest);
    QuietPass(Assignments, true, shown, twice);
    KeepsQuiet(true, shown, rest);
  }

  lemma HeaderMarkerIsQuiet(t: string, rest: string)
    requires Apply(Headers, true, t).Some?
    ensures Quiet(Assignments, true, Apply(Headers, true, t).value.shown, rest)
  {
    hide Quiet, Header, Credential;
    if Word(t, Authorization()) { HeaderIsQuiet(true, rest); } else { CredentialIsQuiet(true, rest); }
  }

  /** An assignment whose dropped value holds no header. */
  lemma SettledKept(t: string, x: string)
    requires Apply(Assignments, true, t).Some? && x == t[Apply(Assignments, true, t).value.taken..]
    requires !HasHeader(true, DroppedValue(t)) && Settled(true, x)
    ensures Settled(true, t)
  {
    hide Apply, Pass, HasHeader, DroppedValue, Stopped;
    HitStops(Assignments, true, t);
    var hit := Apply(Assignments, true, t).value;
    var s := !WordChar(t[hit.taken - 1]);
    var once := Pass(Assignments, true, x);
    var twice := Pass(Headers, true, once);
    StartIrrelevant(Assignments, false, s, true, x);
    KeepsIrrelevantStart(false, s, true, x);
    StartIrrelevant(Headers, false, true, true, once);
    HitRescans(Assignments, t, twice);
    ShownIsKept(Assignments, t, twice);
    AssignmentIsQuiet(true, t, once);
    PassReplaces(Assignments, true, t);
    QuietPass(Headers, true, hit.shown, once);
  }

  /** An assignment whose dropped value ran into a header: the name that is left becomes a header of its own. */
  lemma SettledStray(t: string, rest: string)
    requires Apply(Assignments, true, t).Some? && Stray() + rest == t[Apply(Assignments, true, t).value.taken..]
    requires HasHeader(true, DroppedValue(t)) && Stopped(true, rest) && Settled(true, rest)
    ensures Settled(true, t)
  {
    hide Apply, Pass, HasHeader, DroppedValue, Stray, Header, Stopped;
    HitStops(Assignments, true, t);
    var hit := Apply(Assignments, true, t).value;
    var x := Stray() + rest;
    var s := !WordChar(t[hit.taken - 1]);
    var w := Pass(Assignments, true, rest);
    var v := Pass(Headers, true, w);
    StartIrrelevant(Assignments, false, s, true, x);
    StrayPasses(rest);
    var once, twice := Pass(Assignments, true, x), Pass(Headers, true, Pass(Assignments, true, x));
    StartIrrelevant(Assignments, false, true, true, x);
    StartIrrelevant(Headers, false, true, true, once);
    HitRescans(Assignments, t, twice);
    ShownIsKept(Assignments, t, twice);
    AssignmentIsQuiet(true, t, once);
    PassReplaces(Assignments, true, t);
    QuietPass(Headers, true, hit.shown, once);
  }

  /** What each pass makes of a stray header value. */
  lemma StrayPasses(rest: string)
    requires Stopped(true, rest) && Settled(true, rest)
    ensures var once := Pass(Assignments, true, Stray() + rest);
            var twice := Pass(Headers, true, once);
            |once| < |twice| && Pass(Assignments, true, twice) == twice
  {
    hide Apply, Pass, Header, HeaderValue, Authorization, Opening;
    var w := Pass(Assignments, true, rest);
    var v := Pass(Headers, true, w);
    StartIrrelevant(Assignments, true, true, true, rest);
    StrayIsQuiet(rest);
    QuietPass(Assignments, true, Stray(), rest);
    StrayBecomesHeader(w);
    ExpandedStrayIsQuiet(v);
    QuietPass(Assignments, true, " " + Opening() + Header(), v);
  }

  lemma StrayIsQuiet(rest: string)
    ensures Quiet(Assignments, true, Stray(), rest) && After(true, Stray())
  {
    hide Apply;
    QuietMarks(Assignments, true, " ", HeaderValue() + rest);
    HeaderValueIsQuiet(After(true, " "), rest);
    QuietConcat(Assignments, true, " ", HeaderValue(), rest);
  }

  lemma StrayBecomesHeader(w: string)
    requires Stopped(true, w)
    ensures Pass(Headers, true, Stray() + w) == " " + Opening() + Header() + Pass(Headers, true, w)
    ensures |Stray()| < |" " + Opening() + Header()|
  {
    hide Apply, Pass, Header, Authorization, Opening, Stray, Quiet;
    var name := Authorization() + ">";
    var front := " " + Opening();
    HeaderEnds();
    StrayExpands(w);
    assert Stray() + w == front + (name + w);
    QuietMarks(Headers, true, " ", Opening() + (name + w));
    OpeningIsQuiet(Headers, After(true, " "), name + w);
    QuietConcat(Headers, true, " ", Opening(), name + w);
    QuietPass(Headers, true, front, name + w);
    PassReplaces(Headers, true, name + w);
    assert (name + w)[|name|..] == w && (name + w)[|name| - 1] == '>';
  }

  lemma HeaderEnds()
    ensures Header() != "" && Header()[|Header()| - 1] == '>' && |Stray()| < |Header()|
    ensures Opening() != "" && Opening()[|Opening()| - 1] == ':'
    ensures Stray() == " " + Opening() + (Authorization() + ">")
  {
  }

  lemma ExpandedStrayIsQuiet(v: string)
    ensures Quiet(Assignments, true, " " + Opening() + Header(), v) && After(true, " " + Opening() + Header())
  {
    hide Apply, Header, Quiet, Opening;
    HeaderIsQuiet(After(true, " " + Opening()), v);
    HeaderEnds();
    QuietMarks(Assignments, true, " ", Opening() + (Header() + v));
    OpeningIsQuiet(Assignments, After(true, " "), Header() + v);
    QuietConcat(Assignments, true, " ", Opening(), Header() + v);
    QuietConcat(Assignments, true, " " + Opening(), Header(), v);
  }

  /** What precedes the dropped value is quiet for the header rule, so the value can be looked at on its own. */
  lemma DroppedValueStands(t: string)
    requires Apply(Assignments, true, t).Some? && Stable(Headers, true, t)
    ensures var x := t[Apply(Assignments, true, t).value.taken..];
            var u := DroppedValue(t);
            Stable(Headers, true, u + x) && Stopped(false, x) && forall i :: 0 <= i < |u| ==> !EndsValue(u[i])
    ensures Apply(Headers, true, t).None?
  {
    hide Keys, Apply, FirstKey, Separators, DroppedValue, Stopped;
    HitStops(Assignments, true, t);
    var key, separators := DroppedValueFollows(t);
    var u, x := DroppedValue(t), t[Apply(Assignments, true, t).value.taken..];
    var tail := separators + (u + x);
    QuietWord(Headers, true, key, tail);
    StableQuiet(Headers, true, key, tail);
    QuietMarks(Headers, After(true, key), separators, u + x);
    StableQuiet(Headers, After(true, key), separators, u + x);
    assert After(After(true, key), separators);
  }

  /** An assignment is a key, separators, the dropped value and what follows it. */
  lemma DroppedValueFollows(t: string) returns (key: string, separators: string)
    requires Apply(Assignments, true, t).Some?
    ensures t == key + (separators + (DroppedValue(t) + t[Apply(Assignments, true, t).value.taken..]))
    ensures key != "" && (forall i :: 0 <= i < |key| ==> WordChar(key[i])) && Apply(Headers, true, t).None?
    ensures separators != "" && forall i :: 0 <= i < |separators| ==> Separator(separators[i])
    ensures forall i :: 0 <= i < |DroppedValue(t)| ==> !EndsValue(DroppedValue(t)[i])
  {
    var n, value := AssignmentCuts(t);
    var taken := Apply(Assignments, true, t).value.taken;
    hide Apply, DroppedValue, ValueRun;
    key, separators := t[..n], t[n..value];
    ThreeCuts(t, n, value, taken);
    NoEndInValue(t, value, taken);
  }

  lemma NoEndInValue(t: string, value: nat, taken: nat)
    requires value <= taken <= |t| && taken == value + ValueRun(t[value..])
    ensures forall i :: 0 <= i < taken - value ==> !EndsValue(t[value..taken][i])
  {
    SliceOfRest(t, value, taken - value);
  }

  lemma AssignmentParts(t: string, k: nat) returns (n: nat, value: nat)
    requires Apply(Assignments, true, t).Some? && FirstKey(t) == Some(k)
    ensures var taken := Apply(Assignments, true, t).value.taken;
            0 < n < value <= taken <= |t| && DroppedValue(t) == t[value..taken] && taken == value + ValueRun(t[value..])
    ensures n == |Keys()[k].word| && Word(t, Keys()[k].word) && value == n + |Separators(t, n)|
  {
    AssignmentHit(t, k);
    n := |Keys()[k].word|;
    KeyWordsAreWords(k);
    assert Separators(t, n) != "";
    hide Keys, Apply, Separators, Word, ValueRun, Assigns;
    value := n + |Separators(t, n)|;
  }

  /** Where an assignment's key and separators end. */
  lemma AssignmentCuts(t: string) returns (n: nat, value: nat)
    requires Apply(Assignments, true, t).Some?
    ensures var taken := Apply(Assignments, true, t).value.taken;
            0 < n < value <= taken <= |t| && DroppedValue(t) == t[value..taken] && taken == value + ValueRun(t[value..])
    ensures (forall i :: 0 <= i < n ==> WordChar(t[..n][i])) && Apply(Headers, true, t).None?
    ensures forall i :: 0 <= i < value - n ==> Separator(t[n..value][i])
  {
    var k := FirstKey(t).value;
    hide Keys, Apply, Separators, Word, KeyText, ValueRun, DroppedValue;
    n, value := AssignmentParts(t, k);
    KeyWordsAreKeyText(k);
    WordIsMadeOfWordChars(t, Keys()[k].word);
    KeyIsNoHeader(true, t, k, "");
    SeparatorsAreSeparators(t, n);
  }

  lemma ThreeCuts(t: string, n: nat, value: nat, taken: nat)
    requires n <= value <= taken <= |t|
    ensures t == t[..n] + (t[n..value] + (t[value..taken] + t[taken..])) && t == t[..n] + t[n..]
  {
  }

  lemma SeparatorsAreSeparators(t: string, n: nat)
    requires n <= |t|
    ensures Separators(t, n) == t[n..n + |Separators(t, n)|]
    ensures forall i :: 0 <= i < |Separators(t, n)| ==> Separator(Separators(t, n)[i])
  {
  }

  lemma {:induction false} AllSettles(start: bool, t: string)
    requires Stable(Headers, start, t)
    ensures Settled(start, t)
    decreases |t|
  {
    hide Apply, Pass, Settled, DroppedValue, HasHeader, Stable;
    if t == "" {
      EmptySettles(start);
    } else if Apply(Headers, start, t).Some? {
      HitsStartWords(Headers, start, t);
      var rest := StableHit(Headers, start, t);
      AllSettles(true, rest);
      SettledHeader(t, rest);
    } else if Apply(Assignments, start, t).None? {
      StableCopy(Headers, start, t);
      AllSettles(!WordChar(t[0]), t[1..]);
      SettledCopy(start, t);
    } else {
      HitsStartWords(Assignments, start, t);
      var x := t[Apply(Assignments, true, t).value.taken..];
      DroppedValueStands(t);
      var rest := ValueCut(true, DroppedValue(t), x);
      if HasHeader(true, DroppedValue(t)) {
        AllSettles(true, rest);
        SettledStray(t, rest);
      } else {
        AllSettles(true, x);
        SettledKept(t, x);
      }
    }
  }

  lemma EmptySettles(start: bool)
    ensures Settled(start, "")
  {
  }
}
