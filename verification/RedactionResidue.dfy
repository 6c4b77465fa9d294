/** What may still look like a secret in redacted text: only the markers themselves. */
module RedactionResidue {
  import opened Options
  import opened RedactionRules
  import opened RedactionPasses
  import opened RedactionMarkers
  import opened RedactionFixpoint
  import opened RedactionSettles

  /** The name of a header marker and its bracket, without the keyword in front. */
  function StrayName(): string { Authorization() + ">" }

  /** A hit that would take a marker, or the name inside a header marker, and nothing else. */
  predicate Harmless(t: string, hit: Hit) {
    (hit.taken == |hit.shown| && hit.shown <= t) || (hit.taken == |StrayName()| && StrayName() <= t)
  }

  /** Whatever the rule still finds, at any position, is harmless. */
  predicate Marked(rule: Rule, start: bool, t: string)
    decreases |t|
  {
    t == "" ||
    ((match Apply(rule, start, t) case None => true case Some(hit) => Harmless(t, hit)) &&
     Marked(rule, !WordChar(t[0]), t[1..]))
  }

  lemma {:induction false} MarkedQuiet(rule: Rule, start: bool, p: string, rest: string)
    requires Quiet(rule, start, p, rest) && Marked(rule, After(start, p), rest)
    ensures Marked(rule, start, p + rest)
    decreases |p|
  {
    hide Apply, Harmless;
    if p == "" {
      assert p + rest == rest;
    } else {
      Behead(p, rest);
      MarkedQuiet(rule, !WordChar(p[0]), p[1..], rest);
    }
  }

  /** A word that is itself a harmless hit, in front of marked text. */
  lemma MarkedWord(rule: Rule, start: bool, p: string, rest: string)
    requires p != "" && (forall i :: 0 <= i < |p| ==> WordChar(p[i])) && Marked(rule, false, rest)
    requires match Apply(rule, start, p + rest) case None => true case Some(hit) => Harmless(p + rest, hit)
    ensures Marked(rule, start, p + rest)
  {
    hide Apply, Harmless;
    QuietInsideWord(rule, p[1..], rest);
    MarkedQuiet(rule, false, p[1..], rest);
    Behead(p, rest);
  }

  // ---------------------------------------------------------------- assignments

  /** In text the assignment pass leaves alone, every assignment is its own marker. */
  lemma {:induction false} StableIsMarked(start: bool, t: string)
    requires Stable(Assignments, start, t)
    ensures Marked(Assignments, start, t)
    decreases |t|
  {
    hide Apply, Stable, Harmless;
    if t == "" {
    } else if Apply(Assignments, start, t).None? {
      StableCopy(Assignments, start, t);
      StableIsMarked(!WordChar(t[0]), t[1..]);
    } else {
      HitsStartWords(Assignments, start, t);
      var rest := StableHit(Assignments, start, t);
      StableIsMarked(true, rest);
      AssignmentMarkerIsMarked(t, rest);
    }
  }

  lemma AssignmentMarkerParts(t: string) returns (key: string, name: string)
    requires Apply(Assignments, true, t).Some?
    ensures Apply(Assignments, true, t).value.shown == key + Marker(name)
    ensures key != "" && (forall i :: 0 <= i < |key| ==> WordChar(key[i])) && KeyText(name)
  {
    var k := FirstKey(t).value;
    AssignmentHit(t, k);
    KeyWordsAreKeyText(k);
    KeyNamesAreKeyText(k);
    WordIsMadeOfWordChars(t, Keys()[k].word);
    hide Keys, Apply, FirstKey, Word;
    key, name := t[..|Keys()[k].word|], Keys()[k].name;
  }

  lemma AssignmentMarkerIsMarked(t: string, rest: string)
    requires Apply(Assignments, true, t).Some? && t == Apply(Assignments, true, t).value.shown + rest
    requires Apply(Assignments, true, t).value.taken == |Apply(Assignments, true, t).value.shown|
    requires Marked(Assignments, true, rest)
    ensures Marked(Assignments, true, t)
  {
    hide Apply, Marker, MarkerValue, KeyText, Marked;
    var key, name := AssignmentMarkerParts(t);
    MarkerValueIsOneToken(name);
    BracketedNameIsNotAssigned(name, rest);
    var value := MarkerValue(name);
    MarkerValueIsQuiet(Assignments, true, name, rest);
    MarkerValueEnds(name);
    MarkedQuiet(Assignments, true, value, rest);
    QuietMarks(Assignments, false, ": ", value + rest);
    MarkedQuiet(Assignments, false, ": ", value + rest);
    assert t == key + (": " + (value + rest));
    MarkedWord(Assignments, true, key, ": " + (value + rest));
  }

  lemma MarkerValueEnds(name: string)
    ensures MarkerValue(name) != "" && MarkerValue(name)[|MarkerValue(name)| - 1] == '>'
  {
  }

  // ---------------------------------------------------------------- headers

  lemma StrayNameIsMarked(start: bool, rest: string)
    requires Stopped(true, rest) && Marked(Headers, true, rest)
    ensures Marked(Headers, start, StrayName() + rest)
  {
    hide Apply, Header;
    LiteralsAreWords();
    StrayExpands(rest);
    HitsNeedStart(start, StrayName() + rest);
    hide Authorization;
    assert StrayName() + rest == Authorization() + (">" + rest);
    QuietMarks(Headers, false, ">", rest);
    MarkedQuiet(Headers, false, ">", rest);
    assert forall i :: 0 <= i < |Authorization()| ==> WordChar(Authorization()[i]);
    MarkedWord(Headers, start, Authorization(), ">" + rest);
  }

  lemma HitsNeedStart(start: bool, t: string)
    ensures Apply(Headers, start, t) == if start then Apply(Headers, true, t) else None
  {
  }

  lemma HeaderIsMarked(rest: string)
    requires Stopped(true, rest) && Marked(Headers, true, rest)
    ensures Marked(Headers, true, Header() + rest)
  {
    hide Apply, Header, Opening, HeaderValue, Marked, Quiet;
    LiteralsAreWords();
    HeaderParts();
    HeaderEnds();
    StrayNameIsMarked(After(true, Opening()), rest);
    OpeningIsQuiet(Headers, true, StrayName() + rest);
    MarkedQuiet(Headers, true, Opening(), StrayName() + rest);
    HeaderRescans(rest);
    hide Authorization, StrayName;
    var tail := ": " + (Opening() + (StrayName() + rest));
    QuietMarks(Headers, false, ": ", Opening() + (StrayName() + rest));
    MarkedQuiet(Headers, false, ": ", Opening() + (StrayName() + rest));
    HeaderUnfolds(rest);
    assert forall i :: 0 <= i < |Authorization()| ==> WordChar(Authorization()[i]);
    MarkedWord(Headers, true, Authorization(), tail);
  }

  lemma HeaderUnfolds(rest: string)
    ensures Header() + rest == Authorization() + (": " + (Opening() + (StrayName() + rest)))
  {
    hide Authorization;
    HeaderInPieces();
    var name := StrayName();
    hide Header, Opening, StrayName;
    assert Authorization() + ": " + Opening() + name + rest == Authorization() + (": " + (Opening() + (name + rest)));
  }

  lemma HeaderInPieces()
    ensures Header() == Authorization() + ": " + Opening() + StrayName()
  {
  }

  lemma CredentialIsMarked(rest: string)
    requires Stopped(false, rest) && Marked(Headers, true, rest)
    ensures Marked(Headers, true, Credential() + rest)
  {
    hide Apply, Credential, CredentialValue, Marked, Quiet;
    CredentialParts();
    CredentialValueIsQuiet(Headers, true, rest);
    MarkedQuiet(Headers, true, CredentialValue(), rest);
    QuietMarks(Headers, false, " ", CredentialValue() + rest);
    MarkedQuiet(Headers, false, " ", CredentialValue() + rest);
    CredentialRescans(rest);
    assert Credential() + rest == "Bearer" + (" " + (CredentialValue() + rest));
    MarkedWord(Headers, true, "Bearer", " " + (CredentialValue() + rest));
  }

  /** After the assignment pass over text the header pass leaves alone, every header is marked or a marker's name. */
  lemma {:induction false} OutputHeadersAreMarked(start: bool, t: string)
    requires Stable(Headers, start, t)
    ensures Marked(Headers, start, Pass(Assignments, start, t))
    decreases |t|
  {
    hide Apply, Pass, DroppedValue, HasHeader, Stable;
    if t == "" {
      PassHead(Assignments, start, t);
    } else if Apply(Headers, start, t).Some? {
      HitsStartWords(Headers, start, t);
      var rest := StableHit(Headers, start, t);
      OutputHeadersAreMarked(true, rest);
      MarkedHeaderHit(t, rest);
    } else if Apply(Assignments, start, t).None? {
      StableCopy(Headers, start, t);
      OutputHeadersAreMarked(!WordChar(t[0]), t[1..]);
      PassCopies(Assignments, start, t);
      CopyKeepsMisses(Headers, Assignments, start, t);
      assert Pass(Assignments, start, t)[1..] == Pass(Assignments, !WordChar(t[0]), t[1..]);
    } else {
      HitsStartWords(Assignments, start, t);
      var x := t[Apply(Assignments, true, t).value.taken..];
      DroppedValueStands(t);
      var rest := ValueCut(true, DroppedValue(t), x);
      if HasHeader(true, DroppedValue(t)) {
        OutputHeadersAreMarked(true, rest);
        MarkedStray(rest);
      } else {
        OutputHeadersAreMarked(true, x);
      }
      MarkedAssignment(t, x);
    }
  }

  lemma MarkedHeaderHit(t: string, rest: string)
    requires Apply(Headers, true, t).Some? && t == Apply(Headers, true, t).value.shown + rest
    requires Stopped(WholeLine(Headers, t), rest) && Marked(Headers, true, Pass(Assignments, true, rest))
    ensures Marked(Headers, true, Pass(Assignments, true, t))
  {
    hide Apply, Pass, Marked, Stopped;
    var shown := Apply(Headers, true, t).value.shown;
    var once := Pass(Assignments, true, rest);
    StartIrrelevant(Assignments, WholeLine(Headers, t), true, true, rest);
    HeaderMarkerIsQuiet(t, rest);
    HitRescans(Headers, t, rest);
    assert After(true, shown);
    QuietPass(Assignments, true, shown, rest);
    HeaderMarkerIsMarked(t, once);
  }

  lemma HeaderMarkerIsMarked(t: string, once: string)
    requires Apply(Headers, true, t).Some? && Stopped(WholeLine(Headers, t), once) && Marked(Headers, true, once)
    ensures Marked(Headers, true, Apply(Headers, true, t).value.shown + once)
  {
    hide Header, Credential, Marked;
    if Word(t, Authorization()) { HeaderIsMarked(once); } else { CredentialIsMarked(once); }
  }

  lemma MarkedAssignment(t: string, x: string)
    requires Apply(Assignments, true, t).Some? && x == t[Apply(Assignments, true, t).value.taken..]
    requires Marked(Headers, true, Pass(Assignments, true, x))
    ensures Marked(Headers, true, Pass(Assignments, true, t))
  {
    hide Apply, Pass, Marked, Stopped;
    HitStops(Assignments, true, t);
    var hit := Apply(Assignments, true, t).value;
    var once := Pass(Assignments, true, x);
    StartIrrelevant(Assignments, false, !WordChar(t[hit.taken - 1]), true, x);
    PassReplaces(Assignments, true, t);
    AssignmentIsQuiet(true, t, once);
    assert After(true, hit.shown) by { HitRescans(Assignments, t, once); }
    MarkedQuiet(Headers, true, hit.shown, once);
  }

  lemma MarkedStray(rest: string)
    requires Stopped(true, rest) && Marked(Headers, true, Pass(Assignments, true, rest))
    ensures Marked(Headers, true, Pass(Assignments, true, Stray() + rest))
  {
    hide Apply, Pass, Marked, Quiet, Stray, Opening, Authorization;
    var once := Pass(Assignments, true, rest);
    StartIrrelevant(Assignments, true, true, true, rest);
    StrayIsQuiet(rest);
    QuietPass(Assignments, true, Stray(), rest);
    HeaderEnds();
    StrayNameIsMarked(After(true, " " + Opening()), once);
    QuietMarks(Headers, true, " ", Opening() + (StrayName() + once));
    OpeningIsQuiet(Headers, After(true, " "), StrayName() + once);
    QuietConcat(Headers, true, " ", Opening(), StrayName() + once);
    MarkedQuiet(Headers, true, " " + Opening(), StrayName() + once);
    assert Stray() + once == " " + Opening() + (StrayName() + once);
  }

  // ---------------------------------------------------------------- by position

  /** Whether a word can start at `i`. */
  predicate StartsAt(start: bool, t: string, i: nat)
    requires i <= |t|
  {
    if i == 0 then start else !WordChar(t[i - 1])
  }

  lemma {:induction false} MarkedAt(rule: Rule, start: bool, t: string, i: nat)
    requires Marked(rule, start, t) && i < |t|
    ensures match Apply(rule, StartsAt(start, t, i), t[i..]) case None => true case Some(hit) => Harmless(t[i..], hit)
    decreases i
  {
    hide Apply, Harmless;
    if i == 0 {
      assert t[0..] == t;
    } else {
      MarkedAt(rule, !WordChar(t[0]), t[1..], i - 1);
      assert t[1..][i - 1..] == t[i..];
    }
  }
}
