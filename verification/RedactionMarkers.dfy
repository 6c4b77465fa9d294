/** The markers that replace secrets: each is recognised as itself, and nothing inside one is a hit. */
module RedactionMarkers {
  import opened Options
  import opened AsciiCase
  import opened RedactionRules
  import opened RedactionPasses

  /** Nothing is left of the value that a marker replaced. */
  predicate Stopped(line: bool, rest: string) {
    rest == "" || (if line then EndsLine(rest[0]) else EndsValue(rest[0]))
  }

  /** Whether the hit is a whole header, which runs to the end of the line. */
  predicate WholeLine(rule: Rule, t: string) {
    rule == Headers && Word(t, Authorization())
  }

  /** A hit takes its value up to where values of its kind stop. */
  lemma HitStops(rule: Rule, start: bool, t: string)
    requires Apply(rule, start, t).Some?
    ensures Stopped(WholeLine(rule, t), t[Apply(rule, start, t).value.taken..])
  {
    hide Keys, FirstKey, Word, Separators;
  }

  /** Where a value stopped no word starts, so it does not matter what came before. */
  lemma StartIrrelevant(rule: Rule, line: bool, s: bool, s': bool, rest: string)
    requires Stopped(line, rest)
    ensures Pass(rule, s, rest) == Pass(rule, s', rest)
    ensures Stopped(line, Pass(rule, s, rest))
  {
    if Apply(rule, s, rest).Some? { HitsStartWithLetter(rule, s, rest); }
    if Apply(rule, s', rest).Some? { HitsStartWithLetter(rule, s', rest); }
    hide Apply;
    PassHead(rule, s, rest);
  }

  // ---------------------------------------------------------------- quiet text

  function After(start: bool, p: string): bool {
    if p == "" then start else !WordChar(p[|p| - 1])
  }

  /** No hit starts anywhere in `p` when `rest` follows it. */
  predicate Quiet(rule: Rule, start: bool, p: string, rest: string)
    decreases |p|
  {
    p == "" || (Apply(rule, start, p + rest).None? && Quiet(rule, !WordChar(p[0]), p[1..], rest))
  }

  lemma Behead(p: string, rest: string)
    requires p != ""
    ensures (p + rest)[1..] == p[1..] + rest && (p + rest)[0] == p[0]
    ensures [p[0]] + (p[1..] + rest) == p + rest
  {
  }

  lemma {:induction false} QuietPass(rule: Rule, start: bool, p: string, rest: string)
    requires Quiet(rule, start, p, rest)
    ensures Pass(rule, start, p + rest) == p + Pass(rule, After(start, p), rest)
    decreases |p|
  {
    hide Apply, Pass;
    if p == "" {
      assert p + rest == rest && p + Pass(rule, start, rest) == Pass(rule, start, rest);
    } else {
      PassCopies(rule, start, p + rest);
      Behead(p, rest);
      QuietPass(rule, !WordChar(p[0]), p[1..], rest);
      Behead(p, Pass(rule, After(start, p), rest));
    }
  }

  lemma {:induction false} QuietConcat(rule: Rule, start: bool, p: string, q: string, rest: string)
    requires Quiet(rule, start, p, q + rest) && Quiet(rule, After(start, p), q, rest)
    ensures Quiet(rule, start, p + q, rest)
    decreases |p|
  {
    hide Apply;
    if p == "" {
      assert p + q == q;
    } else {
      Behead(p, q);
      QuietConcat(rule, !WordChar(p[0]), p[1..], q, rest);
      assert p + q + rest == p + (q + rest);
    }
  }

  /** Text without letters is quiet. */
  lemma {:induction false} QuietMarks(rule: Rule, start: bool, p: string, rest: string)
    requires forall i :: 0 <= i < |p| ==> !Letter(p[i])
    ensures Quiet(rule, start, p, rest)
    decreases |p|
  {
    if p != "" {
      if Apply(rule, start, p + rest).Some? { HitsStartWithLetter(rule, start, p + rest); }
      hide Apply;
      QuietMarks(rule, !WordChar(p[0]), p[1..], rest);
    }
  }

  lemma {:induction false} QuietInsideWord(rule: Rule, p: string, rest: string)
    requires forall i :: 0 <= i < |p| ==> WordChar(p[i])
    ensures Quiet(rule, false, p, rest)
    decreases |p|
  {
    if p != "" {
      NothingInsideWord(rule, p + rest);
      hide Apply;
      QuietInsideWord(rule, p[1..], rest);
    }
  }

  /** A word is quiet when it is no hit at its start. */
  lemma QuietWord(rule: Rule, start: bool, p: string, rest: string)
    requires p != "" && (forall i :: 0 <= i < |p| ==> WordChar(p[i])) && Apply(rule, start, p + rest).None?
    ensures Quiet(rule, start, p, rest)
  {
    hide Apply;
    QuietInsideWord(rule, p[1..], rest);
  }

  // ---------------------------------------------------------------- words that are no hit

  /** An assignment is a key that takes up the whole word, and a separator. */
  lemma AssignmentShape(start: bool, p: string, rest: string)
    requires (forall i :: 0 <= i < |p| ==> WordChar(p[i])) && (rest != "" ==> !WordChar(rest[0]))
    requires Apply(Assignments, start, p + rest).Some?
    ensures rest != "" && Separator(rest[0])
    ensures exists k :: 0 <= k < |Keys()| && |Keys()[k].word| == |p| && Word(p + rest, Keys()[k].word)
  {
    hide Keys;
    var t := p + rest;
    var k := FirstKey(t).value;
    KeyWordsAreKeyText(k);
    var word := Keys()[k].word;
    var n := |word|;
    assert Separators(t, n) != "";
    assert Separator(t[n]);
    WordRunOf(p, rest);
    assert n > |p| ==> KeyChar(word[|p|]);
    assert n == |p|;
  }

  lemma NotAssigned(start: bool, p: string, rest: string)
    requires (forall i :: 0 <= i < |p| ==> WordChar(p[i])) && (rest != "" ==> !WordChar(rest[0]))
    requires rest == "" || !Separator(rest[0])
    ensures Apply(Assignments, start, p + rest).None?
  {
    if Apply(Assignments, start, p + rest).Some? { AssignmentShape(start, p, rest); }
  }

  function Redacted(): string { "redacted" }

  lemma RedactedIsNoKey(k: nat)
    requires k < |Keys()|
    ensures Keys()[k].word != Redacted()
  {
  }

  /** The words of the markers that a separator follows are no keys. */
  lemma AuthorizationIsNotAssigned(start: bool, rest: string)
    requires rest != "" && !WordChar(rest[0])
    ensures Apply(Assignments, start, Authorization() + rest).None?
  {
    hide Keys, Apply;
    LiteralsAreWords();
    var t := Authorization() + rest;
    assert Lower(t[1]) == 'u';
    forall k | 0 <= k < |Keys()| ensures !Word(t, Keys()[k].word) {
      KeyWordsStartApart(k);
    }
    if Apply(Assignments, start, t).Some? { AssignmentShape(start, Authorization(), rest); }
  }

  lemma RedactedIsNotAssigned(start: bool, rest: string)
    requires rest != "" && !WordChar(rest[0])
    ensures Apply(Assignments, start, Redacted() + rest).None?
  {
    hide Keys, Apply;
    LiteralsAreWords();
    forall k | 0 <= k < |Keys()| && |Keys()[k].word| == |Redacted()| ensures !Word(Redacted() + rest, Keys()[k].word) {
      RedactedIsNoKey(k);
      LowerWord(Redacted(), rest, Keys()[k].word);
    }
    if Apply(Assignments, start, Redacted() + rest).Some? { AssignmentShape(start, Redacted(), rest); }
  }

  lemma LiteralsAreWords()
    ensures Redacted() != "" && Authorization() != ""
    ensures forall i :: 0 <= i < |Redacted()| ==> 'a' <= Redacted()[i] <= 'z'
    ensures forall i :: 0 <= i < |Authorization()| ==> 'a' <= Authorization()[i] <= 'z'
    ensures Lower(Authorization()[1]) == 'u'
  {
  }

  lemma LowerWord(p: string, rest: string, keyword: string)
    requires |p| == |keyword| && forall i :: 0 <= i < |p| ==> 'a' <= p[i] <= 'z'
    ensures Word(p + rest, keyword) ==> p == keyword
  {
    if Word(p + rest, keyword) {
      forall i | 0 <= i < |p| ensures p[i] == keyword[i] {
        assert Lower((p + rest)[i]) == keyword[i];
      }
    }
  }

  lemma NotHeader(start: bool, t: string)
    requires t != "" ==> Lower(t[0]) != 'b' && (Lower(t[0]) == 'a' ==> |t| > 1 && Lower(t[1]) != 'u')
    ensures Apply(Headers, start, t).None?
  {
  }

  lemma KeyNamesStartApart(k: nat)
    requires k < |Keys()|
    ensures Keys()[k].name[0] != 'b' && (Keys()[k].name[0] == 'a' ==> |Keys()[k].name| > 1 && Keys()[k].name[1] != 'u')
  {
  }

  // ---------------------------------------------------------------- markers are recognised as themselves

  lemma {:induction false} SeparatorRunOf(p: string, q: string)
    requires (forall i :: 0 <= i < |p| ==> Separator(p[i])) && (q != "" ==> !Separator(q[0]))
    ensures SeparatorRun(p + q) == |p|
  {
    if p == "" { assert p + q == q; } else { Behead(p, q); SeparatorRunOf(p[1..], q); }
  }

  lemma {:induction false} BlankRunOf(p: string, q: string)
    requires (forall i :: 0 <= i < |p| ==> Blank(p[i])) && (q != "" ==> !Blank(q[0]))
    ensures BlankRun(p + q) == |p|
  {
    if p == "" { assert p + q == q; } else { Behead(p, q); BlankRunOf(p[1..], q); }
  }

  lemma {:induction false} ValueRunOf(p: string, q: string)
    requires (forall i :: 0 <= i < |p| ==> !EndsValue(p[i])) && (q != "" ==> EndsValue(q[0]))
    ensures ValueRun(p + q) == |p|
  {
    if p == "" { assert p + q == q; } else { Behead(p, q); ValueRunOf(p[1..], q); }
  }

  lemma {:induction false} LineRunOf(p: string, q: string)
    requires (forall i :: 0 <= i < |p| ==> !EndsLine(p[i])) && (q != "" ==> EndsLine(q[0]))
    ensures LineRun(p + q) == |p|
  {
    if p == "" { assert p + q == q; } else { Behead(p, q); LineRunOf(p[1..], q); }
  }

  lemma WordIsItself(p: string, rest: string)
    requires (forall i :: 0 <= i < |p| ==> 'a' <= p[i] <= 'z') && (rest != "" ==> !Continues(rest[0]))
    ensures Word(p + rest, p)
  {
  }

  lemma HeaderApplies(t: string, separators: nat, value: nat)
    requires Word(t, Authorization()) && SeparatorRun(t[|Authorization()|..]) == separators
    requires LineRun(t[|Authorization()| + separators..]) == value
    ensures Apply(Headers, true, t) == Some(Hit(|Authorization()| + separators + value, Header()))
  {
    hide Word, SeparatorRun, LineRun, Header, Authorization;
  }

  /** A header keyword, separators and a value up to the end of the line are one hit. */
  lemma HeaderHit(separators: string, value: string, rest: string)
    requires forall i :: 0 <= i < |separators| ==> Separator(separators[i])
    requires forall i :: 0 <= i < |value| ==> !EndsLine(value[i])
    requires value != "" && !Separator(value[0]) && !Continues((separators + value)[0]) && Stopped(true, rest)
    ensures Apply(Headers, true, Authorization() + separators + value + rest) ==
            Some(Hit(|Authorization()| + |separators| + |value|, Header()))
  {
    hide Apply, Word, SeparatorRun, LineRun, Header, Authorization, Separator, Continues;
    var tail := value + rest;
    var t := Authorization() + separators + value + rest;
    LiteralsAreWords();
    assert t == Authorization() + (separators + tail);
    assert (separators + tail)[0] == (separators + value)[0];
    WordIsItself(Authorization(), separators + tail);
    var n := |Authorization()|;
    assert t[n..] == separators + tail;
    SeparatorRunOf(separators, tail);
    assert t[n + |separators|..] == tail;
    LineRunOf(value, rest);
    HeaderApplies(t, |separators|, |value|);
  }

  function HeaderValue(): string { "<redacted:authorization>" }
  function CredentialValue(): string { "<redacted:token>" }

  lemma HeaderParts()
    ensures Header() == Authorization() + ": " + HeaderValue()
    ensures forall i :: 0 <= i < |HeaderValue()| ==> !EndsLine(HeaderValue()[i])
  {
    HeaderSplits();
    HeaderValueIsOneLine();
    hide Header, Authorization, HeaderValue;
  }

  lemma HeaderSplits()
    ensures Header() == Authorization() + ": " + HeaderValue()
  {
  }

  lemma HeaderValueIsOneLine()
    ensures forall i :: 0 <= i < |HeaderValue()| ==> !EndsLine(HeaderValue()[i])
  {
  }

  lemma CredentialParts()
    ensures Credential() == "Bearer" + " " + CredentialValue()
    ensures CredentialValue() != "" && CredentialValue()[|CredentialValue()| - 1] == '>'
    ensures forall i :: 0 <= i < |CredentialValue()| ==> !EndsValue(CredentialValue()[i])
  {
  }

  lemma HeaderRescans(rest: string)
    requires Stopped(true, rest)
    ensures Apply(Headers, true, Header() + rest) == Some(Hit(|Header()|, Header()))
  {
    hide Apply;
    HeaderParts();
    HeaderHit(": ", HeaderValue(), rest);
  }

  /** The name inside a header marker, left alone, is taken for a header again. */
  lemma StrayExpands(rest: string)
    requires Stopped(true, rest)
    ensures Apply(Headers, true, Authorization() + ">" + rest) == Some(Hit(|Authorization()| + 1, Header()))
  {
    hide Apply;
    assert Authorization() + "" + ">" + rest == Authorization() + ">" + rest;
    HeaderHit("", ">", rest);
  }

  lemma CredentialRescans(rest: string)
    requires Stopped(false, rest)
    ensures Apply(Headers, true, Credential() + rest) == Some(Hit(|Credential()|, Credential()))
  {
    CredentialParts();
    BearerHit(CredentialValue(), rest);
    assert Credential() + rest == "Bearer" + " " + CredentialValue() + rest;
  }

  lemma BearerHit(value: string, rest: string)
    requires value != "" && !Blank(value[0]) && (forall i :: 0 <= i < |value| ==> !EndsValue(value[i]))
    requires Stopped(false, rest)
    ensures Apply(Headers, true, "Bearer" + " " + value + rest) == Some(Hit(7 + |value|, Credential()))
  {
    var tail := value + rest;
    var t := "Bearer" + " " + value + rest;
    assert t == "Bearer" + (" " + tail);
    assert Lower(t[0]) == 'b' && !Word(t, Authorization());
    assert Word(t, Bearer());
    assert t[|Bearer()|..] == " " + tail;
    BlankRunOf(" ", tail);
    assert t[|Bearer()| + 1..] == tail;
    ValueRunOf(value, rest);
  }

  /** The value of an assignment marker. */
  function MarkerValue(name: string): string {
    "<redacted:" + name + ">"
  }

  lemma MarkerValueIsOneToken(name: string)
    requires KeyText(name)
    ensures Marker(name) == ": " + MarkerValue(name)
    ensures MarkerValue(name) != "" && !Separator(MarkerValue(name)[0])
    ensures forall i :: 0 <= i < |MarkerValue(name)| ==> !EndsValue(MarkerValue(name)[i])
  {
    forall i | 0 <= i < |MarkerValue(name)| ensures !EndsValue(MarkerValue(name)[i]) {
      if 10 <= i < 10 + |name| {
        assert MarkerValue(name)[i] == name[i - 10];
        assert KeyChar(name[i - 10]);
      }
    }
  }

  /** The key in front of a separator is found again in front of another one. */
  lemma SameKeyBeforeColon(t: string, k: nat, tail: string)
    requires k < |Keys()| && FirstKey(t) == Some(k)
    requires |t| > |Keys()[k].word| && Separator(t[|Keys()[k].word|])
    ensures FirstKey(t[..|Keys()[k].word|] + ":" + tail) == Some(k)
  {
    hide Keys, Word, KeyText;
    var n := |Keys()[k].word|;
    var u := t[..n] + ":" + tail;
    forall j | 0 <= j < |Keys()| ensures Word(t, Keys()[j].word) <==> Word(u, Keys()[j].word) {
      KeyWordsAreKeyText(j);
      BoundedWord(t, n, Keys()[j].word);
      BoundedWord(u, n, Keys()[j].word);
      assert t[..n] == u[..n];
    }
  }

  /** With a separator at `n`, whether a keyword stands at the front depends on the first `n` characters. */
  lemma BoundedWord(t: string, n: nat, keyword: string)
    requires n < |t| && Separator(t[n]) && KeyText(keyword)
    ensures Word(t, keyword) <==> Word(t[..n], keyword)
  {
    assert n < |keyword| ==> KeyChar(keyword[n]);
  }

  /** What an assignment hit is, once its key is known. */
  lemma AssignmentHit(t: string, k: nat)
    requires k < |Keys()| && FirstKey(t) == Some(k)
    ensures |Keys()[k].word| <= |t|
    ensures var n := |Keys()[k].word|;
            var value := n + |Separators(t, n)|;
            Apply(Assignments, true, t) ==
            if Assigns(Separators(t, n)) then Some(Hit(value + ValueRun(t[value..]), t[..n] + Marker(Keys()[k].name)))
            else None
  {
    hide Keys, FirstKey, Separators;
  }

  lemma AssignmentRescans(t: string, rest: string)
    requires Apply(Assignments, true, t).Some? && Stopped(false, rest)
    ensures var shown := Apply(Assignments, true, t).value.shown;
            Apply(Assignments, true, shown + rest) == Some(Hit(|shown|, shown))
  {
    var k := FirstKey(t).value;
    AssignmentHit(t, k);
    assert Separators(t, |Keys()[k].word|) != "";
    hide Keys, Apply, FirstKey, Word, Marker;
    KeyRescans(t, k, rest);
  }

  lemma KeyRescans(t: string, k: nat, rest: string)
    requires k < |Keys()| && FirstKey(t) == Some(k) && Stopped(false, rest)
    requires |t| > |Keys()[k].word| && Separator(t[|Keys()[k].word|])
    ensures var shown := t[..|Keys()[k].word|] + Marker(Keys()[k].name);
            Apply(Assignments, true, shown + rest) == Some(Hit(|shown|, shown))
  {
    hide Keys, Apply, FirstKey, Word;
    var n, name := |Keys()[k].word|, Keys()[k].name;
    KeyNamesAreKeyText(k);
    MarkerValueIsOneToken(name);
    hide KeyText, MarkerValue, Marker;
    var value := MarkerValue(name);
    var shown := t[..n] + Marker(name);
    var u := shown + rest;
    assert u[n..] == ": " + (value + rest);
    assert u == t[..n] + ":" + (" " + (value + rest));
    SameKeyBeforeColon(t, k, " " + (value + rest));
    AssignmentHit(u, k);
    ColonMarker(u, n, value, rest);
    assert u[..n] == t[..n];
  }

  lemma ColonMarker(u: string, n: nat, value: string, rest: string)
    requires n <= |u| && u[n..] == ": " + (value + rest)
    requires value != "" && !Separator(value[0]) && (forall i :: 0 <= i < |value| ==> !EndsValue(value[i]))
    requires Stopped(false, rest)
    ensures Separators(u, n) == ": " && ValueRun(u[n + 2..]) == |value|
  {
    SeparatorRunOf(": ", value + rest);
    assert u[n + 2..] == u[n..][2..] == value + rest;
    ValueRunOf(value, rest);
  }
}
