/** What the redactor does to a text, spelled out in characters: every hit, what it shows, and what is left alone. */
module RedactionLaws {
  import opened Options
  import opened AsciiCase
  import opened RedactionRules
  import opened RedactionPasses
  import opened RedactionMarkers
  import opened RedactionPem

  // ---------------------------------------------------------------- characters and words, in full

  predicate Wordy(c: char) {
    'a' <= c <= 'z' || 'A' <= c <= 'Z' || '0' <= c <= '9' || c == '_' || c == '-'
  }

  /** The identifier goes on; a dash ends it. */
  predicate GoesOn(c: char) { Wordy(c) && c != '-' }

  const SEPARATORS := {' ', '\t', ':', '=', '"', '\''}
  const LINE_ENDS := {'\r', '\n', '"', '\'', '}', ','}
  const VALUE_ENDS := {' ', '\t', '\r', '\n', ';', ',', '"', '\'', '&', '}', ']'}

  /** The word, in any case. */
  predicate Spells(text: string, word: string) {
    |text| == |word| &&
    forall i :: 0 <= i < |text| ==>
      text[i] == word[i] || ('A' <= text[i] <= 'Z' && text[i] as int + 32 == word[i] as int)
  }

  predicate AllIn(text: string, chars: set<char>) {
    forall i :: 0 <= i < |text| ==> text[i] in chars
  }

  predicate NoneIn(text: string, chars: set<char>) {
    forall i :: 0 <= i < |text| ==> text[i] !in chars
  }

  predicate EndOr(rest: string, chars: set<char>) {
    rest == "" || rest[0] in chars
  }

  lemma CharactersMean(c: char)
    ensures WordChar(c) == Wordy(c) && Continues(c) == GoesOn(c) && Separator(c) == (c in SEPARATORS)
    ensures EndsLine(c) == (c in LINE_ENDS) && EndsValue(c) == (c in VALUE_ENDS) && Blank(c) == (c == ' ' || c == '\t')
  {
  }

  lemma {:induction false} SpellsMeans(t: string, word: string)
    requires KeyText(word) && |word| <= |t|
    ensures Word(t, word) <==> Spells(t[..|word|], word) && (|t| > |word| ==> !GoesOn(t[|word|]))
  {
    assert forall i :: 0 <= i < |word| ==> KeyChar(word[i]);
    forall i | 0 <= i < |word|
      ensures Lower(t[i]) == word[i] <==>
              t[..|word|][i] == word[i] ||
              ('A' <= t[..|word|][i] <= 'Z' && t[..|word|][i] as int + 32 == word[i] as int)
    {
    }
    if |t| > |word| { CharactersMean(t[|word|]); }
  }

  // ---------------------------------------------------------------- headers

  /** An authorization word, separators, and a value up to the end of the line or what closes it. */
  predicate IsHeader(word: string, separators: string, value: string, rest: string) {
    && Spells(word, "authorization") && AllIn(separators, SEPARATORS) && NoneIn(value, LINE_ENDS)
    && EndOr(rest, LINE_ENDS)
    && (separators + value + rest != "" ==> !GoesOn((separators + value + rest)[0]))
    && (value + rest != "" ==> (value + rest)[0] !in SEPARATORS)
  }

  /** The whole header goes: word, separators and value, blanks inside the value included. */
  lemma HeaderGoes(word: string, separators: string, value: string, rest: string)
    requires IsHeader(word, separators, value, rest)
    ensures Pass(Headers, true, word + separators + value + rest) ==
            "authorization: <redacted:authorization>" + Pass(Headers, true, rest)
  {
    var t := word + separators + value + rest;
    var n := |Authorization()|;
    assert t[..n] == word && t[n..] == separators + (value + rest) && t[n + |separators|..] == value + rest;
    assert t[n + |separators| + |value|..] == rest;
    LiteralsAreWords();
    AuthorizationIsKeyText();
    SpellsMeans(t, Authorization());
    forall c ensures Separator(c) == (c in SEPARATORS) && EndsLine(c) == (c in LINE_ENDS) { CharactersMean(c); }
    SeparatorRunOf(separators, value + rest);
    LineRunOf(value, rest);
    hide Word, SeparatorRun, LineRun, Separator, EndsLine, Continues, Spells, GoesOn;
    HeaderApplies(t, |separators|, |value|);
    HitReplaces(Headers, t, n + |separators| + |value|, rest, true);
  }

  lemma AuthorizationIsKeyText()
    ensures KeyText(Authorization()) && Authorization() == "authorization"
    ensures KeyText(Bearer()) && Bearer() == "bearer"
  {
  }

  lemma HitReplaces(rule: Rule, t: string, taken: nat, rest: string, line: bool)
    requires Apply(rule, true, t).Some? && Apply(rule, true, t).value.taken == taken && t[taken..] == rest
    requires line == WholeLine(rule, t)
    ensures Pass(rule, true, t) == Apply(rule, true, t).value.shown + Pass(rule, true, rest)
  {
    hide Apply, Pass;
    PassReplaces(rule, true, t);
    HitStops(rule, true, t);
    StartIrrelevant(rule, line, !WordChar(t[taken - 1]), true, rest);
  }

  /** A bearer word, blanks, and a value up to what ends values. */
  predicate IsCredential(word: string, blanks: string, value: string, rest: string) {
    && Spells(word, "bearer") && blanks != "" && AllIn(blanks, {' ', '\t'}) && NoneIn(value, VALUE_ENDS)
    && EndOr(rest, VALUE_ENDS) && (value + rest != "" ==> (value + rest)[0] !in {' ', '\t'})
  }

  lemma CredentialGoes(word: string, blanks: string, value: string, rest: string)
    requires IsCredential(word, blanks, value, rest)
    ensures Pass(Headers, true, word + blanks + value + rest) ==
            "Bearer <redacted:token>" + Pass(Headers, true, rest)
  {
    var t := word + blanks + value + rest;
    var n := |Bearer()|;
    assert t[..n] == word && t[n..] == blanks + (value + rest) && t[n + |blanks|..] == value + rest;
    assert t[n + |blanks| + |value|..] == rest;
    AuthorizationIsKeyText();
    SpellsMeans(t, Bearer());
    assert t[n] == blanks[0] && !GoesOn(t[n]);
    forall c ensures Blank(c) == (c in {' ', '\t'}) && EndsValue(c) == (c in VALUE_ENDS) { CharactersMean(c); }
    BlankRunOf(blanks, value + rest);
    ValueRunOf(value, rest);
    BearerStarts(t, word);
    hide Word, BlankRun, ValueRun, Blank, EndsValue, Continues, Spells, GoesOn;
    HitReplaces(Headers, t, n + |blanks| + |value|, rest, false);
  }

  lemma BearerStarts(t: string, word: string)
    requires Spells(word, "bearer") && word <= t
    ensures !Word(t, Authorization())
  {
    assert t[0] == word[0];
    assert Lower(t[0]) == 'b';
  }

  // ---------------------------------------------------------------- assignments

  /** The keys and what is reported for them. */
  predicate Sensitive(key: string, name: string) {
    (key, name) in {
      ("cookie", "cookie"), ("set-cookie", "cookie"),
      ("token", "token"), ("access_token", "token"), ("refresh_token", "token"), ("id_token", "token"),
      ("secret", "secret"), ("client_secret", "secret"),
      ("apikey", "api-key"), ("api_key", "api-key"), ("api-key", "api-key"), ("private_key", "private-key"),
      ("sessionid", "session"), ("session_id", "session"), ("session-token", "session"),
      ("password", "password"), ("passwd", "password")
    }
  }

  /** A key in any case, separators with a real one among them, and a value up to what ends values. */
  predicate IsAssignment(key: string, word: string, separators: string, value: string, rest: string) {
    && Spells(word, key) && AllIn(separators, SEPARATORS) && (':' in separators || '=' in separators)
    && NoneIn(value, VALUE_ENDS) && EndOr(rest, VALUE_ENDS)
    && (value + rest != "" ==> (value + rest)[0] !in SEPARATORS)
  }

  lemma SensitiveIsKey(key: string, name: string)
    requires Sensitive(key, name)
    ensures exists k :: 0 <= k < |Keys()| && Keys()[k] == Key(key, name)
  {
    var keys := Keys();
    assert keys[0] == Key("set-cookie", "cookie") && keys[1] == Key("cookie", "cookie");
    assert keys[2] == Key("access_token", "token") && keys[3] == Key("refresh_token", "token");
    assert keys[4] == Key("id_token", "token") && keys[5] == Key("client_secret", "secret");
    assert keys[6] == Key("api_key", "api-key") && keys[7] == Key("apikey", "api-key");
    assert keys[8] == Key("api-key", "api-key") && keys[9] == Key("private_key", "private-key");
    assert keys[10] == Key("session_id", "session") && keys[11] == Key("sessionid", "session");
    assert keys[12] == Key("session-token", "session") && keys[13] == Key("token", "token");
    assert keys[14] == Key("password", "password") && keys[15] == Key("passwd", "password");
    assert keys[16] == Key("secret", "secret");
  }

  /** The other way round. */
  lemma KeyIsSensitive(k: nat)
    requires k < |Keys()|
    ensures Sensitive(Keys()[k].word, Keys()[k].name)
  {
  }

  /** Where a key has a dash, no other key ends. */
  lemma DashesStandAlone(k: nat, j: nat)
    requires k < |Keys()| && j < |Keys()| && |Keys()[j].word| < |Keys()[k].word|
    requires Keys()[k].word[|Keys()[j].word|] == '-'
    ensures Keys()[k].word[0] != Keys()[j].word[0]
  {
    DashAt(k, |Keys()[j].word|);
    ShortKeys(j);
  }

  lemma DashAt(k: nat, n: nat)
    requires k < |Keys()| && n < |Keys()[k].word| && Keys()[k].word[n] == '-'
    ensures n == 3 || (n == 7 && Keys()[k].word[0] == 's')
  {
  }

  lemma ShortKeys(j: nat)
    requires j < |Keys()|
    ensures |Keys()[j].word| != 3 && (|Keys()[j].word| == 7 ==> Keys()[j].word[0] == 'a')
  {
  }

  lemma KeyWordsDiffer(j: nat, k: nat)
    requires j < |Keys()| && k < |Keys()| && Keys()[j].word == Keys()[k].word
    ensures j == k
  {
  }

  /** At most one key stands at the front of a text. */
  lemma OneKeyStands(t: string, j: nat, k: nat)
    requires j < |Keys()| && k < |Keys()| && Word(t, Keys()[j].word) && Word(t, Keys()[k].word)
    ensures j == k
  {
    hide Keys;
    if |Keys()[j].word| < |Keys()[k].word| {
      OneKeyIsNoFront(t, j, k);
    } else if |Keys()[k].word| < |Keys()[j].word| {
      OneKeyIsNoFront(t, k, j);
    } else {
      SameLengthSameWord(t, Keys()[j].word, Keys()[k].word);
      KeyWordsDiffer(j, k);
    }
  }

  lemma SameLengthSameWord(t: string, a: string, b: string)
    requires Word(t, a) && Word(t, b) && |a| == |b|
    ensures a == b
  {
    forall i | 0 <= i < |a| ensures a[i] == b[i] {
      assert Lower(t[i]) == a[i];
    }
  }

  lemma OneKeyIsNoFront(t: string, j: nat, k: nat)
    requires j < |Keys()| && k < |Keys()| && |Keys()[j].word| < |Keys()[k].word|
    ensures !(Word(t, Keys()[j].word) && Word(t, Keys()[k].word))
  {
    hide Keys;
    var n := |Keys()[j].word|;
    if Word(t, Keys()[j].word) && Word(t, Keys()[k].word) {
      KeyWordsAreKeyText(k);
      KeyWordsAreWords(j);
      assert KeyChar(Keys()[k].word[n]) && Lower(t[n]) == Keys()[k].word[n];
      assert Lower(t[0]) == Keys()[j].word[0] && Lower(t[0]) == Keys()[k].word[0];
      DashesStandAlone(k, j);
    }
  }

  lemma KeyStands(key: string, name: string, t: string) returns (k: nat)
    requires Sensitive(key, name) && Word(t, key)
    ensures k < |Keys()| && FirstKey(t) == Some(k) && Keys()[k] == Key(key, name)
  {
    hide Keys, Word, Sensitive;
    SensitiveIsKey(key, name);
    k :| 0 <= k < |Keys()| && Keys()[k] == Key(key, name);
    var first := FirstKey(t);
    OneKeyStands(t, first.value, k);
  }

  lemma AssignmentSpelled(t: string, word: string, separators: string, rest: string, key: string, name: string)
    requires Sensitive(key, name) && Spells(word, key) && t == word + separators + rest
    requires separators != "" && AllIn(separators, SEPARATORS) && (rest != "" ==> rest[0] !in SEPARATORS)
    ensures Word(t, key) && key != "" && Separators(t, |key|) == separators
  {
    SensitiveIsKey(key, name);
    var k :| 0 <= k < |Keys()| && Keys()[k] == Key(key, name);
    KeyWordsAreKeyText(k);
    hide Keys;
    var n := |key|;
    assert t[..n] == word && t[n..] == separators + rest && t[n] == separators[0];
    SpellsMeans(t, key);
    forall c ensures Separator(c) == (c in SEPARATORS) { CharactersMean(c); }
    hide Spells, Word, Separator;
    SeparatorRunOf(separators, rest);
    assert t[n..n + |separators|] == separators;
  }

  lemma FourParts(word: string, separators: string, value: string, rest: string)
    ensures var t, n := word + separators + value + rest, |word| + |separators|;
            && t == word + separators + (value + rest)
            && t[..|word|] == word && t[n..] == value + rest && t[n + |value|..] == rest
  {
  }

  /** The value goes; the key stays as it was written. */
  lemma AssignmentGoes(key: string, name: string, word: string, separators: string, value: string, rest: string)
    requires Sensitive(key, name) && IsAssignment(key, word, separators, value, rest)
    ensures Pass(Assignments, true, word + separators + value + rest) ==
            word + ": <redacted:" + name + ">" + Pass(Assignments, true, rest)
  {
    hide Word, ValueRun, EndsValue, Spells, Keys, Separators, FirstKey, Sensitive, Pass, Apply, AllIn;
    var t := word + separators + value + rest;
    FourParts(word, separators, value, rest);
    AssignmentSpelled(t, word, separators, value + rest, key, name);
    assert |word| == |key| by { SpellsAsLong(word, key); }
    forall c ensures EndsValue(c) == (c in VALUE_ENDS) { CharactersMean(c); }
    ValueRunOf(value, rest);
    var k := KeyStands(key, name, t);
    AssignmentHit(t, k);
    HitReplaces(Assignments, t, |word| + |separators| + |value|, rest, false);
  }

  lemma SpellsAsLong(text: string, word: string)
    requires Spells(text, word)
    ensures |text| == |word|
  {
  }

  /** So does the value of a quoted key, as JSON has it. */
  lemma JsonMemberGoes(key: string, name: string, word: string, value: string, rest: string)
    requires Sensitive(key, name) && Spells(word, key) && value != "" && NoneIn(value, VALUE_ENDS)
    requires value[0] !in SEPARATORS
    ensures Pass(Assignments, true, "\"" + word + "\": \"" + value + "\"" + rest) ==
            "\"" + (word + ": <redacted:" + name + ">" + Pass(Assignments, true, "\"" + rest))
  {
    hide Pass, Spells, Sensitive;
    var separators := "\": \"";
    JsonSeparators();
    AssignmentGoes(key, name, word, separators, value, "\"" + rest);
    var t := word + separators + value + ("\"" + rest);
    assert "\"" + word + separators + value + "\"" + rest == "\"" + t;
    QuoteStarts(t);
  }

  lemma JsonSeparators()
    ensures AllIn("\": \"", SEPARATORS) && ':' in "\": \""
  {
    assert "\": \""[1] == ':';
  }

  lemma QuoteStarts(t: string)
    ensures Pass(Assignments, true, "\"" + t) == "\"" + Pass(Assignments, true, t)
  {
    var u := "\"" + t;
    if Apply(Assignments, true, u).Some? { HitsStartWithLetter(Assignments, true, u); }
    hide Apply;
    PassCopies(Assignments, true, u);
    assert u[1..] == t;
  }

  // ---------------------------------------------------------------- everything else stays

  ghost predicate WordStands(t: string, word: string) {
    exists text, tail :: t == text + tail && Spells(text, word) && (tail != "" ==> !GoesOn(tail[0]))
  }

  lemma WordStandsExactlyWhen(t: string, word: string)
    requires KeyText(word)
    ensures Word(t, word) <==> WordStands(t, word)
  {
    if Word(t, word) {
      SpellsMeans(t, word);
      assert t == t[..|word|] + t[|word|..];
    }
    if WordStands(t, word) {
      var text, tail :| t == text + tail && Spells(text, word) && (tail != "" ==> !GoesOn(tail[0]));
      assert t[..|word|] == text;
      SpellsMeans(t, word);
    }
  }

  ghost predicate BearerStands(t: string) {
    exists text, tail :: t == text + tail && Spells(text, "bearer") && tail != "" && tail[0] in {' ', '\t'}
  }

  ghost predicate KeyStandsAssigned(t: string) {
    exists key, name, word, separators, tail ::
      Sensitive(key, name) && t == word + separators + tail && Spells(word, key) &&
      AllIn(separators, SEPARATORS) && (':' in separators || '=' in separators)
  }

  /** What a rule looks for stands at the front of the text. */
  ghost predicate Stands(rule: Rule, t: string) {
    match rule
    case Headers => WordStands(t, "authorization") || BearerStands(t)
    case Assignments => KeyStandsAssigned(t)
  }

  lemma BearerStandsExactlyWhen(t: string)
    ensures Word(t, Bearer()) && BlankRun(t[|Bearer()|..]) > 0 <==> BearerStands(t)
  {
    AuthorizationIsKeyText();
    var n := |Bearer()|;
    if |t| > n {
      SpellsMeans(t, Bearer());
      assert t == t[..n] + t[n..] && t[n..][0] == t[n];
    }
    if BearerStands(t) {
      var text, tail :| t == text + tail && Spells(text, "bearer") && tail != "" && tail[0] in {' ', '\t'};
      assert t[..n] == text && t[n..] == tail && t[n] == tail[0];
    }
  }

  lemma HeadersApplyExactlyWhen(t: string)
    ensures Apply(Headers, true, t).Some? <==> Stands(Headers, t)
  {
    AuthorizationIsKeyText();
    WordStandsExactlyWhen(t, Authorization());
    BearerStandsExactlyWhen(t);
    hide Word, BlankRun, LineRun, ValueRun, SeparatorRun, BearerStands, WordStands;
  }

  lemma {:induction false} RunIsLongest(p: string, q: string)
    requires AllIn(p, SEPARATORS)
    ensures SeparatorRun(p + q) >= |p|
  {
    if p != "" {
      CharactersMean(p[0]);
      Behead(p, q);
      RunIsLongest(p[1..], q);
    }
  }

  lemma SeparatorsHold(t: string, n: nat, separators: string, tail: string)
    requires n <= |t| && t[n..] == separators + tail && AllIn(separators, SEPARATORS)
    ensures separators <= Separators(t, n)
  {
    RunIsLongest(separators, tail);
    hide SeparatorRun;
    var run := Separators(t, n);
    forall i | 0 <= i < |separators| ensures run[i] == separators[i] {
      assert t[n..][i] == separators[i];
    }
  }

  lemma SeparatorsAreIn(t: string, n: nat)
    requires n <= |t|
    ensures AllIn(Separators(t, n), SEPARATORS) && t == t[..n] + Separators(t, n) + t[n + |Separators(t, n)|..]
  {
    var run := Separators(t, n);
    forall i | 0 <= i < |run| ensures run[i] in SEPARATORS {
      CharactersMean(run[i]);
    }
  }

  lemma MoreAssigns(separators: string, run: string)
    requires separators <= run && (':' in separators || '=' in separators)
    ensures Assigns(run)
  {
    var i :| 0 <= i < |separators| && (separators[i] == ':' || separators[i] == '=');
    assert run[i] == separators[i];
  }

  lemma SpellingStands(t: string, key: string, word: string, rest: string)
    requires KeyText(key) && t == word + rest && Spells(word, key) && rest != "" && !GoesOn(rest[0])
    ensures Word(t, key) && |word| == |key| && t[|key|..] == rest
  {
    WordStandsExactlyWhen(t, key);
  }

  lemma AssignedApplies(t: string, key: string, name: string, word: string, separators: string, tail: string)
    requires Sensitive(key, name) && t == word + separators + tail && Spells(word, key)
    requires AllIn(separators, SEPARATORS) && (':' in separators || '=' in separators)
    ensures Apply(Assignments, true, t).Some?
  {
    assert separators[0] in SEPARATORS;
    assert t == word + (separators + tail) && (separators + tail)[0] == separators[0];
    hide Keys, Sensitive, Spells, Word, SeparatorRun, AllIn, Separators, Assigns, Apply, KeyText, FirstKey;
    SensitiveIsKey(key, name);
    var j :| 0 <= j < |Keys()| && Keys()[j] == Key(key, name);
    KeyWordsAreKeyText(j);
    SpellingStands(t, key, word, separators + tail);
    SeparatorsHold(t, |key|, separators, tail);
    MoreAssigns(separators, Separators(t, |key|));
    var k := KeyStands(key, name, t);
    AssignmentHit(t, k);
  }

  lemma KeyIsSpelled(t: string, key: string)
    requires KeyText(key) && Word(t, key)
    ensures |key| <= |t| && Spells(t[..|key|], key)
  {
    SpellsMeans(t, key);
  }

  lemma AppliesAssigned(t: string)
    requires Apply(Assignments, true, t).Some?
    ensures KeyStandsAssigned(t)
  {
    var k := FirstKey(t).value;
    hide Keys, Sensitive, Spells, Word, SeparatorRun, AllIn, Separators, Apply, KeyText, FirstKey;
    AssignmentHit(t, k);
    var key := Keys()[k].word;
    KeyIsSensitive(k);
    KeyWordsAreKeyText(k);
    KeyIsSpelled(t, key);
    SeparatorsAreIn(t, |key|);
  }

  /** A rule applies exactly where a word starts and what it looks for stands. */
  lemma AppliesExactlyWhen(rule: Rule, start: bool, t: string)
    ensures Apply(rule, start, t).Some? <==> start && Stands(rule, t)
  {
    if !start {
      NoneInsideWord(rule, t);
    } else if rule == Headers {
      HeadersApplyExactlyWhen(t);
    } else {
      hide Apply, Sensitive, Spells, AllIn;
      if Apply(Assignments, true, t).Some? { AppliesAssigned(t); }
      if KeyStandsAssigned(t) {
        var key, name, word, separators, tail :|
          Sensitive(key, name) && t == word + separators + tail && Spells(word, key) &&
          AllIn(separators, SEPARATORS) && (':' in separators || '=' in separators);
        AssignedApplies(t, key, name, word, separators, tail);
      }
    }
  }

  lemma NoneInsideWord(rule: Rule, t: string)
    ensures Apply(rule, false, t).None?
  {
  }

  /** Everything else is copied; whether a word starts next depends on the character. */
  lemma OthersStay(rule: Rule, start: bool, c: char, rest: string)
    requires !(start && Stands(rule, [c] + rest))
    ensures Pass(rule, start, [c] + rest) == [c] + Pass(rule, !Wordy(c), rest)
  {
    AppliesExactlyWhen(rule, start, [c] + rest);
    CharactersMean(c);
    hide Apply, Pass;
    PassCopies(rule, start, [c] + rest);
    assert ([c] + rest)[1..] == rest;
  }

  lemma NothingStays(rule: Rule, start: bool)
    ensures Pass(rule, start, "") == ""
  {
  }

  // ---------------------------------------------------------------- private keys

  /** `word` stands at `at` and nowhere before. */
  ghost predicate FirstAt(t: string, word: string, at: nat) {
    at + |word| <= |t| && word <= t[at..] && forall j :: 0 <= j < at ==> !(word <= t[j..])
  }

  ghost predicate Nowhere(t: string, word: string) {
    forall j :: 0 <= j <= |t| ==> !(word <= t[j..])
  }

  lemma FindMeans(t: string, word: string)
    requires word != ""
    ensures match Find(t, word) case None => Nowhere(t, word) case Some(at) => FirstAt(t, word, at)
  {
    forall j | 0 <= j <= |t| && word <= t[j..] ensures Find(t, word).Some? && Find(t, word).value <= j {
      FindIsFirst(t, word, j);
    }
  }

  lemma FoundAt(t: string, word: string, at: nat)
    requires word != "" && FirstAt(t, word, at)
    ensures Find(t, word) == Some(at)
  {
    FindIsFirst(t, word, at);
    FindMeans(t, word);
  }

  lemma NotFound(t: string, word: string)
    requires word != "" && Nowhere(t, word)
    ensures Find(t, word).None?
  {
    FindMeans(t, word);
  }

  /** One line, and what follows it. */
  predicate IsLine(line: string, rest: string) {
    '\n' !in line && EndOr(rest, {'\n'})
  }

  lemma {:induction false} LineEndsAt(line: string, rest: string)
    requires IsLine(line, rest)
    ensures LineEnd(line + rest) == |line| && (line + rest)[..|line|] == line && (line + rest)[|line|..] == rest
  {
    if line == "" {
      assert line + rest == rest;
    } else {
      Behead(line, rest);
      assert line[0] in line && forall c :: c in line[1..] ==> c in line;
      LineEndsAt(line[1..], rest);
    }
  }

  /** A text without the begin anchor stays. */
  lemma NoBeginStays(t: string)
    requires Nowhere(t, "-----BEGIN")
    ensures PemPass(t) == t
  {
    AnchorsAre();
    hide Find, PemPass, Nowhere;
    NotFound(t, "-----BEGIN");
    NoAnchorNoChange(t);
  }

  lemma AnchorsAre()
    ensures Begin() == "-----BEGIN" && EndAnchor() == "-----END" && PrivateKey() == "PRIVATE KEY"
    ensures KeyMarker() == "<redacted:ssh-private-key>"
  {
  }

  lemma AnnouncesMeans(line: string)
    ensures Announces(line) <==> !Nowhere(line, "PRIVATE KEY")
  {
    AnchorsAre();
    hide Find, Nowhere, FirstAt;
    FindMeans(line, PrivateKey());
    if Announces(line) { FoundIsSomewhere(line, "PRIVATE KEY", Find(line, PrivateKey()).value); }
  }

  lemma FoundIsSomewhere(t: string, word: string, at: nat)
    requires FirstAt(t, word, at)
    ensures !Nowhere(t, word)
  {
  }

  /** The line at the first anchor. */
  lemma AtAnchor(before: string, line: string, rest: string)
    requires FirstAt(before + line + rest, "-----BEGIN", |before|) && IsLine(line, rest) && "-----BEGIN" <= line
    ensures var t := before + line + rest;
            && Find(t, Begin()) == Some(|before|) && t[|before|..] == line + rest
            && LineEnd(t[|before|..]) == |line| && t[|before|..][..|line|] == line && t[..|before|] == before
            && Begin() <= t[|before|..] && (Announces(line) <==> !Nowhere(line, "PRIVATE KEY"))
  {
    AnchorsAre();
    hide Find, Nowhere, FirstAt, IsLine, LineEnd, Announces, Begin;
    var t := before + line + rest;
    FoundAt(t, "-----BEGIN", |before|);
    assert t == before + (line + rest);
    LineEndsAt(line, rest);
    PrefixOfPrefix(line + rest, |line|, Begin());
    AnnouncesMeans(line);
  }

  /** A begin line of something else stays, and the search goes on right behind the anchor. */
  lemma OtherBlockStays(before: string, line: string, rest: string)
    requires FirstAt(before + line + rest, "-----BEGIN", |before|) && IsLine(line, rest)
    requires "-----BEGIN" <= line && Nowhere(line, "PRIVATE KEY")
    ensures PemPass(before + line + rest) == before + "-----BEGIN" + PemPass(line[10..] + rest)
  {
    hide Find, Nowhere, FirstAt, IsLine, LineEnd, Announces, PemPass, Begin;
    var t := before + line + rest;
    AtAnchor(before, line, rest);
    AnchorsAre();
    PassSkips(t, |before|);
    assert t[..|before| + 10] == before + line[..10] && line[..10] == "-----BEGIN";
    assert t[|before| + 10..] == line[10..] + rest;
  }

  lemma BlockRunsOn(line: string, rest: string)
    requires Begin() <= line && LineEnd(line + rest) == |line| && Find(rest, EndAnchor()).None?
    ensures Begin() <= line + rest && BlockLength(line + rest) == |line + rest|
  {
    hide Find, LineEnd, Begin, EndAnchor;
    assert (line + rest)[|line|..] == rest;
  }

  /** A private key without an end line takes everything with it. */
  lemma OpenKeyBlockGoes(before: string, line: string, rest: string)
    requires FirstAt(before + line + rest, "-----BEGIN", |before|)
    requires "-----BEGIN" <= line && !Nowhere(line, "PRIVATE KEY") && IsLine(line, rest)
    requires Nowhere(rest, "-----END")
    ensures PemPass(before + line + rest) == before + "<redacted:ssh-private-key>"
  {
    hide Find, Nowhere, FirstAt, IsLine, LineEnd, Announces, PemPass, Begin, EndAnchor, KeyMarker, BlockLength;
    var t := before + line + rest;
    AtAnchor(before, line, rest);
    AnchorsAre();
    NotFound(rest, "-----END");
    BlockRunsOn(line, rest);
    PassWithBlock(t, |before|, |line + rest|);
    NothingLeft();
    assert t[|before|..][|line + rest|..] == "";
  }

  lemma NothingLeft()
    ensures PemPass("") == ""
  {
  }

  lemma BlockLengthIs(t: string, line: nat, body: nat, end: nat, rest: string, tail: string)
    requires Begin() <= t && LineEnd(t) == line && line <= |t| && t[line..] == rest
    requires Find(rest, EndAnchor()) == Some(body) && line + body <= |t| && t[line + body..] == tail
    requires LineEnd(tail) == end
    ensures BlockLength(t) == line + body + end
  {
    hide Find, LineEnd, Begin, EndAnchor;
  }

  lemma BlockParts(line: string, body: string, endLine: string, after: string)
    ensures var t := line + (body + endLine + after);
            && t[|line|..] == body + endLine + after && t[|line| + |body|..] == endLine + after
            && t[|line| + |body| + |endLine|..] == after
  {
  }

  lemma BlockEndsAt(line: string, body: string, endLine: string, after: string, t: string)
    requires t == line + (body + endLine + after) && Begin() <= t && LineEnd(t) == |line|
    requires Find(body + endLine + after, EndAnchor()) == Some(|body|) && LineEnd(endLine + after) == |endLine|
    ensures BlockLength(t) == |line| + |body| + |endLine| && t[|line| + |body| + |endLine|..] == after
  {
    hide Find, LineEnd, Begin, EndAnchor, BlockLength;
    BlockParts(line, body, endLine, after);
    BlockLengthIs(t, |line|, |body|, |endLine|, body + endLine + after, endLine + after);
  }

  /** A private key goes with its begin line, everything up to the first end line, and that line. */
  lemma KeyBlockGoes(before: string, line: string, body: string, endLine: string, after: string)
    requires FirstAt(before + line + (body + endLine + after), "-----BEGIN", |before|)
    requires "-----BEGIN" <= line && !Nowhere(line, "PRIVATE KEY") && IsLine(line, body + endLine + after)
    requires FirstAt(body + endLine + after, "-----END", |body|) && IsLine(endLine, after)
    ensures PemPass(before + line + (body + endLine + after)) ==
            before + ("<redacted:ssh-private-key>" + PemPass(after))
  {
    hide Find, Nowhere, FirstAt, IsLine, LineEnd, Announces, PemPass, Begin, EndAnchor, KeyMarker, BlockLength;
    var rest := body + endLine + after;
    var t := before + line + rest;
    AtAnchor(before, line, rest);
    AnchorsAre();
    FoundAt(rest, "-----END", |body|);
    LineEndsAt(endLine, after);
    BlockEndsAt(line, body, endLine, after, t[|before|..]);
    PassWithBlock(t, |before|, |line| + |body| + |endLine|);
  }
}
