/** What the two keyword passes do to their own output. */
module RedactionFixpoint {
  import opened Options
  import opened AsciiCase
  import opened RedactionRules
  import opened RedactionPasses
  import opened RedactionMarkers

  // ---------------------------------------------------------------- markers are quiet for the other rule

  lemma RedactedIsQuiet(rule: Rule, start: bool, rest: string)
    requires rest != "" && !WordChar(rest[0])
    ensures Quiet(rule, start, Redacted(), rest)
  {
    if rule == Assignments {
      RedactedIsNotAssigned(start, rest);
    } else {
      assert Lower((Redacted() + rest)[0]) == 'r';
      NotHeader(start, Redacted() + rest);
    }
    LiteralsAreWords();
    hide Apply;
    QuietWord(rule, start, Redacted(), rest);
  }

  function Opening(): string { "<redacted:" }

  lemma OpeningIsQuiet(rule: Rule, start: bool, rest: string)
    ensures Quiet(rule, start, Opening(), rest)
  {
    hide Apply;
    QuietMarks(rule, start, "<", Redacted() + ":" + rest);
    assert Redacted() + ":" + rest == Redacted() + (":" + rest);
    RedactedIsQuiet(rule, After(start, "<"), ":" + rest);
    QuietConcat(rule, start, "<", Redacted(), ":" + rest);
    QuietMarks(rule, After(start, "<" + Redacted()), ":", rest);
    QuietConcat(rule, start, "<" + Redacted(), ":", rest);
    assert Opening() == "<" + Redacted() + ":";
  }

  /** The value of a marker is quiet when its name is no hit in front of the closing bracket. */
  lemma MarkerValueIsQuiet(rule: Rule, start: bool, name: string, rest: string)
    requires KeyText(name) && Apply(rule, true, name + (">" + rest)).None?
    ensures Quiet(rule, start, MarkerValue(name), rest)
  {
    hide Apply;
    var close := ">" + rest;
    OpeningIsQuiet(rule, start, name + close);
    assert After(start, Opening());
    assert forall i :: 0 <= i < |name| ==> KeyChar(name[i]);
    QuietWord(rule, true, name, close);
    QuietConcat(rule, start, Opening(), name, close);
    QuietMarks(rule, After(start, Opening() + name), ">", rest);
    QuietConcat(rule, start, Opening() + name, ">", rest);
    assert MarkerValue(name) == Opening() + name + ">";
  }

  /** A name in front of a closing bracket is never assigned. */
  lemma BracketedNameIsNotAssigned(name: string, rest: string)
    requires KeyText(name)
    ensures Apply(Assignments, true, name + (">" + rest)).None?
  {
    assert forall i :: 0 <= i < |name| ==> KeyChar(name[i]);
    NotAssigned(true, name, ">" + rest);
  }

  lemma HeaderValueParts()
    ensures KeyText(Authorization()) && HeaderValue() == MarkerValue(Authorization())
  {
  }

  lemma HeaderValueIsQuiet(start: bool, rest: string)
    ensures Quiet(Assignments, start, HeaderValue(), rest)
  {
    hide Apply, KeyText, MarkerValue;
    HeaderValueParts();
    BracketedNameIsNotAssigned(Authorization(), rest);
    MarkerValueIsQuiet(Assignments, start, Authorization(), rest);
  }

  function TokenName(): string { "token" }

  lemma CredentialValueParts()
    ensures CredentialValue() == MarkerValue(TokenName()) && KeyText(TokenName()) && TokenName()[0] == 't'
  {
  }

  lemma CredentialValueIsQuiet(rule: Rule, start: bool, rest: string)
    ensures Quiet(rule, start, CredentialValue(), rest)
  {
    CredentialValueParts();
    hide KeyText, MarkerValue, TokenName, CredentialValue;
    if rule == Assignments {
      BracketedNameIsNotAssigned(TokenName(), rest);
    } else {
      assert Lower((TokenName() + (">" + rest))[0]) == 't';
      NotHeader(true, TokenName() + (">" + rest));
    }
    hide Apply, Quiet;
    MarkerValueIsQuiet(rule, start, TokenName(), rest);
    CredentialValueParts();
  }

  lemma HeaderIsQuiet(start: bool, rest: string)
    ensures Quiet(Assignments, start, Header(), rest)
  {
    hide Apply, Authorization, Header, HeaderValue, Quiet;
    var tail := ": " + (HeaderValue() + rest);
    LiteralsAreWords();
    AuthorizationIsNotAssigned(start, tail);
    assert forall i :: 0 <= i < |Authorization()| ==> WordChar(Authorization()[i]);
    QuietWord(Assignments, start, Authorization(), tail);
    QuietMarks(Assignments, After(start, Authorization()), ": ", HeaderValue() + rest);
    QuietConcat(Assignments, start, Authorization(), ": ", HeaderValue() + rest);
    HeaderValueIsQuiet(After(start, Authorization() + ": "), rest);
    QuietConcat(Assignments, start, Authorization() + ": ", HeaderValue(), rest);
    HeaderParts();
  }

  lemma CredentialIsQuiet(start: bool, rest: string)
    ensures Quiet(Assignments, start, Credential(), rest)
  {
    var tail := " " + (CredentialValue() + rest);
    BearerIsNotAssigned(start, tail);
    hide Apply, Quiet, CredentialValue;
    QuietWord(Assignments, start, "Bearer", tail);
    QuietMarks(Assignments, After(start, "Bearer"), " ", CredentialValue() + rest);
    QuietConcat(Assignments, start, "Bearer", " ", CredentialValue() + rest);
    CredentialValueIsQuiet(Assignments, After(start, "Bearer" + " "), rest);
    QuietConcat(Assignments, start, "Bearer" + " ", CredentialValue(), rest);
    CredentialParts();
  }

  lemma BearerIsNotAssigned(start: bool, rest: string)
    ensures Apply(Assignments, start, "Bearer" + rest).None?
  {
    hide Keys;
    var t := "Bearer" + rest;
    assert Lower(t[0]) == 'b';
    forall k | 0 <= k < |Keys()| ensures !Word(t, Keys()[k].word) {
      KeyWordsStartApart(k);
    }
  }

  /** A key is no header, whatever follows it. */
  lemma KeyIsNoHeader(start: bool, t: string, k: nat, rest: string)
    requires k < |Keys()| && Word(t, Keys()[k].word)
    ensures Apply(Headers, start, t[..|Keys()[k].word|] + rest).None?
    ensures Apply(Headers, start, t).None?
  {
    hide Keys, Apply;
    KeyWordsStartApart(k);
    var u := t[..|Keys()[k].word|] + rest;
    assert u[0] == t[0] && u[1] == t[1];
    assert Lower(t[0]) == Keys()[k].word[0] && Lower(t[1]) == Keys()[k].word[1];
    NotHeader(start, u);
    NotHeader(start, t);
  }

  /** An assignment marker is quiet for the header rule. */
  lemma AssignmentIsQuiet(start: bool, t: string, rest: string)
    requires Apply(Assignments, true, t).Some?
    ensures Quiet(Headers, start, Apply(Assignments, true, t).value.shown, rest)
  {
    var key, k := AssignmentPieces(start, t, ": " + (MarkerValue(Keys()[FirstKey(t).value].name) + rest));
    hide Keys, Apply, FirstKey;
    PiecesAreQuiet(start, key, k, rest);
  }

  /** What an assignment shows, taken apart. */
  lemma AssignmentPieces(start: bool, t: string, tail: string) returns (key: string, k: nat)
    requires Apply(Assignments, true, t).Some?
    ensures k < |Keys()| && FirstKey(t) == Some(k)
    ensures Apply(Assignments, true, t).value.shown == key + Marker(Keys()[k].name)
    ensures key != "" && (forall i :: 0 <= i < |key| ==> WordChar(key[i])) && Apply(Headers, start, key + tail).None?
  {
    k := FirstKey(t).value;
    AssignmentHit(t, k);
    hide Keys, Apply, FirstKey, Marker;
    key := t[..|Keys()[k].word|];
    KeyWordsAreKeyText(k);
    WordIsMadeOfWordChars(t, Keys()[k].word);
    KeyIsNoHeader(start, t, k, tail);
  }

  lemma PiecesAreQuiet(start: bool, key: string, k: nat, rest: string)
    requires k < |Keys()| && key != "" && forall i :: 0 <= i < |key| ==> WordChar(key[i])
    requires Apply(Headers, start, key + (": " + (MarkerValue(Keys()[k].name) + rest))).None?
    ensures Quiet(Headers, start, key + Marker(Keys()[k].name), rest)
  {
    hide Keys, Apply, Quiet, KeyText;
    var value := MarkerValue(Keys()[k].name);
    KeyNamesAreKeyText(k);
    MarkerValueIsOneToken(Keys()[k].name);
    hide MarkerValue, Marker;
    QuietWord(Headers, start, key, ": " + (value + rest));
    QuietMarks(Headers, After(start, key), ": ", value + rest);
    QuietConcat(Headers, start, key, ": ", value + rest);
    NamedMarkerIsQuiet(After(start, key + ": "), k, rest);
    QuietConcat(Headers, start, key + ": ", value, rest);
    assert key + ": " + value == key + Marker(Keys()[k].name);
  }

  lemma WordIsMadeOfWordChars(t: string, keyword: string)
    requires Word(t, keyword) && KeyText(keyword)
    ensures forall i :: 0 <= i < |keyword| ==> WordChar(t[..|keyword|][i])
  {
    forall i | 0 <= i < |keyword| ensures WordChar(t[..|keyword|][i]) {
      assert KeyChar(keyword[i]) && Lower(t[i]) == keyword[i];
    }
  }

  lemma NamedMarkerIsQuiet(start: bool, k: nat, rest: string)
    requires k < |Keys()|
    ensures Quiet(Headers, start, MarkerValue(Keys()[k].name), rest)
  {
    hide Keys, Apply;
    var name := Keys()[k].name;
    KeyNamesAreKeyText(k);
    KeyNamesStartApart(k);
    assert forall i :: 0 <= i < |name| ==> KeyChar(name[i]);
    var t := name + (">" + rest);
    assert t[0] == name[0] && (|name| > 1 ==> t[1] == name[1]);
    NotHeader(true, t);
    MarkerValueIsQuiet(Headers, start, name, rest);
  }
}
