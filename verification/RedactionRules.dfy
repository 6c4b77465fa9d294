/** What the redactor looks for in a line of text; a char stands for one UTF-8 byte. */
module RedactionRules {
  import opened Options
  import opened AsciiCase

  // ---------------------------------------------------------------- characters

  predicate Letter(c: char) { 'a' <= c <= 'z' || 'A' <= c <= 'Z' }

  predicate Alphanumeric(c: char) { Letter(c) || '0' <= c <= '9' }

  /** A character that continues an identifier after a keyword. */
  predicate Continues(c: char) { Alphanumeric(c) || c == '_' }

  /** A character after which no word starts. */
  predicate WordChar(c: char) { Alphanumeric(c) || c == '_' || c == '-' }

  predicate Separator(c: char) { c == ' ' || c == '\t' || c == ':' || c == '=' || c == '"' || c == '\'' }

  predicate Blank(c: char) { c == ' ' || c == '\t' }

  /** What ends a value token. */
  predicate EndsValue(c: char) {
    c == ' ' || c == '\t' || c == '\r' || c == '\n' || c == ';' || c == ',' || c == '"' || c == '\'' || c == '&' ||
    c == '}' || c == ']'
  }

  /** What ends an authorization header. */
  predicate EndsLine(c: char) {
    c == '\r' || c == '\n' || c == '"' || c == '\'' || c == '}' || c == ','
  }

  // ---------------------------------------------------------------- runs

  function SeparatorRun(t: string): (n: nat)
    ensures n <= |t| && forall i :: 0 <= i < n ==> Separator(t[i])
    ensures n < |t| ==> !Separator(t[n])
  {
    if t == "" || !Separator(t[0]) then 0 else 1 + SeparatorRun(t[1..])
  }

  function BlankRun(t: string): (n: nat)
    ensures n <= |t| && forall i :: 0 <= i < n ==> Blank(t[i])
    ensures n < |t| ==> !Blank(t[n])
  {
    if t == "" || !Blank(t[0]) then 0 else 1 + BlankRun(t[1..])
  }

  function ValueRun(t: string): (n: nat)
    ensures n <= |t| && forall i :: 0 <= i < n ==> !EndsValue(t[i])
    ensures n < |t| ==> EndsValue(t[n])
  {
    if t == "" || EndsValue(t[0]) then 0 else 1 + ValueRun(t[1..])
  }

  function LineRun(t: string): (n: nat)
    ensures n <= |t| && forall i :: 0 <= i < n ==> !EndsLine(t[i])
    ensures n < |t| ==> EndsLine(t[n])
  {
    if t == "" || EndsLine(t[0]) then 0 else 1 + LineRun(t[1..])
  }

  /** The run of separators that follows the first `n` characters. */
  function Separators(t: string, n: nat): (run: string)
    requires n <= |t|
    ensures n + |run| <= |t|
  {
    t[n..n + SeparatorRun(t[n..])]
  }

  /** Whether a run of separators holds a real one. */
  predicate Assigns(separators: string) {
    ':' in separators || '=' in separators
  }

  // ---------------------------------------------------------------- keywords

  /** `keyword` stands at the front of `t`, in any case, and the identifier stops there. */
  predicate Word(t: string, keyword: string) {
    && |keyword| <= |t|
    && (forall i :: 0 <= i < |keyword| ==> Lower(t[i]) == keyword[i])
    && (|t| > |keyword| ==> !Continues(t[|keyword|]))
  }

  function Authorization(): string { "authorization" }
  function Bearer(): string { "bearer" }

  datatype Key = Key(word: string, name: string)

  /** The sensitive keys and the names reported for them; the first that matches counts. */
  function Keys(): (keys: seq<Key>)
    ensures |keys| == 17
  {
    [
      Key("set-cookie", "cookie"),
      Key("cookie", "cookie"),
      Key("access_token", "token"),
      Key("refresh_token", "token"),
      Key("id_token", "token"),
      Key("client_secret", "secret"),
      Key("api_key", "api-key"),
      Key("apikey", "api-key"),
      Key("api-key", "api-key"),
      Key("private_key", "private-key"),
      Key("session_id", "session"),
      Key("sessionid", "session"),
      Key("session-token", "session"),
      Key("token", "token"),
      Key("password", "password"),
      Key("passwd", "password"),
      Key("secret", "secret")
    ]
  }

  /** Key `k` of the table stands at the front of `t`, and no key before it does. */
  predicate IsFirstKey(t: string, k: nat) {
    k < |Keys()| && Word(t, Keys()[k].word) && forall j :: 0 <= j < k ==> !Word(t, Keys()[j].word)
  }

  /** Whichever key stands there, some key is the first to do so. */
  lemma {:induction false} SomeKeyIsFirst(t: string, j: nat)
    requires j < |Keys()| && Word(t, Keys()[j].word)
    ensures exists k :: IsFirstKey(t, k)
  {
    hide Keys, Word;
    if !IsFirstKey(t, j) {
      var i :| 0 <= i < j && Word(t, Keys()[i].word);
      SomeKeyIsFirst(t, i);
    }
  }

  /** The first key of the table that stands at the front of `t`. */
  function FirstKey(t: string): (k: Option<nat>)
    ensures k.Some? ==> IsFirstKey(t, k.value)
    ensures k.None? ==> forall j :: 0 <= j < |Keys()| ==> !Word(t, Keys()[j].word)
  {
    hide Keys, Word;
    if k: nat :| k < |Keys()| && IsFirstKey(t, k) then Some(k)
    else
      assert forall j :: 0 <= j < |Keys()| && Word(t, Keys()[j].word) ==> exists k :: IsFirstKey(t, k) by {
        forall j | 0 <= j < |Keys()| && Word(t, Keys()[j].word) ensures exists k :: IsFirstKey(t, k) {
          SomeKeyIsFirst(t, j);
        }
      }
      None
  }

  // ---------------------------------------------------------------- rules

  function Header(): string { "authorization: <redacted:authorization>" }
  function Credential(): string { "Bearer <redacted:token>" }

  function Marker(name: string): string {
    ": <redacted:" + name + ">"
  }

  /** A rule that applies: it takes `taken` characters and shows `shown` instead. */
  datatype Hit = Hit(taken: nat, shown: string)

  datatype Rule = Headers | Assignments

  /** What a rule does with the text `t`; `start` tells whether a word starts here. */
  function Apply(rule: Rule, start: bool, t: string): (hit: Option<Hit>)
    ensures hit.Some? ==> 0 < hit.value.taken <= |t|
  {
    if !start then None
    else match rule
      case Headers =>
        if Word(t, Authorization()) then
          var value := |Authorization()| + SeparatorRun(t[|Authorization()|..]);
          Some(Hit(value + LineRun(t[value..]), Header()))
        else if Word(t, Bearer()) && BlankRun(t[|Bearer()|..]) > 0 then
          var value := |Bearer()| + BlankRun(t[|Bearer()|..]);
          Some(Hit(value + ValueRun(t[value..]), Credential()))
        else None
      case Assignments =>
        var k := FirstKey(t);
        if k.None? then None
        else
          var key := Keys()[k.value];
          KeyWordsAreWords(k.value);
          var n := |key.word|;
          var value := n + |Separators(t, n)|;
          if Assigns(Separators(t, n)) then Some(Hit(value + ValueRun(t[value..]), t[..n] + Marker(key.name)))
          else None
  }

  lemma KeyWordsAreWords(k: nat)
    requires k < |Keys()|
    ensures Keys()[k].word != ""
  {
  }

  /** One left-to-right pass: where the rule applies its text is replaced, everything else is copied. */
  function Pass(rule: Rule, start: bool, t: string): string
    decreases |t|
  {
    if t == "" then ""
    else
      match Apply(rule, start, t)
      case Some(Hit(taken, shown)) => shown + Pass(rule, !WordChar(t[taken - 1]), t[taken..])
      case None => [t[0]] + Pass(rule, !WordChar(t[0]), t[1..])
  }
}
