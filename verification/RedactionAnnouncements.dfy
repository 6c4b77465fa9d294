/** The keyword passes cannot announce a private key again. */
module RedactionAnnouncements {
  import opened Options
  import opened AsciiCase
  import opened RedactionRules
  import opened RedactionPasses
  import opened RedactionMarkers
  import opened RedactionFixpoint
  import opened RedactionSettles
  import opened RedactionResidue
  import opened RedactionPem
  import opened RedactionNoKey

  /** No two dashes in a row, and none at the end. */
  predicate SingleDashes(s: string) {
    forall i :: 0 <= i < |s| && s[i] == '-' ==> i + 1 < |s| && s[i + 1] != '-'
  }

  lemma KeysHaveSingleDashes(k: nat)
    requires k < |Keys()|
    ensures SingleDashes(Keys()[k].word) && SingleDashes(Keys()[k].name)
  {
    WordsHaveSingleDashes();
    NamesHaveSingleDashes();
    hide SingleDashes;
  }

  lemma WordsHaveSingleDashes()
    ensures SingleDashes("set-cookie") && SingleDashes("cookie") && SingleDashes("access_token")
    ensures SingleDashes("refresh_token") && SingleDashes("id_token") && SingleDashes("client_secret")
    ensures SingleDashes("api_key") && SingleDashes("apikey") && SingleDashes("api-key")
    ensures SingleDashes("private_key") && SingleDashes("session_id") && SingleDashes("sessionid")
    ensures SingleDashes("session-token") && SingleDashes("token") && SingleDashes("password")
    ensures SingleDashes("passwd") && SingleDashes("secret")
  {
  }

  lemma NamesHaveSingleDashes()
    ensures SingleDashes("cookie") && SingleDashes("token") && SingleDashes("secret") && SingleDashes("api-key")
    ensures SingleDashes("private-key") && SingleDashes("session") && SingleDashes("password")
  {
  }

  /** An assignment shows its own key, as written, and a marker. */
  lemma AssignmentShows(t: string) returns (key: string, name: string)
    requires Apply(Assignments, true, t).Some?
    ensures Apply(Assignments, true, t).value.shown == key + Marker(name) && key <= t
    ensures (forall i :: 0 <= i < |key| ==> WordChar(key[i])) && SingleDashes(key)
    ensures KeyText(name) && SingleDashes(name)
  {
    var k := FirstKey(t).value;
    AssignmentHit(t, k);
    KeyWordsAreKeyText(k);
    KeyNamesAreKeyText(k);
    KeysHaveSingleDashes(k);
    WordIsMadeOfWordChars(t, Keys()[k].word);
    hide Keys, Apply, FirstKey;
    key, name := t[..|Keys()[k].word|], Keys()[k].name;
    var word := Keys()[k].word;
    forall i | 0 <= i < |key| && key[i] == '-' ensures i + 1 < |key| && key[i + 1] != '-' {
      assert Lower(t[i]) == word[i] == '-';
      assert Lower(t[i + 1]) == word[i + 1];
    }
  }

  /** Header markers in letters. */
  predicate PlainMarker(s: string) {
    |s| > 1 && s[0] != 'P' && ('a' <= s[0] <= 'z' || 'a' <= s[1] <= 'z') &&
    forall i :: 0 <= i < |s| ==> s[i] != 'P' && s[i] != '-' && s[i] != '\n'
  }

  lemma HeaderMarkersArePlain()
    ensures PlainMarker(Header()) && PlainMarker(Credential())
  {
  }

  lemma HeaderShows(start: bool, t: string)
    requires Apply(Headers, start, t).Some?
    ensures PlainMarker(Apply(Headers, start, t).value.shown)
    ensures Apply(Headers, start, t).value.shown[0] == 'B' || 'a' <= Apply(Headers, start, t).value.shown[0] <= 'z'
  {
    HeaderMarkersArePlain();
    assert Header()[0] == 'a' && Credential()[0] == 'B';
    hide Header, Credential, PlainMarker;
  }

  /** A phrase tail that the output starts with, the input starts with too. */
  lemma {:induction false} PassStartsNoPhrase(rule: Rule, start: bool, t: string, p: string)
    requires PhraseTail(p) && p <= Pass(rule, start, t)
    ensures p <= t
    decreases |t|
  {
    hide Apply, Pass, PhraseTail;
    PhraseTailShape(p);
    PassHead(rule, start, t);
    if p != "" && t != "" {
      if Apply(rule, start, t).None? {
        PassCopies(rule, start, t);
        var out := Pass(rule, !WordChar(t[0]), t[1..]);
        assert Pass(rule, start, t)[1..] == out;
        assert p[1..] <= out;
        PassStartsNoPhrase(rule, !WordChar(t[0]), t[1..], p[1..]);
      } else {
        PassReplaces(rule, start, t);
        var hit := Apply(rule, start, t).value;
        HitStartsNoPhrase(rule, start, t, Pass(rule, !WordChar(t[hit.taken - 1]), t[hit.taken..]), p);
      }
    }
  }

  lemma HitStartsNoPhrase(rule: Rule, start: bool, t: string, out: string, p: string)
    requires Apply(rule, start, t).Some? && p != "" && p <= Apply(rule, start, t).value.shown + out
    requires (forall i :: 0 <= i < |p| ==> PhraseChar(p[i])) && (|p| == 1 ==> p[0] != 'B')
    ensures p <= t
  {
    hide Apply;
    HitsStartWords(rule, start, t);
    var shown := Apply(rule, start, t).value.shown;
    if rule == Headers {
      HeaderShows(start, t);
      PrefixChars(p, shown, out);
    } else {
      var key, name := AssignmentShows(t);
      assert shown[|key|] == ':';
      PrefixChars(p, shown, out);
      assert |p| <= |key|;
      assert p == (shown + out)[..|p|] == key[..|p|] == t[..|p|];
    }
  }

  lemma PrefixChars(p: string, shown: string, out: string)
    requires p <= shown + out
    ensures forall i :: 0 <= i < |p| && i < |shown| ==> p[i] == shown[i]
  {
  }

  lemma TakenIsOneLine(rule: Rule, start: bool, t: string)
    requires Apply(rule, start, t).Some?
    ensures forall i :: 0 <= i < Apply(rule, start, t).value.taken ==> t[i] != '\n'
  {
    hide Keys;
    if rule == Assignments {
      HitsStartWords(rule, start, t);
      AssignmentTakesOneLine(t);
    } else {
      HeaderTakesOneLine(t);
    }
  }

  lemma AssignmentTakesOneLine(t: string)
    requires Apply(Assignments, true, t).Some?
    ensures forall i :: 0 <= i < Apply(Assignments, true, t).value.taken ==> t[i] != '\n'
  {
    hide Apply, DroppedValue;
    var key, separators := DroppedValueFollows(t);
    var value := DroppedValue(t);
    var taken := Apply(Assignments, true, t).value.taken;
    var head := key + separators + value;
    assert t == head + t[taken..];
    assert |head| == taken;
    forall i | 0 <= i < taken ensures t[i] != '\n' {
      assert t[i] == head[i];
      if i >= |key| + |separators| { assert head[i] == value[i - |key| - |separators|]; }
      else if i >= |key| { assert head[i] == separators[i - |key|]; }
      else { assert head[i] == key[i]; }
    }
  }

  lemma HeaderTakesOneLine(t: string)
    requires Apply(Headers, true, t).Some?
    ensures forall i :: 0 <= i < Apply(Headers, true, t).value.taken ==> t[i] != '\n'
  {
    LiteralsAreWords();
    var word := if Word(t, Authorization()) then Authorization() else Bearer();
    BearerIsLower();
    forall i | 0 <= i < |word| ensures t[i] != '\n' { assert Lower(t[i]) == word[i]; }
    hide Authorization, Bearer, Header, Credential;
  }

  lemma BearerIsLower()
    ensures forall i :: 0 <= i < |Bearer()| ==> 'a' <= Bearer()[i] <= 'z'
  {
  }

  /** Neither phrase starts inside what a hit shows. */
  lemma NoPhraseInShown(rule: Rule, start: bool, t: string, out: string, i: nat)
    requires Apply(rule, start, t).Some? && i < |Apply(rule, start, t).value.shown|
    ensures !(PrivateKey() <= (Apply(rule, start, t).value.shown + out)[i..])
    ensures !(Begin() <= (Apply(rule, start, t).value.shown + out)[i..])
  {
    PhrasesStart();
    hide Apply, Begin, PrivateKey;
    HitsStartWords(rule, start, t);
    var shown := Apply(rule, start, t).value.shown;
    var u := (shown + out)[i..];
    assert u[0] == shown[i];
    if rule == Headers {
      HeaderShows(start, t);
    } else {
      var key, name := AssignmentShows(t);
      if i < |key| {
        NoPhraseInKey(key, Marker(name) + out, i);
        assert u == (key + (Marker(name) + out))[i..];
      } else {
        MarkerIsPlain(name, i - |key|);
        assert i + 1 < |shown| ==> u[1] == shown[i + 1];
      }
    }
  }

  lemma PhrasesStart()
    ensures |Begin()| == 10 && Begin()[0] == Begin()[1] == '-'
    ensures |PrivateKey()| == 11 && PrivateKey()[0] == 'P' && PrivateKey()[7] == ' '
    ensures forall i :: 0 <= i < |PrivateKey()| ==> PrivateKey()[i] != ':'
  {
  }

  lemma MarkerIsPlain(name: string, i: nat)
    requires KeyText(name) && SingleDashes(name) && i < |Marker(name)|
    ensures Marker(name)[i] != 'P'
    ensures Marker(name)[i] == '-' ==> i + 1 < |Marker(name)| && Marker(name)[i + 1] != '-'
  {
    if 12 <= i < 12 + |name| {
      assert Marker(name)[i] == name[i - 12];
      assert i - 11 < |name| ==> Marker(name)[i + 1] == name[i - 11];
    }
  }

  lemma NoPhraseInKey(key: string, tail: string, i: nat)
    requires i < |key| && (forall j :: 0 <= j < |key| ==> WordChar(key[j])) && SingleDashes(key)
    requires tail != "" && tail[0] == ':'
    ensures !(PrivateKey() <= (key + tail)[i..]) && !(Begin() <= (key + tail)[i..])
  {
    PhrasesStart();
    hide Begin, PrivateKey;
    var u := (key + tail)[i..];
    assert u[0] == key[i];
    assert i + 1 < |key| ==> u[1] == key[i + 1];
    assert u[|key| - i] == ':';
    assert |key| - i > 7 ==> u[7] == key[i + 7];
  }

  lemma {:induction false} LineSkip(x: string, y: string, word: string)
    requires forall i :: 0 <= i < |x| ==> !(word <= (x + y)[i..])
    ensures LineHas(x + y, word) ==> LineHas(y, word)
  {
    if x == "" {
      assert x + y == y;
    } else {
      Behead(x, y);
      assert (x + y)[0..] == x + y;
      forall i | 0 <= i < |x[1..]| ensures !(word <= (x[1..] + y)[i..]) {
        assert !(word <= (x + y)[i + 1..]);
        DropTwice(x + y, 1, i);
      }
      LineSkip(x[1..], y, word);
    }
  }

  lemma {:induction false} LineReaches(t: string, n: nat, word: string)
    requires n <= |t| && (forall i :: 0 <= i < n ==> t[i] != '\n') && LineHas(t[n..], word)
    ensures LineHas(t, word)
  {
    if n > 0 {
      DropTwice(t, 1, n - 1);
      LineReaches(t[1..], n - 1, word);
    } else {
      assert t[0..] == t;
    }
  }

  /** The output announces nothing on its first line that the input does not. */
  lemma {:induction false} PassAnnouncesNothing(rule: Rule, start: bool, t: string)
    ensures LineHas(Pass(rule, start, t), PrivateKey()) ==> LineHas(t, PrivateKey())
    decreases |t|
  {
    hide Apply, Pass, PrivateKey, PhraseTail;
    PassHead(rule, start, t);
    if t != "" && LineHas(Pass(rule, start, t), PrivateKey()) {
      PhrasesAreTails();
      if Apply(rule, start, t).None? {
        PassCopies(rule, start, t);
        var out := Pass(rule, !WordChar(t[0]), t[1..]);
        assert Pass(rule, start, t)[1..] == out;
        PassAnnouncesNothing(rule, !WordChar(t[0]), t[1..]);
        if PrivateKey() <= Pass(rule, start, t) { PassStartsNoPhrase(rule, start, t, PrivateKey()); }
      } else {
        HitAnnouncesNothing(rule, start, t);
      }
    }
  }

  lemma {:induction false} HitAnnouncesNothing(rule: Rule, start: bool, t: string)
    requires Apply(rule, start, t).Some? && LineHas(Pass(rule, start, t), PrivateKey())
    ensures LineHas(t, PrivateKey())
    decreases |t|, 0
  {
    hide Apply, Pass, PrivateKey, LineHas;
    var hit := Apply(rule, start, t).value;
    var s, rest := !WordChar(t[hit.taken - 1]), t[hit.taken..];
    PassReplaces(rule, start, t);
    forall i | 0 <= i < |hit.shown| ensures !(PrivateKey() <= (hit.shown + Pass(rule, s, rest))[i..]) {
      NoPhraseInShown(rule, start, t, Pass(rule, s, rest), i);
    }
    LineSkip(hit.shown, Pass(rule, s, rest), PrivateKey());
    PassAnnouncesNothing(rule, s, rest);
    TakenIsOneLine(rule, start, t);
    LineReaches(t, hit.taken, PrivateKey());
  }

  /** Text without an announced key keeps none. */
  lemma {:induction false} PassLeavesNoKey(rule: Rule, start: bool, t: string)
    requires !HasKey(t)
    ensures !HasKey(Pass(rule, start, t))
    decreases |t|
  {
    hide Apply, Pass, PrivateKey, Begin, LineHas, PhraseTail;
    PassHead(rule, start, t);
    if t != "" {
      if Apply(rule, start, t).None? {
        PassCopies(rule, start, t);
        var out := Pass(rule, !WordChar(t[0]), t[1..]);
        assert Pass(rule, start, t)[1..] == out;
        PassLeavesNoKey(rule, !WordChar(t[0]), t[1..]);
        PhrasesAreTails();
        if Begin() <= Pass(rule, start, t) { PassStartsNoPhrase(rule, start, t, Begin()); }
        PassAnnouncesNothing(rule, start, t);
      } else {
        HitLeavesNoKey(rule, start, t);
      }
    }
  }

  lemma {:induction false} HitLeavesNoKey(rule: Rule, start: bool, t: string)
    requires Apply(rule, start, t).Some? && !HasKey(t)
    ensures !HasKey(Pass(rule, start, t))
    decreases |t|, 0
  {
    hide Apply, Pass, PrivateKey, Begin, HasKey;
    var hit := Apply(rule, start, t).value;
    var s, rest := !WordChar(t[hit.taken - 1]), t[hit.taken..];
    PassReplaces(rule, start, t);
    HasKeyAt(t, hit.taken);
    PassLeavesNoKey(rule, s, rest);
    forall i | 0 <= i < |hit.shown| ensures !(Begin() <= (hit.shown + Pass(rule, s, rest))[i..]) {
      NoPhraseInShown(rule, start, t, Pass(rule, s, rest), i);
    }
    SkipNoBegin(hit.shown, Pass(rule, s, rest));
  }
}
