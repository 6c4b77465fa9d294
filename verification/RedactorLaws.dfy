/** The whole redactor on whole lines: what three passes in their order make of them. */
module RedactorLaws {
  import opened Options
  import opened RedactionRules
  import opened RedactionPasses
  import opened RedactionMarkers
  import opened RedactionFixpoint
  import opened RedactionSettles
  import opened RedactionScan
  import opened RedactionPem
  import opened RedactionLaws
  import opened Redactor
  import opened Bytes
  import Socks
  import SocksLaws

  /** Bytes as the characters that stand for them here. */
  function AsText(octets: seq<byte>): (text: string)
    ensures |text| == |octets|
  {
    seq(|octets|, i requires 0 <= i < |octets| => octets[i] as char)
  }

  /** The conditions on a character are those on its octets. */
  lemma OctetsAreCharacter(u: seq<byte>)
    requires u != [] && Socks.Utf8Char(u) == |u|
    ensures IsCharacter(AsText(u)) && CharLength(AsText(u)[0]) == |u|
  {
  }

  lemma ScalarIsCharacter(c: nat)
    requires SocksLaws.Scalar(c)
    ensures var text := AsText(SocksLaws.EncodeScalar(c)); IsCharacter(text) && CharLength(text[0]) == |text|
  {
    var octets := SocksLaws.EncodeScalar(c);
    SocksLaws.EncodedIsOneCharacter(c, []);
    assert octets + [] == octets;
    hide SocksLaws.EncodeScalar, Socks.Utf8Char;
    OctetsAreCharacter(octets);
  }

  /** Every text of Unicode scalar values, encoded in UTF-8, is made of whole characters. */
  lemma {:induction false} EncodedTextIsWhole(text: seq<nat>)
    requires SocksLaws.Scalars(text)
    ensures WholeChars(AsText(SocksLaws.EncodeText(text)))
  {
    hide SocksLaws.EncodeScalar;
    if text != [] {
      var first, rest := AsText(SocksLaws.EncodeScalar(text[0])), AsText(SocksLaws.EncodeText(text[1..]));
      EncodedTextIsWhole(text[1..]);
      ScalarIsCharacter(text[0]);
      assert AsText(SocksLaws.EncodeText(text)) == first + rest;
      assert (first + rest)[..|first|] == first && (first + rest)[|first|..] == rest;
    }
  }

  lemma KeyAndSeparators(key: string, name: string, word: string, separators: string, rest: string)
    requires Sensitive(key, name) && Spells(word, key) && AllIn(separators, SEPARATORS)
    requires (':' in separators || '=' in separators) && rest != "" && rest[0] !in SEPARATORS
    ensures Pass(Headers, true, word + separators + rest) == word + separators + Pass(Headers, true, rest)
  {
    hide Sensitive, Spells, AllIn, Pass, Apply, Word, Quiet, Keys, FirstKey, Separators, ValueStart;
    var t := word + separators + rest;
    AssignedApplies(t, key, name, word, separators, rest);
    AssignmentSpelled(t, word, separators, rest, key, name);
    SpellsAsLong(word, key);
    var k := KeyStands(key, name, t);
    KeyIsNoHeader(true, t, k, "");
    FrontIsQuiet(t);
    StartOfValue(t, k);
    assert t[..|word| + |separators|] == word + separators && t[|word| + |separators|..] == rest;
    QuietPass(Headers, true, word + separators, rest);
  }

  lemma StartOfValue(t: string, k: nat)
    requires Apply(Assignments, true, t).Some? && FirstKey(t) == Some(k) && k < |Keys()|
    ensures |Keys()[k].word| <= |t| && ValueStart(t) == |Keys()[k].word| + |Separators(t, |Keys()[k].word|)|
  {
    hide Keys, Apply, Separators;
    AssignmentHit(t, k);
  }

  /**
   * A bearer credential as the value of a sensitive key, alone in its text: the scheme goes with the key's marker, and
   * the token, which is no part of that value, with its own.
   */
  lemma CredentialAsValueGoes(key: string, name: string, word: string, separators: string,
                              scheme: string, blanks: string, token: string)
    requires Sensitive(key, name) && Spells(word, key) && AllIn(separators, SEPARATORS)
    requires ':' in separators || '=' in separators
    requires IsCredential(scheme, blanks, token, "")
    requires Nowhere(word + separators + (scheme + blanks + token), "-----BEGIN")
    ensures Redact(word + separators + (scheme + blanks + token)) ==
            word + ": <redacted:" + name + "> <redacted:token>"
  {
    hide Sensitive, Spells, AllIn, Pass, Apply, IsCredential, PemPass, Nowhere;
    var rest := scheme + blanks + token;
    NoBeginStays(word + separators + rest);
    SchemeStarts(scheme, blanks, token);
    KeyAndSeparators(key, name, word, separators, rest);
    CredentialGoes(scheme, blanks, token, "");
    NothingStays(Headers, true);
    assert scheme + blanks + token + "" == rest;
    var shown := "Bearer <redacted:token>";
    assert Pass(Headers, true, rest) == shown by { assert shown + "" == shown; }
    BearerIsValue(key, word, separators);
    AssignmentGoes(key, name, word, separators, "Bearer", " <redacted:token>");
    assert word + separators + "Bearer" + " <redacted:token>" == word + separators + shown;
    MarkerTailStays();
    assert word + ": <redacted:" + name + ">" + " <redacted:token>" ==
           word + ": <redacted:" + name + "> <redacted:token>";
  }

  lemma SchemeStarts(scheme: string, blanks: string, token: string)
    requires IsCredential(scheme, blanks, token, "")
    ensures scheme != "" && (scheme + blanks + token)[0] !in SEPARATORS
  {
    assert scheme[0] == 'b' || scheme[0] as int + 32 == 'b' as int;
  }

  lemma BearerIsValue(key: string, word: string, separators: string)
    requires Spells(word, key) && AllIn(separators, SEPARATORS) && (':' in separators || '=' in separators)
    ensures IsAssignment(key, word, separators, "Bearer", " <redacted:token>")
  {
    hide Spells, AllIn;
    assert ("Bearer" + " <redacted:token>")[0] == 'B';
  }

  lemma MarkerTailStays()
    ensures Pass(Assignments, true, " <redacted:token>") == " <redacted:token>"
  {
    hide Apply, Pass, Quiet, CredentialValue;
    CredentialParts();
    CredentialIsQuiet(true, "");
    TailIsQuiet();
    QuietPass(Assignments, true, " " + CredentialValue(), "");
    NothingStays(Assignments, After(true, " " + CredentialValue()));
    CredentialValueIs();
    assert " " + CredentialValue() + "" == " <redacted:token>";
  }

  lemma TailIsQuiet()
    ensures Quiet(Assignments, true, " " + CredentialValue(), "")
  {
    hide Apply, Quiet, CredentialValue;
    assert CredentialValue() + "" == CredentialValue();
    QuietMarks(Assignments, true, " ", CredentialValue() + "");
    CredentialValueIsQuiet(Assignments, After(true, " "), "");
    QuietConcat(Assignments, true, " ", CredentialValue(), "");
  }

  lemma CredentialValueIs()
    ensures CredentialValue() == "<redacted:token>"
  {
  }

  /** A header alone in its text goes whole. */
  lemma HeaderLineGoes(word: string, separators: string, value: string)
    requires IsHeader(word, separators, value, "") && Nowhere(word + separators + value, "-----BEGIN")
    ensures Redact(word + separators + value) == "authorization: <redacted:authorization>"
  {
    hide Pass, Apply, PemPass, IsHeader, Nowhere;
    NoBeginStays(word + separators + value);
    HeaderGoes(word, separators, value, "");
    assert word + separators + value + "" == word + separators + value;
    NothingStays(Headers, true);
    var shown := "authorization: <redacted:authorization>";
    assert shown + "" == shown;
    HeaderStays();
  }

  lemma HeaderStays()
    ensures Pass(Assignments, true, "authorization: <redacted:authorization>") ==
            "authorization: <redacted:authorization>"
  {
    hide Apply, Pass, Quiet;
    HeaderIsQuiet(true, "");
    QuietPass(Assignments, true, Header(), "");
    NothingStays(Assignments, After(true, Header()));
    assert Header() + "" == Header();
  }
}
