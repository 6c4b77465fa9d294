/** When one redaction is enough: a single scan with both keyword rules tells. */
module RedactionScan {
  import opened Options
  import opened AsciiCase
  import opened RedactionRules
  import opened RedactionPasses
  import opened RedactionMarkers
  import opened RedactionFixpoint
  import opened RedactionSettles
  import opened RedactionPem

  /** Where the value of the assignment at the front of `t` begins. */
  function ValueStart(t: string): (n: nat)
    requires Apply(Assignments, true, t).Some?
    ensures 0 < n <= |t|
  {
    var k := FirstKey(t).value;
    AssignmentHit(t, k);
    KeyWordsAreWords(k);
    |Keys()[k].word| + |Separators(t, |Keys()[k].word|)|
  }

  /**
   * One scan with both rules, headers first: no authorization word starts inside the value of an assignment. A bearer
   * credential ends the value it stands in, as does every character that ends values.
   */
  predicate ValuesHoldNoHeader(start: bool, inValue: bool, t: string)
    decreases |t|
  {
    t == "" ||
    match Apply(Headers, start, t)
    case Some(hit) =>
      !(inValue && Word(t, Authorization())) &&
      ValuesHoldNoHeader(!WordChar(t[hit.taken - 1]), false, t[hit.taken..])
    case None =>
      if !inValue && Apply(Assignments, start, t).Some? then
        HitsStartWords(Assignments, start, t);
        ValuesHoldNoHeader(true, true, t[ValueStart(t)..])
      else ValuesHoldNoHeader(!WordChar(t[0]), inValue && !EndsValue(t[0]), t[1..])
  }

  // ---------------------------------------------------------------- the scan agrees with the passes

  /** The value at the front of `u` holds no authorization word, nor do the values dropped after it. */
  predicate ValueKeeps(start: bool, u: string) {
    !HasHeader(start, u[..ValueRun(u)]) && KeepsHeaders(true, u[ValueRun(u)..])
  }

  /** The value runs from there to its first end, and is what the assignment drops. */
  lemma ValueIsDropped(t: string)
    requires Apply(Assignments, true, t).Some?
    ensures var v, taken := ValueStart(t), Apply(Assignments, true, t).value.taken;
            taken == v + ValueRun(t[v..]) && DroppedValue(t) == t[v..taken]
  {
    AssignmentHit(t, FirstKey(t).value);
    hide Apply, Keys, FirstKey, ValueRun, Separators, Assigns;
  }

  lemma KeepsUnfolds(t: string)
    requires Apply(Assignments, true, t).Some?
    ensures var taken := Apply(Assignments, true, t).value.taken;
            KeepsHeaders(true, t) ==
            (!HasHeader(true, DroppedValue(t)) && KeepsHeaders(!WordChar(t[taken - 1]), t[taken..]))
  {
    hide Apply, DroppedValue, HasHeader;
  }

  lemma KeepsStep(t: string)
    requires Apply(Assignments, true, t).Some?
    ensures var taken := Apply(Assignments, true, t).value.taken;
            KeepsHeaders(true, t) == (!HasHeader(true, DroppedValue(t)) && KeepsHeaders(true, t[taken..]))
  {
    hide Apply, DroppedValue, HasHeader, Stopped, KeepsHeaders;
    KeepsUnfolds(t);
    HitStops(Assignments, true, t);
    var taken := Apply(Assignments, true, t).value.taken;
    KeepsIrrelevantStart(false, !WordChar(t[taken - 1]), true, t[taken..]);
  }

  lemma KeepsAtHit(t: string)
    requires Apply(Assignments, true, t).Some?
    ensures KeepsHeaders(true, t) == ValueKeeps(true, t[ValueStart(t)..])
  {
    hide Apply, DroppedValue, HasHeader, KeepsHeaders, ValueStart, ValueRun;
    ValueIsDropped(t);
    KeepsStep(t);
    var v := ValueStart(t);
    SliceOfRest(t, v, ValueRun(t[v..]));
    assert t[v..][ValueRun(t[v..])..] == t[v + ValueRun(t[v..])..];
  }

  /** An assignment is a key, separators, and its value. */
  lemma FrontOfAssignment(t: string) returns (n: nat)
    requires Apply(Assignments, true, t).Some?
    ensures var v := ValueStart(t);
            && n == |Keys()[FirstKey(t).value].word| && 0 < n < v && Assigns(Separators(t, n))
            && v == n + |Separators(t, n)| && t[n..v] == Separators(t, n) && Word(t, Keys()[FirstKey(t).value].word)
  {
    var k := FirstKey(t).value;
    AssignmentHit(t, k);
    KeyWordsAreWords(k);
    n := |Keys()[k].word|;
    assert Separators(t, n) != "";
    hide Keys, Apply, FirstKey, Separators, Word, Assigns;
    SeparatorsAreSeparators(t, n);
  }

  lemma CharactersInFront(t: string, n: nat)
    requires Apply(Assignments, true, t).Some? && n == |Keys()[FirstKey(t).value].word|
    ensures 0 < n <= WordRun(t) && n < ValueStart(t) && forall i :: 0 <= i < n ==> WordChar(t[..n][i])
    ensures var v := ValueStart(t); forall i :: 0 <= i < v - n ==> Separator(t[n..v][i])
  {
    var m := FrontOfAssignment(t);
    hide Apply, Keys, FirstKey, Separators, ValueStart, Assigns, Word;
    var k := FirstKey(t).value;
    KeyWordsAreKeyText(k);
    WordIsMadeOfWordChars(t, Keys()[k].word);
    SameFrontAsItself(t);
    WordNeedsFront(t, t, Keys()[k].word);
    SeparatorsAreSeparators(t, n);
  }

  lemma SameFrontAsItself(t: string)
    ensures SameFront(t, t)
  {
  }

  lemma KeyAndSeparatorsAreQuiet(key: string, separators: string, value: string)
    requires key != "" && (forall i :: 0 <= i < |key| ==> WordChar(key[i]))
    requires separators != "" && forall i :: 0 <= i < |separators| ==> Separator(separators[i])
    requires Apply(Headers, true, key + separators + value).None?
    ensures Quiet(Headers, true, key + separators, value) && After(true, key + separators)
  {
    hide Apply, Quiet;
    assert key + separators + value == key + (separators + value);
    QuietWord(Headers, true, key, separators + value);
    QuietMarks(Headers, After(true, key), separators, value);
    QuietConcat(Headers, true, key, separators, value);
  }

  /** What precedes the value is quiet for the header rule. */
  lemma FrontIsQuiet(t: string)
    requires Apply(Assignments, true, t).Some? && Apply(Headers, true, t).None?
    ensures var v := ValueStart(t); Quiet(Headers, true, t[..v], t[v..]) && After(true, t[..v])
  {
    hide Keys, Apply, FirstKey, Separators, ValueStart, Quiet, After, Word, Assigns;
    var n := FrontOfAssignment(t);
    CharactersInFront(t, n);
    var v := ValueStart(t);
    assert t == t[..n] + t[n..v] + t[v..] && t[..v] == t[..n] + t[n..v];
    KeyAndSeparatorsAreQuiet(t[..n], t[n..v], t[v..]);
  }

  lemma KeySurvives(t: string)
    requires Apply(Assignments, true, t).Some? && Apply(Headers, true, t).None?
    ensures var u := Pass(Headers, true, t); Apply(Assignments, true, u).Some? && ValueStart(u) == ValueStart(t)
  {
    var n := FrontOfAssignment(t);
    CharactersInFront(t, n);
    var k := FirstKey(t).value;
    hide Keys, Apply, FirstKey, Separators, Pass, SameFront, Assigns;
    var u := Pass(Headers, true, t);
    PassCopies(Headers, true, t);
    CopyKeepsFront(Headers, t);
    SameFrontSameKey(t, u);
    SeparatorsAgree(Headers, t, n);
    AssignmentHit(u, k);
  }

  /** The header pass leaves an assignment where it is; only its value may change. */
  lemma AssignmentSurvives(t: string)
    requires Apply(Assignments, true, t).Some? && Apply(Headers, true, t).None?
    ensures var u, v := Pass(Headers, true, t), ValueStart(t);
            && Apply(Assignments, true, u).Some? && ValueStart(u) == v
            && u[v..] == Pass(Headers, true, t[v..])
  {
    hide Apply, Pass, ValueStart;
    KeySurvives(t);
    FrontIsQuiet(t);
    var v := ValueStart(t);
    QuietPass(Headers, true, t[..v], t[v..]);
    assert t[..v] + t[v..] == t;
  }

  /** Outside a value. */
  lemma HeaderOutside(start: bool, t: string)
    requires Apply(Headers, start, t).Some?
    ensures var hit := Apply(Headers, start, t).value;
            var s, rest := !WordChar(t[hit.taken - 1]), t[hit.taken..];
            KeepsHeaders(start, Pass(Headers, start, t)) == KeepsHeaders(s, Pass(Headers, s, rest))
  {
    hide Apply, Pass, KeepsHeaders;
    HitsStartWords(Headers, start, t);
    var hit := Apply(Headers, start, t).value;
    var s, rest := !WordChar(t[hit.taken - 1]), t[hit.taken..];
    var out := Pass(Headers, s, rest);
    PassReplaces(Headers, start, t);
    HitStops(Headers, start, t);
    StartIrrelevant(Headers, WholeLine(Headers, t), s, true, rest);
    HeaderMarkerIsQuiet(t, out);
    KeepsQuiet(true, hit.shown, out);
    HitRescans(Headers, t, out);
    KeepsIrrelevantStart(WholeLine(Headers, t), s, After(true, hit.shown), out);
  }

  /** Inside a value: an authorization word is dropped with it, a bearer credential ends it. */
  lemma HeaderInside(start: bool, t: string)
    requires Apply(Headers, start, t).Some?
    ensures var hit := Apply(Headers, start, t).value;
            var s, rest := !WordChar(t[hit.taken - 1]), t[hit.taken..];
            ValueKeeps(start, Pass(Headers, start, t)) ==
            (!Word(t, Authorization()) && KeepsHeaders(s, Pass(Headers, s, rest)))
  {
    HitsStartWords(Headers, start, t);
    var hit := Apply(Headers, start, t).value;
    var s, rest := !WordChar(t[hit.taken - 1]), t[hit.taken..];
    var out := Pass(Headers, s, rest);
    assert hit.shown == if Word(t, Authorization()) then Header() else Credential();
    hide Apply, Pass, Word, Header, Credential, Authorization, KeepsHeaders, ValueKeeps;
    PassReplaces(Headers, start, t);
    HitStops(Headers, start, t);
    if Word(t, Authorization()) {
      HeaderInValue(out);
    } else {
      StartIrrelevant(Headers, false, s, true, rest);
      KeepsIrrelevantStart(false, s, true, out);
      CredentialInValue(out);
    }
  }

  lemma HeaderInValue(out: string)
    ensures !ValueKeeps(true, Header() + out)
  {
    hide Header, Authorization, Stray, KeepsHeaders, HasHeader, ValueRun;
    HeaderHasHeader();
    var name := Authorization() + ":";
    assert Header() + out == name + (Stray() + out);
    ValueRunOf(name, Stray() + out);
    assert (name + (Stray() + out))[..|name|] == name;
  }

  lemma CredentialInValue(out: string)
    ensures ValueKeeps(true, Credential() + out) == KeepsHeaders(true, out)
  {
    hide KeepsHeaders, HasHeader, ValueRun, CredentialValue, Credential, Quiet, Apply;
    CredentialParts();
    BearerHasNoHeader();
    var tail := " " + CredentialValue();
    assert Credential() + out == "Bearer" + (tail + out);
    ValueRunOf("Bearer", tail + out);
    assert ("Bearer" + (tail + out))[..6] == "Bearer" && ("Bearer" + (tail + out))[6..] == tail + out;
    QuietMarks(Assignments, true, " ", CredentialValue() + out);
    CredentialValueIsQuiet(Assignments, After(true, " "), out);
    QuietConcat(Assignments, true, " ", CredentialValue(), out);
    KeepsQuiet(true, tail, out);
    assert tail[|tail| - 1] == '>';
  }

  lemma CopyOutside(start: bool, t: string)
    requires t != "" && Apply(Headers, start, t).None? && Apply(Assignments, start, t).None?
    ensures KeepsHeaders(start, Pass(Headers, start, t)) ==
            KeepsHeaders(!WordChar(t[0]), Pass(Headers, !WordChar(t[0]), t[1..]))
  {
    hide Apply, Pass, DroppedValue, HasHeader;
    PassCopies(Headers, start, t);
    CopyKeepsMisses(Assignments, Headers, start, t);
    assert Pass(Headers, start, t)[1..] == Pass(Headers, !WordChar(t[0]), t[1..]);
  }

  lemma CopyInside(start: bool, t: string)
    requires t != "" && Apply(Headers, start, t).None? && !EndsValue(t[0])
    ensures ValueKeeps(start, Pass(Headers, start, t)) ==
            ValueKeeps(!WordChar(t[0]), Pass(Headers, !WordChar(t[0]), t[1..]))
  {
    hide Pass, KeepsHeaders;
    var u := Pass(Headers, start, t);
    var rest := Pass(Headers, !WordChar(t[0]), t[1..]);
    PassCopies(Headers, start, t);
    CopyKeepsMisses(Headers, Headers, start, t);
    assert u[1..] == rest;
    var n := ValueRun(rest);
    assert ValueRun(u) == n + 1;
    assert u[..n + 1] == [t[0]] + rest[..n] && ([t[0]] + rest[..n])[1..] == rest[..n];
    assert u[n + 1..] == rest[n..];
    if start && Word(u[..n + 1], Authorization()) {
      assert u == u[..n + 1] + u[n + 1..];
      WordInToken(u[..n + 1], u[n + 1..]);
    }
    hide Apply, Word, ValueRun;
  }

  /** The end of a value. */
  lemma CopyAtEnd(start: bool, t: string)
    requires t != "" && EndsValue(t[0])
    ensures Apply(Headers, start, t).None?
    ensures ValueKeeps(start, Pass(Headers, start, t)) == KeepsHeaders(true, Pass(Headers, true, t[1..]))
  {
    hide Pass, DroppedValue, HasHeader;
    if Apply(Headers, start, t).Some? { HitsStartWithLetter(Headers, start, t); }
    var u := Pass(Headers, start, t);
    PassCopies(Headers, start, t);
    assert u[1..] == Pass(Headers, true, t[1..]);
    if Apply(Assignments, true, u).Some? { HitsStartWithLetter(Assignments, true, u); }
    hide Apply;
    assert ValueRun(u) == 0 && u[..0] == "" && u[0..] == u;
    EmptyHasNoHeader(start);
  }

  lemma EmptyHasNoHeader(start: bool)
    ensures !HasHeader(start, "")
  {
  }

  lemma EmptyValueKeeps(start: bool)
    ensures ValueKeeps(start, Pass(Headers, start, "")) && KeepsHeaders(start, Pass(Headers, start, ""))
  {
  }

  /** What the scan says of a text is what the passes do to it. */
  lemma {:induction false} ScanAgrees(start: bool, inValue: bool, t: string)
    ensures var out := Pass(Headers, start, t);
            ValuesHoldNoHeader(start, inValue, t) ==
            if inValue then ValueKeeps(start, out) else KeepsHeaders(start, out)
    decreases |t|
  {
    hide Apply, Pass, Word, KeepsHeaders, ValueKeeps, ValueStart;
    if t == "" {
      EmptyValueKeeps(start);
    } else if Apply(Headers, start, t).Some? {
      var taken := Apply(Headers, start, t).value.taken;
      if inValue { HeaderInside(start, t); } else { HeaderOutside(start, t); }
      ScanAgrees(!WordChar(t[taken - 1]), false, t[taken..]);
    } else if !inValue && Apply(Assignments, start, t).Some? {
      HitsStartWords(Assignments, start, t);
      AssignmentSurvives(t);
      KeepsAtHit(Pass(Headers, true, t));
      ScanAgrees(true, true, t[ValueStart(t)..]);
    } else {
      if !inValue { CopyOutside(start, t); }
      else if EndsValue(t[0]) { CopyAtEnd(start, t); }
      else { CopyInside(start, t); }
      ScanAgrees(!WordChar(t[0]), inValue && !EndsValue(t[0]), t[1..]);
    }
  }

  // ---------------------------------------------------------------- texts without an authorization word

  lemma {:induction false} NoHeaderAfter(start: bool, t: string, n: nat)
    requires !HasHeader(start, t) && 0 < n <= |t|
    ensures !HasHeader(!WordChar(t[n - 1]), t[n..])
    decreases n
  {
    hide Word;
    if n > 1 {
      NoHeaderAfter(!WordChar(t[0]), t[1..], n - 1);
      assert t[1..][n - 1..] == t[n..];
    }
  }

  lemma SeparatorBeforeValue(t: string)
    requires Apply(Assignments, true, t).Some?
    ensures !WordChar(t[ValueStart(t) - 1])
  {
    hide Apply, Keys, FirstKey, ValueStart, Word, Separators, Assigns;
    var n := FrontOfAssignment(t);
    CharactersInFront(t, n);
    var v := ValueStart(t);
    assert t[v - 1] == t[n..v][v - n - 1];
  }

  /** Without such a word no value holds one. */
  lemma {:induction false} NoHeaderNoValue(start: bool, inValue: bool, t: string)
    requires !HasHeader(start, t)
    ensures ValuesHoldNoHeader(start, inValue, t)
    decreases |t|
  {
    if t != "" && Apply(Headers, start, t).Some? {
      HitsStartWords(Headers, start, t);
      var taken := Apply(Headers, start, t).value.taken;
      hide Apply;
      NoHeaderAfter(start, t, taken);
      NoHeaderNoValue(!WordChar(t[taken - 1]), false, t[taken..]);
    } else if t != "" && !inValue && Apply(Assignments, start, t).Some? {
      HitsStartWords(Assignments, start, t);
      hide Apply, ValueStart, HasHeader;
      SeparatorBeforeValue(t);
      var v := ValueStart(t);
      NoHeaderAfter(start, t, v);
      NoHeaderNoValue(true, true, t[v..]);
    } else if t != "" {
      hide Apply;
      NoHeaderAfter(start, t, 1);
      NoHeaderNoValue(!WordChar(t[0]), inValue && !EndsValue(t[0]), t[1..]);
    }
  }

  /** Replacing what follows a place where no word goes on cannot complete a word across it. */
  lemma {:induction false} NoneAcross(start: bool, p: string, q: string, q': string)
    requires !HasHeader(start, p + q) && !HasHeader(After(start, p), q')
    requires q != "" ==> !Continues(q[0])
    requires q' != "" ==> !Continues(q'[0])
    ensures !HasHeader(start, p + q')
    decreases |p|
  {
    if p == "" {
      assert p + q' == q';
    } else {
      Behead(p, q);
      Behead(p, q');
      if Word(p + q', Authorization()) { WordAcross(p, q, q'); }
      hide Word;
      NoneAcross(!WordChar(p[0]), p[1..], q, q');
    }
  }

  lemma WordAcross(p: string, q: string, q': string)
    requires Word(p + q', Authorization())
    requires q != "" ==> !Continues(q[0])
    requires q' != "" ==> !Continues(q'[0])
    ensures Word(p + q, Authorization())
  {
    var n := |Authorization()|;
    assert forall i :: 0 <= i < |p| ==> (p + q)[i] == (p + q')[i];
    LiteralsAreWords();
    assert forall i :: 0 <= i < n ==> Continues((p + q')[i]);
    assert q' != "" ==> q'[0] == (p + q')[|p|];
  }

  /** No authorization word starts in `p`, whatever follows. */
  predicate WithoutA(start: bool, p: string) {
    (start && p != "" ==> Lower(p[0]) != 'a') && forall i :: 0 < i < |p| && Lower(p[i]) == 'a' ==> WordChar(p[i - 1])
  }

  lemma {:induction false} NoneWithoutA(start: bool, p: string, rest: string)
    requires WithoutA(start, p)
    ensures HasHeader(start, p + rest) == HasHeader(After(start, p), rest)
    decreases |p|
  {
    if p == "" {
      assert p + rest == rest;
    } else {
      Behead(p, rest);
      assert Authorization()[0] == 'a';
      if Word(p + rest, Authorization()) {
        assert Lower((p + rest)[0]) == Authorization()[0];
      }
      assert After(!WordChar(p[0]), p[1..]) == After(start, p);
      assert WithoutA(!WordChar(p[0]), p[1..]) by {
        assert |p| > 1 ==> p[1..][0] == p[1];
        forall i | 0 < i < |p| - 1 && Lower(p[1..][i]) == 'a' ensures WordChar(p[1..][i - 1]) {
          assert p[1..][i] == p[i + 1];
        }
      }
      hide Word;
      NoneWithoutA(!WordChar(p[0]), p[1..], rest);
    }
  }

  lemma PemLiteralsWithoutA(start: bool)
    ensures WithoutA(start, Begin()) && !Continues(Begin()[0])
    ensures WithoutA(start, KeyMarker()) && KeyMarker() != "" && !Continues(KeyMarker()[0]) && After(start, KeyMarker())
  {
  }

  lemma NoHeaderAtNewline(start: bool, t: string)
    requires !HasHeader(start, t) && (t != "" ==> t[0] == '\n')
    ensures !HasHeader(true, t)
  {
  }

  /** The first pass brings no authorization word. */
  lemma {:induction false} PemBringsNoHeader(start: bool, t: string)
    requires !HasHeader(start, t)
    ensures !HasHeader(start, PemPass(t))
    decreases |t|
  {
    hide Begin, KeyMarker, Announces, BlockLength, PemPass, Find, LineEnd, HasHeader;
    match Find(t, Begin())
    case None => NoAnchorNoChange(t);
    case Some(b) =>
      var after := t[b..];
      PemLiteralsWithoutA(After(start, t[..b]));
      assert t[..b] + after == t;
      assert after[0] == Begin()[0];
      if !Announces(after[..LineEnd(after)]) {
        var n := b + |Begin()|;
        var rest := t[n..];
        NoHeaderAfter(start, t, n);
        PemBringsNoHeader(!WordChar(t[n - 1]), rest);
        assert Begin()[|Begin()| - 1] == t[n - 1];
        NoneWithoutA(After(start, t[..b]), Begin(), PemPass(rest));
        NoneAcross(start, t[..b], after, Begin() + PemPass(rest));
        PassSkips(t, b);
        assert t[..n] + PemPass(rest) == t[..b] + (Begin() + PemPass(rest));
      } else {
        var n := BlockLength(after);
        var rest := after[n..];
        NoHeaderAfter(start, t, b + n);
        assert rest == t[b + n..];
        NoHeaderAtNewline(!WordChar(t[b + n - 1]), rest);
        PemBringsNoHeader(true, rest);
        NoneWithoutA(After(start, t[..b]), KeyMarker(), PemPass(rest));
        NoneAcross(start, t[..b], after, KeyMarker() + PemPass(rest));
        PassWithBlock(t, b, n);
      }
  }
}
