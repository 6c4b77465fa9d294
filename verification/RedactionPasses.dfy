/** How one pass treats the text between its hits: copying never creates something new to find. */
module RedactionPasses {
  import opened Options
  import opened AsciiCase
  import opened RedactionRules

  predicate KeyChar(c: char) { 'a' <= c <= 'z' || c == '_' || c == '-' }

  predicate KeyText(s: string) {
    s != "" && forall i :: 0 <= i < |s| ==> KeyChar(s[i])
  }

  /** The keys are made of lower-case letters, `_` and `-`. */
  lemma KeyWordsAreKeyText(k: nat)
    requires k < |Keys()|
    ensures KeyText(Keys()[k].word)
  {
    hide KeyText, Keys;
    if k < 8 { EarlyKeyWords(k); } else { LateKeyWords(k); }
  }

  lemma EarlyKeyWords(k: nat)
    requires k < 8
    ensures KeyText(Keys()[k].word)
  {
  }

  lemma LateKeyWords(k: nat)
    requires 8 <= k < 17
    ensures KeyText(Keys()[k].word)
  {
  }

  lemma KeyNamesAreKeyText(k: nat)
    requires k < |Keys()|
    ensures KeyText(Keys()[k].name)
  {
  }

  /** They start with a letter, and differently from the header keywords. */
  lemma KeyWordsStartApart(k: nat)
    requires k < |Keys()|
    ensures |Keys()[k].word| > 1 && Letter(Keys()[k].word[0]) && Keys()[k].word[0] != 'b' && Keys()[k].word[1] != 'u'
  {
  }

  /** A rule applies only where a word starts with a letter. */
  lemma HitsStartWithLetter(rule: Rule, start: bool, t: string)
    requires Apply(rule, start, t).Some?
    ensures start && t != "" && Letter(t[0])
    ensures var shown := Apply(rule, start, t).value.shown; shown != "" && Letter(shown[0])
  {
    if rule == Assignments {
      var k := FirstKey(t).value;
      KeyWordsStartApart(k);
      assert Lower(t[0]) == Keys()[k].word[0];
    } else {
      assert Lower(t[0]) == Authorization()[0] || Lower(t[0]) == Bearer()[0];
    }
  }

  // The two ways a pass goes on.

  lemma PassCopies(rule: Rule, start: bool, t: string)
    requires t != "" && Apply(rule, start, t).None?
    ensures Pass(rule, start, t) == [t[0]] + Pass(rule, !WordChar(t[0]), t[1..])
  {
    hide Apply;
  }

  lemma PassReplaces(rule: Rule, start: bool, t: string)
    requires Apply(rule, start, t).Some?
    ensures var hit := Apply(rule, start, t).value;
            Pass(rule, start, t) == hit.shown + Pass(rule, !WordChar(t[hit.taken - 1]), t[hit.taken..])
  {
    hide Apply;
  }

  /** The first character of the output tells the first character of the input, as far as any rule looks. */
  lemma PassHead(rule: Rule, start: bool, t: string)
    ensures Pass(rule, start, t) == "" <==> t == ""
    ensures t != "" ==> Pass(rule, start, t)[0] == t[0] || (Letter(Pass(rule, start, t)[0]) && Letter(t[0]))
  {
    hide Apply;
    if t != "" && Apply(rule, start, t).Some? {
      HitsStartWithLetter(rule, start, t);
    }
  }

  function WordRun(t: string): (n: nat)
    ensures n <= |t| && forall i :: 0 <= i < n ==> WordChar(t[i])
    ensures n < |t| ==> !WordChar(t[n])
  {
    if t == "" || !WordChar(t[0]) then 0 else 1 + WordRun(t[1..])
  }

  lemma NothingInsideWord(rule: Rule, t: string)
    ensures Apply(rule, false, t).None?
  {
  }

  /** Inside a word everything is copied. */
  lemma {:induction false} PassCopiesWord(rule: Rule, t: string)
    ensures var n := WordRun(t); Pass(rule, false, t) == t[..n] + Pass(rule, false, t[n..])
    decreases |t|
  {
    hide Apply, Pass;
    var n := WordRun(t);
    if n > 0 {
      NothingInsideWord(rule, t);
      PassCopies(rule, false, t);
      PassCopiesWord(rule, t[1..]);
      Slices(t, n);
      var tail := Pass(rule, false, t[n..]);
      assert [t[0]] + (t[1..][..n - 1] + tail) == [t[0]] + t[1..][..n - 1] + tail;
    } else {
      Slices(t, 0);
    }
  }

  lemma Slices(t: string, n: nat)
    requires n <= |t|
    ensures n == 0 ==> t[..n] == "" && t[n..] == t && "" + t == t
    ensures n > 0 ==> t[1..][n - 1..] == t[n..] && [t[0]] + t[1..][..n - 1] == t[..n]
    ensures t[..n] + t[n..] == t
  {
  }

  /** Separators are copied, and what follows them is no separator before or after. */
  lemma {:induction false} PassCopiesSeparators(rule: Rule, start: bool, t: string)
    ensures var n := SeparatorRun(t);
            var out := Pass(rule, start, t);
            SeparatorRun(out) == n && out[..n] == t[..n]
    decreases |t|
  {
    hide Apply, Pass;
    var out := Pass(rule, start, t);
    PassHead(rule, start, t);
    if t != "" && Separator(t[0]) {
      if Apply(rule, start, t).Some? { HitsStartWithLetter(rule, start, t); }
      PassCopies(rule, start, t);
      PassCopiesSeparators(rule, !WordChar(t[0]), t[1..]);
      var n := SeparatorRun(t);
      assert out[1..] == Pass(rule, !WordChar(t[0]), t[1..]);
      assert out[..n] == [out[0]] + out[1..][..n - 1] && t[..n] == [t[0]] + t[1..][..n - 1];
    } else {
      assert out[..0] == t[..0];
    }
  }

  /** The same word and the same character after it. */
  predicate SameFront(t: string, u: string) {
    var m := WordRun(t);
    m == WordRun(u) && t[..m] == u[..m] && (|t| > m <==> |u| > m) && (|t| > m ==> t[m] == u[m])
  }

  lemma SameFrontSameWord(t: string, u: string, keyword: string)
    requires SameFront(t, u) && KeyText(keyword)
    ensures Word(t, keyword) <==> Word(u, keyword)
  {
    if Word(t, keyword) { WordNeedsFront(t, u, keyword); }
    if Word(u, keyword) { WordNeedsFront(u, t, keyword); }
  }

  lemma WordNeedsFront(t: string, u: string, keyword: string)
    requires SameFront(t, u) && KeyText(keyword) && Word(t, keyword)
    ensures Word(u, keyword) && |keyword| <= WordRun(t)
  {
    var m := WordRun(t);
    assert |keyword| <= m by {
      assert m < |keyword| ==> KeyChar(keyword[m]);
    }
    forall i | 0 <= i < |keyword| ensures Lower(u[i]) == keyword[i] {
      assert t[..m][i] == u[..m][i];
    }
    if |u| > |keyword| {
      if |keyword| < m { assert t[..m][|keyword|] == u[..m][|keyword|]; }
    }
  }

  /** Copying a character in front of what any pass makes of the rest keeps the front. */
  lemma CopyKeepsFront(other: Rule, t: string)
    requires t != ""
    ensures SameFront(t, [t[0]] + Pass(other, !WordChar(t[0]), t[1..]))
  {
    hide Apply, Pass, SameFront;
    var u := [t[0]] + Pass(other, !WordChar(t[0]), t[1..]);
    if WordChar(t[0]) {
      CopiedWord(other, t);
      var m := WordRun(t);
      PassHead(other, false, t[m..]);
      FrontIs(t, m, Pass(other, false, t[m..]));
    } else {
      FrontOfNoWord(t, u);
    }
  }

  lemma FrontOfNoWord(t: string, u: string)
    requires t != "" && u != "" && t[0] == u[0] && !WordChar(t[0])
    ensures SameFront(t, u)
  {
  }

  lemma CopiedWord(other: Rule, t: string)
    requires t != "" && WordChar(t[0])
    ensures var m := WordRun(t);
            [t[0]] + Pass(other, !WordChar(t[0]), t[1..]) == t[..m] + Pass(other, false, t[m..])
  {
    hide Apply, Pass;
    NothingInsideWord(other, t);
    PassCopies(other, false, t);
    PassCopiesWord(other, t);
  }

  lemma FrontIs(t: string, m: nat, tail: string)
    requires m == WordRun(t)
    requires tail == "" <==> m == |t|
    requires tail != "" ==> tail[0] == t[m]
    ensures SameFront(t, t[..m] + tail) && (t[..m] + tail)[m..] == tail
  {
    WordRunOf(t[..m], tail);
  }

  lemma {:induction false} WordRunOf(word: string, tail: string)
    requires forall i :: 0 <= i < |word| ==> WordChar(word[i])
    requires tail != "" ==> !WordChar(tail[0])
    ensures WordRun(word + tail) == |word|
  {
    if word == "" {
      assert word + tail == tail;
    } else {
      assert (word + tail)[1..] == word[1..] + tail;
      WordRunOf(word[1..], tail);
    }
  }

  /** No hit before means no hit after: a pass over the rest cannot complete a keyword that was not there. */
  lemma CopyKeepsMisses(rule: Rule, other: Rule, start: bool, t: string)
    requires t != "" && Apply(rule, start, t).None?
    ensures Apply(rule, start, [t[0]] + Pass(other, !WordChar(t[0]), t[1..])).None?
  {
    hide Apply, Pass;
    var u := [t[0]] + Pass(other, !WordChar(t[0]), t[1..]);
    CopyKeepsFront(other, t);
    if rule == Headers {
      SameFrontSameHeaders(start, t, u);
    } else {
      forall n: nat | 0 < n <= WordRun(t)
        ensures n <= |u| && Separators(t, n) == Separators(u, n)
      {
        SeparatorsAgree(other, t, n);
      }
      SameFrontSameAssignments(start, t, u);
    }
  }

  lemma SameFrontSameHeaders(start: bool, t: string, u: string)
    requires SameFront(t, u)
    ensures Apply(Headers, start, t).None? <==> Apply(Headers, start, u).None?
  {
    SameFrontSameWord(t, u, Authorization());
    SameFrontSameWord(t, u, Bearer());
    if Word(t, Bearer()) {
      WordNeedsFront(t, u, Bearer());
    }
  }

  lemma SameFrontSameAssignments(start: bool, t: string, u: string)
    requires SameFront(t, u)
    requires forall n: nat :: 0 < n <= WordRun(t) ==> n <= |u| && Separators(t, n) == Separators(u, n)
    ensures Apply(Assignments, start, t).None? <==> Apply(Assignments, start, u).None?
  {
    hide Keys, Separators;
    SameFrontSameKey(t, u);
    var k := FirstKey(t);
    if k.Some? {
      KeyWordsAreKeyText(k.value);
      WordNeedsFront(t, u, Keys()[k.value].word);
    }
  }

  lemma SameFrontSameKey(t: string, u: string)
    requires SameFront(t, u)
    ensures FirstKey(t) == FirstKey(u)
  {
    hide Keys;
    forall k | 0 <= k < |Keys()| ensures Word(t, Keys()[k].word) <==> Word(u, Keys()[k].word) {
      KeyWordsAreKeyText(k);
      SameFrontSameWord(t, u, Keys()[k].word);
    }
    hide Word, SameFront;
  }

  /** The separators after a keyword are those of the input. */
  lemma SeparatorsAgree(other: Rule, t: string, n: nat)
    requires t != "" && 0 < n <= WordRun(t)
    ensures var u := [t[0]] + Pass(other, !WordChar(t[0]), t[1..]);
            n <= |u| && Separators(t, n) == Separators(u, n)
  {
    hide Apply, Pass, Separators;
    var u := [t[0]] + Pass(other, !WordChar(t[0]), t[1..]);
    var m := WordRun(t);
    var tail := Pass(other, false, t[m..]);
    CopiedWord(other, t);
    if n < m {
      NoSeparators(t, u, n);
    } else {
      PassCopiesSeparators(other, false, t[m..]);
      SameSeparators(t, u, m, tail);
    }
  }

  lemma NoSeparators(t: string, u: string, n: nat)
    requires n < |t| && n < |u| && t[n] == u[n] && WordChar(t[n])
    ensures Separators(t, n) == Separators(u, n) == ""
  {
    assert t[n..][0] == t[n] && u[n..][0] == u[n];
  }

  lemma SameSeparators(t: string, u: string, m: nat, tail: string)
    requires m <= |t| && u == t[..m] + tail
    requires var s := SeparatorRun(t[m..]); SeparatorRun(tail) == s && tail[..s] == t[m..][..s]
    ensures Separators(t, m) == Separators(u, m)
  {
    hide SeparatorRun;
    var s := SeparatorRun(tail);
    assert u[m..] == tail;
    SliceOfRest(t, m, s);
    SliceOfRest(u, m, s);
  }

  lemma SliceOfRest(t: string, m: nat, s: nat)
    requires m + s <= |t|
    ensures t[m..m + s] == t[m..][..s]
  {
  }
}
