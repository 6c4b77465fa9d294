/** After the first pass no line announces a private key, and the later passes cannot announce one again. */
module RedactionNoKey {
  import opened Options
  import opened RedactionRules
  import opened RedactionPasses
  import opened RedactionMarkers
  import opened RedactionPem

  /** `word` stands somewhere on the first line. */
  predicate LineHas(t: string, word: string) {
    t != "" && (word <= t || (t[0] != '\n' && LineHas(t[1..], word)))
  }

  /** Somewhere a begin anchor is followed on its line by the words of a private key. */
  predicate HasKey(t: string) {
    t != "" && ((Begin() <= t && LineHas(t, PrivateKey())) || HasKey(t[1..]))
  }

  lemma {:induction false} HasKeyAt(t: string, i: nat)
    requires i <= |t|
    ensures HasKey(t[i..]) ==> HasKey(t)
  {
    hide Begin, PrivateKey, LineHas;
    if i == 0 {
      assert t[0..] == t;
    } else {
      HasKeyAt(t[1..], i - 1);
      DropTwice(t, 1, i - 1);
    }
  }

  lemma WordsFitOnLines()
    ensures forall i :: 0 <= i < |PrivateKey()| ==> PrivateKey()[i] != '\n'
    ensures |PrivateKey()| > 0 && |Begin()| == 10
  {
  }

  /** The recursive and the searching view of a line agree. */
  lemma {:induction false} LineHasIsAnnounces(t: string)
    ensures LineHas(t, PrivateKey()) <==> Announces(t[..LineEnd(t)])
  {
    hide PrivateKey;
    WordsFitOnLines();
    var line := t[..LineEnd(t)];
    if PrivateKey() <= t {
      WithinLine(t, PrivateKey());
      PrefixOfPrefix(t, LineEnd(t), PrivateKey());
    } else {
      PrefixOfPrefix(t, LineEnd(t), PrivateKey());
      if t != "" && t[0] != '\n' {
        LineHasIsAnnounces(t[1..]);
        assert line[1..] == t[1..][..LineEnd(t[1..])];
      }
    }
  }

  /** Without an announced key the first pass changes nothing. */
  lemma {:induction false} NoKeyNoChange(t: string)
    requires !HasKey(t)
    ensures PemPass(t) == t
    decreases |t|
  {
    hide Begin, PrivateKey, LineHas, LineEnd, BlockLength, Announces, Find;
    match Find(t, Begin())
    case None =>
    case Some(b) =>
      HasKeyAt(t, b);
      LineHasIsAnnounces(t[b..]);
      assert !LineHas(t[b..], PrivateKey());
      var n := b + |Begin()|;
      HasKeyAt(t, n);
      NoKeyNoChange(t[n..]);
      assert t[..n] + t[n..] == t;
  }

  // ---------------------------------------------------------------- the first pass leaves no key

  lemma {:induction false} SkipNoBegin(x: string, y: string)
    requires forall i :: 0 <= i < |x| ==> !(Begin() <= (x + y)[i..])
    ensures HasKey(x + y) == HasKey(y)
  {
    hide Begin, PrivateKey, LineHas;
    if x == "" {
      assert x + y == y;
    } else {
      Behead(x, y);
      assert (x + y)[0..] == x + y;
      forall i | 0 <= i < |x[1..]| ensures !(Begin() <= (x[1..] + y)[i..]) {
        assert !(Begin() <= (x + y)[i + 1..]);
        DropTwice(x + y, 1, i);
      }
      SkipNoBegin(x[1..], y);
    }
  }

  /** A begin anchor does not overlap itself. */
  lemma BeginStandsAlone(y: string, i: nat)
    requires 0 < i < |Begin()|
    ensures !(Begin() <= (Begin() + y)[i..])
  {
    var t := (Begin() + y)[i..];
    assert i < 5 ==> t[5 - i] == 'B' && Begin()[5 - i] == '-';
    assert i >= 5 ==> t[0] == Begin()[i] != '-';
  }

  /** Whether an anchor starts at `i` depends on ten characters. */
  lemma BeginDepends(t: string, u: string, i: nat)
    requires i + |Begin()| <= |t| && i + |Begin()| <= |u| && t[i..i + |Begin()|] == u[i..i + |Begin()|]
    ensures Begin() <= t[i..] <==> Begin() <= u[i..]
  {
    hide Begin;
    assert t[i..][..|Begin()|] == t[i..i + |Begin()|];
    assert u[i..][..|Begin()|] == u[i..i + |Begin()|];
  }

  lemma SliceOfPrefix(t: string, m: nat, i: nat, n: nat)
    requires i + n <= m <= |t|
    ensures t[i..i + n] == t[..m][i..i + n]
  {
  }

  /** Before the first anchor none starts, whatever follows the anchor. */
  lemma NoBeginBefore(t: string, b: nat, v: string, i: nat)
    requires Find(t, Begin()) == Some(b) && i < b
    ensures !(Begin() <= (t[..b] + (Begin() + v))[i..])
  {
    hide Begin, Find;
    var u := t[..b] + (Begin() + v);
    var n := |Begin()|;
    assert t[b..][..n] == Begin();
    assert u[..b + n] == t[..b + n];
    SliceOfPrefix(t, b + n, i, n);
    SliceOfPrefix(u, b + n, i, n);
    BeginDepends(t, u, i);
    if Begin() <= t[i..] { FindIsFirst(t, Begin(), i); }
  }

  /** Nor when a marker stands in its place. */
  lemma NoBeginBeforeMarker(t: string, b: nat, v: string, i: nat)
    requires Find(t, Begin()) == Some(b) && i < b && v != "" && v[0] == '<'
    ensures !(Begin() <= (t[..b] + v)[i..])
  {
    NoBracketInBegin();
    hide Begin, Find;
    var u := t[..b] + v;
    var n := |Begin()|;
    if i + n <= b {
      assert u[..b] == t[..b];
      SliceOfPrefix(t, b, i, n);
      SliceOfPrefix(u, b, i, n);
      BeginDepends(t, u, i);
      if Begin() <= t[i..] { FindIsFirst(t, Begin(), i); }
    } else {
      assert u[i..][b - i] == '<' && Begin()[b - i] != '<';
    }
  }

  lemma NoBracketInBegin()
    ensures forall i :: 0 <= i < |Begin()| ==> Begin()[i] != '<'
  {
  }

  /** Nor inside the marker. */
  lemma NoBeginInMarker(w: string, i: nat)
    requires i < |KeyMarker()|
    ensures !(Begin() <= (KeyMarker() + w)[i..])
  {
    DashesInMarker(i);
    BeginStartsWithDashes();
    hide Begin, KeyMarker;
    var u := (KeyMarker() + w)[i..];
    assert u[0] == KeyMarker()[i];
    assert i + 1 < |KeyMarker()| ==> u[1] == KeyMarker()[i + 1];
  }

  lemma DashesInMarker(i: nat)
    requires i < |KeyMarker()|
    ensures KeyMarker()[i] == '-' ==> i + 1 < |KeyMarker()| && KeyMarker()[i + 1] != '-'
    ensures KeyMarker()[0] == '<'
  {
  }

  lemma BeginStartsWithDashes()
    ensures |Begin()| == 10 && Begin()[0] == Begin()[1] == '-'
  {
  }

  /** A word cannot straddle a character it does not contain, so what follows a common front decides. */
  lemma {:induction false} LineSwap(x: string, y: string, z: string, word: string)
    requires word != "" && (x == "" || x[|x| - 1] !in word || (y != "" && y[0] !in word))
    requires LineHas(y, word) ==> LineHas(z, word)
    ensures LineHas(x + y, word) ==> LineHas(x + z, word)
  {
    if x == "" {
      assert x + y == y && x + z == z;
    } else {
      Behead(x, y);
      Behead(x, z);
      LineSwap(x[1..], y, z, word);
      NoStraddle(x, y, z, word);
    }
  }

  lemma NoStraddle(x: string, y: string, z: string, word: string)
    requires x != "" && (x[|x| - 1] !in word || (y != "" && y[0] !in word))
    ensures word <= x + y ==> word <= x + z
  {
    if word <= x + y {
      assert (x + y)[|x| - 1] == x[|x| - 1];
      assert y != "" ==> (x + y)[|x|] == y[0];
      assert |word| <= |x|;
      assert word == (x + y)[..|word|] == x[..|word|];
    }
  }

  lemma AnchorsAndMarkerAreApart()
    ensures Begin()[|Begin()| - 1] !in PrivateKey()
    ensures KeyMarker() != "" && KeyMarker()[0] !in PrivateKey()
  {
  }

  /** The first pass announces nothing on the first line that was not announced there. */
  lemma {:induction false} PemPassAnnouncesNothing(t: string)
    ensures LineHas(PemPass(t), PrivateKey()) ==> LineHas(t, PrivateKey())
    decreases |t|
  {
    AnchorsAndMarkerAreApart();
    hide Begin, PrivateKey, BlockLength, Find, KeyMarker, LineHas, LineEnd, Announces, PemPass;
    match Find(t, Begin())
    case None => NoAnchorNoChange(t);
    case Some(b) =>
      var after := t[b..];
      LineHasIsAnnounces(after);
      if !Announces(after[..LineEnd(after)]) {
        var n := b + |Begin()|;
        PemPassAnnouncesNothing(t[n..]);
        LastOfFront(t, b);
        LineSwap(t[..n], PemPass(t[n..]), t[n..], PrivateKey());
        PassSkips(t, b);
        assert t[..n] + t[n..] == t;
      } else {
        var tail := KeyMarker() + PemPass(after[BlockLength(after)..]);
        assert tail[0] == KeyMarker()[0];
        LineSwap(t[..b], tail, after, PrivateKey());
        PassWithBlock(t, b, BlockLength(after));
        assert t[..b] + after == t && t[..b] + KeyMarker() + PemPass(after[BlockLength(after)..]) == t[..b] + tail;
      }
  }

  lemma LastOfFront(t: string, b: nat)
    requires Find(t, Begin()) == Some(b)
    ensures var front := t[..b + |Begin()|];
            front != "" && front[|front| - 1] == Begin()[|Begin()| - 1] && front == t[..b] + Begin()
  {
    hide Begin, Find;
    assert t[b..][..|Begin()|] == Begin();
  }

  lemma NoAnchorNoKey(t: string)
    requires Find(t, Begin()).None?
    ensures !HasKey(t)
  {
    hide Begin, Find;
    assert t + "" == t;
    forall i | 0 <= i < |t| ensures !(Begin() <= (t + "")[i..]) {
      if Begin() <= t[i..] { FindIsFirst(t, Begin(), i); }
    }
    SkipNoBegin(t, "");
  }

  /** No line of the output announces a private key. */
  lemma {:induction false} PemPassLeavesNoKey(t: string)
    ensures !HasKey(PemPass(t))
    decreases |t|
  {
    hide Begin, PrivateKey, BlockLength, Find, KeyMarker, LineHas, LineEnd, Announces, HasKey;
    match Find(t, Begin())
    case None => NoAnchorNoKey(t);
    case Some(b) =>
      var after := t[b..];
      if !Announces(after[..LineEnd(after)]) {
        var rest := t[b + |Begin()|..];
        PemPassLeavesNoKey(rest);
        SkippedAnchor(t, b, PemPass(rest));
      } else {
        var w := PemPass(after[BlockLength(after)..]);
        PemPassLeavesNoKey(after[BlockLength(after)..]);
        ReplacedBlock(t, b, w);
      }
  }

  lemma SkippedAnchor(t: string, b: nat, v: string)
    requires Find(t, Begin()) == Some(b) && !Announces(t[b..][..LineEnd(t[b..])])
    requires v == PemPass(t[b + |Begin()|..]) && !HasKey(v)
    ensures !HasKey(t[..b + |Begin()|] + v)
  {
    AnchorsAndMarkerAreApart();
    WordsFitOnLines();
    hide Begin, PrivateKey, BlockLength, Find, KeyMarker, LineHas, LineEnd, Announces, PemPass;
    LastOfFront(t, b);
    var rest := t[b + |Begin()|..];
    var u := Begin() + v;
    assert t[..b + |Begin()|] + v == t[..b] + u;
    forall i | 0 <= i < |t[..b]| ensures !(Begin() <= (t[..b] + u)[i..]) { NoBeginBefore(t, b, v, i); }
    SkipNoBegin(t[..b], u);
    LineHasIsAnnounces(t[b..]);
    PemPassAnnouncesNothing(rest);
    LineSwap(Begin(), v, rest, PrivateKey());
    assert Begin() + rest == t[b..];
    Behead(Begin(), v);
    forall i | 0 <= i < |Begin()[1..]| ensures !(Begin() <= (Begin()[1..] + v)[i..]) {
      BeginStandsAlone(v, i + 1);
      DropTwice(u, 1, i);
    }
    SkipNoBegin(Begin()[1..], v);
  }

  lemma ReplacedBlock(t: string, b: nat, w: string)
    requires Find(t, Begin()) == Some(b) && !HasKey(w)
    ensures !HasKey(t[..b] + KeyMarker() + w)
  {
    DashesInMarker(0);
    hide Begin, Find, KeyMarker, HasKey;
    var v := KeyMarker() + w;
    forall i | 0 <= i < |t[..b]| ensures !(Begin() <= (t[..b] + v)[i..]) { NoBeginBeforeMarker(t, b, v, i); }
    SkipNoBegin(t[..b], v);
    forall i | 0 <= i < |KeyMarker()| ensures !(Begin() <= v[i..]) { NoBeginInMarker(w, i); }
    SkipNoBegin(KeyMarker(), w);
    assert t[..b] + KeyMarker() + w == t[..b] + v;
  }

  // ---------------------------------------------------------------- the keyword passes announce no key

  /** The tails of the two phrases a key is announced with. */
  predicate PhraseTail(p: string) {
    (|p| <= |Begin()| && p == Begin()[|Begin()| - |p|..]) ||
    (|p| <= |PrivateKey()| && p == PrivateKey()[|PrivateKey()| - |p|..])
  }

  predicate PhraseChar(c: char) {
    !('a' <= c <= 'z') && c != ':' && c != '<' && c != '>' && c != '\n'
  }

  /** Phrases are upper case: no marker starts like one. */
  lemma PhraseLetters()
    ensures forall i :: 0 <= i < |Begin()| ==> PhraseChar(Begin()[i])
    ensures forall i :: 0 <= i < |PrivateKey()| ==> PhraseChar(PrivateKey()[i])
    ensures Begin()[|Begin()| - 1] != 'B' && PrivateKey()[|PrivateKey()| - 1] != 'B'
  {
  }

  lemma PhraseTailShape(p: string)
    requires PhraseTail(p)
    ensures forall i :: 0 <= i < |p| ==> PhraseChar(p[i])
    ensures |p| == 1 ==> p[0] != 'B'
    ensures p != "" ==> PhraseTail(p[1..])
  {
    PhraseLetters();
    hide Begin, PrivateKey;
  }

  lemma PhrasesAreTails()
    ensures PhraseTail(Begin()) && PhraseTail(PrivateKey())
  {
    hide Begin, PrivateKey;
    assert Begin()[0..] == Begin() && PrivateKey()[0..] == PrivateKey();
  }
}
