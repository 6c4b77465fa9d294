/** The redactor: its three loops, and what they guarantee together. */
module Redactor {
  import opened Options
  import opened AsciiCase
  import opened RedactionRules
  import opened RedactionPasses
  import opened RedactionMarkers
  import opened RedactionFixpoint
  import opened RedactionSettles
  import opened RedactionScan
  import opened RedactionResidue
  import opened RedactionPem
  import opened RedactionNoKey
  import opened RedactionAnnouncements

  function Redact(input: string): string {
    Pass(Assignments, true, Pass(Headers, true, PemPass(input)))
  }

  // ---------------------------------------------------------------- whole characters

  /** How many bytes the character that starts with `c` takes. */
  function CharLength(c: char): (n: nat)
    ensures 1 <= n <= 4
  {
    if c < '\U{80}' then 1
    else if '\U{C0}' <= c < '\U{E0}' then 2
    else if '\U{E0}' <= c < '\U{F0}' then 3
    else 4
  }

  predicate Ascii(c: char) { c < '\U{80}' }

  predicate Follows(c: char) { '\U{80}' <= c <= '\U{BF}' }

  /** The bytes of one character (RFC 3629, section 4). */
  predicate IsCharacter(u: string) {
    match |u|
    case 1 => u[0] < '\U{80}'
    case 2 => '\U{C2}' <= u[0] <= '\U{DF}' && Follows(u[1])
    case 3 =>
      '\U{E0}' <= u[0] <= '\U{EF}' && Follows(u[1]) && Follows(u[2]) &&
      (u[0] == '\U{E0}' ==> '\U{A0}' <= u[1]) && (u[0] == '\U{ED}' ==> u[1] <= '\U{9F}')
    case 4 =>
      '\U{F0}' <= u[0] <= '\U{F4}' && Follows(u[1]) && Follows(u[2]) && Follows(u[3]) &&
      (u[0] == '\U{F0}' ==> '\U{90}' <= u[1]) && (u[0] == '\U{F4}' ==> u[1] <= '\U{8F}')
    case _ => false
  }

  /** A text in UTF-8, and nothing but whole characters. */
  predicate WholeChars(t: string)
    decreases |t|
  {
    t == "" ||
    (CharLength(t[0]) <= |t| && IsCharacter(t[..CharLength(t[0])]) && WholeChars(t[CharLength(t[0])..]))
  }

  lemma {:induction false} WholeCharsConcat(a: string, b: string)
    requires WholeChars(a) && WholeChars(b)
    ensures WholeChars(a + b)
    decreases |a|
  {
    if a == "" {
      assert a + b == b;
    } else {
      var n := CharLength(a[0]);
      WholeCharsConcat(a[n..], b);
      assert (a + b)[n..] == a[n..] + b && (a + b)[..n] == a[..n] && (a + b)[0] == a[0];
    }
  }

  /** A character never contains an ASCII byte, so text may be cut before one, and at the end. */
  lemma {:induction false} CutBeforeAscii(t: string, n: nat)
    requires WholeChars(t) && n <= |t| && (n < |t| ==> Ascii(t[n]))
    ensures WholeChars(t[..n]) && WholeChars(t[n..])
    decreases |t|
  {
    if n == 0 {
      assert t[..0] == "" && t[0..] == t;
    } else {
      var m := CharLength(t[0]);
      assert m <= n;
      CutBeforeAscii(t[m..], n - m);
      DropTwice(t, m, n - m);
      CutAndDrop(t, m, n);
    }
  }

  /** And after one. */
  lemma {:induction false} CutAfterAscii(t: string, n: nat)
    requires WholeChars(t) && 0 < n <= |t| && Ascii(t[n - 1])
    ensures WholeChars(t[..n]) && WholeChars(t[n..])
  {
    CutBeforeAscii(t, n - 1);
    var rest := t[n - 1..];
    assert rest[1..] == t[n..];
    assert t[..n] == t[..n - 1] + [t[n - 1]];
    AsciiIsWhole([t[n - 1]]);
    WholeCharsConcat(t[..n - 1], [t[n - 1]]);
  }

  lemma {:induction false} AsciiIsWhole(t: string)
    requires forall i :: 0 <= i < |t| ==> Ascii(t[i])
    ensures WholeChars(t)
  {
    if t != "" { AsciiIsWhole(t[1..]); }
  }

  /** Copying a whole character at once is copying its bytes one by one. */
  lemma {:induction false} CopyBytes(rule: Rule, start: bool, t: string, n: nat)
    requires 0 < n <= |t| && Apply(rule, start, t).None? && forall i :: 1 <= i < n ==> !Ascii(t[i])
    ensures Pass(rule, start, t) == t[..n] + Pass(rule, !WordChar(t[n - 1]), t[n..])
    decreases n
  {
    hide Apply, Pass;
    PassCopies(rule, start, t);
    if n == 1 {
      assert t[..1] == [t[0]];
    } else {
      var rest := t[1..];
      NoLetterNoHit(rule, !WordChar(t[0]), rest);
      CopyBytes(rule, !WordChar(t[0]), rest, n - 1);
      assert rest[n - 1..] == t[n..] && rest[n - 2] == t[n - 1];
      assert t[..n] == [t[0]] + rest[..n - 1];
      var out := Pass(rule, !WordChar(t[n - 1]), t[n..]);
      assert [t[0]] + (rest[..n - 1] + out) == [t[0]] + rest[..n - 1] + out;
    }
  }

  lemma NoLetterNoHit(rule: Rule, start: bool, t: string)
    requires t != "" && !Ascii(t[0])
    ensures Apply(rule, start, t).None?
  {
    if Apply(rule, start, t).Some? { HitsStartWithLetter(rule, start, t); }
  }

  /** A hit takes whole characters and shows ASCII. */
  lemma HitTakesWholeChars(rule: Rule, start: bool, t: string)
    requires WholeChars(t) && Apply(rule, start, t).Some?
    ensures WholeChars(t[Apply(rule, start, t).value.taken..])
  {
    hide Apply, WholeChars, WholeLine;
    HitStops(rule, start, t);
    CutBeforeAscii(t, Apply(rule, start, t).value.taken);
  }

  lemma HitShowsWholeChars(rule: Rule, t: string)
    requires WholeChars(t) && Apply(rule, true, t).Some?
    ensures WholeChars(Apply(rule, true, t).value.shown)
  {
    hide Apply, WholeChars, KeyText, SingleDashes;
    if rule == Headers {
      HeaderShowsAscii(t);
    } else {
      var key, name := AssignmentShows(t);
      AsciiIsWhole(key);
      MarkersAreAscii(name);
      WholeCharsConcat(key, Marker(name));
    }
  }

  lemma MarkersAreAscii(name: string)
    requires KeyText(name)
    ensures WholeChars(Marker(name))
  {
    assert forall i :: 0 <= i < |name| ==> KeyChar(name[i]);
    AsciiIsWhole(Marker(name));
  }

  lemma HeaderShowsAscii(t: string)
    requires Apply(Headers, true, t).Some?
    ensures WholeChars(Apply(Headers, true, t).value.shown)
  {
    HeadersAreAscii();
    AsciiIsWhole(Header());
    AsciiIsWhole(Credential());
    hide Header, Credential, WholeChars;
  }

  lemma HeadersAreAscii()
    ensures forall i :: 0 <= i < |Header()| ==> Ascii(Header()[i])
    ensures forall i :: 0 <= i < |Credential()| ==> Ascii(Credential()[i])
  {
  }

  lemma {:induction false} PassKeepsWholeChars(rule: Rule, start: bool, t: string)
    requires WholeChars(t)
    ensures WholeChars(Pass(rule, start, t))
    decreases |t|
  {
    hide Apply, Pass;
    PassHead(rule, start, t);
    if t != "" {
      if Apply(rule, start, t).None? {
        var n := CharLength(t[0]);
        CopyBytes(rule, start, t, n);
        FirstCharIsWhole(t);
        PassKeepsWholeChars(rule, !WordChar(t[n - 1]), t[n..]);
        WholeCharsConcat(t[..n], Pass(rule, !WordChar(t[n - 1]), t[n..]));
      } else {
        var hit := Apply(rule, start, t).value;
        PassReplaces(rule, start, t);
        HitTakesWholeChars(rule, start, t);
        HitsStartWords(rule, start, t);
        HitShowsWholeChars(rule, t);
        var s := !WordChar(t[hit.taken - 1]);
        PassKeepsWholeChars(rule, s, t[hit.taken..]);
        WholeCharsConcat(hit.shown, Pass(rule, s, t[hit.taken..]));
      }
    }
  }

  lemma FirstCharIsWhole(t: string)
    requires t != "" && WholeChars(t)
    ensures WholeChars(t[..CharLength(t[0])])
  {
    var n := CharLength(t[0]);
    assert t[..n][n..] == "";
  }

  lemma {:induction false} PemPassKeepsWholeChars(t: string)
    requires WholeChars(t)
    ensures WholeChars(PemPass(t))
    decreases |t|
  {
    AnchorsAreAscii();
    hide Begin, Find, KeyMarker, Announces, LineEnd, BlockLength, WholeChars, PemPass;
    match Find(t, Begin())
    case None => NoAnchorNoChange(t);
    case Some(b) =>
      var after := t[b..];
      PrefixChars(Begin(), after, "");
      assert after + "" == after;
      if !Announces(after[..LineEnd(after)]) {
        var n := b + |Begin()|;
        assert t[n - 1] == after[|Begin()| - 1];
        CutAfterAscii(t, n);
        PemPassKeepsWholeChars(t[n..]);
        WholeCharsConcat(t[..n], PemPass(t[n..]));
        PassSkips(t, b);
      } else {
        CutBeforeAscii(t, b);
        var n := BlockLength(after);
        CutBeforeAscii(after, n);
        PemPassKeepsWholeChars(after[n..]);
        WholeCharsConcat(KeyMarker(), PemPass(after[n..]));
        WholeCharsConcat(t[..b], KeyMarker() + PemPass(after[n..]));
        PassWithBlock(t, b, n);
      }
  }

  lemma AnchorsAreAscii()
    ensures Ascii(Begin()[0]) && Ascii(Begin()[|Begin()| - 1]) && WholeChars(KeyMarker())
  {
    AsciiIsWhole(KeyMarker());
  }

  // ---------------------------------------------------------------- scanning

  method SkipSeparators(bytes: string, from: nat) returns (i: nat)
    requires from <= |bytes|
    ensures i == from + SeparatorRun(bytes[from..])
  {
    i := from;
    while i < |bytes| && Separator(bytes[i])
      invariant from <= i <= |bytes|
      invariant from + SeparatorRun(bytes[from..]) == i + SeparatorRun(bytes[i..])
    {
      assert bytes[i..][1..] == bytes[i + 1..];
      i := i + 1;
    }
  }

  method SkipSpaces(bytes: string, from: nat) returns (i: nat)
    requires from <= |bytes|
    ensures i == from + BlankRun(bytes[from..])
  {
    i := from;
    while i < |bytes| && Blank(bytes[i])
      invariant from <= i <= |bytes|
      invariant from + BlankRun(bytes[from..]) == i + BlankRun(bytes[i..])
    {
      assert bytes[i..][1..] == bytes[i + 1..];
      i := i + 1;
    }
  }

  method ConsumeValue(bytes: string, from: nat) returns (i: nat)
    requires from <= |bytes|
    ensures i == from + ValueRun(bytes[from..])
  {
    i := from;
    while i < |bytes| && !EndsValue(bytes[i])
      invariant from <= i <= |bytes|
      invariant from + ValueRun(bytes[from..]) == i + ValueRun(bytes[i..])
    {
      assert bytes[i..][1..] == bytes[i + 1..];
      i := i + 1;
    }
  }

  method ConsumeToLineEnd(bytes: string, from: nat) returns (i: nat)
    requires from <= |bytes|
    ensures i == from + LineRun(bytes[from..])
  {
    i := from;
    while i < |bytes| && !EndsLine(bytes[i])
      invariant from <= i <= |bytes|
      invariant from + LineRun(bytes[from..]) == i + LineRun(bytes[i..])
    {
      assert bytes[i..][1..] == bytes[i + 1..];
      i := i + 1;
    }
  }

  method MatchSensitiveKey(t: string) returns (k: Option<nat>)
    ensures k == FirstKey(t)
  {
    hide Word, Keys;
    var i := 0;
    while i < |Keys()|
      invariant i <= |Keys()| && forall j :: 0 <= j < i ==> !Word(t, Keys()[j].word)
    {
      if Word(t, Keys()[i].word) {
        return Some(i);
      }
      i := i + 1;
    }
    return None;
  }

  // ---------------------------------------------------------------- the passes

  method RedactPemBlocks(input: string) returns (out: string)
    ensures out == PemPass(input)
  {
    hide Begin, KeyMarker, Announces, LineEnd, BlockLength, Find, PemPass;
    out := "";
    var rest := input;
    var at := Find(rest, Begin());
    assert "" + PemPass(input) == PemPass(input);
    while at.Some?
      invariant at == Find(rest, Begin())
      invariant out + PemPass(rest) == PemPass(input)
      decreases |rest|
    {
      var b := at.value;
      var after := rest[b..];
      ghost var was, now := out, PemPass(rest);
      if !Announces(after[..LineEnd(after)]) {
        PassSkips(rest, b);
        out := out + rest[..b + |Begin()|];
        rest := rest[b + |Begin()|..];
      } else {
        PassWithBlock(rest, b, BlockLength(after));
        out := out + rest[..b];
        out := out + KeyMarker();
        rest := after[BlockLength(after)..];
      }
      assert out + PemPass(rest) == was + now;
      at := Find(rest, Begin());
    }
    NoAnchorNoChange(rest);
    out := out + rest;
  }

  /** Either keyword pass: a hit is shown in place of what it takes, everything else is copied by the character. */
  lemma Advance(rule: Rule, bytes: string, i: nat, out: string)
    requires i < |bytes| && WholeChars(bytes[i..]) && Apply(rule, At(bytes, i), bytes[i..]).None?
    ensures var n := CharLength(bytes[i]);
            i + n <= |bytes| && WholeChars(bytes[i + n..]) &&
            out + Pass(rule, At(bytes, i), bytes[i..]) ==
            out + bytes[i..i + n] + Pass(rule, At(bytes, i + n), bytes[i + n..])
  {
    hide Apply, Pass;
    var t := bytes[i..];
    var n := CharLength(bytes[i]);
    CopyBytes(rule, At(bytes, i), t, n);
    assert t[n..] == bytes[i + n..] && t[..n] == bytes[i..i + n] && t[n - 1] == bytes[i + n - 1];
  }

  lemma AdvanceOver(rule: Rule, bytes: string, i: nat, out: string)
    requires i < |bytes| && WholeChars(bytes[i..]) && Apply(rule, At(bytes, i), bytes[i..]).Some?
    ensures var hit := Apply(rule, At(bytes, i), bytes[i..]).value;
            i + hit.taken <= |bytes| && WholeChars(bytes[i + hit.taken..]) &&
            out + Pass(rule, At(bytes, i), bytes[i..]) ==
            out + hit.shown + Pass(rule, At(bytes, i + hit.taken), bytes[i + hit.taken..])
  {
    hide Apply, Pass, WholeChars;
    var t := bytes[i..];
    var hit := Apply(rule, At(bytes, i), t).value;
    HitTakesWholeChars(rule, At(bytes, i), t);
    PassReplaces(rule, At(bytes, i), t);
    assert t[hit.taken..] == bytes[i + hit.taken..] && t[hit.taken - 1] == bytes[i + hit.taken - 1];
  }

  /** Whether a word starts at `i`. */
  predicate At(bytes: string, i: nat)
    requires i <= |bytes|
  {
    StartsAt(true, bytes, i)
  }

  lemma HeaderHitOf(t: string)
    requires Word(t, Authorization())
    ensures |Authorization()| <= |t|
    ensures var value := |Authorization()| + SeparatorRun(t[|Authorization()|..]);
            Apply(Headers, true, t) == Some(Hit(value + LineRun(t[value..]), Header()))
  {
    hide Authorization, SeparatorRun, LineRun, Header;
  }

  lemma CredentialHitOf(t: string)
    requires !Word(t, Authorization()) && Word(t, Bearer())
    ensures |Bearer()| <= |t|
    ensures var value := |Bearer()| + BlankRun(t[|Bearer()|..]);
            Apply(Headers, true, t) ==
            if value > |Bearer()| then Some(Hit(value + ValueRun(t[value..]), Credential())) else None
  {
    hide Authorization, Bearer, BlankRun, ValueRun, Credential;
  }

  /** What the header rule does, in the loop's own indices. */
  lemma AuthorizationHit(bytes: string, i: nat)
    requires i <= |bytes| && Word(bytes[i..], Authorization())
    ensures i + |Authorization()| <= |bytes|
    ensures var j := i + |Authorization()| + SeparatorRun(bytes[i + |Authorization()|..]);
            Apply(Headers, true, bytes[i..]) == Some(Hit(j + LineRun(bytes[j..]) - i, Header()))
  {
    hide Authorization, Word, SeparatorRun, LineRun, Header, Apply;
    HeaderHitOf(bytes[i..]);
    SuffixOf(bytes, i, |Authorization()|);
    SuffixOf(bytes, i, |Authorization()| + SeparatorRun(bytes[i + |Authorization()|..]));
  }

  lemma BearerValueHit(bytes: string, i: nat)
    requires i <= |bytes| && !Word(bytes[i..], Authorization()) && Word(bytes[i..], Bearer())
    ensures i + |Bearer()| <= |bytes|
    ensures var j := i + |Bearer()|;
            var value := j + BlankRun(bytes[j..]);
            Apply(Headers, true, bytes[i..]) ==
            if value > j then Some(Hit(value + ValueRun(bytes[value..]) - i, Credential())) else None
  {
    hide Authorization, Bearer, Word, BlankRun, ValueRun, Credential, Apply;
    var n := |Bearer()|;
    WordIsInside(bytes[i..], Bearer());
    SuffixOf(bytes, i, n);
    CredentialHitOf(bytes[i..]);
    SuffixOf(bytes, i, n + BlankRun(bytes[i + n..]));
  }

  lemma WordIsInside(t: string, keyword: string)
    requires Word(t, keyword)
    ensures |keyword| <= |t|
  {
  }

  lemma NoHeaderHit(start: bool, t: string)
    requires start ==> !Word(t, Authorization()) && !Word(t, Bearer())
    ensures Apply(Headers, start, t).None?
  {
    hide Word, Authorization, Bearer;
  }

  /** What is left to redact at `i`, behind what has been written. */
  predicate Pending(rule: Rule, input: string, i: nat, out: string) {
    i <= |input| && WholeChars(input[i..]) && out + Pass(rule, At(input, i), input[i..]) == Pass(rule, true, input)
  }

  lemma PendingAtStart(rule: Rule, input: string)
    requires WholeChars(input)
    ensures Pending(rule, input, 0, "")
  {
    hide Pass, WholeChars;
    assert input[0..] == input && "" + Pass(rule, true, input) == Pass(rule, true, input);
  }

  lemma PendingAtEnd(rule: Rule, input: string, out: string)
    requires Pending(rule, input, |input|, out)
    ensures out == Pass(rule, true, input)
  {
    hide Apply, WholeChars;
    assert input[|input|..] == "";
    assert out + "" == out;
  }

  lemma PendingAfterCopy(rule: Rule, input: string, i: nat, out: string)
    requires i < |input| && Pending(rule, input, i, out) && Apply(rule, At(input, i), input[i..]).None?
    ensures i + CharLength(input[i]) <= |input|
    ensures Pending(rule, input, i + CharLength(input[i]), out + input[i..i + CharLength(input[i])])
  {
    hide Apply, Pass, WholeChars, CharLength;
    Advance(rule, input, i, out);
  }

  lemma PendingAfterHit(rule: Rule, input: string, i: nat, out: string, end: nat, shown: string)
    requires i < |input| && Pending(rule, input, i, out) && i <= end
    requires Apply(rule, At(input, i), input[i..]) == Some(Hit(end - i, shown))
    ensures i < end && Pending(rule, input, end, out + shown)
  {
    hide Apply, Pass, WholeChars;
    AdvanceOver(rule, input, i, out);
  }

  lemma SuffixOf(bytes: string, i: nat, n: nat)
    requires i + n <= |bytes|
    ensures bytes[i..][n..] == bytes[i + n..] && bytes[i..][..n] == bytes[i..i + n]
  {
  }

  method RedactAuthorization(input: string) returns (out: string)
    requires WholeChars(input)
    ensures out == Pass(Headers, true, input)
  {
    hide Apply, Pass, Pending, WholeChars, Word, Authorization, Bearer, Header, Credential, CharLength;
    hide SeparatorRun, BlankRun, ValueRun, LineRun;
    out := "";
    var i := 0;
    PendingAtStart(Headers, input);
    while i < |input|
      invariant i <= |input| && Pending(Headers, input, i, out)
    {
      if At(input, i) {
        if Word(input[i..], Authorization()) {
          AuthorizationHit(input, i);
          var j := SkipSeparators(input, i + |Authorization()|);
          var end := ConsumeToLineEnd(input, j);
          PendingAfterHit(Headers, input, i, out, end, Header());
          out := out + Header();
          i := end;
          continue;
        }
        if Word(input[i..], Bearer()) {
          BearerValueHit(input, i);
          var j := i + |Bearer()|;
          var value := SkipSpaces(input, j);
          if value > j {
            var end := ConsumeValue(input, value);
            PendingAfterHit(Headers, input, i, out, end, Credential());
            out := out + Credential();
            i := end;
            continue;
          }
        } else {
          NoHeaderHit(true, input[i..]);
        }
      } else {
        NoHeaderHit(false, input[i..]);
      }
      PendingAfterCopy(Headers, input, i, out);
      var n := CharLength(input[i]);
      out := out + input[i..i + n];
      i := i + n;
    }
    PendingAtEnd(Headers, input, out);
  }

  lemma NoAssignmentHit(start: bool, t: string)
    requires start ==> FirstKey(t).None?
    ensures Apply(Assignments, start, t).None?
  {
    hide FirstKey;
  }

  method RedactKeyValues(input: string) returns (out: string)
    requires WholeChars(input)
    ensures out == Pass(Assignments, true, input)
  {
    hide Apply, Pass, Pending, WholeChars, Keys, Marker, FirstKey, Separators, Assigns, Word, CharLength;
    hide SeparatorRun, ValueRun;
    out := "";
    var i := 0;
    PendingAtStart(Assignments, input);
    while i < |input|
      invariant i <= |input| && Pending(Assignments, input, i, out)
    {
      ghost var t := input[i..];
      var k := MatchSensitiveKey(input[i..]);
      if At(input, i) && k.Some? {
        AssignmentHit(t, k.value);
        var n := |Keys()[k.value].word|;
        var value := SkipSeparators(input, i + n);
        SeparatorsSpan(input, i, n);
        if value > i + n && Assigns(input[i + n..value]) {
          SuffixOf(input, i, n);
          SuffixOf(input, i, value - i);
          var end := ConsumeValue(input, value);
          var shown := input[i..i + n] + Marker(Keys()[k.value].name);
          PendingAfterHit(Assignments, input, i, out, end, shown);
          out := out + shown;
          i := end;
          continue;
        }
      } else {
        NoAssignmentHit(At(input, i), t);
      }
      PendingAfterCopy(Assignments, input, i, out);
      var n := CharLength(input[i]);
      out := out + input[i..i + n];
      i := i + n;
    }
    PendingAtEnd(Assignments, input, out);
  }

  lemma SeparatorsSpan(bytes: string, i: nat, n: nat)
    requires i + n <= |bytes|
    ensures Separators(bytes[i..], n) == bytes[i + n..i + n + SeparatorRun(bytes[i + n..])]
    ensures Assigns(Separators(bytes[i..], n)) ==> SeparatorRun(bytes[i + n..]) > 0
  {
    assert bytes[i..][n..] == bytes[i + n..];
  }

  method RedactText(input: string) returns (out: string)
    requires WholeChars(input)
    ensures out == Redact(input) && WholeChars(out)
  {
    hide Pass, PemPass, WholeChars;
    PemPassKeepsWholeChars(input);
    PassKeepsWholeChars(Headers, true, PemPass(input));
    PassKeepsWholeChars(Assignments, true, Pass(Headers, true, PemPass(input)));
    var pem := RedactPemBlocks(input);
    var auth := RedactAuthorization(pem);
    out := RedactKeyValues(auth);
  }

  // ---------------------------------------------------------------- what redaction guarantees

  /** No line of the output announces a private key. */
  lemma NoPrivateKeyIsAnnounced(input: string, i: nat)
    requires i < |Redact(input)|
    ensures !HasKey(Redact(input))
    ensures Begin() <= Redact(input)[i..] ==> !Announces(Redact(input)[i..][..LineEnd(Redact(input)[i..])])
  {
    hide Pass, PemPass, HasKey, Announces, LineEnd;
    PemPassLeavesNoKey(input);
    PassLeavesNoKey(Headers, true, PemPass(input));
    PassLeavesNoKey(Assignments, true, Pass(Headers, true, PemPass(input)));
    var out := Redact(input);
    HasKeyAt(out, i);
    LineHasIsAnnounces(out[i..]);
    if Begin() <= out[i..] { NoKeyAtFront(out[i..]); }
  }

  lemma NoKeyAtFront(t: string)
    requires !HasKey(t) && Begin() <= t
    ensures !LineHas(t, PrivateKey())
  {
    hide PrivateKey, LineHas;
  }

  /** Wherever the output still looks like a secret, all that would be taken is a marker, or the name inside one. */
  lemma OnlyMarkersRemain(input: string, rule: Rule, i: nat)
    requires i < |Redact(input)|
    ensures var out := Redact(input);
            match Apply(rule, At(out, i), out[i..]) case None => true case Some(hit) => Harmless(out[i..], hit)
  {
    hide Apply, Pass, PemPass, Harmless, Marked;
    var out := Redact(input);
    var headers := Pass(Headers, true, PemPass(input));
    if rule == Headers {
      PassIsIdempotent(Headers, true, PemPass(input));
      OutputHeadersAreMarked(true, headers);
    } else {
      PassIsIdempotent(Assignments, true, headers);
      StableIsMarked(true, out);
    }
    MarkedAt(rule, true, out, i);
  }

  /** In the output, a key assigned to is followed exactly by its marker. */
  lemma AssignedKeysAreMarked(input: string, i: nat, k: nat)
    requires i < |Redact(input)| && At(Redact(input), i)
    requires FirstKey(Redact(input)[i..]) == Some(k)
    requires |Keys()[k].word| <= |Redact(input)[i..]| && Assigns(Separators(Redact(input)[i..], |Keys()[k].word|))
    ensures var t := Redact(input)[i..];
            var n, marker := |Keys()[k].word|, Marker(Keys()[k].name);
            marker <= t[n..] && Stopped(false, t[n + |marker|..])
  {
    hide Keys, FirstKey, Separators, Redact, Word, Apply;
    OnlyMarkersRemain(input, Assignments, i);
    var t := Redact(input)[i..];
    AssignmentHit(t, k);
    var n, marker := |Keys()[k].word|, Marker(Keys()[k].name);
    HitStops(Assignments, true, t);
    StrayIsNoKey(t, k);
    hide Marker, StrayName, Stopped;
    assert t[n..][..|marker|] == marker;
  }

  /** In the output, an authorization word is followed by its marker and the end of its value, or sits in a marker. */
  lemma AuthorizationIsMarked(input: string, i: nat)
    requires i < |Redact(input)| && At(Redact(input), i) && Word(Redact(input)[i..], Authorization())
    ensures var t := Redact(input)[i..];
            (Header() <= t && Stopped(true, t[|Header()|..])) || (StrayName() <= t && Stopped(true, t[|StrayName()|..]))
  {
    hide Redact, Word, Apply, Header, Authorization, StrayName, Stopped;
    var t := Redact(input)[i..];
    OnlyMarkersRemain(input, Headers, i);
    HeaderHitOf(t);
    HitStops(Headers, true, t);
    WholeLineOf(t);
  }

  lemma WholeLineOf(t: string)
    ensures WholeLine(Headers, t) <==> Word(t, Authorization())
  {
  }

  /** And `bearer` in front of a blank by its marker. */
  lemma BearerIsMarked(input: string, i: nat)
    requires i < |Redact(input)| && At(Redact(input), i) && Word(Redact(input)[i..], Bearer())
    requires |Redact(input)[i..]| > |Bearer()| && Blank(Redact(input)[i..][|Bearer()|])
    ensures Credential() <= Redact(input)[i..] && Stopped(false, Redact(input)[i..][|Credential()|..])
  {
    var t := Redact(input)[i..];
    BearerIsNoAuthorization(t);
    hide Redact, Word, Apply, Header, Authorization, Bearer, Stopped, Credential, StrayName;
    OnlyMarkersRemain(input, Headers, i);
    CredentialHitOf(t);
    HitStops(Headers, true, t);
    WholeLineOf(t);
  }

  lemma BearerIsNoAuthorization(t: string)
    requires Word(t, Bearer())
    ensures !Word(t, Authorization()) && !(StrayName() <= t)
  {
    assert Lower(t[0]) == 'b';
    StrayStartsWithAu(t);
  }

  lemma StrayIsNoKey(t: string, k: nat)
    requires FirstKey(t) == Some(k)
    ensures !(StrayName() <= t)
  {
    KeyWordsStartApart(k);
    SecondLetter(t, Keys()[k].word);
    StrayStartsWithAu(t);
  }

  lemma SecondLetter(t: string, keyword: string)
    requires Word(t, keyword) && |keyword| > 1
    ensures |t| > 1 && Lower(t[1]) == keyword[1]
  {
  }

  lemma StrayStartsWithAu(t: string)
    ensures StrayName() <= t ==> |t| > 1 && t[0] == 'a' && Lower(t[1]) == 'u'
  {
    if StrayName() <= t { assert t[0] == StrayName()[0] && t[1] == StrayName()[1]; }
  }

  /** What three passes do to their own output. */
  lemma RedactAgain(input: string)
    ensures var headers := Pass(Headers, true, PemPass(input));
            var out := Redact(input);
            Settled(true, headers) && Redact(out) == Pass(Headers, true, out) &&
            Redact(Redact(out)) == Redact(out)
  {
    hide Pass, PemPass, HasKey;
    var headers := Pass(Headers, true, PemPass(input));
    var out := Redact(input);
    PassIsIdempotent(Headers, true, PemPass(input));
    AllSettles(true, headers);
    var again := Pass(Headers, true, out);
    PemPassLeavesNoKey(input);
    PassLeavesNoKey(Headers, true, PemPass(input));
    PassLeavesNoKey(Assignments, true, headers);
    NoKeyNoChange(out);
    PassLeavesNoKey(Headers, true, out);
    NoKeyNoChange(again);
    PassIsIdempotent(Headers, true, out);
  }

  /** Redacting twice is always enough. */
  lemma RedactSettlesInTwo(input: string)
    ensures Redact(Redact(Redact(input))) == Redact(Redact(input))
  {
    RedactAgain(input);
  }

  /**
   * Once is enough exactly when, in a single scan of the text without its key blocks, no authorization word starts
   * inside the value of an assignment.
   */
  lemma RedactIsIdempotentExactlyWhen(input: string)
    ensures Redact(Redact(input)) == Redact(input) <==> ValuesHoldNoHeader(true, false, PemPass(input))
  {
    hide Pass, PemPass, KeepsHeaders, ValuesHoldNoHeader, ValueKeeps;
    RedactAgain(input);
    ScanAgrees(true, false, PemPass(input));
  }

  /** A text without an authorization word is settled by one redaction. */
  lemma NoHeaderIsSettled(input: string)
    requires !HasHeader(true, input)
    ensures Redact(Redact(input)) == Redact(input)
  {
    hide Pass, PemPass, ValuesHoldNoHeader, HasHeader;
    PemBringsNoHeader(true, input);
    NoHeaderNoValue(true, false, PemPass(input));
    RedactIsIdempotentExactlyWhen(input);
  }

  // ---------------------------------------------------------------- a text that is not settled by one redaction

  function TokenKey(): string { "token" }

  /** A header marker given as the value of a key. */
  function HeaderAsValue(): string { TokenKey() + "=" + Header() }

  lemma HeaderAsValueHasNoDash()
    ensures forall i :: 0 <= i < |HeaderAsValue()| ==> HeaderAsValue()[i] != '-'
    ensures Begin()[0] == '-'
  {
  }

  lemma HeaderAsValueHasNoBlock()
    ensures PemPass(HeaderAsValue()) == HeaderAsValue()
  {
    var t := HeaderAsValue();
    HeaderAsValueHasNoDash();
    hide HeaderAsValue, Begin;
    if Find(t, Begin()).Some? { assert false; }
  }

  /** The header pass finds only the marker, and leaves it. */
  lemma HeaderAsValueKeepsHeader()
    ensures Pass(Headers, true, HeaderAsValue()) == HeaderAsValue()
  {
    hide Apply, Pass, Header, TokenKey;
    HeaderAsValueStarts();
    var rest := "=" + (Header() + "");
    NotHeader(true, TokenKey() + rest);
    QuietWord(Headers, true, TokenKey(), rest);
    QuietMarks(Headers, false, "=", Header() + "");
    QuietConcat(Headers, true, TokenKey(), "=", Header() + "");
    QuietPass(Headers, true, TokenKey() + "=", Header() + "");
    HeaderRescans("");
    HeaderEnds();
    MarkerIsKept(Headers, Header(), "");
    EmptyPass(Headers);
    assert TokenKey() + "=" + (Header() + "") == HeaderAsValue();
  }

  lemma EmptyPass(rule: Rule)
    ensures Pass(rule, true, "") == ""
  {
  }

  lemma HeaderAsValueStarts()
    ensures |TokenKey()| == 5 && TokenKey()[0] == 't'
    ensures forall i :: 0 <= i < |TokenKey()| ==> 'a' <= TokenKey()[i] <= 'z'
    ensures exists k :: 0 <= k < |Keys()| && Keys()[k].word == TokenKey()
  {
    assert Keys()[13].word == TokenKey();
  }

  /** The assignment pass drops the keyword of the marker. */
  lemma HeaderAsValueDropsKeyword()
    ensures Apply(Assignments, true, HeaderAsValue()).Some?
    ensures DroppedValue(HeaderAsValue()) == Authorization() + ":"
  {
    hide Apply, Keys, Header, TokenKey, FirstKey, Stray, Authorization, ValueRun, SeparatorRun, HasHeader, Word;
    var t := HeaderAsValue();
    HeaderAsValueStarts();
    assert t == TokenKey() + ("=" + Header());
    var k := HeaderAsValueKey(t);
    AssignmentHit(t, k);
    HeaderHasHeader();
    assert t[5..] == "=" + Header() && t[6..] == Header();
    HeaderStartsWithLetter();
    SeparatorRunOf("=", Header());
    ValueRunOf(Authorization() + ":", Stray());
    assert Header()[..|Authorization() + ":"|] == Authorization() + ":";
  }

  lemma HeaderAsValueKey(t: string) returns (k: nat)
    requires t == TokenKey() + ("=" + Header())
    ensures k < |Keys()| && FirstKey(t) == Some(k) && |Keys()[k].word| == 5
  {
    hide Keys, Header, TokenKey;
    HeaderAsValueStarts();
    WordIsItself(TokenKey(), "=" + Header());
    k := FirstKey(t).value;
    WholeTokenIsKey(t, k);
  }

  lemma HeaderStartsWithLetter()
    ensures Header() != "" && !Separator(Header()[0])
  {
  }

  lemma WholeTokenIsKey(t: string, k: nat)
    requires k < |Keys()| && |t| > 5 && (forall i :: 0 <= i < 5 ==> 'a' <= t[i] <= 'z') && t[5] == '='
    requires Word(t, Keys()[k].word)
    ensures |Keys()[k].word| == 5
  {
    KeyWordsAreKeyText(k);
    hide Keys;
    var word := Keys()[k].word;
    assert |word| > 5 ==> KeyChar(word[5]);
  }

  /** Redacting this text once more changes it. */
  lemma HeaderAsValueIsNotSettled()
    ensures Redact(Redact(HeaderAsValue())) != Redact(HeaderAsValue())
  {
    HeaderAsValueHasNoBlock();
    HeaderAsValueKeepsHeader();
    HeaderAsValueDropsKeyword();
    HeaderHasHeader();
    RedactIsIdempotentExactlyWhen(HeaderAsValue());
    ScanAgrees(true, false, HeaderAsValue());
    hide Apply, Pass, PemPass, HasHeader, DroppedValue, HeaderAsValue, Redact, ValuesHoldNoHeader;
  }
}
