/** Commands contributed by a `weft.json`, and the identity their trust is keyed by. */
module WeftCommands {
  import opened Options
  import opened Bytes

  type Text = seq<byte>

  datatype Outcome = Accepted | BlankName | BothCommandAndWorkspace | NeitherCommandNorWorkspace | BlankCommand

  /** `workspace` is the workspace builder as its JSON text. */
  datatype WeftCommand = WeftCommand(name: Text, confirm: Option<bool>, command: Option<Text>, workspace: Option<Text>)
  {
    function Id(): Text {
      IdPrefix() + PercentAlnum(name)
    }

    function Validate(): Outcome {
      if Blank(name) then BlankName
      else match (command, workspace)
        case (Some(_), Some(_)) => BothCommandAndWorkspace
        case (None, None) => NeitherCommandNorWorkspace
        case (Some(text), None) => if Blank(text) then BlankCommand else Accepted
        case _ => Accepted
    }

    /** JSON text of an object is never empty and escapes control characters. */
    predicate JsonWorkspace() {
      workspace.Some? ==> workspace.value != [] && NulFree(workspace.value)
    }

    predicate Valid() {
      Validate() == Accepted && JsonWorkspace()
    }
  }

  predicate Whitespace(b: byte) {
    9 <= b <= 13 || b == 32
  }

  /** Nothing is left after trimming. */
  predicate Blank(text: Text) {
    forall i :: 0 <= i < |text| ==> Whitespace(text[i])
  }

  predicate NulFree(text: Text) {
    0 !in text
  }

  // ---------------------------------------------------------------- id slug

  /** `weft.config.command.` */
  function IdPrefix(): Text {
    [119, 101, 102, 116, 46, 99, 111, 110, 102, 105, 103, 46, 99, 111, 109, 109, 97, 110, 100, 46]
  }

  const PERCENT: byte := 37

  predicate Alphanumeric(b: byte) {
    48 <= b <= 57 || 65 <= b <= 90 || 97 <= b <= 122
  }

  function UpperHex(digit: byte): (c: byte)
    requires digit < 16
    ensures 48 <= c <= 57 || 65 <= c <= 70
  {
    if digit < 10 then 48 + digit else 55 + digit
  }

  function UpperHexDigit(c: byte): byte {
    if c < 65 then if c < 48 then 0 else c - 48 else c - 55
  }

  /** The encoding of one octet: itself, or a percent sign and two hexadecimal digits. */
  function EncodeOctet(b: byte): Text {
    if Alphanumeric(b) then [b] else [PERCENT, UpperHex(b / 16), UpperHex(b % 16)]
  }

  function PercentAlnum(text: Text): Text {
    if text == [] then [] else PercentAlnum(text[..|text| - 1]) + EncodeOctet(text[|text| - 1])
  }

  method Percent(text: Text) returns (out: Text)
    ensures out == PercentAlnum(text)
    ensures PercentDecode(out) == text
  {
    out := [];
    for i := 0 to |text|
      invariant out == PercentAlnum(text[..i])
    {
      assert text[..i + 1][..i] == text[..i];
      var b := text[i];
      if Alphanumeric(b) {
        out := out + [b];
      } else {
        out := out + [PERCENT, UpperHex(b / 16), UpperHex(b % 16)];
      }
    }
    assert text[..|text|] == text;
    PercentDecodes(text);
  }

  /** Reads the slug back, from the left. */
  function PercentDecode(slug: Text): Text {
    if slug == [] then []
    else if slug[0] != PERCENT then [slug[0]] + PercentDecode(slug[1..])
    else if |slug| < 3 then []
    else
      var value := UpperHexDigit(slug[1]) as nat * 16 + UpperHexDigit(slug[2]) as nat;
      [(value % 256) as byte] + PercentDecode(slug[3..])
  }

  lemma OctetDecodesThen(b: byte, rest: Text)
    ensures PercentDecode(EncodeOctet(b) + rest) == [b] + PercentDecode(rest)
  {
    var slug := EncodeOctet(b) + rest;
    if Alphanumeric(b) {
      assert slug[1..] == rest;
    } else {
      assert slug[3..] == rest;
      assert UpperHexDigit(slug[1]) == b / 16 && UpperHexDigit(slug[2]) == b % 16;
    }
  }

  lemma {:induction false} PercentDecodesThen(text: Text, rest: Text)
    ensures PercentDecode(PercentAlnum(text) + rest) == text + PercentDecode(rest)
  {
    hide PercentDecode, EncodeOctet;
    if text == [] {
      assert PercentAlnum(text) + rest == rest && text + PercentDecode(rest) == PercentDecode(rest);
    } else {
      var init, b := text[..|text| - 1], text[|text| - 1];
      PercentDecodesThen(init, EncodeOctet(b) + rest);
      OctetDecodesThen(b, rest);
      Regroup(PercentAlnum(init), EncodeOctet(b), rest);
      Regroup(init, [b], PercentDecode(rest));
      assert text == init + [b];
    }
  }

  lemma Regroup(a: Text, b: Text, c: Text)
    ensures a + b + c == a + (b + c)
  {
  }

  /** Decoding is a left inverse, so different names get different ids. */
  lemma PercentDecodes(text: Text)
    ensures PercentDecode(PercentAlnum(text)) == text
  {
    PercentDecodesThen(text, []);
    assert PercentAlnum(text) + [] == PercentAlnum(text);
  }

  lemma {:induction false} SlugIsNulFree(text: Text)
    ensures NulFree(PercentAlnum(text))
  {
    if text != [] {
      SlugIsNulFree(text[..|text| - 1]);
    }
  }

  // ---------------------------------------------------------------- preimage

  function OrEmpty(text: Option<Text>): Text {
    if text.Some? then text.value else []
  }

  /** What the fingerprint hashes: id, command, workspace and canonical path, split by NUL octets. */
  function Preimage(command: WeftCommand, path: Text): Text {
    command.Id() + [0] + OrEmpty(command.command) + [0] + OrEmpty(command.workspace) + [0] + path
  }

  lemma FirstNulSplits(a: Text, x: Text, b: Text, y: Text)
    requires NulFree(a) && NulFree(b)
    requires a + [0] + x == b + [0] + y
    ensures a == b && x == y
  {
    var whole := a + [0] + x;
    assert whole[|a|] == 0 && whole[|b|] == 0;
    assert |a| == |b|;
    assert a == whole[..|a|] && b == whole[..|a|];
    assert x == whole[|a| + 1..] && y == whole[|a| + 1..];
  }

  /** Two pairs name the same command: everything the user approved is equal. */
  predicate SameIdentity(c: WeftCommand, p: Text, d: WeftCommand, q: Text) {
    c.name == d.name && c.command == d.command && c.workspace == d.workspace && p == q
  }

  predicate DoubleNulAt(t: Text, i: nat) {
    i + 1 < |t| && t[i] == 0 && t[i + 1] == 0
  }

  predicate NoDoubleNul(t: Text) {
    forall i: nat :: i < |t| ==> !DoubleNulAt(t, i)
  }

  /** A path that cannot be taken for another: no NUL at its front and no two in a row. */
  predicate Safe(path: Text) {
    (path == [] || path[0] != 0) && NoDoubleNul(path)
  }

  /** Behind the separator in front of it, that is no two NULs in a row at all. */
  lemma SafeBehindNul(path: Text)
    ensures Safe(path) <==> NoDoubleNul([0] + path)
  {
    var t := [0] + path;
    assert forall i: nat :: DoubleNulAt(path, i) ==> DoubleNulAt(t, i + 1);
    assert forall i: nat :: i > 0 && DoubleNulAt(t, i) ==> DoubleNulAt(path, i - 1);
    if path != [] && path[0] == 0 { assert DoubleNulAt(t, 0); }
  }

  /** Behind two NULs a safe tail can only start in one place. */
  lemma DoubleNulSplits(a: Text, p: Text, b: Text, q: Text)
    requires Safe(p) && Safe(q) && a + [0, 0] + p == b + [0, 0] + q
    ensures a == b && p == q
  {
    if |a| < |b| {
      NoLaterSplit(a, p, b, q);
    } else if |b| < |a| {
      NoLaterSplit(b, q, a, p);
    } else {
      var whole := a + [0, 0] + p;
      assert a == whole[..|a|] && b == whole[..|a|];
      assert p == whole[|a| + 2..] && q == whole[|a| + 2..];
    }
  }

  lemma NoLaterSplit(a: Text, p: Text, b: Text, q: Text)
    requires Safe(p) && a + [0, 0] + p == b + [0, 0] + q
    ensures |b| <= |a|
  {
    var whole := a + [0, 0] + p;
    assert whole[|b|] == 0 && whole[|b| + 1] == 0;
    assert p != [] ==> whole[|a| + 2] == p[0];
    if |b| > |a| + 1 {
      assert DoubleNulAt(p, |b| - |a| - 2);
    }
  }

  /** A workspace in front of a safe path is no command. */
  lemma WorkspaceIsNoCommand(workspace: Text, p: Text, command: Text, q: Text)
    requires workspace != [] && NulFree(workspace) && Safe(p)
    ensures [0] + workspace + [0] + p != command + [0, 0] + q
  {
    var whole, n, k := [0] + workspace + [0] + p, |workspace|, |command|;
    assert forall i :: 1 <= i <= n ==> whole[i] == workspace[i - 1] && workspace[i - 1] in workspace;
    assert forall i :: n + 2 <= i < |whole| ==> whole[i] == p[i - n - 2];
    if whole == command + [0, 0] + q {
      assert whole[k] == 0 && whole[k + 1] == 0;
      if k > n + 1 {
        assert DoubleNulAt(p, k - n - 2);
      }
    }
  }

  /** What stands behind the id and its separator. */
  function Body(command: WeftCommand, path: Text): Text {
    OrEmpty(command.command) + [0] + OrEmpty(command.workspace) + [0] + path
  }

  lemma PreimageSplits(c: WeftCommand, p: Text, d: WeftCommand, q: Text)
    ensures Preimage(c, p) == Preimage(d, q) <==> c.name == d.name && Body(c, p) == Body(d, q)
  {
    hide PercentAlnum, IdPrefix;
    IdStarts(c, p);
    IdStarts(d, q);
    if Preimage(c, p) == Preimage(d, q) {
      FirstNulSplits(c.Id(), Body(c, p), d.Id(), Body(d, q));
      assert PercentAlnum(c.name) == c.Id()[|IdPrefix()|..] == d.Id()[|IdPrefix()|..] == PercentAlnum(d.name);
      PercentDecodes(c.name);
      PercentDecodes(d.name);
    }
  }

  lemma IdStarts(c: WeftCommand, p: Text)
    ensures NulFree(c.Id()) && Preimage(c, p) == c.Id() + [0] + Body(c, p)
  {
    SlugIsNulFree(c.name);
    var id, line, place := c.Id(), OrEmpty(c.command), OrEmpty(c.workspace);
    assert id + [0] + line + [0] + place + [0] + p == id + [0] + (line + [0] + place + [0] + p);
  }

  /** A valid command runs a line or builds a workspace, never both. */
  lemma BodyOf(c: WeftCommand, p: Text)
    requires c.Valid()
    ensures c.command.Some? ==> c.workspace.None? && Body(c, p) == c.command.value + [0, 0] + p
    ensures c.command.None? ==>
              c.workspace.Some? && c.workspace.value != [] && NulFree(c.workspace.value) &&
              Body(c, p) == [0] + c.workspace.value + [0] + p
  {
    if c.command.Some? {
      assert c.command.value + [0] + [] + [0] + p == c.command.value + [0, 0] + p;
    } else {
      assert [] + [0] + c.workspace.value + [0] + p == [0] + c.workspace.value + [0] + p;
    }
  }

  /** On safe paths the preimage pins down the whole identity; the command text itself may contain any NUL. */
  lemma PreimageIsInjective(c: WeftCommand, p: Text, d: WeftCommand, q: Text)
    requires c.Valid() && d.Valid() && Safe(p) && Safe(q)
    ensures Preimage(c, p) == Preimage(d, q) <==> SameIdentity(c, p, d, q)
  {
    hide Preimage, Body, WeftCommand.Valid, Safe;
    PreimageSplits(c, p, d, q);
    BodyOf(c, p);
    BodyOf(d, q);
    if Body(c, p) == Body(d, q) {
      match (c.command, d.command)
      case (Some(a), Some(b)) => DoubleNulSplits(a, p, b, q);
      case (Some(a), None) => WorkspaceIsNoCommand(d.workspace.value, q, a, p);
      case (None, Some(b)) => WorkspaceIsNoCommand(c.workspace.value, p, b, q);
      case (None, None) =>
        var v, w := c.workspace.value, d.workspace.value;
        assert ([0] + v + [0] + p)[1..] == v + [0] + p && ([0] + w + [0] + q)[1..] == w + [0] + q;
        FirstNulSplits(v, p, w, q);
    }
    if SameIdentity(c, p, d, q) { SameBody(c, p, d, q); }
  }

  lemma SameBody(c: WeftCommand, p: Text, d: WeftCommand, q: Text)
    requires SameIdentity(c, p, d, q)
    ensures Body(c, p) == Body(d, q)
  {
  }

  // ---------------------------------------------------------------- unsafe paths

  /** The last two NULs in a row. */
  lemma {:induction false} LastDoubleNul(t: Text) returns (i: nat)
    requires !NoDoubleNul(t)
    ensures DoubleNulAt(t, i) && NoDoubleNul(t[i + 1..])
    decreases |t|
  {
    var j: nat :| j < |t| && DoubleNulAt(t, j);
    var rest := t[j + 1..];
    if NoDoubleNul(rest) {
      i := j;
    } else {
      var k := LastDoubleNul(rest);
      i := j + 1 + k;
      assert rest[k + 1..] == t[i + 1..];
    }
  }

  /** An unsafe path is always taken for another: some command with a safe path hashes the same text. */
  lemma UnsafePathCollides(c: WeftCommand, p: Text) returns (d: WeftCommand, q: Text)
    requires c.Valid() && !Safe(p)
    ensures d.Valid() && Safe(q) && Preimage(c, p) == Preimage(d, q) && !SameIdentity(c, p, d, q)
  {
    hide Preimage, Body, Safe, PercentAlnum, NulFree;
    var t := [0] + p;
    SafeBehindNul(p);
    var i := LastDoubleNul(t);
    q := t[i + 2..];
    SafeBehindNul(q);
    assert t[i + 1..] == [0] + q;
    var front := if c.command.Some? then c.command.value + [0] else [0] + c.workspace.value;
    var line := front + t[..i];
    d := WeftCommand(c.name, c.confirm, Some(line), None);
    LineIsNotBlank(d, line);
    BodyOf(c, p);
    BodyOf(d, q);
    assert t == t[..i] + [0, 0] + q;
    if c.command.Some? {
      assert Body(c, p) == c.command.value + [0] + t;
    } else {
      assert Body(c, p) == [0] + c.workspace.value + t;
    }
    PreimageSplits(c, p, d, q);
  }

  lemma LineIsNotBlank(d: WeftCommand, line: Text)
    requires 0 in line && !Blank(d.name) && d.command == Some(line) && d.workspace.None?
    ensures d.Valid()
  {
    var i :| 0 <= i < |line| && line[i] == 0;
    assert !Whitespace(line[i]);
  }

  /** Exactly the safe paths tell commands apart: with any other, some command on a safe path is trusted with it. */
  lemma PathIsUnmistakableExactlyWhenSafe(c: WeftCommand, p: Text)
    requires c.Valid()
    ensures Safe(p) <==>
            forall d: WeftCommand, q: Text ::
              d.Valid() && Safe(q) && Preimage(c, p) == Preimage(d, q) ==> SameIdentity(c, p, d, q)
  {
    hide Preimage, Safe, WeftCommand.Valid, SameIdentity;
    if Safe(p) {
      forall d: WeftCommand, q: Text | d.Valid() && Safe(q) && Preimage(c, p) == Preimage(d, q)
        ensures SameIdentity(c, p, d, q)
      {
        PreimageIsInjective(c, p, d, q);
      }
    } else {
      var d, q := UnsafePathCollides(c, p);
    }
  }
}

/** The store of granted fingerprints and the decision it takes. */
module WeftTrust {
  import opened Options
  import opened Bytes
  import opened WeftCommands
  import opened StreamingSha256

  datatype Decision = AllowUnconfirmed | NeedsConfirm
  datatype Origin = Global | ProjectLocal

  function LowerHex(digit: byte): byte
    requires digit < 16
  {
    if digit < 10 then 48 + digit else 87 + digit
  }

  function Hex(bytes: seq<byte>): (text: Text)
    ensures |text| == 2 * |bytes|
  {
    if bytes == [] then []
    else
      var last := bytes[|bytes| - 1];
      Hex(bytes[..|bytes| - 1]) + [LowerHex(last / 16), LowerHex(last % 16)]
  }

  lemma {:induction false} HexIsInjective(a: seq<byte>, b: seq<byte>)
    requires Hex(a) == Hex(b)
    ensures a == b
  {
    if a != [] {
      var la, lb := a[|a| - 1], b[|b| - 1];
      assert Hex(a)[..|Hex(a)| - 2] == Hex(a[..|a| - 1]);
      assert Hex(b)[..|Hex(b)| - 2] == Hex(b[..|b| - 1]);
      HexIsInjective(a[..|a| - 1], b[..|b| - 1]);
      assert Hex(a)[|Hex(a)| - 2] == LowerHex(la / 16) && Hex(a)[|Hex(a)| - 1] == LowerHex(la % 16);
      assert Hex(b)[|Hex(b)| - 2] == LowerHex(lb / 16) && Hex(b)[|Hex(b)| - 1] == LowerHex(lb % 16);
      assert la / 16 == lb / 16 && la % 16 == lb % 16;
      assert a == a[..|a| - 1] + [la] && b == b[..|b| - 1] + [lb];
    }
  }

  function FingerprintOf(command: WeftCommand, path: Text): Text {
    Hex(StreamDigest(Preimage(command, path)))
  }

  method Fingerprint(command: WeftCommand, path: Text) returns (text: Text)
    ensures text == FingerprintOf(command, path)
  {
    hide StreamDigest, Hex, Sha256.Valid, Preimage, WeftCommand.Id, OrEmpty;
    var hasher := new Sha256();
    var id, line, place := command.Id(), OrEmpty(command.command), OrEmpty(command.workspace);
    hasher.Update(id);
    hasher.Update([0]);
    hasher.Update(line);
    hasher.Update([0]);
    if command.workspace.Some? {
      hasher.Update(command.workspace.value);
    }
    WorkspaceIsFed(command, id + [0] + line + [0]);
    hasher.Update([0]);
    hasher.Update(path);
    assert [] + id == id;
    PreimageParts(command, path);
    var digest := hasher.Finalize();
    text := Hex(digest);
  }

  lemma WorkspaceIsFed(command: WeftCommand, fed: Text)
    ensures command.workspace.Some? ==> fed + command.workspace.value == fed + OrEmpty(command.workspace)
    ensures command.workspace.None? ==> fed == fed + OrEmpty(command.workspace)
  {
  }

  lemma PreimageParts(command: WeftCommand, path: Text)
    ensures Preimage(command, path) ==
            command.Id() + [0] + OrEmpty(command.command) + [0] + OrEmpty(command.workspace) + [0] + path
  {
  }

  class TrustStore {
    var fingerprints: set<Text>
    /** Whether the store has a file, and what that file lists. */
    const backed: bool
    var disk: set<Text>
    /** What was loaded, and every pair trust was granted to since. */
    ghost var loaded: set<Text>
    ghost var granted: set<(WeftCommand, Text)>

    ghost predicate Valid()
      reads this
    {
      fingerprints == loaded + Fingerprints(granted)
    }

    constructor InMemory()
      ensures Valid() && loaded == {} && granted == {} && !backed
    {
      fingerprints, backed, disk, loaded, granted := {}, false, {}, {}, {};
    }

    /** `stored` is the list in the file, if there is a well-formed one. */
    constructor WithDir(stored: Option<seq<Text>>)
      ensures Valid() && granted == {} && backed
      ensures forall f :: f in loaded <==> stored.Some? && f in stored.value
      ensures disk == loaded
    {
      fingerprints := if stored.Some? then set f | f in stored.value else {};
      backed := true;
      disk, loaded, granted := fingerprints, fingerprints, {};
    }

    /** Whether the file can be written is up to the disk; the grant counts in any case. */
    method Grant(command: WeftCommand, path: Text, writable: bool)
      requires Valid()
      modifies this
      ensures Valid() && loaded == old(loaded) && granted == old(granted) + {(command, path)}
      ensures disk == if backed && writable then fingerprints else old(disk)
    {
      hide FingerprintOf;
      var text := Fingerprint(command, path);
      fingerprints := fingerprints + {text};
      granted := granted + {(command, path)};
      if backed && writable {
        disk := fingerprints;
      }
    }

    method IsTrusted(command: WeftCommand, path: Text) returns (trusted: bool)
      requires Valid()
      ensures trusted <==> FingerprintOf(command, path) in loaded + Fingerprints(granted)
    {
      hide FingerprintOf;
      var text := Fingerprint(command, path);
      trusted := text in fingerprints;
    }

    method Decide(command: WeftCommand, origin: Origin, path: Text) returns (decision: Decision)
      requires Valid()
      ensures decision.AllowUnconfirmed? <==>
              command.confirm != Some(true) &&
              (origin == Global || FingerprintOf(command, path) in loaded + Fingerprints(granted))
    {
      if command.confirm == Some(true) {
        return NeedsConfirm;
      }
      if origin == Global {
        return AllowUnconfirmed;
      }
      hide FingerprintOf;
      var text := Fingerprint(command, path);
      decision := if text in fingerprints then AllowUnconfirmed else NeedsConfirm;
    }
  }

  ghost function Fingerprints(granted: set<(WeftCommand, Text)>): set<Text> {
    set g | g in granted :: FingerprintOf(g.0, g.1)
  }

  /** SHA-256 does not collide on the two preimages. */
  ghost predicate NoCollision(c: WeftCommand, p: Text, d: WeftCommand, q: Text) {
    StreamDigest(Preimage(c, p)) == StreamDigest(Preimage(d, q)) ==> Preimage(c, p) == Preimage(d, q)
  }

  /** Barring collisions, what is trusted is exactly what was granted: an edited command is not. */
  lemma TrustedIsExactlyGranted(granted: set<(WeftCommand, Text)>, command: WeftCommand, path: Text)
    requires command.Valid() && Safe(path)
    requires forall g :: g in granted ==> g.0.Valid() && Safe(g.1) && NoCollision(g.0, g.1, command, path)
    ensures FingerprintOf(command, path) in Fingerprints(granted) <==>
            exists g :: g in granted && SameIdentity(g.0, g.1, command, path)
  {
    hide StreamDigest, Hex;
    forall g | g in granted
      ensures FingerprintOf(g.0, g.1) == FingerprintOf(command, path) <==> SameIdentity(g.0, g.1, command, path)
    {
      PreimageIsInjective(g.0, g.1, command, path);
      if FingerprintOf(g.0, g.1) == FingerprintOf(command, path) {
        HexIsInjective(StreamDigest(Preimage(g.0, g.1)), StreamDigest(Preimage(command, path)));
      }
    }
  }
}
