/** Ids, fingerprints and validation of project commands, spelled out in characters. */
module WeftLaws {
  import opened Options
  import opened Bytes
  import opened WeftCommands
  import opened WeftTrust
  import opened StreamingSha256

  predicate AsciiText(s: string) {
    forall i :: 0 <= i < |s| ==> s[i] < '\U{80}'
  }

  function Octets(s: string): (text: Text)
    requires AsciiText(s)
    ensures |text| == |s|
  {
    seq(|s|, i requires 0 <= i < |s| => s[i] as byte)
  }

  // ---------------------------------------------------------------- ids

  lemma PrefixIs()
    ensures IdPrefix() == Octets("weft.config.command.")
  {
  }

  lemma {:induction false} SlugAppends(a: Text, b: Text)
    ensures PercentAlnum(a + b) == PercentAlnum(a) + PercentAlnum(b)
  {
    hide EncodeOctet;
    if b == [] {
      assert a + b == a;
    } else {
      assert (a + b)[..|a + b| - 1] == a + b[..|b| - 1];
      SlugAppends(a, b[..|b| - 1]);
    }
  }

  /** Letters and digits stay; any other octet becomes a percent sign and two upper-case hexadecimal digits. */
  lemma SlugOf(b: byte)
    ensures PercentAlnum([b]) ==
            var c := b as char;
            if 'a' <= c <= 'z' || 'A' <= c <= 'Z' || '0' <= c <= '9' then [b]
            else Octets(['%', "0123456789ABCDEF"[b / 16], "0123456789ABCDEF"[b % 16]])
  {
    assert [b][..0] == [];
    UpperHexIs(b / 16);
    UpperHexIs(b % 16);
  }

  lemma UpperHexIs(d: byte)
    requires d < 16
    ensures UpperHex(d) as char == "0123456789ABCDEF"[d]
  {
  }

  // ---------------------------------------------------------------- fingerprints

  lemma {:induction false} HexAppends(a: seq<byte>, b: seq<byte>)
    ensures Hex(a + b) == Hex(a) + Hex(b)
  {
    if b == [] {
      assert a + b == a;
    } else {
      assert (a + b)[..|a + b| - 1] == a + b[..|b| - 1];
      HexAppends(a, b[..|b| - 1]);
    }
  }

  /** Two lower-case hexadecimal digits for every octet. */
  lemma HexOf(b: byte)
    ensures Hex([b]) == Octets(["0123456789abcdef"[b / 16], "0123456789abcdef"[b % 16]])
  {
    assert [b][..0] == [];
    LowerHexIs(b / 16);
    LowerHexIs(b % 16);
  }

  lemma LowerHexIs(d: byte)
    requires d < 16
    ensures LowerHex(d) as char == "0123456789abcdef"[d]
  {
  }

  /** The text that is hashed: id, command, workspace and path, in this order, with a NUL between two of them. */
  lemma FingerprintHashes(name: Text, confirm: Option<bool>, line: Text, place: Text, path: Text)
    ensures FingerprintOf(WeftCommand(name, confirm, Some(line), None), path) ==
            Hex(StreamDigest(Octets("weft.config.command.") + PercentAlnum(name) + [0] + line + [0, 0] + path))
    ensures FingerprintOf(WeftCommand(name, confirm, None, Some(place)), path) ==
            Hex(StreamDigest(Octets("weft.config.command.") + PercentAlnum(name) + [0, 0] + place + [0] + path))
  {
    hide Hex, StreamDigest, PercentAlnum;
    PrefixIs();
    var id := IdPrefix() + PercentAlnum(name);
    assert id + [0] + line + [0] + [] + [0] + path == id + [0] + line + [0, 0] + path;
    assert id + [0] + [] + [0] + place + [0] + path == id + [0, 0] + place + [0] + path;
  }

  // ---------------------------------------------------------------- validation

  /** Some octet is no white space. */
  predicate HasInk(text: Text) {
    exists i :: 0 <= i < |text| && text[i] as char !in {' ', '\t', '\n', '\U{0B}', '\U{0C}', '\r'}
  }

  lemma BlankMeans(text: Text)
    ensures Blank(text) <==> !HasInk(text)
  {
    assert forall b: byte :: Whitespace(b) <==> b as char in {' ', '\t', '\n', '\U{0B}', '\U{0C}', '\r'};
  }

  /** A command is accepted when it has a name and exactly one of a line and a workspace, the line not blank. */
  lemma AcceptedExactlyWhen(c: WeftCommand)
    ensures c.Validate() == Accepted <==>
            HasInk(c.name) &&
            if c.command.Some? then c.workspace.None? && HasInk(c.command.value) else c.workspace.Some?
    ensures c.Validate() == BlankName <==> !HasInk(c.name)
    ensures c.Validate() == BothCommandAndWorkspace <==> HasInk(c.name) && c.command.Some? && c.workspace.Some?
    ensures c.Validate() == NeitherCommandNorWorkspace <==> HasInk(c.name) && c.command.None? && c.workspace.None?
  {
    hide HasInk, Blank;
    BlankMeans(c.name);
    if c.command.Some? { BlankMeans(c.command.value); }
  }
}
