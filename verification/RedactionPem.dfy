/** Private-key blocks: the first pass of the redactor. */
module RedactionPem {
  import opened Options
  import opened RedactionRules
  import opened RedactionPasses
  import opened RedactionMarkers

  function Begin(): (s: string) ensures s != "" { "-----BEGIN" }
  function EndAnchor(): (s: string) ensures s != "" { "-----END" }
  function PrivateKey(): (s: string) ensures s != "" { "PRIVATE KEY" }
  function KeyMarker(): string { "<redacted:ssh-private-key>" }

  /** The first place where `word` stands. */
  function Find(t: string, word: string): (at: Option<nat>)
    requires word != ""
    ensures at.Some? ==> at.value + |word| <= |t| && word <= t[at.value..]
  {
    if word <= t then Some(0)
    else if t == "" then None
    else
      match Find(t[1..], word)
      case None => None
      case Some(at) =>
        assert t[1..][at..] == t[at + 1..];
        Some(at + 1)
  }

  /** It stands nowhere before. */
  lemma {:induction false} FindIsFirst(t: string, word: string, j: nat)
    requires word != "" && j <= |t| && word <= t[j..]
    ensures Find(t, word).Some? && Find(t, word).value <= j
  {
    if j > 0 {
      assert t[1..][j - 1..] == t[j..];
      FindIsFirst(t[1..], word, j - 1);
    } else {
      assert t[0..] == t;
    }
  }

  /** Where the first line ends. */
  function LineEnd(t: string): (n: nat)
    ensures n <= |t| && (n < |t| ==> t[n] == '\n')
  {
    if t == "" || t[0] == '\n' then 0 else 1 + LineEnd(t[1..])
  }

  lemma {:induction false} LineHasNoNewline(t: string)
    ensures '\n' !in t[..LineEnd(t)]
  {
    if t != "" && t[0] != '\n' {
      LineHasNoNewline(t[1..]);
      assert t[..LineEnd(t)] == [t[0]] + t[1..][..LineEnd(t[1..])];
    }
  }

  lemma CutAndDrop(t: string, a: nat, n: nat)
    requires a <= n <= |t|
    ensures t[..n][a..] == t[a..][..n - a]
  {
  }

  lemma DropTwice(t: string, a: nat, b: nat)
    requires a + b <= |t|
    ensures t[a..][b..] == t[a + b..]
  {
  }

  /** Whether a line that starts with the begin anchor announces a private key. */
  predicate Announces(line: string) {
    Find(line, PrivateKey()).Some?
  }

  /** The length of the key block at the front of `t`: through its end line, or everything. */
  function BlockLength(t: string): (n: nat)
    requires Begin() <= t
    ensures 0 < n <= |t| && (n < |t| ==> t[n] == '\n')
  {
    hide Find, EndAnchor, Begin, LineEnd;
    var line := LineEnd(t);
    match Find(t[line..], EndAnchor())
    case None => |t|
    case Some(r) =>
      BlockHasBegin(t, line, r);
      line + r + LineEnd(t[line + r..])
  }

  lemma BlockHasBegin(t: string, line: nat, r: nat)
    requires Begin() <= t && LineEnd(t) == line && Find(t[line..], EndAnchor()) == Some(r)
    ensures 0 < line + r <= |t|
  {
    hide Find;
    assert t[0] == Begin()[0];
  }

  function PemPass(t: string): string
    decreases |t|
  {
    match Find(t, Begin())
    case None => t
    case Some(b) =>
      var after := t[b..];
      if !Announces(after[..LineEnd(after)]) then t[..b + |Begin()|] + PemPass(t[b + |Begin()|..])
      else t[..b] + KeyMarker() + PemPass(after[BlockLength(after)..])
  }

  // ---------------------------------------------------------------- exactly the key blocks go

  datatype Piece = Keep(text: string) | Block(text: string)

  function Pieces(t: string): seq<Piece>
    decreases |t|
  {
    match Find(t, Begin())
    case None => [Keep(t)]
    case Some(b) =>
      var after := t[b..];
      if !Announces(after[..LineEnd(after)]) then [Keep(t[..b + |Begin()|])] + Pieces(t[b + |Begin()|..])
      else [Keep(t[..b]), Block(after[..BlockLength(after)])] + Pieces(after[BlockLength(after)..])
  }

  function Raw(pieces: seq<Piece>): string {
    if pieces == [] then "" else pieces[0].text + Raw(pieces[1..])
  }

  function Shown(pieces: seq<Piece>): string {
    if pieces == [] then ""
    else (if pieces[0].Block? then KeyMarker() else pieces[0].text) + Shown(pieces[1..])
  }

  /** A begin line that announces a key, through the first end line after it or, failing that, to the end. */
  predicate IsKeyBlock(text: string, rest: string) {
    && Begin() <= text && Announces(text[..LineEnd(text)])
    && (rest == "" || rest[0] == '\n')
    && EndsRight(text, LineEnd(text), rest)
  }

  /** After the first line there is one end line, the last of the block, or the text runs out. */
  predicate EndsRight(text: string, line: nat, rest: string)
    requires line <= |text|
  {
    match Find(text[line..], EndAnchor())
    case None => rest == ""
    case Some(r) => '\n' !in text[line..][r..]
  }

  predicate BlocksAreKeys(pieces: seq<Piece>) {
    pieces == [] ||
    ((pieces[0].Block? ==> IsKeyBlock(pieces[0].text, Raw(pieces[1..]))) && BlocksAreKeys(pieces[1..]))
  }

  lemma {:induction false} FindInPrefix(t: string, word: string, n: nat, r: nat)
    requires word != "" && Find(t, word) == Some(r) && r + |word| <= n <= |t|
    ensures Find(t[..n], word) == Some(r)
  {
    hide Find;
    PrefixOfPrefix(t, n, word);
    FindStep(t, word);
    FindStep(t[..n], word);
    if !(word <= t) {
      FindInPrefix(t[1..], word, n - 1, r - 1);
      assert t[..n][1..] == t[1..][..n - 1];
    }
  }

  lemma FindStep(t: string, word: string)
    requires word != ""
    ensures word <= t ==> Find(t, word) == Some(0)
    ensures !(word <= t) && t != "" ==>
              Find(t, word) == match Find(t[1..], word) case None => None case Some(at) => Some(at + 1)
    ensures t == "" ==> Find(t, word).None?
  {
  }

  lemma {:induction false} LineEndOfPrefix(t: string, n: nat)
    requires LineEnd(t) <= n <= |t|
    ensures LineEnd(t[..n]) == LineEnd(t)
  {
    if t != "" && t[0] != '\n' {
      LineEndOfPrefix(t[1..], n - 1);
      assert t[..n][1..] == t[1..][..n - 1];
    }
  }

  lemma PrefixOfPrefix(t: string, n: nat, word: string)
    requires n <= |t|
    ensures word <= t[..n] ==> word <= t
    ensures word <= t && |word| <= n ==> word <= t[..n]
  {
  }

  lemma {:induction false} WithinLine(t: string, word: string)
    requires word <= t && forall i :: 0 <= i < |word| ==> word[i] != '\n'
    ensures |word| <= LineEnd(t)
  {
    if word != "" { WithinLine(t[1..], word[1..]); }
  }

  lemma AnchorsFitOnLines()
    ensures Begin() != "" && forall i :: 0 <= i < |Begin()| ==> Begin()[i] != '\n'
    ensures EndAnchor() != "" && forall i :: 0 <= i < |EndAnchor()| ==> EndAnchor()[i] != '\n'
  {
  }

  lemma BlockIsKey(t: string)
    requires Begin() <= t && Announces(t[..LineEnd(t)])
    ensures IsKeyBlock(t[..BlockLength(t)], t[BlockLength(t)..])
  {
    hide Announces, EndAnchor, Begin, Find, EndsRight;
    var n := BlockLength(t);
    var line := LineEnd(t);
    AnchorsFitOnLines();
    WithinLine(t, Begin());
    LineWithinBlock(t);
    LineEndOfPrefix(t, n);
    PrefixOfPrefix(t, n, Begin());
    assert t[..n][..line] == t[..line];
    BlockEndsRight(t);
    hide BlockLength;
  }

  lemma LineWithinBlock(t: string)
    requires Begin() <= t
    ensures LineEnd(t) <= BlockLength(t)
  {
    hide Begin, EndAnchor, LineEnd, Find;
  }

  lemma BlockEndsRight(t: string)
    requires Begin() <= t
    ensures LineEnd(t) <= BlockLength(t)
    ensures EndsRight(t[..BlockLength(t)], LineEnd(t), t[BlockLength(t)..])
  {
    LineWithinBlock(t);
    hide Begin, LineEnd, Find, EndAnchor;
    var n, line := BlockLength(t), LineEnd(t);
    var rest := t[line..];
    match Find(rest, EndAnchor())
    case None => assert t[..n] == t;
    case Some(r) =>
      DropTwice(t, line, r);
      RestEndsRight(t, line, n, r);
  }

  lemma RestEndsRight(t: string, line: nat, n: nat, r: nat)
    requires line <= n <= |t| && Find(t[line..], EndAnchor()) == Some(r) && n == line + r + LineEnd(t[line..][r..])
    ensures EndsRight(t[..n], line, t[n..])
  {
    hide LineEnd, Find, EndAnchor;
    CutAndDrop(t, line, n);
    EndLineFound(t[line..], r);
    EndLineIsOneLine(t[line..], r);
  }

  lemma EndLineFound(rest: string, r: nat)
    requires Find(rest, EndAnchor()) == Some(r)
    ensures Find(rest[..r + LineEnd(rest[r..])], EndAnchor()) == Some(r)
  {
    hide EndAnchor, Find, LineEnd;
    AnchorsFitOnLines();
    WithinLine(rest[r..], EndAnchor());
    FindInPrefix(rest, EndAnchor(), r + LineEnd(rest[r..]), r);
  }

  lemma EndLineIsOneLine(rest: string, r: nat)
    requires r <= |rest|
    ensures '\n' !in rest[..r + LineEnd(rest[r..])][r..]
  {
    LineHasNoNewline(rest[r..]);
    CutAndDrop(rest, r, r + LineEnd(rest[r..]));
  }

  lemma PieceInFront(p: Piece, pieces: seq<Piece>)
    ensures Raw([p] + pieces) == p.text + Raw(pieces)
    ensures Shown([p] + pieces) == (if p.Block? then KeyMarker() else p.text) + Shown(pieces)
    ensures BlocksAreKeys([p] + pieces) <==>
            (p.Block? ==> IsKeyBlock(p.text, Raw(pieces))) && BlocksAreKeys(pieces)
  {
    hide IsKeyBlock, KeyMarker;
    assert ([p] + pieces)[1..] == pieces;
  }

  /** The output is the input with each key block, and nothing else, replaced by one marker. */
  lemma {:induction false} PemPassReplacesBlocks(t: string)
    ensures Raw(Pieces(t)) == t && Shown(Pieces(t)) == PemPass(t) && BlocksAreKeys(Pieces(t))
    decreases |t|
  {
    hide Begin, KeyMarker, Announces, IsKeyBlock, BlockLength, Pieces, PemPass, Find, LineEnd;
    match Find(t, Begin())
    case None =>
      PiecesKeepAll(t);
      NoAnchorNoChange(t);
      PieceInFront(Keep(t), []);
      assert [Keep(t)] + [] == [Keep(t)] && t + "" == t;
    case Some(b) =>
      var after := t[b..];
      if !Announces(after[..LineEnd(after)]) {
        var n := b + |Begin()|;
        PemPassReplacesBlocks(t[n..]);
        PiecesSkip(t, b);
        PassSkips(t, b);
        PieceInFront(Keep(t[..n]), Pieces(t[n..]));
        assert t[..n] + t[n..] == t;
      } else {
        BlockInFront(t, b);
      }
  }

  lemma {:induction false} BlockInFront(t: string, b: nat)
    requires Find(t, Begin()) == Some(b) && Announces(t[b..][..LineEnd(t[b..])])
    ensures Raw(Pieces(t)) == t && Shown(Pieces(t)) == PemPass(t) && BlocksAreKeys(Pieces(t))
    decreases |t|, 0
  {
    hide Begin, KeyMarker, Announces, IsKeyBlock, BlockLength, Pieces, PemPass, Find, LineEnd;
    var after := t[b..];
    var n := BlockLength(after);
    var block, rest := Block(after[..n]), after[n..];
    PemPassReplacesBlocks(rest);
    BlockIsKey(after);
    PiecesWithBlock(t, b, n);
    PassWithBlock(t, b, n);
    PieceInFront(block, Pieces(rest));
    PieceInFront(Keep(t[..b]), [block] + Pieces(rest));
    Rejoin(t, b, n);
  }

  lemma Rejoin(t: string, b: nat, n: nat)
    requires b + n <= |t|
    ensures t[..b] + (t[b..][..n] + t[b..][n..]) == t
  {
  }

  lemma PiecesKeepAll(t: string)
    requires Find(t, Begin()).None?
    ensures Pieces(t) == [Keep(t)]
  {
    hide Begin, Find;
  }

  lemma PiecesSkip(t: string, b: nat)
    requires Find(t, Begin()) == Some(b) && !Announces(t[b..][..LineEnd(t[b..])])
    ensures Pieces(t) == [Keep(t[..b + |Begin()|])] + Pieces(t[b + |Begin()|..])
  {
    hide Begin, Announces, BlockLength, LineEnd, Find;
  }

  lemma PiecesWithBlock(t: string, b: nat, n: nat)
    requires Find(t, Begin()) == Some(b) && Announces(t[b..][..LineEnd(t[b..])]) && n == BlockLength(t[b..])
    ensures Pieces(t) == [Keep(t[..b])] + ([Block(t[b..][..n])] + Pieces(t[b..][n..]))
  {
    hide Begin, KeyMarker, Announces, BlockLength, LineEnd, Find;
  }

  lemma NoAnchorNoChange(t: string)
    requires Find(t, Begin()).None?
    ensures PemPass(t) == t
  {
    hide Begin, Find;
  }

  lemma PassSkips(t: string, b: nat)
    requires Find(t, Begin()) == Some(b) && !Announces(t[b..][..LineEnd(t[b..])])
    ensures PemPass(t) == t[..b + |Begin()|] + PemPass(t[b + |Begin()|..])
  {
    hide Begin, KeyMarker, Announces, BlockLength, LineEnd, Find;
  }

  lemma PassWithBlock(t: string, b: nat, n: nat)
    requires Find(t, Begin()) == Some(b) && Announces(t[b..][..LineEnd(t[b..])]) && n == BlockLength(t[b..])
    ensures PemPass(t) == t[..b] + (KeyMarker() + PemPass(t[b..][n..]))
  {
    hide Begin, KeyMarker, Announces, BlockLength, LineEnd, Find;
    var rest := PemPass(t[b..][n..]);
    assert t[..b] + (KeyMarker() + rest) == t[..b] + KeyMarker() + rest;
  }
}
