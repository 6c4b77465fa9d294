/** The dependency-free streaming hasher behind the trust fingerprint. */
module StreamingSha256 {
  import opened Bytes
  import opened Fips180

  const TWO64: nat := 0x1_0000_0000_0000_0000

  /** A 64-bit counter. */
  function Counter(n: nat): nat { n % TWO64 }

  /** The eight working variables, in the order the code keeps them. */
  ghost predicate Holds(h: array<Word>, v: Working)
    reads h
  {
    && h.Length == 8
    && h[0] == v.a && h[1] == v.b && h[2] == v.c && h[3] == v.d
    && h[4] == v.e && h[5] == v.f && h[6] == v.g && h[7] == v.h
  }

  /** The next schedule word, summed in the order the code sums it. */
  function ScheduleWord(w16: Word, w15: Word, w7: Word, w2: Word): Word {
    w16 + SmallSigma0(w15) + w7 + SmallSigma1(w2)
  }

  lemma ScheduleOrder(w16: Word, w15: Word, w7: Word, w2: Word)
    ensures ScheduleWord(w16, w15, w7, w2) == Expand(w2, w7, w15, w16)
  {
    hide SmallSigma0, SmallSigma1;
    SumOrder(w16, SmallSigma0(w15), w7, SmallSigma1(w2));
  }

  lemma SumOrder(a: Word, b: Word, c: Word, d: Word)
    ensures a + b + c + d == d + c + b + a
  {
  }

  /** What the hasher returns for any message; its 64-bit length counter wraps. */
  function StreamDigest(message: seq<byte>): (digest: seq<byte>)
    ensures |digest| == 32
  {
    Digest(HashBlocks(InitialHash(), PadWithLength(message, Counter(8 * |message|))))
  }

  /** Below 2^61 octets the counter does not wrap and the result is SHA-256. */
  lemma StreamDigestIsSha256(message: seq<byte>)
    requires |message| < 0x2000_0000_0000_0000
    ensures 8 * |message| < Power256(8)
    ensures StreamDigest(message) == Fips180.Sha256(message)
  {
    hide HashBlocks, PadWithLength, InitialHash;
    WrappedBitLength(|message|);
  }

  class Sha256 {
    var state: array<Word>
    var buf: seq<byte>
    /** The number of octets fed so far, as a 64-bit counter that wraps. */
    var len: nat
    /** Everything fed so far. */
    ghost var message: seq<byte>

    ghost function Hashed(): nat
      reads this
    {
      |message| - |message| % 64
    }

    ghost predicate Valid()
      reads this, state
    {
      && state.Length == 8
      && len == Counter(|message|)
      && buf == message[Hashed()..]
      && state[..] == HashBlocks(InitialHash(), message[..Hashed()])
    }

    constructor ()
      ensures Valid() && fresh(state) && message == []
    {
      hide InitialHash, HashBlocks;
      state := new Word[8](i requires 0 <= i < 8 => InitialHash()[i]);
      buf := [];
      len := 0;
      message := [];
      new;
      assert state[..] == InitialHash();
      assert message[..Hashed()] == [];
      NothingHashed();
    }

    /** Any cut of the message into calls reaches the same state. */
    method Update(data: seq<byte>)
      requires Valid()
      modifies this`buf, this`len, this`message, state
      ensures Valid() && state == old(state)
      ensures message == old(message) + data
      ensures |buf| < 64
    {
      hide Compress, InitialHash, HashBlocks, Counter;
      ghost var done: nat := Hashed();
      MoreData(message, data, done);
      message := message + data;
      len := Counter(len + |data|);
      buf := buf + data;
      while |buf| >= 64
        invariant done <= |message| && done % 64 == 0
        invariant buf == message[done..]
        invariant message == old(message) + data && len == Counter(|message|)
        invariant state[..] == HashBlocks(InitialHash(), message[..done])
        decreases |buf|
      {
        FirstBlock(message, done, buf);
        Process(buf[..64]);
        buf := buf[64..];
        done := done + 64;
      }
      LastBlock(|message|, done);
    }

    /** Pads, processes what is left and reads the state out. */
    method Finalize() returns (digest: seq<byte>)
      requires Valid()
      modifies this`buf, state
      ensures digest == StreamDigest(message)
    {
      hide Compress, InitialHash, PadWithLength, Digest, HashBlocks, Counter;
      var bitLength := Counter(len * 8);
      WrappedBitLength(|message|);
      ghost var padded := PadWithLength(message, bitLength);
      ghost var done := Hashed();
      AppendPadding(bitLength);
      PaddedPrefix(message, bitLength, done);
      ProcessChunks(padded, done);
      digest := StateOctets();
    }

    method ProcessChunks(ghost padded: seq<byte>, ghost done: nat)
      requires state.Length == 8 && |padded| % 64 == 0 && done % 64 == 0
      requires done <= |padded| && buf == padded[done..]
      requires state[..] == HashBlocks(InitialHash(), padded[..done])
      modifies state
      ensures state[..] == HashBlocks(InitialHash(), padded)
    {
      hide Compress, InitialHash;
      var chunks := |buf| / 64;
      ghost var at := done;
      var i := 0;
      while i < chunks
        invariant 0 <= i <= chunks
        invariant at == done + 64 * i && at % 64 == 0
        invariant state[..] == HashBlocks(InitialHash(), padded[..at])
      {
        NextBlock(padded, at);
        assert padded[at..][..64] == buf[i * 64..i * 64 + 64];
        Process(buf[i * 64..i * 64 + 64]);
        i := i + 1;
        at := at + 64;
      }
      assert padded[..at] == padded;
    }

    method AppendPadding(bitLength: nat)
      requires |buf| < 64 && buf == message[Hashed()..]
      modifies this`buf
      ensures PadWithLength(message, bitLength) == message[..Hashed()] + buf
    {
      hide ZeroCount, Zeros, PadWithLength;
      ghost var length, tail := |message|, buf;
      buf := buf + [0x80];
      ghost var zeros: nat := 0;
      assert tail + [0x80] + Zeros(0) == tail + [0x80];
      while |buf| % 64 != 56
        invariant buf == tail + [0x80] + Zeros(zeros)
        invariant zeros <= ZeroCount(length)
        decreases ZeroCount(length) - zeros
      {
        assert !LeavesRoom(length, zeros) && LeavesRoom(length, ZeroCount(length));
        OneMoreZero(zeros);
        assert tail + [0x80] + Zeros(zeros) + [0] == tail + [0x80] + Zeros(zeros + 1);
        buf := buf + [0];
        zeros := zeros + 1;
      }
      assert LeavesRoom(length, zeros);
      buf := buf + BigEndian(bitLength, 8);
      PaddingOf(message, Hashed(), bitLength);
    }

    method StateOctets() returns (digest: seq<byte>)
      requires state.Length == 8
      ensures digest == Digest(state[..])
    {
      digest := [];
      var i := 0;
      while i < 8
        invariant 0 <= i <= 8
        invariant digest == DigestWords(state[..i])
      {
        assert state[..i + 1][..i] == state[..i];
        digest := digest + BigEndian(state[i] as nat, 4);
        i := i + 1;
      }
      assert state[..8] == state[..];
    }

    /** One block: the three in-place loops reach the pure compression function. */
    method Process(block: seq<byte>)
      requires |block| == 64 && state.Length == 8
      modifies state
      ensures state[..] == Compress(old(state[..]), block)
    {
      hide Add, Rounds, W, Compress;
      ghost var hash := state[..];
      var w := Schedule(block);
      var h := new Word[8](j requires 0 <= j < 8 reads this, state => if state.Length == 8 then state[j] else 0);
      RunRounds(h, w, hash, block);
      AddInto(h);
      AddedIntoHash(hash, block, Rounds(hash, block, w.Length), state[..]);
    }

    static method Schedule(block: seq<byte>) returns (w: array<Word>)
      requires |block| == 64
      ensures fresh(w) && w.Length == 64
      ensures forall t :: 0 <= t < 64 ==> w[t] == W(block, t)
    {
      hide Expand, ScheduleWord, WordOf;
      w := new Word[64];
      var i := 0;
      while i < 16
        invariant 0 <= i <= 16
        invariant forall t :: 0 <= t < i ==> w[t] == W(block, t)
      {
        w[i] := WordOf(block[i * 4..i * 4 + 4]);
        i := i + 1;
      }
      while i < 64
        invariant 16 <= i <= 64
        invariant forall t :: 0 <= t < i ==> w[t] == W(block, t)
      {
        ScheduleOrder(w[i - 16], w[i - 15], w[i - 7], w[i - 2]);
        w[i] := ScheduleWord(w[i - 16], w[i - 15], w[i - 7], w[i - 2]);
        i := i + 1;
      }
    }

    static method RunRounds(h: array<Word>, w: array<Word>, ghost hash: HashValue, ghost block: Block)
      requires h != w && w.Length == 64 && Holds(h, Start(hash))
      requires forall t :: 0 <= t < 64 ==> w[t] == W(block, t)
      modifies h
      ensures Holds(h, Rounds(hash, block, w.Length))
    {
      hide Round, K, W;
      var i := 0;
      while i < 64
        invariant 0 <= i <= 64
        invariant Holds(h, Rounds(hash, block, i))
      {
        RunRound(h, K(i), w[i], Rounds(hash, block, i));
        i := i + 1;
      }
    }

    /** One round shifts the eight variables down in place, from the last to the first. */
    static method RunRound(h: array<Word>, k: Word, w: Word, ghost v: Working)
      requires Holds(h, v)
      modifies h
      ensures Holds(h, Round(v, k, w))
    {
      hide T1, T2, Add;
      var t1 := T1(h[4], h[5], h[6], h[7], k, w);
      var t2 := T2(h[0], h[1], h[2]);
      h[7] := h[6];
      h[6] := h[5];
      h[5] := h[4];
      h[4] := Add(h[3], t1);
      h[3] := h[2];
      h[2] := h[1];
      h[1] := h[0];
      h[0] := Add(t1, t2);
    }

    /** The working variables are added into the state, slot by slot. */
    method AddInto(h: array<Word>)
      requires state.Length == h.Length == 8 && h != state
      modifies state
      ensures forall j :: 0 <= j < 8 ==> state[j] == Add(old(state[j]), h[j])
    {
      hide Add;
      var i := 0;
      while i < 8
        invariant 0 <= i <= 8
        invariant forall j :: 0 <= j < i ==> state[j] == Add(old(state[j]), h[j])
        invariant forall j :: i <= j < 8 ==> state[j] == old(state[j])
      {
        state[i] := Add(state[i], h[i]);
        i := i + 1;
      }
    }
  }

  lemma WrappedBitLength(octets: nat)
    ensures Counter(Counter(octets) * 8) == Counter(8 * octets)
    ensures Power256(8) == TWO64
  {
    assert octets == TWO64 * (octets / TWO64) + octets % TWO64;
    assert 8 * octets == TWO64 * (8 * (octets / TWO64)) + (octets % TWO64) * 8;
  }

  lemma MoreData(message: seq<byte>, data: seq<byte>, done: nat)
    requires done <= |message|
    ensures (message + data)[..done] == message[..done] && (message + data)[done..] == message[done..] + data
    ensures Counter(Counter(|message|) + |data|) == Counter(|message + data|)
  {
    WrapAdd(|message|, |data|);
  }

  lemma WrapAdd(a: nat, b: nat)
    ensures Counter(Counter(a) + b) == Counter(a + b)
  {
    assert a + b == TWO64 * (a / TWO64) + (a % TWO64 + b);
  }

  lemma FirstBlock(message: seq<byte>, done: nat, buf: seq<byte>)
    requires done % 64 == 0 && done + 64 <= |message| && buf == message[done..]
    ensures (done + 64) % 64 == 0 && buf[64..] == message[done + 64..]
    ensures HashBlocks(InitialHash(), message[..done + 64]) ==
            Compress(HashBlocks(InitialHash(), message[..done]), buf[..64])
  {
    hide HashBlocks, Compress, InitialHash;
    NextBlock(message, done);
  }

  lemma LastBlock(length: nat, done: nat)
    requires done <= length < done + 64 && done % 64 == 0
    ensures done == length - length % 64
  {
  }

  lemma OneMoreZero(n: nat)
    ensures Zeros(n) + [0] == Zeros(n + 1)
  {
  }

  lemma PaddingOf(message: seq<byte>, done: nat, bitLength: nat)
    requires done <= |message|
    ensures PadWithLength(message, bitLength) ==
            message[..done] + (message[done..] + [0x80] + Zeros(ZeroCount(|message|)) + BigEndian(bitLength, 8))
  {
    hide Zeros, ZeroCount, BigEndian;
    var front, tail := message[..done], message[done..];
    var zeros, length := Zeros(ZeroCount(|message|)), BigEndian(bitLength, 8);
    assert message == front + tail;
    assert front + tail + [0x80] + zeros + length == front + (tail + [0x80] + zeros + length);
  }

  lemma NothingHashed()
    ensures HashBlocks(InitialHash(), []) == InitialHash()
  {
    hide InitialHash;
  }

  lemma PaddedPrefix(message: seq<byte>, bitLength: nat, done: nat)
    requires done <= |message|
    ensures done <= |PadWithLength(message, bitLength)|
    ensures PadWithLength(message, bitLength)[..done] == message[..done]
  {
  }

  lemma AddedIntoHash(hash: HashValue, block: Block, v: Working, next: HashValue)
    requires v == Rounds(hash, block, 64)
    requires next[0] == Add(hash[0], v.a) && next[1] == Add(hash[1], v.b)
    requires next[2] == Add(hash[2], v.c) && next[3] == Add(hash[3], v.d)
    requires next[4] == Add(hash[4], v.e) && next[5] == Add(hash[5], v.f)
    requires next[6] == Add(hash[6], v.g) && next[7] == Add(hash[7], v.h)
    ensures next == Compress(hash, block)
  {
    hide Add, Rounds;
  }

  lemma NextBlock(message: seq<byte>, done: nat)
    requires done % 64 == 0 && done + 64 <= |message|
    ensures HashBlocks(InitialHash(), message[..done + 64]) ==
            Compress(HashBlocks(InitialHash(), message[..done]), message[done..][..64])
  {
    hide Compress, InitialHash;
    var block := message[done..][..64];
    assert message[..done + 64] == message[..done] + block;
    HashBlocksAppend(InitialHash(), message[..done], block);
    assert block[..64] == block && block[64..] == [];
  }
}
