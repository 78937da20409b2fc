/**
  CityHash64 of messages longer than 64 bytes, and its streaming form. `LongHash` is the one-shot value as a fold over
  64-byte blocks; the loop and the streaming class are both proved to compute it, for every way of cutting the message.
 */
module City {
  type Octet = bv8
  type Word = bv64
  type Pair = (bv64, bv64)

  const K0: Word := 0xc3a5c85c97cb3127
  const K1: Word := 0xb492b66fbe98f273
  const K_MUL: Word := 0x9ddfea08eb382d69

  function Rotate(val: Word, shift: bv7): Word
    requires shift <= 64
  {
    if shift == 0 then val else (val >> shift) | (val << (64 - shift))
  }

  // The word operations are named so that proofs about the order of the steps need not look inside them.
  function Plus(a: Word, b: Word): Word {
    a + b
  }

  function Times(a: Word, b: Word): Word {
    a * b
  }

  function Xor(a: Word, b: Word): Word {
    a ^ b
  }

  function ShiftMix(val: Word): Word {
    val ^ (val >> 47)
  }

  /** `Hash128to64`. */
  function HashLen16(u: Word, v: Word): Word {
    Times(ShiftMix(Times(Xor(v, ShiftMix(Times(Xor(u, v), K_MUL))), K_MUL)), K_MUL)
  }

  /** `UNALIGNED_LOAD64` on a little-endian machine. */
  function Load(s: seq<Octet>, i: nat): Word
    requires i + 8 <= |s|
  {
    (s[i] as Word) | ((s[i + 1] as Word) << 8) | ((s[i + 2] as Word) << 16) | ((s[i + 3] as Word) << 24)
    | ((s[i + 4] as Word) << 32) | ((s[i + 5] as Word) << 40) | ((s[i + 6] as Word) << 48) | ((s[i + 7] as Word) << 56)
  }

  /** A length as a 64-bit word. */
  function LengthWord(len: nat): Word {
    (len % 0x1_0000_0000_0000_0000) as Word
  }

  /** `WeakHashLen32WithSeeds` on four words. */
  function WeakHashWords(w: Word, x: Word, y: Word, z: Word, a: Word, b: Word): Pair {
    var c := Plus(a, w);
    var d := Rotate(Plus(Plus(b, c), z), 21);
    var e := Plus(Plus(c, x), y);
    (Plus(e, z), Plus(Plus(d, Rotate(e, 44)), c))
  }

  /** `WeakHashLen32WithSeeds` on 32 bytes. */
  function WeakHash(s: seq<Octet>, i: nat, a: Word, b: Word): Pair
    requires i + 32 <= |s|
  {
    WeakHashWords(Load(s, i), Load(s, i + 8), Load(s, i + 16), Load(s, i + 24), a, b)
  }

  /** The 56 bytes of state between blocks. */
  datatype State = State(x: Word, y: Word, z: Word, v: Pair, w: Pair)

  function Start(len: nat, head: seq<Octet>, tail: seq<Octet>): State
    requires |head| == |tail| == 64
  {
    var y := Xor(Load(tail, 48), K1);
    var v := WeakHash(tail, 0, LengthWord(len), y);
    var w := WeakHash(tail, 32, Times(LengthWord(len), K1), K0);
    var z := Plus(Xor(Load(tail, 8), K0), Times(ShiftMix(v.1), K1));
    State(Times(Rotate(Plus(z, Load(head, 0)), 39), K1), Times(Rotate(y, 33), K1), z, v, w)
  }

  /** One 64-byte block. */
  function Round(st: State, b: seq<Octet>): State
    requires |b| == 64
  {
    var x := Xor(Times(Rotate(Plus(Plus(Plus(st.x, st.y), st.v.0), Load(b, 16)), 37), K1), st.w.1);
    var y := Xor(Times(Rotate(Plus(Plus(st.y, st.v.1), Load(b, 48)), 42), K1), st.v.0);
    var z := Rotate(Xor(st.z, st.w.0), 33);
    var v := WeakHash(b, 0, Times(st.v.1, K1), Plus(x, st.w.0));
    var w := WeakHash(b, 32, Plus(z, st.w.1), y);
    State(z, y, x, v, w)
  }

  function Finish(st: State): Word {
    HashLen16(Plus(Plus(HashLen16(st.v.0, st.w.0), Times(ShiftMix(st.y), K1)), st.z), Plus(HashLen16(st.v.1, st.w.1), st.x))
  }

  /** The state after the first `n` blocks of `s`. */
  function Rounds(st: State, s: seq<Octet>, n: nat): State
    requires 64 * n <= |s|
  {
    if n == 0 then st else Round(Rounds(st, s, n - 1), s[64 * (n - 1)..64 * n])
  }

  function BlockCount(len: nat): nat
    requires len > 64
  {
    (len - 1) / 64
  }

  /** The hash of a whole message. */
  function LongHash(s: seq<Octet>): Word
    requires |s| > 64
  {
    Finish(Rounds(Start(|s|, s[..64], s[|s| - 64..]), s, BlockCount(|s|)))
  }

  /** The blocks before position 64 * n do not depend on what follows. */
  lemma {:induction false} RoundsPrefix(st: State, s: seq<Octet>, t: seq<Octet>, n: nat)
    requires 64 * n <= |s| && s <= t
    ensures Rounds(st, s, n) == Rounds(st, t, n)
  {
    hide Round;
    if n > 0 {
      RoundsPrefix(st, s, t, n - 1);
      assert s[64 * (n - 1)..64 * n] == t[64 * (n - 1)..64 * n];
    }
  }

  lemma {:induction false} LoadShift(s: seq<Octet>, i: nat, j: nat, k: nat)
    requires i + j + 8 <= k <= |s|
    ensures Load(s[i..k], j) == Load(s, i + j)
  {
  }

  lemma {:induction false} WeakShift(s: seq<Octet>, i: nat, j: nat, k: nat, a: Word, b: Word)
    requires i + j + 32 <= k <= |s|
    ensures WeakHash(s[i..k], j, a, b) == WeakHash(s, i + j, a, b)
  {
    hide Load, WeakHashWords;
    LoadShift(s, i, j, k);
    LoadShift(s, i, j + 8, k);
    LoadShift(s, i, j + 16, k);
    LoadShift(s, i, j + 24, k);
  }

  lemma {:induction false} NoRounds(st: State, s: seq<Octet>)
    ensures Rounds(st, s, 0) == st
  {
  }

  lemma {:induction false} NextRound(st: State, s: seq<Octet>, n: nat)
    requires 64 * n + 64 <= |s|
    ensures Rounds(st, s, n + 1) == Round(Rounds(st, s, n), s[64 * n..64 * n + 64])
  {
    hide Round;
  }

  /** The first state, with the loads done in the message itself. */
  ghost function StartAt(s: seq<Octet>): State
    requires |s| > 64
  {
    var len := |s|;
    var y := Xor(Load(s, len - 16), K1);
    var v := WeakHash(s, len - 64, LengthWord(len), y);
    var w := WeakHash(s, len - 32, Times(LengthWord(len), K1), K0);
    var z := Plus(Xor(Load(s, len - 56), K0), Times(ShiftMix(v.1), K1));
    State(Times(Rotate(Plus(z, Load(s, 0)), 39), K1), Times(Rotate(y, 33), K1), z, v, w)
  }

  lemma {:induction false} StartInPlace(s: seq<Octet>)
    requires |s| > 64
    ensures Start(|s|, s[..64], s[|s| - 64..]) == StartAt(s)
  {
    hide Plus, Times, Xor, Load, Rotate, WeakHash, ShiftMix, LengthWord;
    var n := |s|;
    assert s[0..64] == s[..64] && s[n - 64..n] == s[n - 64..];
    LoadShift(s, 0, 0, 64);
    LoadShift(s, n - 64, 48, n);
    LoadShift(s, n - 64, 8, n);
    WeakShift(s, n - 64, 0, n, LengthWord(n), Xor(Load(s, n - 16), K1));
    WeakShift(s, n - 64, 32, n, Times(LengthWord(n), K1), K0);
  }

  /** One block, with the loads done in the message itself. */
  ghost function RoundAt(st: State, s: seq<Octet>, i: nat): State
    requires i + 64 <= |s|
  {
    var x := Xor(Times(Rotate(Plus(Plus(Plus(st.x, st.y), st.v.0), Load(s, i + 16)), 37), K1), st.w.1);
    var y := Xor(Times(Rotate(Plus(Plus(st.y, st.v.1), Load(s, i + 48)), 42), K1), st.v.0);
    var z := Rotate(Xor(st.z, st.w.0), 33);
    var v := WeakHash(s, i, Times(st.v.1, K1), Plus(x, st.w.0));
    var w := WeakHash(s, i + 32, Plus(z, st.w.1), y);
    State(z, y, x, v, w)
  }

  lemma {:induction false} RoundInPlace(st: State, s: seq<Octet>, i: nat)
    requires i + 64 <= |s|
    ensures Round(st, s[i..i + 64]) == RoundAt(st, s, i)
  {
    hide Plus, Times, Xor, Load, Rotate, WeakHash;
    var b := s[i..i + 64];
    LoadShift(s, i, 16, i + 64);
    LoadShift(s, i, 48, i + 64);
    var x := Xor(Times(Rotate(Plus(Plus(Plus(st.x, st.y), st.v.0), Load(s, i + 16)), 37), K1), st.w.1);
    var y := Xor(Times(Rotate(Plus(Plus(st.y, st.v.1), Load(s, i + 48)), 42), K1), st.v.0);
    var z := Rotate(Xor(st.z, st.w.0), 33);
    WeakShift(s, i, 0, i + 64, Times(st.v.1, K1), Plus(x, st.w.0));
    WeakShift(s, i, 32, i + 64, Plus(z, st.w.1), y);
  }

  /** `CityHash64` for more than 64 bytes. */
  method CityHash64(s: seq<Octet>) returns (h: Word)
    requires 64 < |s|
    ensures h == LongHash(s)
  {
    hide Plus, Times, Xor, Load, Rotate, WeakHash, ShiftMix, HashLen16, Rounds, Round, LengthWord;
    var len := |s|;
    var x := Load(s, 0);
    var y := Xor(Load(s, len - 16), K1);
    var z := Xor(Load(s, len - 56), K0);
    var v := WeakHash(s, len - 64, LengthWord(len), y);
    var w := WeakHash(s, len - 32, Times(LengthWord(len), K1), K0);
    z := Plus(z, Times(ShiftMix(v.1), K1));
    x := Times(Rotate(Plus(z, x), 39), K1);
    y := Times(Rotate(y, 33), K1);
    ghost var start := Start(|s|, s[..64], s[|s| - 64..]);
    StartInPlace(s);
    NoRounds(start, s);

    len := (len - 1) - (len - 1) % 64;
    var i := 0;
    ghost var n := 0;
    while true
      invariant i == 64 * n && len == 64 * (BlockCount(|s|) - n) && 0 <= n < BlockCount(|s|)
      invariant State(x, y, z, v, w) == Rounds(start, s, n)
      decreases len
    {
      RoundInPlace(State(x, y, z, v, w), s, i);
      NextRound(start, s, n);
      x := Times(Rotate(Plus(Plus(Plus(x, y), v.0), Load(s, i + 16)), 37), K1);
      y := Times(Rotate(Plus(Plus(y, v.1), Load(s, i + 48)), 42), K1);
      x := Xor(x, w.1);
      y := Xor(y, v.0);
      z := Rotate(Xor(z, w.0), 33);
      v := WeakHash(s, i, Times(v.1, K1), Plus(x, w.0));
      w := WeakHash(s, i + 32, Plus(z, w.1), y);
      z, x := x, z;
      i := i + 64;
      len := len - 64;
      n := n + 1;
      if len == 0 {
        break;
      }
    }
    h := HashLen16(Plus(Plus(HashLen16(v.0, w.0), Times(ShiftMix(y), K1)), z), Plus(HashLen16(v.1, w.1), x));
  }

  function Min(a: nat, b: nat): nat {
    if a < b then a else b
  }

  /** `TStreamingCityHash64`: the length and the first and last 64 bytes come first, then the message in chunks. */
  class TStreamingCityHash64 {
    var x: Word
    var y: Word
    var z: Word
    var v: Pair
    var w: Pair
    const unalignBuf: array<Octet>
    var unalignBufSz: nat
    var rest64: nat

    ghost const len: nat
    ghost const start: State
    ghost var Fed: seq<Octet>

    ghost function Now(): State
      reads this
    {
      State(x, y, z, v, w)
    }

    /** The blocks taken so far are those of the bytes fed so far; what is left over waits in the buffer. */
    ghost predicate Valid()
      reads this, unalignBuf
    {
      && unalignBuf.Length == 64 && len > 64 && rest64 <= BlockCount(len)
      && var n := BlockCount(len) - rest64;
      && 64 * n <= |Fed|
      && Now() == Rounds(start, Fed, n)
      && (rest64 > 0 ==> unalignBufSz < 64 && |Fed| == 64 * n + unalignBufSz && unalignBuf[..unalignBufSz] == Fed[64 * n..])
    }

    constructor (len: nat, head64: seq<Octet>, tail64: seq<Octet>)
      requires len > 64 && |head64| == |tail64| == 64
      ensures Valid() && fresh(unalignBuf) && Fed == []
      ensures this.len == len && start == Start(len, head64, tail64)
    {
      hide Plus, Times, Xor, Load, Rotate, WeakHash, ShiftMix, HashLen16, Rounds, Round, LengthWord;
      var x0 := Load(head64, 0);
      var y0 := Xor(Load(tail64, 48), K1);
      var z0 := Xor(Load(tail64, 8), K0);
      var v0 := WeakHash(tail64, 0, LengthWord(len), y0);
      v := v0;
      w := WeakHash(tail64, 32, Times(LengthWord(len), K1), K0);
      z0 := Plus(z0, Times(ShiftMix(v0.1), K1));
      z := z0;
      x := Times(Rotate(Plus(z0, x0), 39), K1);
      y := Times(Rotate(y0, 33), K1);
      rest64 := (len - 1) / 64;
      unalignBufSz := 0;
      unalignBuf := new Octet[64];
      this.len, start, Fed := len, Start(len, head64, tail64), [];
      new;
      NoRounds(start, []);
      assert unalignBuf[..unalignBufSz] == Fed[0..];
    }

    /** The steps for one block, read from the buffer or from the chunk. */
    method Mix(b: seq<Octet>)
      requires |b| == 64
      modifies this`x, this`y, this`z, this`v, this`w
      ensures Now() == Round(old(Now()), b)
    {
      hide Plus, Times, Xor, Load, Rotate, WeakHash, ShiftMix, HashLen16;
      x := Times(Rotate(Plus(Plus(Plus(x, y), v.0), Load(b, 16)), 37), K1);
      y := Times(Rotate(Plus(Plus(y, v.1), Load(b, 48)), 42), K1);
      x := Xor(x, w.1);
      y := Xor(y, v.0);
      z := Rotate(Xor(z, w.0), 33);
      v := WeakHash(b, 0, Times(v.1, K1), Plus(x, w.0));
      w := WeakHash(b, 32, Plus(z, w.1), y);
      z, x := x, z;
    }

    /** A block completes: the fold moves on by one. */
    method TakeBlock(b: seq<Octet>, ghost fed: seq<Octet>)
      requires Valid() && rest64 > 0 && |b| == 64
      requires Fed <= fed && 64 * (BlockCount(len) - rest64) + 64 == |fed|
      requires fed[|fed| - 64..] == b
      modifies this
      ensures Valid() && rest64 == old(rest64) - 1 && unalignBufSz == 0 && Fed == fed
    {
      hide Round, Rounds;
      ghost var n := BlockCount(len) - rest64;
      RoundsPrefix(start, Fed, fed, n);
      NextRound(start, fed, n);
      assert fed[64 * n..64 * n + 64] == b;
      Mix(b);
      rest64 := rest64 - 1;
      unalignBufSz := 0;
      Fed := fed;
      assert unalignBuf[..0] == fed[64 * (n + 1)..];
    }

    method CopyIn(at: nat, s: seq<Octet>)
      requires at + |s| <= unalignBuf.Length
      modifies unalignBuf
      ensures unalignBuf[..at + |s|] == old(unalignBuf[..at]) + s
    {
      forall i | 0 <= i < |s| {
        unalignBuf[at + i] := s[i];
      }
    }

    /** More bytes arrive that complete no block: they join those in the buffer. */
    method Keep(s: seq<Octet>)
      requires Valid() && rest64 > 0 && unalignBufSz + |s| < 64
      modifies this, unalignBuf
      ensures Valid() && Fed == old(Fed) + s
    {
      hide Round, Rounds;
      RoundsPrefix(start, Fed, Fed + s, BlockCount(len) - rest64);
      CopyIn(unalignBufSz, s);
      unalignBufSz := unalignBufSz + |s|;
      Fed := Fed + s;
    }

    /** The first bytes of a chunk complete the block in the buffer. */
    method Complete(s: seq<Octet>)
      requires Valid() && rest64 > 0 && unalignBufSz + |s| == 64
      modifies this, unalignBuf
      ensures Valid() && Fed == old(Fed) + s && unalignBufSz == 0
    {
      hide Round, Rounds;
      CopyIn(unalignBufSz, s);
      assert unalignBuf[..unalignBufSz] == unalignBuf[..unalignBufSz + |s|][..unalignBufSz];
      TakeBlock(unalignBuf[..], Fed + s);
    }

    /** Bytes after the last block wanted change nothing. */
    ghost method Ignore(s: seq<Octet>)
      requires Valid() && rest64 == 0
      modifies this`Fed
      ensures Valid() && Fed == old(Fed) + s
    {
      hide Round, Rounds;
      RoundsPrefix(start, Fed, Fed + s, BlockCount(len));
      Fed := Fed + s;
    }

    /** `Process`. */
    method Process(s: seq<Octet>)
      requires Valid()
      modifies this, unalignBuf
      ensures Valid() && Fed == old(Fed) + s
    {
      hide Round, Rounds, Now, BlockCount;
      if rest64 == 0 {
        Ignore(s);
        return;
      }
      var pos: nat, avail: nat := 0, |s|;
      if unalignBufSz != 0 {
        if unalignBufSz + avail < 64 {
          Keep(s);
          return;
        }
        pos := 64 - unalignBufSz;
        Complete(s[..pos]);
        avail := avail - pos;
      }
      assert Fed == old(Fed) + s[..pos];
      while rest64 != 0 && avail >= 64
        invariant Valid() && pos + avail == |s| && Fed == old(Fed) + s[..pos]
        invariant rest64 != 0 ==> unalignBufSz == 0
      {
        assert s[..pos + 64] == s[..pos] + s[pos..pos + 64];
        TakeBlock(s[pos..pos + 64], Fed + s[pos..pos + 64]);
        pos := pos + 64;
        avail := avail - 64;
      }
      assert old(Fed) + s == Fed + s[pos..];
      if rest64 == 0 {
        Ignore(s[pos..]);
      } else if avail != 0 {
        Keep(s[pos..]);
      }
    }

    /** `operator()`: the hash of the blocks fed so far, as far as the announced length asks for them. */
    method Hash() returns (h: Word)
      requires Valid()
      ensures 64 * Min(|Fed| / 64, BlockCount(len)) <= |Fed|
      ensures h == Finish(Rounds(start, Fed, Min(|Fed| / 64, BlockCount(len))))
    {
      hide Round, Rounds, HashLen16, ShiftMix, Plus, Times;
      h := HashLen16(Plus(Plus(HashLen16(v.0, w.0), Times(ShiftMix(y), K1)), z), Plus(HashLen16(v.1, w.1), x));
    }
  }

  /** Once every full block but a last one of at most 64 bytes has been fed, the streamed value is the one-shot value. */
  lemma {:induction false} StreamedIsOneShot(message: seq<Octet>, fed: seq<Octet>)
    requires |message| > 64 && fed <= message && 64 * BlockCount(|message|) <= |fed|
    ensures Finish(Rounds(Start(|message|, message[..64], message[|message| - 64..]), fed,
                          Min(|fed| / 64, BlockCount(|message|)))) == LongHash(message)
  {
    hide Round, Rounds, Start, Finish;
    RoundsPrefix(Start(|message|, message[..64], message[|message| - 64..]), fed, message, BlockCount(|message|));
  }

  function Concat(chunks: seq<seq<Octet>>): seq<Octet> {
    if chunks == [] then [] else Concat(chunks[..|chunks| - 1]) + chunks[|chunks| - 1]
  }

  /** Every way of cutting a message, empty and tiny chunks included, streams to the hash of the whole. */
  method HashChunks(chunks: seq<seq<Octet>>) returns (h: Word)
    requires |Concat(chunks)| > 64
    ensures h == LongHash(Concat(chunks))
  {
    hide Round, Rounds, Start, Finish;
    var message := Concat(chunks);
    var stream := new TStreamingCityHash64(|message|, message[..64], message[|message| - 64..]);
    for i := 0 to |chunks|
      invariant stream.Valid() && fresh(stream) && fresh(stream.unalignBuf) && stream.Fed == Concat(chunks[..i])
    {
      assert chunks[..i + 1][..i] == chunks[..i];
      stream.Process(chunks[i]);
    }
    assert chunks[..|chunks|] == chunks;
    h := stream.Hash();
    StreamedIsOneShot(message, message);
  }
}
