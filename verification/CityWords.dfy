/** What the word operations of the hash keep: none of them loses anything. */
module CityWords {
  import opened City

  // ----- Rotations -----

  // The operations on bits are named, so that only the small lemmas look at bits.
  function Right(v: Word, k: bv7): Word
    requires k <= 64
  {
    v >> k
  }

  function Left(v: Word, k: bv7): Word
    requires k <= 64
  {
    v << k
  }

  function Or(a: Word, b: Word): Word {
    a | b
  }

  /** A rotation by one. */
  function Turn(v: Word): Word {
    Or(Right(v, 1), Left(v, 63))
  }

  function Turns(v: Word, k: bv7): Word
    decreases k
  {
    if k == 0 then v else Turn(Turns(v, k - 1))
  }

  // The bits that come down and the bits that come in at the top when a rotation goes on by one. Ranges of amounts are
  // taken one by one, which keeps each check of the bits small.

  lemma {:induction false} DownFrom0(v: Word, k: bv7)
    requires 1 <= k < 8
    ensures Right(Right(v, k), 1) == Right(v, k + 1)
  {
  }

  lemma {:induction false} DownFrom8(v: Word, k: bv7)
    requires 8 <= k < 16
    ensures Right(Right(v, k), 1) == Right(v, k + 1)
  {
  }

  lemma {:induction false} DownFrom16(v: Word, k: bv7)
    requires 16 <= k < 32
    ensures Right(Right(v, k), 1) == Right(v, k + 1)
  {
  }

  lemma {:induction false} DownFrom32(v: Word, k: bv7)
    requires 32 <= k < 64
    ensures Right(Right(v, k), 1) == Right(v, k + 1)
  {
  }

  lemma {:induction false} TopFrom0(v: Word, k: bv7)
    requires 1 <= k < 32
    ensures Or(Right(Left(v, 64 - k), 1), Left(Right(v, k), 63)) == Left(v, 63 - k)
  {
  }

  lemma {:induction false} TopFrom32(v: Word, k: bv7)
    requires 32 <= k < 48
    ensures Or(Right(Left(v, 64 - k), 1), Left(Right(v, k), 63)) == Left(v, 63 - k)
  {
  }

  lemma {:induction false} TopFrom48(v: Word, k: bv7)
    requires 48 <= k < 56
    ensures Or(Right(Left(v, 64 - k), 1), Left(Right(v, k), 63)) == Left(v, 63 - k)
  {
  }

  lemma {:induction false} TopFrom56(v: Word, k: bv7)
    requires 56 <= k < 64
    ensures Or(Right(Left(v, 64 - k), 1), Left(Right(v, k), 63)) == Left(v, 63 - k)
  {
  }

  lemma {:induction false} OrShifts(a: Word, b: Word)
    ensures Right(Or(a, b), 1) == Or(Right(a, 1), Right(b, 1)) && Left(Or(a, b), 63) == Or(Left(a, 63), Left(b, 63))
  {
  }

  lemma {:induction false} NothingLeft(v: Word, k: bv7)
    requires 0 < k < 64
    ensures Left(Left(v, 64 - k), 63) == 0
  {
  }

  lemma {:induction false} OrMoves(a: Word, b: Word, c: Word)
    ensures Or(Or(a, b), Or(c, 0)) == Or(a, Or(b, c))
  {
  }

  lemma {:induction false} TurnOn(v: Word, k: bv7)
    requires 0 < k < 64
    ensures Turn(Or(Right(v, k), Left(v, 64 - k))) == Or(Right(v, k + 1), Left(v, 63 - k))
  {
    hide Right, Left, Or;
    var a, b := Right(v, k), Left(v, 64 - k);
    OrShifts(a, b);
    NothingLeft(v, k);
    OrMoves(Right(a, 1), Right(b, 1), Left(a, 63));
    if k < 8 {
      DownFrom0(v, k);
    } else if k < 16 {
      DownFrom8(v, k);
    } else if k < 32 {
      DownFrom16(v, k);
    } else {
      DownFrom32(v, k);
    }
    if k < 32 {
      TopFrom0(v, k);
    } else if k < 48 {
      TopFrom32(v, k);
    } else if k < 56 {
      TopFrom48(v, k);
    } else {
      TopFrom56(v, k);
    }
  }

  lemma {:induction false} RotateParts(v: Word, k: bv7)
    requires 0 < k <= 64
    ensures Rotate(v, k) == Or(Right(v, k), Left(v, 64 - k))
  {
  }

  lemma {:induction false} NoTurn(v: Word)
    ensures Rotate(v, 0) == v && Rotate(v, 64) == v
  {
  }

  lemma {:induction false} RotateIsTurns(v: Word, k: bv7)
    requires k <= 64
    ensures Rotate(v, k) == Turns(v, k)
    decreases k
  {
    hide Rotate, Right, Left, Or;
    if k == 0 {
      NoTurn(v);
    } else {
      RotateParts(v, k);
      RotateIsTurns(v, k - 1);
      if k == 1 {
        NoTurn(v);
      } else {
        RotateParts(v, k - 1);
        TurnOn(v, k - 1);
      }
    }
  }

  lemma {:induction false} TurnsAdd(v: Word, j: bv7, k: bv7)
    requires j <= 64 && k <= 64 - j
    ensures Turns(Turns(v, j), k) == Turns(v, j + k)
    decreases k
  {
    hide Turn;
    if k > 0 {
      TurnsAdd(v, j, k - 1);
    }
  }

  /** Rotating on by the rest of the word gives the word back. */
  lemma {:induction false} RotateBack(v: Word, k: bv7)
    requires k <= 64
    ensures Rotate(Rotate(v, k), 64 - k) == v
  {
    hide Rotate, Turns;
    RotateIsTurns(v, k);
    RotateIsTurns(Rotate(v, k), 64 - k);
    TurnsAdd(v, k, 64 - k);
    RotateIsTurns(v, 64);
    NoTurn(v);
  }

  // ----- Mixing -----

  lemma {:induction false} XorShift(a: Word, b: Word)
    ensures (a ^ b) >> 47 == (a >> 47) ^ (b >> 47)
  {
  }

  lemma {:induction false} ShiftOut(a: Word)
    ensures (a >> 47) >> 47 == 0
  {
  }

  lemma {:induction false} XorOut(a: Word, b: Word)
    ensures (a ^ b) ^ (b ^ 0) == a
  {
  }

  /** `ShiftMix` is its own inverse, so it keeps different words different. */
  lemma {:induction false} ShiftMixTwice(v: Word)
    ensures ShiftMix(ShiftMix(v)) == v
  {
    XorShift(v, v >> 47);
    ShiftOut(v);
    XorOut(v, v >> 47);
  }

  // ----- Loads are little-endian -----

  function OctetOf(w: Word, shift: bv6): Octet {
    ((w >> shift) & 0xff) as Octet
  }

  /** The bytes of a word, the least significant one first. */
  function Octets(w: Word): seq<Octet> {
    [OctetOf(w, 0), OctetOf(w, 8), OctetOf(w, 16), OctetOf(w, 24),
     OctetOf(w, 32), OctetOf(w, 40), OctetOf(w, 48), OctetOf(w, 56)]
  }

  /** A load gives the word whose bytes are the eight bytes there. */
  lemma {:induction false} LoadIsLittleEndian(s: seq<Octet>, i: nat)
    requires i + 8 <= |s|
    ensures Octets(Load(s, i)) == s[i..i + 8]
  {
  }

  /** And a word is what its bytes load as. */
  lemma {:induction false} LoadOctets(w: Word)
    ensures Load(Octets(w), 0) == w
  {
  }
}
