/**
  UTF-8 reading and writing of one code point at a time. The masks and shifts of the source are all on runs of bits,
  so they appear here as quotients and remainders; `|` joins disjoint bits and is a sum.
 */
module Utf8 {
  import opened Arithmetic
  import opened Wrappers

  type Rune = r: int | 0 <= r < 0x1_0000_0000

  const BROKEN_RUNE: Rune := 0xFFFD

  /** The result of reading one code point: its value and length, or an error. */
  datatype ReadResult = Ok(rune: Rune, len: nat) | EoInput | Broken

  function RuneLen(lead: Byte): nat {
    if lead < 0x80 then 1
    else if 0xC0 <= lead < 0xE0 then 2
    else if 0xE0 <= lead < 0xF0 then 3
    else if 0xF0 <= lead < 0xF8 then 4
    else 0
  }

  predicate IsContinuation(c: Byte) {
    0x80 <= c < 0xC0
  }

  /** `IsValidUTF8Rune` for a sequence of `len` bytes. */
  predicate IsValidRune(r: int, len: nat, strict: bool) {
    if len == 2 then r >= 0x80
    else if len == 3 then r >= 0x800 && (strict ==> !(0xD800 <= r <= 0xDFFF))
    else 0x10000 <= r <= 0x10FFFF
  }

  /** `PutUTF8LeadBits`. */
  function LeadBits(c: Byte, len: nat): int {
    if len == 2 then c % 32 else if len == 3 then c % 16 else c % 8
  }

  /** `PutUTF8SixBits`. */
  function SixBits(rune: int, c: Byte): int {
    rune * 64 + c % 64
  }

  /** `ReadUTF8CharAndAdvance` on the bytes from the cursor to the end. */
  function ReadChar(s: seq<Byte>, strict: bool): ReadResult
    requires s != []
  {
    match RuneLen(s[0])
    case 0 => Broken
    case 1 => Ok(s[0], 1)
    case 2 =>
      if |s| < 2 then EoInput
      else if !IsContinuation(s[1]) then Broken
      else
        var r := SixBits(LeadBits(s[0], 2), s[1]);
        if IsValidRune(r, 2, strict) then Ok(r, 2) else Broken
    case 3 =>
      if |s| < 3 then EoInput
      else if !IsContinuation(s[1]) || !IsContinuation(s[2]) then Broken
      else
        var r := SixBits(SixBits(LeadBits(s[0], 3), s[1]), s[2]);
        if IsValidRune(r, 3, strict) then Ok(r, 3) else Broken
    case _ =>
      if |s| < 4 then EoInput
      else if !IsContinuation(s[1]) || !IsContinuation(s[2]) || !IsContinuation(s[3]) then Broken
      else
        var r := SixBits(SixBits(SixBits(LeadBits(s[0], 4), s[1]), s[2]), s[3]);
        if IsValidRune(r, 4, strict) then Ok(r, 4) else Broken
  }

  /** `SafeReadUTF8Char`: reads byte by byte and checks each one before the next; it agrees with `ReadChar`. */
  method SafeReadChar(s: seq<Byte>, strict: bool) returns (res: ReadResult)
    requires s != []
    ensures res == ReadChar(s, strict)
  {
    var len := RuneLen(s[0]);
    if len > |s| {
      return EoInput;
    }
    if len == 0 {
      return Broken;
    }
    var rune: int := s[0];
    if len > 1 {
      rune := LeadBits(s[0], len);
      if !IsContinuation(s[1]) {
        return Broken;
      }
      rune := SixBits(rune, s[1]);
      if len > 2 {
        if !IsContinuation(s[2]) {
          return Broken;
        }
        rune := SixBits(rune, s[2]);
        if len > 3 {
          if !IsContinuation(s[3]) {
            return Broken;
          }
          rune := SixBits(rune, s[3]);
          if !IsValidRune(rune, 4, strict) {
            return Broken;
          }
        } else if !IsValidRune(rune, 3, strict) {
          return Broken;
        }
      } else if !IsValidRune(rune, 2, strict) {
        return Broken;
      }
    }
    return Ok(rune, len);
  }

  /** `WriteUTF8Char` and `SafeWriteUTF8Char`, where there is room. */
  function Encode(r: Rune): (s: seq<Byte>)
    ensures 1 <= |s| <= 4
  {
    if r < 0x80 then [r]
    else if r < 0x800 then [0xC0 + r / 64, 0x80 + r % 64]
    else if r < 0x10000 then [0xE0 + r / 4096, 0x80 + r / 64 % 64, 0x80 + r % 64]
    else [0xF0 + r / 262144 % 8, 0x80 + r / 4096 % 64, 0x80 + r / 64 % 64, 0x80 + r % 64]
  }

  const RUNE_LIMIT := 0x110000

  predicate IsSurrogate(r: int) {
    0xD800 <= r <= 0xDFFF
  }

  lemma {:induction false} Digits(r: Rune)
    ensures r / 4096 == r / 64 / 64 && r / 262144 == r / 4096 / 64
    ensures r == (r / 64) * 64 + r % 64
    ensures r / 64 == (r / 4096) * 64 + r / 64 % 64
    ensures r / 4096 == (r / 262144) * 64 + r / 4096 % 64
  {
    var a := r / 64;
    Quotient(r, 4096, a / 64, a % 64 * 64 + r % 64);
    var b := r / 4096;
    Quotient(r, 262144, b / 64, b % 64 * 4096 + r % 4096);
  }

  lemma {:induction false} ReadOneOrTwo(r: Rune, rest: seq<Byte>, strict: bool)
    requires r < 0x800
    ensures ReadChar(Encode(r) + rest, strict) == Ok(r, |Encode(r)|)
  {
    if r >= 0x80 {
      var s := Encode(r) + rest;
      Quotient(s[0], 32, 6, r / 64);
      Quotient(s[1], 64, 2, r % 64);
    }
  }

  lemma {:induction false} ReadThree(r: Rune, rest: seq<Byte>, strict: bool)
    requires 0x800 <= r < 0x10000 && (strict ==> !IsSurrogate(r))
    ensures ReadChar(Encode(r) + rest, strict) == Ok(r, |Encode(r)|)
  {
    Digits(r);
    var s := Encode(r) + rest;
    Quotient(s[0], 16, 14, r / 4096);
    Quotient(s[1], 64, 2, r / 64 % 64);
    Quotient(s[2], 64, 2, r % 64);
  }

  lemma {:induction false} ReadFour(r: Rune, rest: seq<Byte>, strict: bool)
    requires 0x10000 <= r < RUNE_LIMIT
    ensures ReadChar(Encode(r) + rest, strict) == Ok(r, |Encode(r)|)
  {
    Digits(r);
    var s := Encode(r) + rest;
    assert r / 262144 < 8 && r / 262144 % 8 == r / 262144;
    Quotient(s[0], 8, 30, r / 262144);
    Quotient(s[1], 64, 2, r / 4096 % 64);
    Quotient(s[2], 64, 2, r / 64 % 64);
    Quotient(s[3], 64, 2, r % 64);
  }

  /** Reading what was written gives the code point back, whatever follows. */
  lemma {:induction false} ReadEncoded(r: Rune, rest: seq<Byte>, strict: bool)
    requires r < RUNE_LIMIT && (strict ==> !IsSurrogate(r))
    ensures ReadChar(Encode(r) + rest, strict) == Ok(r, |Encode(r)|)
  {
    if r < 0x800 {
      ReadOneOrTwo(r, rest, strict);
    } else if r < 0x10000 {
      ReadThree(r, rest, strict);
    } else {
      ReadFour(r, rest, strict);
    }
  }

  /** The bytes of a code point from its digits to the base 64, in the two-byte form. */
  lemma {:induction false} TwoDigits(x: int, y: int)
    requires 2 <= x < 32 && 0 <= y < 64
    ensures Encode(x * 64 + y) == [0xC0 + x, 0x80 + y]
  {
    Quotient(x * 64 + y, 64, x, y);
  }

  lemma {:induction false} EncodeTwo(a: Byte, b: Byte)
    requires 0xC0 <= a < 0xE0 && IsContinuation(b) && SixBits(LeadBits(a, 2), b) >= 0x80
    ensures var r := SixBits(LeadBits(a, 2), b); r < 0x800 && Encode(r) == [a, b]
  {
    hide Encode;
    Quotient(a, 32, 6, a - 0xC0);
    Quotient(b, 64, 2, b - 0x80);
    TwoDigits(a - 0xC0, b - 0x80);
  }

  /** In the three-byte form. */
  lemma {:induction false} ThreeDigits(x: int, y: int, z: int)
    requires 0 <= x < 16 && 0 <= y < 64 && 0 <= z < 64 && (x * 64 + y) * 64 + z >= 0x800
    ensures var r := (x * 64 + y) * 64 + z; r < 0x10000 && Encode(r) == [0xE0 + x, 0x80 + y, 0x80 + z]
  {
    var q := x * 64 + y;
    var r := q * 64 + z;
    Quotient(r, 64, q, z);
    Quotient(q, 64, x, y);
    Quotient(r, 4096, x, y * 64 + z);
  }

  lemma {:induction false} EncodeThree(a: Byte, b: Byte, c: Byte)
    requires 0xE0 <= a < 0xF0 && IsContinuation(b) && IsContinuation(c)
    requires SixBits(SixBits(LeadBits(a, 3), b), c) >= 0x800
    ensures var r := SixBits(SixBits(LeadBits(a, 3), b), c); r < 0x10000 && Encode(r) == [a, b, c]
  {
    hide Encode;
    Quotient(a, 16, 14, a - 0xE0);
    Quotient(b, 64, 2, b - 0x80);
    Quotient(c, 64, 2, c - 0x80);
    ThreeDigits(a - 0xE0, b - 0x80, c - 0x80);
  }

  /** In the four-byte form. */
  lemma {:induction false} FourDigits(x: int, y: int, z: int, u: int)
    requires 0 <= x < 8 && 0 <= y < 64 && 0 <= z < 64 && 0 <= u < 64
    requires 0x10000 <= ((x * 64 + y) * 64 + z) * 64 + u <= 0x10FFFF
    ensures Encode(((x * 64 + y) * 64 + z) * 64 + u) == [0xF0 + x, 0x80 + y, 0x80 + z, 0x80 + u]
  {
    var p := x * 64 + y;
    var q := p * 64 + z;
    var r := q * 64 + u;
    Quotient(r, 64, q, u);
    Quotient(q, 64, p, z);
    Quotient(p, 64, x, y);
    Quotient(r, 4096, p, z * 64 + u);
    Quotient(r, 262144, x, y * 4096 + z * 64 + u);
    Quotient(x, 8, 0, x);
  }

  lemma {:induction false} EncodeFour(a: Byte, b: Byte, c: Byte, d: Byte)
    requires 0xF0 <= a < 0xF8 && IsContinuation(b) && IsContinuation(c) && IsContinuation(d)
    requires 0x10000 <= SixBits(SixBits(SixBits(LeadBits(a, 4), b), c), d) <= 0x10FFFF
    ensures Encode(SixBits(SixBits(SixBits(LeadBits(a, 4), b), c), d)) == [a, b, c, d]
  {
    hide Encode;
    Quotient(a, 8, 30, a - 0xF0);
    Quotient(b, 64, 2, b - 0x80);
    Quotient(c, 64, 2, c - 0x80);
    Quotient(d, 64, 2, d - 0x80);
    FourDigits(a - 0xF0, b - 0x80, c - 0x80, d - 0x80);
  }

  lemma {:induction false} EncodeOne(a: Byte)
    requires a < 0x80
    ensures Encode(a) == [a]
  {
  }

  /** Whatever is read is the encoding of a code point, of the shortest form. */
  lemma {:induction false} EncodeRead(s: seq<Byte>, strict: bool)
    requires s != [] && ReadChar(s, strict).Ok?
    ensures var res := ReadChar(s, strict);
            && res.rune < RUNE_LIMIT && (strict ==> !IsSurrogate(res.rune))
            && res.len == |Encode(res.rune)| <= |s| && s[..res.len] == Encode(res.rune)
  {
    hide Encode, SixBits, LeadBits;
    var n := RuneLen(s[0]);
    if n == 1 {
      EncodeOne(s[0]);
    } else if n == 2 {
      EncodeTwo(s[0], s[1]);
    } else if n == 3 {
      EncodeThree(s[0], s[1], s[2]);
    } else {
      EncodeFour(s[0], s[1], s[2], s[3]);
    }
  }

  /** What a failure means: the input ends before the length that the first byte announces, or a byte is wrong. */
  lemma {:induction false} ReadFails(s: seq<Byte>, strict: bool)
    requires s != []
    ensures ReadChar(s, strict) == EoInput <==> |s| < RuneLen(s[0])
    ensures ReadChar(s, strict).Ok? ==> ReadChar(s, strict).len == RuneLen(s[0])
  {
  }

  // ----- The order of code points: section 1 of RFC 3629 -----

  /** Lexicographic order, a proper prefix first. */
  predicate LexLess(s: seq<int>, t: seq<int>) {
    if t == [] then false
    else if s == [] then true
    else s[0] < t[0] || (s[0] == t[0] && LexLess(s[1..], t[1..]))
  }

  /** Both strings go on after a first difference at `i`. */
  ghost predicate DifferAt(s: seq<int>, t: seq<int>, i: nat) {
    i < |s| && i < |t| && s[..i] == t[..i] && s[i] < t[i]
  }

  lemma {:induction false} LeadsDiffer(a: Rune, b: Rune)
    requires a < b < RUNE_LIMIT && |Encode(a)| != |Encode(b)|
    ensures DifferAt(Encode(a), Encode(b), 0)
  {
    assert Encode(a)[..0] == Encode(b)[..0];
  }

  lemma {:induction false} TwoDiffer(a: Rune, b: Rune) returns (i: nat)
    requires 0x80 <= a < b < 0x800
    ensures DifferAt(Encode(a), Encode(b), i)
  {
    var s, t := Encode(a), Encode(b);
    i := if a / 64 < b / 64 then 0 else 1;
    assert s[..0] == t[..0] && (i == 1 ==> s[..1] == t[..1]);
  }

  lemma {:induction false} ThreeDiffer(a: Rune, b: Rune) returns (i: nat)
    requires 0x800 <= a < b < 0x10000
    ensures DifferAt(Encode(a), Encode(b), i)
  {
    Digits(a);
    Digits(b);
    var s, t := Encode(a), Encode(b);
    i := if a / 4096 < b / 4096 then 0 else if a / 64 < b / 64 then 1 else 2;
    assert i >= 1 ==> s[0] == t[0];
    assert i >= 2 ==> s[1] == t[1];
  }

  lemma {:induction false} FourDiffer(a: Rune, b: Rune) returns (i: nat)
    requires 0x10000 <= a < b < RUNE_LIMIT
    ensures DifferAt(Encode(a), Encode(b), i)
  {
    Digits(a);
    Digits(b);
    assert a / 262144 % 8 == a / 262144 && b / 262144 % 8 == b / 262144;
    var s, t := Encode(a), Encode(b);
    i := if a / 262144 < b / 262144 then 0 else if a / 4096 < b / 4096 then 1 else if a / 64 < b / 64 then 2 else 3;
    assert i >= 1 ==> s[0] == t[0];
    assert i >= 2 ==> s[1] == t[1];
    assert i >= 3 ==> s[2] == t[2];
  }

  /** Different code points have encodings of which neither begins with the other, and the bytes are in their order. */
  lemma {:induction false} EncodingsDiffer(a: Rune, b: Rune) returns (i: nat)
    requires a < b < RUNE_LIMIT
    ensures DifferAt(Encode(a), Encode(b), i)
  {
    if |Encode(a)| != |Encode(b)| {
      LeadsDiffer(a, b);
      i := 0;
    } else if b < 0x80 {
      assert Encode(a)[..0] == Encode(b)[..0];
      i := 0;
    } else if b < 0x800 {
      i := TwoDiffer(a, b);
    } else if b < 0x10000 {
      i := ThreeDiffer(a, b);
    } else {
      i := FourDiffer(a, b);
    }
  }

  lemma {:induction false} LexDiffer(s: seq<int>, t: seq<int>, i: nat)
    requires DifferAt(s, t, i)
    ensures LexLess(s, t) && !LexLess(t, s)
    decreases i
  {
    if i > 0 {
      assert s[0] == s[..i][0] && t[0] == t[..i][0];
      assert s[1..][..i - 1] == s[..i][1..] && t[1..][..i - 1] == t[..i][1..];
      LexDiffer(s[1..], t[1..], i - 1);
    }
  }

  lemma {:induction false} LexPrefix(p: seq<int>, s: seq<int>, t: seq<int>)
    ensures LexLess(p + s, p + t) <==> LexLess(s, t)
  {
    if p == [] {
      assert p + s == s && p + t == t;
    } else {
      assert (p + s)[1..] == p[1..] + s && (p + t)[1..] == p[1..] + t;
      LexPrefix(p[1..], s, t);
    }
  }

  // ----- Well-formed strings: section 4 of RFC 3629 -----

  predicate Tail(s: seq<Byte>, i: nat) {
    i < |s| && 0x80 <= s[i] <= 0xBF
  }

  predicate InRange(s: seq<Byte>, i: nat, lo: int, hi: int) {
    i < |s| && lo <= s[i] <= hi
  }

  /** The length of the UTF8-char at the start of `s` by the grammar of section 4, or 0. */
  function GrammarLen(s: seq<Byte>): nat {
    if InRange(s, 0, 0x00, 0x7F) then 1
    else if InRange(s, 0, 0xC2, 0xDF) && Tail(s, 1) then 2
    else if InRange(s, 0, 0xE0, 0xE0) && InRange(s, 1, 0xA0, 0xBF) && Tail(s, 2) then 3
    else if InRange(s, 0, 0xE1, 0xEC) && Tail(s, 1) && Tail(s, 2) then 3
    else if InRange(s, 0, 0xED, 0xED) && InRange(s, 1, 0x80, 0x9F) && Tail(s, 2) then 3
    else if InRange(s, 0, 0xEE, 0xEF) && Tail(s, 1) && Tail(s, 2) then 3
    else if InRange(s, 0, 0xF0, 0xF0) && InRange(s, 1, 0x90, 0xBF) && Tail(s, 2) && Tail(s, 3) then 4
    else if InRange(s, 0, 0xF1, 0xF3) && Tail(s, 1) && Tail(s, 2) && Tail(s, 3) then 4
    else if InRange(s, 0, 0xF4, 0xF4) && InRange(s, 1, 0x80, 0x8F) && Tail(s, 2) && Tail(s, 3) then 4
    else 0
  }

  predicate WellFormed(s: seq<Byte>) {
    s == [] || (0 < GrammarLen(s) <= |s| && WellFormed(s[GrammarLen(s)..]))
  }

  lemma {:induction false} ThreeInRange(a: Byte, b: Byte, c: Byte)
    requires RuneLen(a) == 3
    ensures IsContinuation(b) && IsContinuation(c) ==>
            var r := SixBits(SixBits(LeadBits(a, 3), b), c);
            && (r >= 0x800 <==> a > 0xE0 || b >= 0xA0)
            && (0xD800 <= r <= 0xDFFF <==> a == 0xED && b >= 0xA0)
  {
    Quotient(a, 16, 14, a - 0xE0);
    if IsContinuation(b) && IsContinuation(c) {
      Quotient(b, 64, 2, b - 0x80);
      assert SixBits(SixBits(LeadBits(a, 3), b), c) == ((a - 0xE0) * 64 + (b - 0x80)) * 64 + c % 64;
    }
  }

  lemma {:induction false} FourInRange(a: Byte, b: Byte, c: Byte, d: Byte)
    requires RuneLen(a) == 4
    ensures IsContinuation(b) && IsContinuation(c) && IsContinuation(d) ==>
            var r := SixBits(SixBits(SixBits(LeadBits(a, 4), b), c), d);
            && (r >= 0x10000 <==> a > 0xF0 || b >= 0x90)
            && (r <= 0x10FFFF <==> a < 0xF4 || (a == 0xF4 && b <= 0x8F))
  {
    Quotient(a, 8, 30, a - 0xF0);
    if IsContinuation(b) && IsContinuation(c) && IsContinuation(d) {
      Quotient(b, 64, 2, b - 0x80);
      var low := c % 64 * 64 + d % 64;
      var high := (a - 0xF0) * 64 + (b - 0x80);
      assert SixBits(SixBits(SixBits(LeadBits(a, 4), b), c), d) == high * 4096 + low;
    }
  }

  /** Strict reading accepts exactly the characters of the grammar. */
  lemma {:induction false} StrictIsGrammar(s: seq<Byte>)
    requires s != []
    ensures GrammarLen(s) > 0 <==> ReadChar(s, true).Ok?
    ensures ReadChar(s, true).Ok? ==> ReadChar(s, true).len == GrammarLen(s)
  {
    if RuneLen(s[0]) == 3 && |s| >= 3 {
      ThreeInRange(s[0], s[1], s[2]);
    } else if RuneLen(s[0]) == 4 && |s| >= 4 {
      FourInRange(s[0], s[1], s[2], s[3]);
    }
    hide SixBits;
  }
}
