/** UTF-16 symbols and the conversions between UTF-8 and UTF-16 (the scalar code path). */
module Wide {
  import opened Arithmetic
  import opened Utf8
  import opened Wrappers

  type Unit = u: int | 0 <= u < 0x10000

  predicate IsLead(c: Unit) {
    0xD800 <= c <= 0xDBFF
  }

  predicate IsTail(c: Unit) {
    0xDC00 <= c <= 0xDFFF
  }

  /** `W16SymbolSize`. */
  function SymbolSize(w: seq<Unit>): nat
    requires w != []
  {
    if |w| > 1 && IsLead(w[0]) && IsTail(w[1]) then 2 else 1
  }

  /** `ReadSurrogatePair`; the offset wraps around 32 bits in the source, which comes to this. */
  function ReadPair(lead: Unit, tail: Unit): int {
    (lead * 1024 + tail + 0x10000 - 0xD800 * 1024 - 0xDC00) % 0x1_0000_0000
  }

  /** The code point that `ReadSymbolAndAdvance` reads; it advances by `SymbolSize`. */
  function ReadSymbol(w: seq<Unit>): Rune
    requires w != []
  {
    if IsLead(w[0]) then
      if |w| > 1 && IsTail(w[1]) then ReadPair(w[0], w[1]) else BROKEN_RUNE
    else if IsTail(w[0]) then BROKEN_RUNE
    else w[0]
  }

  /** `WriteSymbol`. */
  function WriteSymbol(r: Rune): (w: seq<Unit>)
    ensures 1 <= |w| <= 2
  {
    if r > 0xFFFF then
      if r >= RUNE_LIMIT then [BROKEN_RUNE]
      else [0xD800 - 0x10000 / 1024 + r / 1024, 0xDC00 + r % 1024]
    else [r]
  }

  /** The units of a code point: itself up to U+FFFF, and above that the two digits of the rest to the base 1024. */
  lemma {:induction false} SymbolDigits(h: int, l: int)
    requires 0 <= h < 1024 && 0 <= l < 1024
    ensures WriteSymbol(0x10000 + 1024 * h + l) == [0xD800 + h, 0xDC00 + l]
    ensures ReadSymbol([0xD800 + h, 0xDC00 + l]) == 0x10000 + 1024 * h + l
    ensures forall r: Rune :: r < 0x10000 ==> WriteSymbol(r) == [r]
  {
    Quotient(0x10000 + 1024 * h + l, 1024, 64 + h, l);
  }

  lemma {:induction false} PairRoundTrip(r: Rune)
    requires 0x10000 <= r < RUNE_LIMIT
    ensures var w := WriteSymbol(r); IsLead(w[0]) && IsTail(w[1]) && ReadPair(w[0], w[1]) == r
  {
    var lead: int, tail: int := WriteSymbol(r)[0], WriteSymbol(r)[1];
    assert lead * 1024 + tail + 0x10000 - 0xD800 * 1024 - 0xDC00 == r;
  }

  lemma {:induction false} ReadPairRange(lead: Unit, tail: Unit)
    requires IsLead(lead) && IsTail(tail)
    ensures 0x10000 <= ReadPair(lead, tail) < RUNE_LIMIT
    ensures WriteSymbol(ReadPair(lead, tail)) == [lead, tail]
  {
    var r := ReadPair(lead, tail);
    assert r == (lead - 0xD800 + 64) * 1024 + (tail - 0xDC00);
    Quotient(r, 1024, lead - 0xD800 + 64, tail - 0xDC00);
  }

  /** The code points of a UTF-16 string, U+FFFD for each surrogate that is not part of a pair. */
  function Symbols(w: seq<Unit>): seq<Rune> {
    if w == [] then [] else [ReadSymbol(w)] + Symbols(w[SymbolSize(w)..])
  }

  function EncodeAll(rs: seq<Rune>): seq<Byte> {
    if rs == [] then [] else Encode(rs[0]) + EncodeAll(rs[1..])
  }

  function WriteAll(rs: seq<Rune>): seq<Unit> {
    if rs == [] then [] else WriteSymbol(rs[0]) + WriteAll(rs[1..])
  }

  ghost predicate CodePoints(rs: seq<Rune>) {
    forall i :: 0 <= i < |rs| ==> rs[i] < RUNE_LIMIT
  }

  lemma {:induction false} EncodedLess(a: Rune, b: Rune, s: seq<Byte>, t: seq<Byte>)
    requires a < b < RUNE_LIMIT
    ensures LexLess(Encode(a) + s, Encode(b) + t) && !LexLess(Encode(b) + t, Encode(a) + s)
  {
    hide Encode;
    var i := EncodingsDiffer(a, b);
    assert (Encode(a) + s)[..i] == Encode(a)[..i] && (Encode(b) + t)[..i] == Encode(b)[..i];
    LexDiffer(Encode(a) + s, Encode(b) + t, i);
  }

  /** Strings of code points are in the order of the bytes of their encodings. */
  lemma {:induction false} EncodingKeepsOrder(rs: seq<Rune>, qs: seq<Rune>)
    requires CodePoints(rs) && CodePoints(qs)
    ensures LexLess(EncodeAll(rs), EncodeAll(qs)) <==> LexLess(rs, qs)
  {
    hide Encode;
    if rs != [] && qs != [] {
      var s, t := EncodeAll(rs[1..]), EncodeAll(qs[1..]);
      if rs[0] < qs[0] {
        EncodedLess(rs[0], qs[0], s, t);
      } else if rs[0] > qs[0] {
        EncodedLess(qs[0], rs[0], t, s);
      } else {
        LexPrefix(Encode(rs[0]), s, t);
        EncodingKeepsOrder(rs[1..], qs[1..]);
      }
    }
  }

  // ----- Decoding whole strings -----

  /** What decoding does: the code points read, and the number of bytes consumed. A robust decoder reads U+FFFD for one
      byte where it cannot read a code point; the other one stops there. */
  function Decode(s: seq<Byte>, robust: bool): (seq<Rune>, nat) {
    if s == [] then ([], 0)
    else
      var res := ReadChar(s, false);
      if res.Ok? then
        EncodeRead(s, false);
        var (rs, n) := Decode(s[res.len..], robust);
        ([res.rune] + rs, res.len + n)
      else if robust then
        var (rs, n) := Decode(s[1..], robust);
        ([BROKEN_RUNE] + rs, 1 + n)
      else ([], 0)
  }

  lemma {:induction false} DecodeStep(s: seq<Byte>, robust: bool)
    requires s != []
    ensures var res := ReadChar(s, false);
            var (rs, n) := Decode(s, robust);
            if res.Ok? then
              0 < res.len <= |s| && rs == [res.rune] + Decode(s[res.len..], robust).0 && n == res.len + Decode(s[res.len..], robust).1
            else if robust then rs == [BROKEN_RUNE] + Decode(s[1..], robust).0 && n == 1 + Decode(s[1..], robust).1
            else (rs, n) == ([], 0)
  {
    hide ReadChar;
    if ReadChar(s, false).Ok? {
      EncodeRead(s, false);
    }
  }

  lemma {:induction false} DecodeEmpty(robust: bool)
    ensures Decode([], robust) == ([], 0) && WriteAll([]) == []
  {
  }

  lemma {:induction false} WriteCons(r: Rune, rs: seq<Rune>)
    ensures WriteAll([r] + rs) == WriteSymbol(r) + WriteAll(rs)
  {
    assert ([r] + rs)[1..] == rs;
  }

  /** `UTF8ToWideImplScalar`. */
  method UTF8ToWide(text: seq<Byte>, robust: bool) returns (dest: seq<Unit>, consumed: nat)
    ensures dest == WriteAll(Decode(text, robust).0)
    ensures consumed == Decode(text, robust).1 <= |text|
  {
    hide ReadChar, Decode, WriteAll, WriteSymbol;
    DecodeEmpty(robust);
    dest, consumed := [], 0;
    assert text[0..] == text;
    while consumed != |text|
      invariant 0 <= consumed <= |text|
      invariant dest + WriteAll(Decode(text[consumed..], robust).0) == WriteAll(Decode(text, robust).0)
      invariant consumed + Decode(text[consumed..], robust).1 == Decode(text, robust).1
      decreases |text| - consumed
    {
      var rest := text[consumed..];
      var res := ReadChar(rest, false);
      DecodeStep(rest, robust);
      var rune: Rune := BROKEN_RUNE;
      var n := 1;
      if res.Ok? {
        rune, n := res.rune, res.len;
      } else if !robust {
        break;
      }
      assert rest[n..] == text[consumed + n..];
      consumed := consumed + n;
      WriteCons(rune, Decode(text[consumed..], robust).0);
      dest := dest + WriteSymbol(rune);
    }
    assert consumed == |text| ==> text[consumed..] == [];
  }

  lemma {:induction false} EncodeCons(r: Rune, rs: seq<Rune>)
    ensures EncodeAll([r] + rs) == Encode(r) + EncodeAll(rs)
  {
    assert ([r] + rs)[1..] == rs;
  }

  /** `WideToUTF8`. */
  method WideToUTF8(text: seq<Unit>) returns (dest: seq<Byte>)
    ensures dest == EncodeAll(Symbols(text))
    ensures |dest| <= 4 * |text|
  {
    hide Encode, ReadSymbol;
    dest := [];
    var cur := 0;
    while cur != |text|
      invariant 0 <= cur <= |text|
      invariant dest + EncodeAll(Symbols(text[cur..])) == EncodeAll(Symbols(text))
      invariant |dest| <= 4 * cur
      decreases |text| - cur
    {
      var rest := text[cur..];
      var rune, n := ReadSymbol(rest), SymbolSize(rest);
      assert rest[n..] == text[cur + n..];
      EncodeCons(rune, Symbols(text[cur + n..]));
      dest := dest + Encode(rune);
      cur := cur + n;
    }
  }

  // ----- Robust decoding -----

  lemma {:induction false} ShortSymbol(r: Rune)
    ensures |WriteSymbol(r)| <= |Encode(r)|
  {
  }

  /** A robust decoder consumes everything and writes at most one unit per byte. */
  lemma {:induction false} RobustConsumesAll(s: seq<Byte>)
    ensures Decode(s, true).1 == |s|
    ensures |WriteAll(Decode(s, true).0)| <= |s|
    decreases |s|
  {
    if s != [] {
      var res := ReadChar(s, false);
      if res.Ok? {
        EncodeRead(s, false);
        RobustConsumesAll(s[res.len..]);
        WriteCons(res.rune, Decode(s[res.len..], true).0);
        ShortSymbol(res.rune);
      } else {
        RobustConsumesAll(s[1..]);
        WriteCons(BROKEN_RUNE, Decode(s[1..], true).0);
      }
    }
  }

  // ----- Round trips -----

  /** Code points other than surrogates. */
  ghost predicate Scalar(rs: seq<Rune>) {
    forall i :: 0 <= i < |rs| ==> rs[i] < RUNE_LIMIT && !IsSurrogate(rs[i])
  }

  lemma {:induction false} SymbolsAreScalar(w: seq<Unit>)
    ensures Scalar(Symbols(w))
    decreases |w|
  {
    if w != [] {
      SymbolsAreScalar(w[SymbolSize(w)..]);
      if IsLead(w[0]) && |w| > 1 && IsTail(w[1]) {
        ReadPairRange(w[0], w[1]);
      }
    }
  }

  lemma {:induction false} DecodeEncoded(rs: seq<Rune>, robust: bool)
    requires Scalar(rs)
    ensures Decode(EncodeAll(rs), robust) == (rs, |EncodeAll(rs)|)
  {
    hide ReadChar, Encode;
    if rs != [] {
      var s, rest := EncodeAll(rs), EncodeAll(rs[1..]);
      ReadEncoded(rs[0], rest, false);
      assert s[|Encode(rs[0])|..] == rest;
      DecodeEncoded(rs[1..], robust);
      DecodeStep(s, robust);
      assert rs == [rs[0]] + rs[1..];
    }
  }

  lemma {:induction false} EncodeHead(rs: seq<Rune>)
    ensures EncodeAll(rs) == if rs == [] then [] else Encode(rs[0]) + EncodeAll(rs[1..])
  {
  }

  /** Where no code point can be read: a robust decoder puts one U+FFFD in place of one byte and goes on, the other one
      stops with what it has read. */
  lemma {:induction false} DecodeBroken(rs: seq<Rune>, t: seq<Byte>)
    requires Scalar(rs) && t != [] && !ReadChar(t, false).Ok?
    ensures Decode(EncodeAll(rs) + t, true).0 == rs + [0xFFFD] + Decode(t[1..], true).0
    ensures Decode(EncodeAll(rs) + t, false) == (rs, |EncodeAll(rs)|)
  {
    hide ReadChar, Encode, Decode, EncodeAll;
    var s := EncodeAll(rs) + t;
    EncodeHead(rs);
    if rs == [] {
      assert s == t;
      DecodeStep(t, true);
      DecodeStep(t, false);
    } else {
      var rest := EncodeAll(rs[1..]) + t;
      assert s == Encode(rs[0]) + rest;
      ReadEncoded(rs[0], rest, false);
      assert s[|Encode(rs[0])|..] == rest;
      DecodeBroken(rs[1..], t);
      DecodeStep(s, true);
      DecodeStep(s, false);
      assert rs == [rs[0]] + rs[1..];
    }
  }

  lemma {:induction false} EncodedIsWellFormed(rs: seq<Rune>)
    requires Scalar(rs)
    ensures WellFormed(EncodeAll(rs))
  {
    hide ReadChar, Encode, GrammarLen;
    if rs != [] {
      var s, rest := EncodeAll(rs), EncodeAll(rs[1..]);
      ReadEncoded(rs[0], rest, true);
      StrictIsGrammar(s);
      assert s[|Encode(rs[0])|..] == rest;
      EncodedIsWellFormed(rs[1..]);
    }
  }

  predicate Paired(w: seq<Unit>, i: nat)
    requires i < |w|
  {
    || (IsLead(w[i]) && i + 1 < |w| && IsTail(w[i + 1]))
    || (IsTail(w[i]) && i > 0 && IsLead(w[i - 1]))
  }

  /** The string with each surrogate that is not part of a pair replaced by U+FFFD. */
  function Scrub(w: seq<Unit>): seq<Unit> {
    seq(|w|, i requires 0 <= i < |w| => if (IsLead(w[i]) || IsTail(w[i])) && !Paired(w, i) then BROKEN_RUNE else w[i])
  }

  lemma {:induction false} ScrubTail(w: seq<Unit>)
    requires w != []
    ensures Scrub(w) == (if SymbolSize(w) == 2 then w[..2] else [if IsLead(w[0]) || IsTail(w[0]) then BROKEN_RUNE else w[0]])
                        + Scrub(w[SymbolSize(w)..])
  {
    var n := SymbolSize(w);
    var rest := w[n..];
    assert forall i :: 0 <= i < |rest| ==> rest[i] == w[i + n];
    forall i | 0 <= i < |rest| ensures Paired(rest, i) == Paired(w, i + n) || !(IsLead(w[i + n]) || IsTail(w[i + n])) {
      assert i > 0 ==> rest[i - 1] == w[i + n - 1];
    }
  }

  lemma {:induction false} ScrubEmpty()
    ensures Scrub([]) == []
  {
  }

  lemma {:induction false} WriteRead(w: seq<Unit>)
    requires w != []
    ensures WriteSymbol(ReadSymbol(w)) ==
      if SymbolSize(w) == 2 then w[..2] else [if IsLead(w[0]) || IsTail(w[0]) then BROKEN_RUNE else w[0]]
  {
    if SymbolSize(w) == 2 {
      ReadPairRange(w[0], w[1]);
    }
  }

  lemma {:induction false} SymbolsScrub(w: seq<Unit>)
    ensures WriteAll(Symbols(w)) == Scrub(w)
    decreases |w|
  {
    hide Scrub, WriteSymbol;
    if w == [] {
      ScrubEmpty();
    } else {
      var n := SymbolSize(w);
      SymbolsScrub(w[n..]);
      ScrubTail(w);
      WriteCons(ReadSymbol(w), Symbols(w[n..]));
      WriteRead(w);
    }
  }

  /** For every UTF-16 string: its UTF-8 form is well formed, and converting back gives the string with each unpaired
      surrogate replaced by U+FFFD. */
  lemma {:induction false} WideRoundTrip(w: seq<Unit>)
    ensures WellFormed(EncodeAll(Symbols(w)))
    ensures Decode(EncodeAll(Symbols(w)), false).1 == |EncodeAll(Symbols(w))|
    ensures WriteAll(Decode(EncodeAll(Symbols(w)), false).0) == Scrub(w)
  {
    hide WellFormed, Scrub;
    SymbolsAreScalar(w);
    EncodedIsWellFormed(Symbols(w));
    DecodeEncoded(Symbols(w), false);
    SymbolsScrub(w);
  }

  lemma {:induction false} SymbolsWritten(rs: seq<Rune>)
    requires Scalar(rs)
    ensures Symbols(WriteAll(rs)) == rs
  {
    hide ReadPair;
    if rs != [] {
      var w, rest := WriteAll(rs), WriteAll(rs[1..]);
      SymbolsWritten(rs[1..]);
      if rs[0] >= 0x10000 {
        PairRoundTrip(rs[0]);
      }
      assert w[|WriteSymbol(rs[0])|..] == rest;
      assert SymbolSize(w) == |WriteSymbol(rs[0])| && ReadSymbol(w) == rs[0];
    }
  }

  /** What a decoder that stops at errors has consumed completely is the encoding of what it has read. */
  lemma {:induction false} AcceptedIsEncoded(s: seq<Byte>)
    requires Decode(s, false).1 == |s|
    ensures EncodeAll(Decode(s, false).0) == s
    decreases |s|
  {
    hide ReadChar, Encode;
    if s != [] {
      var res := ReadChar(s, false);
      DecodeStep(s, false);
      EncodeRead(s, false);
      AcceptedIsEncoded(s[res.len..]);
      EncodeCons(res.rune, Decode(s[res.len..], false).0);
      assert s == s[..res.len] + s[res.len..];
    }
  }

  lemma {:induction false} StrictIsLax(s: seq<Byte>)
    requires s != [] && ReadChar(s, true).Ok?
    ensures ReadChar(s, false) == ReadChar(s, true)
  {
  }

  lemma {:induction false} WellFormedDecodes(s: seq<Byte>)
    requires WellFormed(s)
    ensures Decode(s, false).1 == |s| && Scalar(Decode(s, false).0)
    decreases |s|
  {
    hide ReadChar, Encode, GrammarLen;
    if s != [] {
      StrictIsGrammar(s);
      StrictIsLax(s);
      EncodeRead(s, true);
      DecodeStep(s, false);
      WellFormedDecodes(s[GrammarLen(s)..]);
    }
  }

  /** For every byte string that decodes without error, converting to UTF-16 and back gives the string if and only if it
      is well formed; the others hold encoded surrogates. */
  lemma {:induction false} Utf8RoundTrip(s: seq<Byte>)
    ensures WellFormed(s) ==> Decode(s, false).1 == |s|
    ensures Decode(s, false).1 == |s| ==> (EncodeAll(Symbols(WriteAll(Decode(s, false).0))) == s <==> WellFormed(s))
  {
    var rs := Decode(s, false).0;
    if WellFormed(s) {
      WellFormedDecodes(s);
      AcceptedIsEncoded(s);
      SymbolsWritten(rs);
    }
    SymbolsAreScalar(WriteAll(rs));
    EncodedIsWellFormed(Symbols(WriteAll(rs)));
  }

  /** Bytes that decode without error and do not come back: an encoded surrogate, which is not well formed. */
  lemma {:induction false} EncodedSurrogate()
    ensures var s := [0xED, 0xA0, 0x80];
            && Decode(s, false) == ([0xD800], 3) && !WellFormed(s)
            && EncodeAll(Symbols(WriteAll([0xD800]))) == [0xEF, 0xBF, 0xBD] != s
  {
    var s := [0xED, 0xA0, 0x80];
    assert ReadChar(s, false) == Ok(0xD800, 3);
    DecodeStep(s, false);
    assert s[3..] == [];
    DecodeEmpty(false);
    var (rs, n) := Decode(s, false);
    assert rs == [0xD800] + [] && n == 3;
    var u: seq<Unit> := [0xD800];
    var r: seq<Rune> := [0xD800];
    assert r[1..] == [] && WriteAll(r) == WriteSymbol(0xD800) + WriteAll([]);
    assert WriteAll(r) == u;
    assert u[1..] == [] && SymbolSize(u) == 1 && ReadSymbol(u) == 0xFFFD;
    var t: seq<Rune> := [0xFFFD];
    assert Symbols(u) == [ReadSymbol(u)] + Symbols(u[1..]);
    assert Symbols(u) == t;
    assert t[1..] == [] && EncodeAll(t) == Encode(0xFFFD) + EncodeAll([]);
    assert Encode(0xFFFD) == [0xEF, 0xBF, 0xBD];
    assert GrammarLen(s) == 0;
  }
}
