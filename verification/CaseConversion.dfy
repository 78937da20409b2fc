/** `ConvertCaseUTF8Impl`: case conversion of a UTF-8 string for any map of code points, with a growing buffer. */
module CaseConversion {
  import opened Utf8
  import opened Wide
  import opened Wrappers

  /** The outcome of a conversion: unchanged, the new string, or the position of the first byte that does not decode. */
  datatype Outcome = Unchanged | Changed(newString: seq<Byte>) | DecodeError(pos: nat)

  function MapRunes(f: Rune -> Rune, rs: seq<Rune>): seq<Rune> {
    seq(|rs|, i requires 0 <= i < |rs| => f(rs[i]))
  }

  /** What the conversion has to do, from the decoded string alone. */
  function Converted(f: Rune -> Rune, s: seq<Byte>): Outcome {
    var (rs, n) := Decode(s, false);
    if n != |s| then DecodeError(n)
    else if MapRunes(f, rs) == rs then Unchanged
    else Changed(EncodeAll(MapRunes(f, rs)))
  }

  /** On a string of code points: what their map gives, or that it changes nothing; behind such a string, the position of
      the first byte at which no code point can be read. */
  lemma {:induction false} ConvertedIs(f: Rune -> Rune, rs: seq<Rune>, t: seq<Byte>)
    requires Scalar(rs)
    ensures Converted(f, EncodeAll(rs)) ==
              if forall i :: 0 <= i < |rs| ==> f(rs[i]) == rs[i] then Unchanged else Changed(EncodeAll(MapRunes(f, rs)))
    ensures t != [] && !ReadChar(t, false).Ok? ==> Converted(f, EncodeAll(rs) + t) == DecodeError(|EncodeAll(rs)|)
  {
    hide Decode, ReadChar, EncodeAll;
    DecodeEncoded(rs, false);
    if t != [] && !ReadChar(t, false).Ok? {
      DecodeBroken(rs, t);
    }
    if i :| 0 <= i < |rs| && f(rs[i]) != rs[i] {
      assert MapRunes(f, rs)[i] != rs[i];
    }
  }

  /** `SafeWriteUTF8Char`: writes the code point at `pos` of the buffer if it fits. */
  method SafeWriteChar(rune: Rune, buffer: seq<Byte>, pos: nat) returns (ok: bool, buffer': seq<Byte>, len: nat)
    requires pos <= |buffer|
    ensures ok <==> pos + |Encode(rune)| <= |buffer|
    ensures ok ==> len == |Encode(rune)| && buffer' == buffer[..pos] + Encode(rune) + buffer[pos + len..]
    ensures !ok ==> len == 0 && buffer' == buffer
  {
    var tail := |buffer| - pos;
    ok, buffer', len := false, buffer, 0;
    if rune < 0x80 {
      if tail <= 0 {
        return;
      }
      buffer' := buffer[pos := rune];
      len := 1;
    } else if rune < 0x800 {
      if tail <= 1 {
        return;
      }
      buffer' := buffer[pos := 0xC0 + rune / 64][pos + 1 := 0x80 + rune % 64];
      len := 2;
    } else if rune < 0x10000 {
      if tail <= 2 {
        return;
      }
      buffer' := buffer[pos := 0xE0 + rune / 4096][pos + 1 := 0x80 + rune / 64 % 64][pos + 2 := 0x80 + rune % 64];
      len := 3;
    } else {
      if tail <= 3 {
        return;
      }
      buffer' := buffer[pos := 0xF0 + rune / 262144 % 8][pos + 1 := 0x80 + rune / 4096 % 64]
                       [pos + 2 := 0x80 + rune / 64 % 64][pos + 3 := 0x80 + rune % 64];
      len := 4;
    }
    ok := true;
    ghost var e := Encode(rune);
    assert buffer' == buffer[..pos] + e + buffer[pos + len..];
  }

  /** The code points before position `p` are `done`, and decoding goes on from there. */
  ghost predicate ReadTo(s: seq<Byte>, p: nat, done: seq<Rune>) {
    && p <= |s|
    && Decode(s, false).0 == done + Decode(s[p..], false).0
    && Decode(s, false).1 == p + Decode(s[p..], false).1
  }

  lemma {:induction false} ReadOne(s: seq<Byte>, p: nat, done: seq<Rune>)
    requires ReadTo(s, p, done) && p < |s|
    ensures var res := ReadChar(s[p..], false);
            if res.Ok? then 0 < res.len <= |s| - p && ReadTo(s, p + res.len, done + [res.rune])
            else Decode(s, false).1 == p != |s|
  {
    hide Decode, ReadChar;
    DecodeStep(s[p..], false);
    var res := ReadChar(s[p..], false);
    if res.Ok? {
      assert s[p..][res.len..] == s[p + res.len..];
    }
  }

  lemma {:induction false} ReadAll(s: seq<Byte>, done: seq<Rune>)
    requires ReadTo(s, |s|, done)
    ensures Decode(s, false) == (done, |s|)
  {
    hide Decode;
    assert s[|s|..] == [];
    DecodeEmpty(false);
    assert done + [] == done;
    var (rs, n) := Decode(s, false);
  }

  lemma {:induction false} EncodeSnoc(rs: seq<Rune>, r: Rune)
    ensures EncodeAll(rs + [r]) == EncodeAll(rs) + Encode(r)
  {
    hide Encode;
    if rs == [] {
      assert [] + [r] == [r];
      assert EncodeAll([r]) == Encode(r) + EncodeAll([]);
    } else {
      assert (rs + [r])[1..] == rs[1..] + [r];
      EncodeSnoc(rs[1..], r);
    }
  }

  lemma {:induction false} MapSnoc(f: Rune -> Rune, rs: seq<Rune>, r: Rune)
    ensures MapRunes(f, rs + [r]) == MapRunes(f, rs) + [f(r)]
  {
  }

  lemma {:induction false} ReadNone(s: seq<Byte>)
    ensures ReadTo(s, 0, []) && EncodeAll([]) == []
  {
    assert s[0..] == s;
  }

  lemma {:induction false} ReadBound(s: seq<Byte>, p: nat, done: seq<Rune>)
    requires ReadTo(s, p, done)
    ensures p <= |s|
  {
  }

  /** The first code point that changes, if any: `p` is its position, `len` its length and `done` what precedes it. */
  method FindChange(f: Rune -> Rune, s: seq<Byte>) returns (error: bool, p: nat, cNew: Rune, len: nat, ghost done: seq<Rune>, ghost c: Rune)
    ensures ReadTo(s, p, done) && MapRunes(f, done) == done && EncodeAll(done) == s[..p]
    ensures error ==> Decode(s, false).1 == p != |s|
    ensures !error && p < |s| ==> ReadChar(s[p..], false) == Ok(c, len) && cNew == f(c) != c
  {
    hide Decode, ReadChar, Encode, ReadTo;
    error, p, cNew, len, done, c := false, 0, 0, 0, [], 0;
    ReadNone(s);
    while p < |s|
      invariant p <= |s| && ReadTo(s, p, done) && MapRunes(f, done) == done && EncodeAll(done) == s[..p]
    {
      var res := SafeReadChar(s[p..], false);
      ReadOne(s, p, done);
      if !res.Ok? {
        error := true;
        return;
      }
      len, c := res.len, res.rune;
      cNew := f(res.rune);
      if cNew != res.rune {
        return;
      }
      EncodeRead(s[p..], false);
      EncodeSnoc(done, res.rune);
      MapSnoc(f, done, res.rune);
      assert s[..p + res.len] == s[..p] + s[p..][..res.len];
      p := p + res.len;
      done := done + [res.rune];
    }
    ReadBound(s, p, done);
  }

  /** Code point `k` of those read changes. */
  ghost predicate Changing(f: Rune -> Rune, done: seq<Rune>, k: nat) {
    k < |done| && f(done[k]) != done[k]
  }

  lemma {:induction false} AllChanged(f: Rune -> Rune, s: seq<Byte>, done: seq<Rune>, k: nat)
    requires ReadTo(s, |s|, done) && Changing(f, done, k)
    ensures Converted(f, s) == Changed(EncodeAll(MapRunes(f, done)))
  {
    hide Decode, ReadTo, EncodeAll;
    ReadAll(s, done);
    assert MapRunes(f, done)[k] != done[k];
  }

  lemma {:induction false} FirstChange(f: Rune -> Rune, same: seq<Rune>, c: Rune)
    requires f(c) != c
    ensures Changing(f, same + [c], |same|)
  {
  }

  lemma {:induction false} StillChanged(f: Rune -> Rune, done: seq<Rune>, c: Rune, k: nat)
    requires Changing(f, done, k)
    ensures Changing(f, done + [c], k)
  {
  }

  lemma {:induction false} EncodeShort(r: Rune)
    ensures 1 <= |Encode(r)| <= 4
  {
  }

  /** The second loop: writes the rest of the conversion, doubling the buffer when it is full. */
  method WriteChanged(f: Rune -> Rune, s: seq<Byte>, start: nat, first: Rune, firstLen: nat, ghost same: seq<Rune>, ghost old1: Rune)
    returns (r: Outcome)
    requires start < |s| && ReadTo(s, start, same) && MapRunes(f, same) == same && EncodeAll(same) == s[..start]
    requires ReadChar(s[start..], false) == Ok(old1, firstLen) && first == f(old1) != old1
    ensures r == Converted(f, s)
  {
    hide Decode, ReadChar, Encode, EncodeAll, ReadTo, MapRunes, Changing;
    var newString := s[..start] + seq(|s| - start, i => 0);
    var writePos: nat, destSpace: nat := start, |s| - start;
    var p, cNew, cLen := start, first, firstLen;
    ghost var done, c := same, old1;
    ReadOne(s, p, done);
    FirstChange(f, same, old1);
    assert newString[..writePos] == s[..start];
    while true
      invariant p < |s| && ReadTo(s, p, done) && ReadChar(s[p..], false) == Ok(c, cLen) && cNew == f(c)
      invariant writePos + destSpace == |newString| > 0
      invariant newString[..writePos] == EncodeAll(MapRunes(f, done))
      invariant Changing(f, done + [c], |same|)
      decreases |s| - p, 4 - destSpace
    {
      var ok, cNewLen;
      ok, newString, cNewLen := SafeWriteChar(cNew, newString, writePos);
      if !ok {
        EncodeShort(cNew);
        destSpace := destSpace + |newString|;
        newString := newString + seq(|newString|, i => 0);
        writePos := |newString| - destSpace;
        continue;
      }
      destSpace := destSpace - cNewLen;
      writePos := writePos + cNewLen;
      ReadOne(s, p, done);
      MapSnoc(f, done, c);
      EncodeSnoc(MapRunes(f, done), cNew);
      p := p + cLen;
      done := done + [c];
      if p == |s| {
        newString := newString[..|newString| - destSpace];
        AllChanged(f, s, done, |same|);
        return Changed(newString);
      }
      var res := SafeReadChar(s[p..], false);
      ReadOne(s, p, done);
      if !res.Ok? {
        return DecodeError(p);
      }
      StillChanged(f, done, res.rune, |same|);
      c, cLen := res.rune, res.len;
      cNew := f(res.rune);
    }
  }

  /** `ConvertCaseUTF8Impl`. */
  method ConvertCase(f: Rune -> Rune, s: seq<Byte>) returns (r: Outcome)
    ensures r == Converted(f, s)
  {
    hide Decode, ReadChar, Encode, EncodeAll, ReadTo, MapRunes, Changing;
    ghost var done;
    ghost var c;
    var error, p, cNew, cLen;
    error, p, cNew, cLen, done, c := FindChange(f, s);
    ReadBound(s, p, done);
    if error {
      return DecodeError(p);
    }
    if p == |s| {
      ReadAll(s, done);
      return Unchanged;
    }
    r := WriteChanged(f, s, p, cNew, cLen, done, c);
  }

  /** A second conversion by a map that is settled after one step, such as lower-casing, changes nothing. */
  lemma {:induction false} ConversionSettles(f: Rune -> Rune, s: seq<Byte>)
    requires Converted(f, s).Changed? && forall r :: f(f(r)) == f(r)
    requires Scalar(MapRunes(f, Decode(s, false).0))
    ensures Converted(f, Converted(f, s).newString) == Unchanged
    ensures WellFormed(Converted(f, s).newString)
  {
    hide Decode, EncodeAll, WellFormed;
    var mapped := MapRunes(f, Decode(s, false).0);
    DecodeEncoded(mapped, false);
    EncodedIsWellFormed(mapped);
    assert MapRunes(f, mapped) == mapped;
  }
}
