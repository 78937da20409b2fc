/**
  The two words of `IObjectBase`. `ObjData` packs the number of TObj handles (bits 0-19), the number of
  TMObj handles (bits 20-29), a flag for an invalidation in progress (bit 30) and a flag that stays set
  once the object has been invalidated (bit 31). `RefData` counts the TPtr handles.
 */
module PackedCounters {
  import opened Arithmetic

  /** The three handle types: TPtr, TObj and TMObj. */
  datatype Kind = Ref | Obj | MObj

  /** The value of a 32-bit word. */
  type Word = w: int | 0 <= w < 0x1_0000_0000

  datatype Counters = Counters(objData: Word, refData: Word)

  /** What a release asks for once the counter has been lowered. */
  datatype Effect = Nothing | Delete | Invalidate

  const UNIT_MOBJ := 0x0010_0000
  const BIT_30 := 0x4000_0000
  const BIT_31 := 0x8000_0000

  // ----- Masks of the packed word; all of them are runs of bits, hence quotients and remainders -----

  /** w & 0x000fffff */
  function ObjBits(w: Word): int { w % UNIT_MOBJ }

  /** (w & 0x3ff00000) >> 20 */
  function MObjBits(w: Word): int { w / UNIT_MOBJ % 0x400 }

  /** w & 0x3fffffff */
  function CountBits(w: Word): int { w % BIT_30 }

  /** (w & 0x40000000) >> 30 */
  function Bit30(w: Word): int { w / BIT_30 % 2 }

  /** (w & 0x80000000) >> 31 */
  function Bit31(w: Word): int { w / BIT_31 }

  function Wrap(x: int): Word { x % 0x1_0000_0000 }

  /** The word is the sum of its four fields, and the fields are determined by the word. */
  lemma Unpack(w: Word)
    ensures w == ObjBits(w) + UNIT_MOBJ * MObjBits(w) + BIT_30 * Bit30(w) + BIT_31 * Bit31(w)
    ensures 0 <= ObjBits(w) < UNIT_MOBJ && 0 <= MObjBits(w) < 0x400 && 0 <= Bit30(w) < 2 && 0 <= Bit31(w) < 2
    ensures CountBits(w) == ObjBits(w) + UNIT_MOBJ * MObjBits(w)
  {
    var q := w / UNIT_MOBJ;
    assert q == 0x400 * (q / 0x400) + MObjBits(w);
    Quotient(w, BIT_30, q / 0x400, ObjBits(w) + UNIT_MOBJ * MObjBits(w));
    var r := w / BIT_30;
    Quotient(w, BIT_31, r / 2, BIT_30 * (r % 2) + CountBits(w));
  }

  lemma Pack(o: int, m: int, i: int, v: int, w: Word)
    requires 0 <= o < UNIT_MOBJ && 0 <= m < 0x400 && 0 <= i < 2 && 0 <= v < 2
    requires w == o + UNIT_MOBJ * m + BIT_30 * i + BIT_31 * v
    ensures ObjBits(w) == o && MObjBits(w) == m && Bit30(w) == i && Bit31(w) == v
  {
    Quotient(w, UNIT_MOBJ, m + 0x400 * i + 0x800 * v, o);
    Quotient(m + 0x400 * i + 0x800 * v, 0x400, i + 2 * v, m);
    Quotient(w, BIT_30, i + 2 * v, o + UNIT_MOBJ * m);
    Quotient(w, BIT_31, v, o + UNIT_MOBJ * m + BIT_30 * i);
  }

  // ----- The unpacked view: three counters and two flags -----

  function Count(c: Counters, k: Kind): int {
    match k
    case Ref => c.refData
    case Obj => ObjBits(c.objData)
    case MObj => MObjBits(c.objData)
  }

  function Limit(k: Kind): int {
    match k
    case Ref => 0xffff_ffff
    case Obj => 0xf_ffff
    case MObj => 0x3ff
  }

  predicate IsInvalidating(c: Counters) {
    Bit30(c.objData) != 0
  }

  predicate IsInvalid(c: Counters) {
    Bit31(c.objData) != 0
  }

  ghost predicate SameFlags(c: Counters, d: Counters) {
    IsInvalidating(c) == IsInvalidating(d) && IsInvalid(c) == IsInvalid(d)
  }

  // ----- The operations on the packed words -----

  function Unit(k: Kind): int {
    if k == MObj then UNIT_MOBJ else 1
  }

  function Add(c: Counters, k: Kind): Counters {
    if k == Ref then c.(refData := Wrap(c.refData + 1)) else c.(objData := Wrap(c.objData + Unit(k)))
  }

  function Dec(c: Counters, k: Kind): Counters {
    if k == Ref then c.(refData := Wrap(c.refData - 1)) else c.(objData := Wrap(c.objData - Unit(k)))
  }

  /** `ReleaseRefComplete`. */
  function RefEffect(c: Counters): Effect {
    if c.refData == 0 && CountBits(c.objData) == 0 then Delete else Nothing
  }

  /** `ReleaseObjComplete` up to the point where it destroys the contents. */
  function ObjEffect(c: Counters): (Counters, Effect) {
    if CountBits(c.objData) == 0 && c.refData == 0 then (c, Delete)
    else if IsInvalidating(c) then (c, Nothing)
    else (Counters(CountBits(c.objData) + BIT_30 + BIT_31, Wrap(c.refData + 1)), Invalidate)
  }

  /** `ReleaseRef` and `ReleaseObj`. */
  function Release(c: Counters, k: Kind): (Counters, Effect) {
    var d := Dec(c, k);
    if k == Ref then (d, RefEffect(d))
    else if (if k == MObj then MObjBits(d.objData) else ObjBits(d.objData)) == 0 then ObjEffect(d)
    else (d, Nothing)
  }

  /** w & ~0x40000000 */
  function WithoutBit30(w: Word): Word { (if Bit31(w) != 0 then BIT_31 else 0) + CountBits(w) }

  /** The end of `ReleaseObjComplete`, after the contents have been destroyed. */
  function FinishInvalidation(c: Counters): (Counters, Effect) {
    var d := Dec(c.(objData := WithoutBit30(c.objData)), Ref);
    (d, RefEffect(d))
  }

  // ----- The packed words refine the unpacked view -----

  /** Below its limit no counter carries into its neighbour. */
  lemma AddRefines(c: Counters, k: Kind)
    requires Count(c, k) < Limit(k)
    ensures forall j :: Count(Add(c, k), j) == if j == k then Count(c, j) + 1 else Count(c, j)
    ensures SameFlags(Add(c, k), c)
  {
    hide ObjBits, MObjBits, Bit30, Bit31, CountBits;
    var w := c.objData;
    Unpack(w);
    if k == Obj {
      Pack(ObjBits(w) + 1, MObjBits(w), Bit30(w), Bit31(w), w + 1);
    } else if k == MObj {
      Pack(ObjBits(w), MObjBits(w) + 1, Bit30(w), Bit31(w), w + UNIT_MOBJ);
    }
  }

  /** Above zero no counter borrows from its neighbour. */
  lemma DecRefines(c: Counters, k: Kind)
    requires Count(c, k) > 0
    ensures forall j :: Count(Dec(c, k), j) == if j == k then Count(c, j) - 1 else Count(c, j)
    ensures SameFlags(Dec(c, k), c)
  {
    hide ObjBits, MObjBits, Bit30, Bit31, CountBits;
    var w := c.objData;
    Unpack(w);
    if k == Obj {
      Pack(ObjBits(w) - 1, MObjBits(w), Bit30(w), Bit31(w), w - 1);
    } else if k == MObj {
      Pack(ObjBits(w), MObjBits(w) - 1, Bit30(w), Bit31(w), w - UNIT_MOBJ);
    }
  }

  lemma FlagsRefine(w: Word)
    ensures CountBits(w) == 0 <==> ObjBits(w) == 0 && MObjBits(w) == 0
    ensures ObjBits(CountBits(w) + BIT_30 + BIT_31) == ObjBits(w) && MObjBits(CountBits(w) + BIT_30 + BIT_31) == MObjBits(w)
    ensures Bit30(CountBits(w) + BIT_30 + BIT_31) == 1 == Bit31(CountBits(w) + BIT_30 + BIT_31)
    ensures ObjBits(WithoutBit30(w)) == ObjBits(w) && MObjBits(WithoutBit30(w)) == MObjBits(w)
    ensures Bit30(WithoutBit30(w)) == 0 && Bit31(WithoutBit30(w)) == Bit31(w)
  {
    hide ObjBits, MObjBits, Bit30, Bit31, CountBits;
    Unpack(w);
    Pack(ObjBits(w), MObjBits(w), 1, 1, CountBits(w) + BIT_30 + BIT_31);
    Pack(ObjBits(w), MObjBits(w), 0, Bit31(w), WithoutBit30(w));
  }

  ghost predicate AllZero(c: Counters) {
    Count(c, Ref) == 0 && Count(c, Obj) == 0 && Count(c, MObj) == 0
  }

  /** A release on the unpacked view: lower one counter; delete when all are zero; else invalidate when the last
      handle of an owning kind has gone and no invalidation is under way, which holds one reference meanwhile. */
  lemma ReleaseRefines(c: Counters, k: Kind)
    requires Count(c, k) > 0 && (k != Ref ==> Count(c, Ref) < Limit(Ref))
    ensures var (d, e) := Release(c, k);
            && (e == Delete <==> AllZero(Dec(c, k)))
            && (e == Invalidate <==> k != Ref && Count(c, k) == 1 && !AllZero(Dec(c, k)) && !IsInvalidating(c))
            && (forall j :: Count(d, j) == if j == k then Count(c, j) - 1
                                           else if j == Ref && e == Invalidate then Count(c, j) + 1 else Count(c, j))
            && (if e == Invalidate then IsInvalid(d) && IsInvalidating(d) else SameFlags(d, c))
  {
    hide ObjBits, MObjBits, Bit30, Bit31, CountBits, Dec;
    DecRefines(c, k);
    FlagsRefine(Dec(c, k).objData);
  }

  /** The end of an invalidation on the unpacked view. */
  lemma FinishRefines(c: Counters)
    requires Count(c, Ref) > 0
    ensures var (d, e) := FinishInvalidation(c);
            && (e == Delete <==> Count(c, Ref) == 1 && Count(c, Obj) == 0 && Count(c, MObj) == 0)
            && e != Invalidate
            && (forall j :: Count(d, j) == if j == Ref then Count(c, j) - 1 else Count(c, j))
            && !IsInvalidating(d) && IsInvalid(d) == IsInvalid(c)
  {
    hide ObjBits, MObjBits, Bit30, Bit31, CountBits;
    FlagsRefine(c.objData);
    FlagsRefine(WithoutBit30(c.objData));
  }

  lemma ReleasedZero(c: Counters, k: Kind)
    requires Count(c, k) > 0 && (k != Ref ==> Count(c, Ref) < Limit(Ref))
    ensures Release(c, k).1 == Delete <==> AllZero(Release(c, k).0)
  {
    hide ObjBits, MObjBits, Release, Dec, IsInvalidating, IsInvalid;
    ReleaseRefines(c, k);
    DecRefines(c, k);
  }

  lemma ReleasedRef(c: Counters)
    requires c.refData > 0
    ensures FinishInvalidation(c).1 == if AllZero(FinishInvalidation(c).0) then Delete else Nothing
  {
    hide ObjBits, MObjBits, Bit30, Bit31, CountBits;
    FlagsRefine(WithoutBit30(c.objData));
  }

  /** The counts of `d` are those of `c`, but for `n` more of kind `k`. */
  ghost predicate Shifted(c: Counters, d: Counters, k: Kind, n: int) {
    forall j :: Count(d, j) == Count(c, j) + if j == k then n else 0
  }

  /** `IObjectBase` as an object whose methods change the two words in place. `DestroyContents` and `delete this`
      run code of the derived class, so the methods hand back what they would do next. The contracts speak of the three
      counts and the two flags; the last clause of some of them says what the words are when a count leaves its field. */
  class ObjectBase {
    var objData: Word
    var refData: Word

    constructor ()
      ensures AllZero(Value()) && !IsInvalidating(Value()) && !IsInvalid(Value())
    {
      objData, refData := 0, 0;
    }

    function Value(): Counters
      reads this
    {
      Counters(objData, refData)
    }

    /** One more handle of kind `k`: no other count changes and no flag. */
    method AddRef(k: Kind)
      modifies this
      ensures old(Count(Value(), k)) < Limit(k) ==> Shifted(old(Value()), Value(), k, 1) && SameFlags(Value(), old(Value()))
      ensures Value() == Add(old(Value()), k)
    {
      if k == Ref {
        refData := Wrap(refData + 1);
      } else {
        objData := Wrap(objData + Unit(k));
      }
      if old(Count(Value(), k)) < Limit(k) {
        AddRefines(old(Value()), k);
      }
    }

    /** One handle less, without a look at what is left. */
    method DecRef(k: Kind)
      modifies this
      ensures old(Count(Value(), k)) > 0 ==> Shifted(old(Value()), Value(), k, -1) && SameFlags(Value(), old(Value()))
      ensures Value() == Dec(old(Value()), k)
    {
      if k == Ref {
        refData := Wrap(refData - 1);
      } else {
        objData := Wrap(objData - Unit(k));
      }
      if old(Count(Value(), k)) > 0 {
        DecRefines(old(Value()), k);
      }
    }

    /** `ReleaseRef` and `ReleaseObj`: one handle less. The object is to be deleted if it was the last of all, and to be
        invalidated if it was the last of an owning kind and no invalidation is in progress, which takes a reference. */
    method ReleaseHandle(k: Kind) returns (next: Effect)
      modifies this
      ensures old(Count(Value(), k) > 0 && (k != Ref ==> Count(Value(), Ref) < Limit(Ref))) ==>
                && (next == Delete <==> AllZero(Value()))
                && (next == Invalidate <==>
                      k != Ref && old(Count(Value(), k)) == 1 && !old(AllZero(Dec(Value(), k))) && !old(IsInvalidating(Value())))
                && (forall j :: Count(Value(), j) == old(Count(Value(), j)) - (if j == k then 1 else 0)
                                                     + (if j == Ref && next == Invalidate then 1 else 0))
                && (if next == Invalidate then IsInvalid(Value()) && IsInvalidating(Value()) else SameFlags(Value(), old(Value())))
      ensures (Value(), next) == Release(old(Value()), k)
    {
      hide AllZero, IsInvalidating, IsInvalid, Add, Dec, WithoutBit30;
      DecRef(k);
      next := Nothing;
      if k == Ref {
        if refData == 0 {
          next := ReleaseRefComplete();
        }
      } else if (if k == MObj then MObjBits(objData) else ObjBits(objData)) == 0 {
        next := ReleaseObjComplete();
      }
      if old(Count(Value(), k) > 0 && (k != Ref ==> Count(Value(), Ref) < Limit(Ref))) {
        ReleaseRefines(old(Value()), k);
        ReleasedZero(old(Value()), k);
      }
    }

    /** The last TPtr has gone: the object is to be deleted if and only if no owning handle is left either. */
    method ReleaseRefComplete() returns (next: Effect)
      requires refData == 0
      ensures next == if AllZero(Value()) then Delete else Nothing
      ensures next == RefEffect(Value())
    {
      FlagsRefine(objData);
      next := if CountBits(objData) == 0 then Delete else Nothing;
    }

    /** The last handle of an owning kind has gone. The object is to be deleted if no handle is left at all; otherwise it
        is to be invalidated, unless that is in progress, and is marked as invalid and as being invalidated. */
    method ReleaseObjComplete() returns (next: Effect)
      modifies this
      ensures next == if old(AllZero(Value())) then Delete else if old(IsInvalidating(Value())) then Nothing else Invalidate
      ensures next != Invalidate ==> Value() == old(Value())
      ensures next == Invalidate ==> IsInvalidating(Value()) && IsInvalid(Value())
      ensures next == Invalidate && old(refData) < Limit(Ref) ==> Shifted(old(Value()), Value(), Ref, 1)
      ensures (Value(), next) == ObjEffect(old(Value()))
    {
      hide ObjBits, MObjBits, Bit31, SameFlags;
      FlagsRefine(objData);
      if CountBits(objData) == 0 && refData == 0 {
        return Delete;
      }
      if Bit30(objData) != 0 {
        return Nothing;
      }
      objData := CountBits(objData) + BIT_30 + BIT_31;
      AddRef(Ref);
      next := Invalidate;
    }

    /** The part of `ReleaseObjComplete` that follows `DestroyContents`: the invalidation is over and gives its reference
        back, and the object is to be deleted if nothing else holds it. It stays invalid. */
    method ContentsDestroyed() returns (next: Effect)
      modifies this
      ensures old(refData) > 0 ==>
                && next == (if AllZero(Value()) then Delete else Nothing)
                && Shifted(old(Value()), Value(), Ref, -1)
                && !IsInvalidating(Value()) && IsInvalid(Value()) == old(IsInvalid(Value()))
      ensures (Value(), next) == FinishInvalidation(old(Value()))
    {
      hide AllZero, IsInvalidating, IsInvalid, Add, WithoutBit30, ObjEffect;
      ghost var c := Value();
      objData := WithoutBit30(objData);
      next := ReleaseHandle(Ref);
      if c.refData > 0 {
        FinishRefines(c);
        ReleasedRef(c);
      }
    }
  }
}
