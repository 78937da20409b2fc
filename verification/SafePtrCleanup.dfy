/**
  What happens when a program lets go of all its owning TObj handles: the cascade of destructions always ends, every
  object is deleted or invalid for good unless it belongs to a set of objects that is kept, and without a cycle of TObj
  ownership there is no such set.
 */
module SafePtrCleanup {
  import opened PackedCounters
  import opened Wrappers
  import opened SafePtr
  import opened SafePtrCascade
  import opened SafePtrClear

  ghost predicate IsDropRun(r: seq<State>) {
    IsCascade(r, OutsideOwners) && Inv(r[0]) && Cascading(r[0], OutsideOwners)
  }

  ghost predicate Done(s: State) {
    Ended(s, OutsideOwners)
  }

  /** Dropping owners never overlaps two destructions of one object. */
  lemma {:induction false} DropRunIsGood(r: seq<State>, i: nat)
    requires IsDropRun(r) && i < |r|
    ensures Inv(r[i]) && Cascading(r[i], OutsideOwners)
  {
    hide Inv, Cascading, CascadeStep, Overlap;
    if i > 0 {
      DropRunIsGood(r, i - 1);
      var s, t := r[i - 1], r[i - 1 + 1];
      if Overlap(t) {
        OverlapIsClear(s, t, OutsideOwners);
      }
      CascadeKeeps(s, t, OutsideOwners);
    }
  }

  lemma {:induction false} DropRunAllGood(r: seq<State>)
    requires IsDropRun(r)
    ensures r != [] && IsGoodCascade(r, OutsideOwners)
  {
    hide Inv, Cascading, CascadeStep;
    forall i | 0 <= i < |r| ensures Inv(r[i]) {
      DropRunIsGood(r, i);
    }
  }

  /** From every heap, cycles included, the cascade has no more steps than the heap weighs. */
  lemma {:induction false} DropRunIsShort(r: seq<State>, i: nat)
    requires IsDropRun(r) && i < |r|
    ensures i + Weight(r[i]) <= Weight(r[0])
  {
    hide Inv, Cascading, CascadeStep, Weight;
    if i > 0 {
      DropRunIsShort(r, i - 1);
      DropRunIsGood(r, i - 1);
      CascadeStepLighter(r[i - 1], r[i - 1 + 1], OutsideOwners);
    }
  }

  // ----- What is left -----

  /** Invalid, with its contents destroyed. */
  ghost predicate Gone(s: State, x: ObjId) {
    x in s.objs && IsInvalid(s.objs[x]) && !HasCellInside(s, x)
  }

  /** An object that the cascade has hit is deleted or gone at its end. */
  lemma {:induction false} HitIsGone(r: seq<State>, x: ObjId)
    requires IsDropRun(r) && Done(r[|r| - 1]) && Hit(r, |r| - 1, x)
    ensures x in r[|r| - 1].deleted || Gone(r[|r| - 1], x)
  {
    hide Inv, Cascading, CascadeStep, IsInvalid, Hit, HasCellInside;
    DropRunAllGood(r);
    AfterHit(r, OutsideOwners, |r| - 1, x);
  }

  ghost predicate EverythingGone(start: State, end: State) {
    forall x :: x in start.objs ==> x in end.deleted || Gone(end, x)
  }

  ghost predicate AllValid(s: State) {
    forall x :: x in s.objs ==> !IsInvalid(s.objs[x])
  }

  ghost predicate NothingKept(s: State) {
    forall kept :: Kept(s, OutsideOwners, kept) ==> kept == {}
  }

  lemma {:induction false} RunNotEmpty(r: seq<State>)
    requires IsDropRun(r)
    ensures r != []
  {
  }

  lemma {:induction false} KeptExist(s: State, kept: set<ObjId>)
    requires Kept(s, OutsideOwners, kept)
    ensures kept <= s.objs.Keys
  {
  }

  lemma {:induction false} LiveIsNotDeleted(s: State, x: ObjId)
    requires Inv(s) && x in s.objs
    ensures x !in s.deleted
  {
  }

  /** An object survives if and only if it belongs to a kept set, and then it is as valid as it was. */
  lemma {:induction false} DropSurvivors(r: seq<State>, x: ObjId)
    requires IsDropRun(r) && r != [] && Done(r[|r| - 1]) && x in r[0].objs
    ensures !Hit(r, |r| - 1, x) <==> exists kept :: Kept(r[0], OutsideOwners, kept) && x in kept
    ensures var end := r[|r| - 1];
            !Hit(r, |r| - 1, x) ==> x in end.objs && x !in end.deleted && IsInvalid(end.objs[x]) == IsInvalid(r[0].objs[x])
  {
    hide Inv, Cascading, CascadeStep, Kept, Hit, IsInvalid;
    DropRunAllGood(r);
    SurvivesIffKept(r, OutsideOwners, x);
    if !Hit(r, |r| - 1, x) {
      Unhit(r, OutsideOwners, |r| - 1, x);
      DropRunIsGood(r, |r| - 1);
      LiveIsNotDeleted(r[|r| - 1], x);
    }
  }

  /** For every heap of valid objects, with handles of all three kinds in any arrangement and in every order of
      destruction: dropping every TObj outside of objects leaves nothing usable if and only if no set of objects is
      kept, that is, holds for each of its members a TObj and a TMObj of its own wherever the member had any. */
  lemma {:induction false} CleanupIffNothingKept(r: seq<State>)
    requires IsDropRun(r) && AllValid(r[0]) && Done(r[|r| - 1])
    ensures EverythingGone(r[0], r[|r| - 1]) <==> NothingKept(r[0])
  {
    hide IsDropRun, Done, Kept, Hit, IsInvalid, HasCellInside;
    RunNotEmpty(r);
    if NothingKept(r[0]) {
      forall x | x in r[0].objs ensures x in r[|r| - 1].deleted || Gone(r[|r| - 1], x) {
        DropSurvivors(r, x);
        if Hit(r, |r| - 1, x) {
          HitIsGone(r, x);
        }
      }
    } else {
      var kept :| Kept(r[0], OutsideOwners, kept) && kept != {};
      var x :| x in kept;
      KeptExist(r[0], kept);
      DropSurvivors(r, x);
    }
  }

  // ----- Ownership cycles -----

  ghost predicate OwnedFrom(s: State, p: PtrId, x: ObjId, c: set<ObjId>) {
    && p in s.cells && s.cells[p].kind == Obj && s.cells[p].target == Some(x)
    && s.cells[p].owner.Inside? && s.cells[p].owner.obj in c
  }

  /** A set of objects each of which is held by a TObj inside an object of the set. */
  ghost predicate SelfOwned(s: State, c: set<ObjId>) {
    && c <= s.objs.Keys
    && forall x :: x in c ==> exists p: PtrId :: OwnedFrom(s, p, x, c)
  }

  /** Ownership by TObj has no cycle. */
  ghost predicate Acyclic(s: State) {
    forall c :: SelfOwned(s, c) ==> c == {}
  }

  /** Every object is owned by a TObj, or gone, or being destroyed. */
  ghost predicate Settled(s: State) {
    forall x :: x in s.objs ==> Holders(s, Obj, x) != {} || Gone(s, x) || HasFrame(s, x)
  }

  ghost function Owned(s: State, kept: set<ObjId>): set<ObjId> {
    set x | x in kept && Holders(s, Obj, x) != {}
  }

  lemma {:induction false} HolderIs(s: State, k: Kind, x: ObjId, p: PtrId)
    requires p in Holders(s, k, x)
    ensures p in s.cells && s.cells[p].kind == k && s.cells[p].target == Some(x)
  {
  }

  /** The objects of a kept set that have a TObj own each other. */
  lemma {:induction false} KeptOwnThemselves(s: State, kept: set<ObjId>)
    requires Inv(s) && Cascading(s, OutsideOwners) && Settled(s) && Kept(s, OutsideOwners, kept)
    ensures SelfOwned(s, Owned(s, kept))
  {
    hide CountsOk, RoomOk, FramesOk, SpentOk, ChainOk, IsInvalid, Holders;
    var c := Owned(s, kept);
    forall x | x in c ensures exists p: PtrId :: OwnedFrom(s, p, x, c) {
      assert KeptAt(s, OutsideOwners, kept, x);
      var p: PtrId :| p in Holders(s, Obj, x) && Stays(s, OutsideOwners, kept, p);
      HolderIs(s, Obj, x, p);
      var z := s.cells[p].owner.obj;
      assert MemberOf(s, p, z) && KeptAt(s, OutsideOwners, kept, z);
      assert OwnedFrom(s, p, x, c);
    }
  }

  lemma {:induction false} FramedIsHit(r: seq<State>, x: ObjId)
    requires r != [] && Cascading(r[0], OutsideOwners) && HasFrame(r[0], x)
    ensures Hit(r, |r| - 1, x)
  {
    assert BeingDestroyed(r[0], x);
  }

  lemma {:induction false} FewerMembers(s: State, t: State, x: ObjId)
    requires forall p :: p in t.cells ==> p in s.cells && t.cells[p] == s.cells[p]
    ensures HasCellInside(t, x) ==> HasCellInside(s, x)
  {
    if p :| MemberOf(t, p, x) {
      assert MemberOf(s, p, x);
    }
  }

  /** From a heap in which every object is owned by some TObj and TObj ownership has no cycle (TPtr and TMObj handles
      may form any graph), destroying all TObj handles outside of objects leaves every object deleted or gone. */
  lemma {:induction false} Cleanup(r: seq<State>, x: ObjId)
    requires IsDropRun(r) && Settled(r[0]) && Acyclic(r[0]) && Done(r[|r| - 1]) && x in r[0].objs
    ensures x in r[|r| - 1].deleted || Gone(r[|r| - 1], x)
  {
    hide Inv, Cascading, CascadeStep, IsInvalid, Kept, Hit, Holders, SelfOwned;
    DropSurvivors(r, x);
    if Hit(r, |r| - 1, x) {
      HitIsGone(r, x);
    } else {
      var kept :| Kept(r[0], OutsideOwners, kept) && x in kept;
      KeptOwnThemselves(r[0], kept);
      assert x !in Owned(r[0], kept);
      if HasFrame(r[0], x) {
        FramedIsHit(r, x);
      }
      assert Gone(r[0], x);
      DropRunAllGood(r);
      CascadeShrinksAll(r, OutsideOwners, |r| - 1);
      FewerMembers(r[0], r[|r| - 1], x);
    }
  }

  /** It stays so: in whatever run follows, as long as every Clear in it is safe, the object is deleted or invalid. */
  lemma {:induction false} CleanupIsForGood(r: seq<State>, later: seq<State>, j: nat, x: ObjId)
    requires IsDropRun(r) && Settled(r[0]) && Acyclic(r[0]) && Done(r[|r| - 1]) && x in r[0].objs
    requires IsRun(later) && EveryClearIsSafe(later) && later[0] == r[|r| - 1] && j < |later|
    ensures x in later[j].deleted || (x in later[j].objs && IsInvalid(later[j].objs[x]))
  {
    hide IsDropRun, IsRun, EveryClearIsSafe, Settled, Acyclic, Inv, IsInvalid, HasCellInside;
    Cleanup(r, x);
    RunNotEmpty(r);
    DropRunIsGood(r, |r| - 1);
    InvalidForGood(later, 0, j, x);
  }

  ghost predicate NoMObj(s: State) {
    forall p :: p in s.cells ==> s.cells[p].kind != MObj
  }

  lemma {:induction false} OwnedIsKept(s: State, c: set<ObjId>, x: ObjId, p: PtrId)
    requires s.stack == [] && NoMObj(s) && OwnedFrom(s, p, x, c)
    ensures KeptAt(s, OutsideOwners, c, x)
  {
    assert p in Holders(s, Obj, x) && Stays(s, OutsideOwners, c, p);
    assert StayingHolder(s, OutsideOwners, c, Obj, x);
    assert Holders(s, MObj, x) == {};
    hide Holders, StayingHolder, Stays;
    forall k | k != Ref && Holders(s, k, x) != {} ensures StayingHolder(s, OutsideOwners, c, k, x) {
    }
  }

  lemma {:induction false} CycleIsKept(s: State, c: set<ObjId>)
    requires s.stack == [] && NoMObj(s) && SelfOwned(s, c)
    ensures Kept(s, OutsideOwners, c)
  {
    hide KeptAt, OwnedFrom;
    forall x | x in c ensures KeptAt(s, OutsideOwners, c, x) {
      var p: PtrId :| OwnedFrom(s, p, x, c);
      OwnedIsKept(s, c, x, p);
    }
  }

  /** Without TMObj handles, and with every object owned by a TObj, a nonempty kept set is a cycle of ownership. */
  lemma {:induction false} KeptIffCycle(s: State)
    requires Inv(s) && s.stack == [] && NoMObj(s) && forall x :: x in s.objs ==> Holders(s, Obj, x) != {}
    ensures NothingKept(s) <==> Acyclic(s)
  {
    hide Inv, Kept, SelfOwned, Holders, NoMObj;
    if Acyclic(s) {
      forall kept | Kept(s, OutsideOwners, kept) ensures kept == {} {
        KeptOwnThemselves(s, kept);
        KeptExist(s, kept);
        assert Owned(s, kept) == kept;
      }
    } else {
      var c :| SelfOwned(s, c) && c != {};
      CycleIsKept(s, c);
    }
  }
}
