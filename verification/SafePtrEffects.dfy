/**
  What each step does: which pointer variables change and how, which destruction starts and which one ends. With the
  invariant, the counts of all objects follow from the pointer variables and the destructions in progress.
 */
module SafePtrEffects {
  import opened PackedCounters
  import opened Wrappers
  import opened SafePtr

  ghost predicate NoHandle(s: State, y: ObjId) {
    forall k :: Holders(s, k, y) == {}
  }

  /** Pointer `p` is the only handle of any kind. */
  ghost predicate OnlyHandle(s: State, p: PtrId, y: ObjId) {
    forall k :: Holders(s, k, y) <= {p}
  }

  /** The destruction that starts when pointer `p` lets go of its target. The object is deleted if that was its last handle
      and nothing else keeps it, which a `Clear` or an invalidation in progress does. Otherwise it is invalidated if that was
      the last handle of an owning kind and no invalidation is in progress. */
  ghost function LetGo(s: State, p: PtrId, again: set<PtrId>): seq<Frame>
    requires p in s.cells && Live(s, s.cells[p].target)
  {
    var c := s.cells[p];
    if c.target.None? then []
    else
      var y := c.target.value;
      if OnlyHandle(s, p, y) && Pins(s, y) == 0 then [Frame(y, Deleting, again)]
      else if c.kind != Ref && Holders(s, c.kind, y) == {p} && !IsInvalidating(s.objs[y]) then
        [Frame(y, Invalidating(c.kind), again)]
      else []
  }

  /** The object is marked invalid by a destruction that starts. */
  ghost predicate Marks(started: seq<Frame>, x: ObjId) {
    started != [] && started[0].obj == x && started[0].why.Invalidating?
  }

  /** From one heap to the next nothing is deleted or touched after its deletion, and no flag changes but that of an object
      that is invalidated. */
  ghost predicate SameRest(s: State, t: State, started: seq<Frame>) {
    && t.objs.Keys == s.objs.Keys && t.deleted == s.deleted && t.crashed == s.crashed
    && (forall x :: x in s.objs ==> (IsInvalid(t.objs[x]) <==> IsInvalid(s.objs[x]) || Marks(started, x)))
  }

  // ----- A release -----

  lemma {:induction false} OwingCounts(u: State, y: ObjId, k: Kind, j: Kind)
    requires InvOwing(u, Some((y, k))) && y in u.objs
    ensures Count(u.objs[y], j) == |Holders(u, j, y)| + (if j == Ref then Pins(u, y) else 0) + (if j == k then 1 else 0)
  {
    hide Count, IsInvalidating;
    assert Count(u.objs[y], j) == Due(u, Some((y, k)), j, y);
  }

  lemma {:induction false} ZeroWhenUnheld(u: State, y: ObjId, k: Kind)
    requires InvOwing(u, Some((y, k))) && y in u.objs
    ensures AllZero(Dec(u.objs[y], k)) <==> NoHandle(u, y) && Pins(u, y) == 0
    ensures k != Ref ==> (Count(u.objs[y], k) == 1 <==> Holders(u, k, y) == {})
  {
    hide Count, Dec, InvOwing, Holders, IsInvalidating;
    OwingCounts(u, y, k, Ref);
    OwingCounts(u, y, k, Obj);
    OwingCounts(u, y, k, MObj);
    DecRefines(u.objs[y], k);
    if Holders(u, Ref, y) == {} && Holders(u, Obj, y) == {} && Holders(u, MObj, y) == {} {
      forall j ensures Holders(u, j, y) == {} {
        match j
        case Ref =>
        case Obj =>
        case MObj =>
      }
    }
  }

  /** The destruction that the release of an owed handle starts. */
  ghost function Released(u: State, y: ObjId, k: Kind): seq<Frame>
    requires y in u.objs
  {
    if NoHandle(u, y) && Pins(u, y) == 0 then [Frame(y, Deleting, SpentIn(u, y))]
    else if k != Ref && Holders(u, k, y) == {} && !IsInvalidating(u.objs[y]) then [Frame(y, Invalidating(k), SpentIn(u, y))]
    else []
  }

  lemma {:induction false} ReleaseStarts(u: State, y: ObjId, k: Kind)
    requires InvOwing(u, Some((y, k))) && y in u.objs
    ensures var t := ReleaseOn(u, y, k);
            && t.cells == u.cells && t.spent == u.spent
            && t.stack == u.stack + Released(u, y, k) && SameRest(u, t, Released(u, y, k))
  {
    hide Count, Dec, InvOwing, Holders, Release, IsInvalid, IsInvalidating, NoHandle, AllZero, SpentIn, Pins;
    OwedIsHeld(u, y, k);
    ReleaseRefines(u.objs[y], k);
    ZeroWhenUnheld(u, y, k);
  }

  // ----- The operations -----

  lemma {:induction false} HoldersWithout(s: State, u: State, p: PtrId, k: Kind, y: ObjId)
    requires p in s.cells && s.cells[p].target == Some(y) && u.cells - {p} == s.cells - {p}
    requires p in u.cells ==> u.cells[p].target != Some(y)
    ensures Holders(u, k, y) == Holders(s, k, y) - {p}
  {
    forall q ensures q in Holders(u, k, y) <==> q in Holders(s, k, y) - {p} {
      SameBut(s, u, p, q);
    }
  }

  /** The pointer variables with the target of `p` gone from them, or replaced by another. */
  lemma {:induction false} WithoutHandle(s: State, u: State, p: PtrId)
    requires p in s.cells && s.cells[p].target.Some? && u.cells - {p} == s.cells - {p}
    requires p in u.cells ==> u.cells[p].target != s.cells[p].target
    ensures var y, k := s.cells[p].target.value, s.cells[p].kind;
            && (NoHandle(u, y) <==> OnlyHandle(s, p, y))
            && (Holders(u, k, y) == {} <==> Holders(s, k, y) == {p})
  {
    var y := s.cells[p].target.value;
    forall k ensures Holders(u, k, y) == Holders(s, k, y) - {p} {
      HoldersWithout(s, u, p, k, y);
    }
    assert p in Holders(s, s.cells[p].kind, y);
    if OnlyHandle(s, p, y) {
      assert forall k :: Holders(s, k, y) <= {p};
    }
    if NoHandle(u, y) {
      forall k ensures Holders(s, k, y) <= {p} {
        assert Holders(s, k, y) - {p} == {};
      }
    }
  }

  /** A new object has no flag; nothing else changes. */
  lemma {:induction false} NewObjectEffect(s: State, x: ObjId)
    requires Inv(s) && Enabled(s, NewObject(x))
    ensures var t := Perform(s, NewObject(x));
            && t.cells == s.cells && t.stack == [] && Inv(t)
            && x !in s.objs && x !in s.deleted && t.objs.Keys == s.objs.Keys + {x} && !IsInvalid(t.objs[x])
            && t.deleted == s.deleted && (forall y :: y in s.objs ==> t.objs[y] == s.objs[y])
  {
    hide InvOwing, IsInvalid;
    PerformKeeps(s, NewObject(x));
    NewIsZero();
  }

  /** `Clear` starts the destruction of the contents of its object; no pointer variable and no flag changes before that. */
  lemma {:induction false} ClearEffect(s: State, x: ObjId)
    requires Inv(s) && Enabled(s, Clear(x))
    ensures var t := Perform(s, Clear(x));
            && t.cells == s.cells && t.spent == s.spent && t.stack == [Frame(x, Clearing, {})]
            && SameRest(s, t, []) && Inv(t)
  {
    hide InvOwing, IsInvalid, IsInvalidating, Count, Limit, Add;
    PerformKeeps(s, Clear(x));
    RoomForClear(s, x);
    AddRefines(s.objs[x], Ref);
  }

  /** `~TPtrBase`: the variable is gone, no other one changes, and its target is let go. */
  lemma {:induction false} EndPtrEffect(s: State, p: PtrId)
    requires Inv(s) && Enabled(s, EndPtr(p))
    ensures var t := Perform(s, EndPtr(p));
            && t.cells == s.cells - {p} && t.spent == s.spent && Live(s, s.cells[p].target)
            && t.stack == LetGo(s, p, {}) && SameRest(s, t, t.stack) && Inv(t)
  {
    hide InvOwing, Holders, IsInvalid, IsInvalidating, ReleaseOn, OnlyHandle, NoHandle;
    var u, c := s.(cells := s.cells - {p}), s.cells[p];
    PerformKeeps(s, EndPtr(p));
    QuietSpent(s, u);
    LinkTarget(s, p);
    DetachKeeps(s, u, p);
    if c.target.Some? {
      ReleaseStarts(u, c.target.value, c.kind);
      WithoutHandle(s, u, p);
      assert SpentIn(u, c.target.value) == {};
    }
  }

  /** `Extract`: the variable is null, no other one changes, and nothing is destroyed, whatever was its target. */
  lemma {:induction false} ExtractEffect(s: State, p: PtrId)
    requires Inv(s) && Enabled(s, Extract(p))
    ensures var t := Perform(s, Extract(p));
            && t.cells == s.cells[p := Cell(s.cells[p].kind, s.cells[p].owner, None)]
            && t.spent == s.spent && t.stack == [] && SameRest(s, t, []) && Inv(t)
  {
    hide InvOwing, Count, IsInvalid, IsInvalidating, Dec;
    var c := s.cells[p];
    var u := s.(cells := s.cells[p := c.(target := None)]);
    PerformKeeps(s, Extract(p));
    QuietSpent(s, u);
    LinkTarget(s, p);
    DetachKeeps(s, u, p);
    if c.target.Some? {
      OwedIsHeld(u, c.target.value, c.kind);
      DecRefines(s.objs[c.target.value], c.kind);
    }
  }

  /** A new pointer variable has its target, no other one changes, and nothing is destroyed. */
  lemma {:induction false} NewPtrEffect(s: State, p: PtrId, k: Kind, owner: Owner, target: Option<ObjId>)
    requires Inv(s) && Enabled(s, NewPtr(p, k, owner, target))
    ensures var t := Perform(s, NewPtr(p, k, owner, target));
            && p !in s.cells && t.cells == s.cells[p := Cell(k, owner, target)]
            && t.spent == s.spent && t.stack == [] && SameRest(s, t, []) && Inv(t)
  {
    hide InvOwing, Count, Limit, IsInvalid, IsInvalidating, Add;
    PerformKeeps(s, NewPtr(p, k, owner, target));
    if target.Some? {
      RoomBelowLimit(s, target.value, k);
      AddRefines(s.objs[target.value], k);
    }
  }

  lemma {:induction false} HeldCount(s: State, p: PtrId)
    requires Inv(s) && p in s.cells && s.cells[p].target.Some?
    ensures s.cells[p].target.value in s.objs && Count(s.objs[s.cells[p].target.value], s.cells[p].kind) > 0
  {
    hide Count, IsInvalidating, RoomOk, FramesOk, SpentOk, ChainOk;
    var y, k := s.cells[p].target.value, s.cells[p].kind;
    assert Live(s, s.cells[p].target);
    assert Count(s.objs[y], k) == Due(s, None, k, y);
    assert p in Holders(s, k, y);
    assert |Holders(s, k, y)| >= 1;
  }

  lemma {:induction false} CountOfKind(c: Counters, k: Kind)
    ensures Count(c, k) == if k == Ref then c.refData else if k == MObj then MObjBits(c.objData) else ObjBits(c.objData)
  {
  }

  lemma {:induction false} AddThenRelease(c: Counters, k: Kind)
    requires 0 < Count(c, k) < Limit(k)
    ensures Release(Add(c, k), k) == (c, Nothing)
  {
    hide Count;
    assert Dec(Add(c, k), k) == c;
    CountOfKind(c, k);
  }

  /** Assigning a pointer its own target changes nothing at all. */
  lemma {:induction false} SelfAssignment(s: State, p: PtrId)
    requires Inv(s) && p in s.cells && Enabled(s, SetPtr(p, s.cells[p].target))
    ensures Perform(s, SetPtr(p, s.cells[p].target)) == s
  {
    hide InvOwing, Count, Limit, Holders;
    var c := s.cells[p];
    assert s.cells[p := c.(target := c.target)] == s.cells;
    if c.target.Some? {
      var y := c.target.value;
      RoomBelowLimit(s, y, c.kind);
      HeldCount(s, p);
      AddThenRelease(s.objs[y], c.kind);
      assert s.objs[y := s.objs[y]] == s.objs;
    }
  }

  lemma {:induction false} Reassigned(s: State, p: PtrId, target: Option<ObjId>)
    requires Inv(s) && Enabled(s, SetPtr(p, target)) && target != s.cells[p].target
    ensures var t := Perform(s, SetPtr(p, target));
            && t.cells == s.cells[p := Cell(s.cells[p].kind, s.cells[p].owner, target)]
            && t.spent == s.spent && Live(s, s.cells[p].target)
            && t.stack == LetGo(s, p, {}) && SameRest(s, t, t.stack)
  {
    hide InvOwing, Holders, IsInvalid, IsInvalidating, ReleaseOn, OnlyHandle, NoHandle, Add, HasRoom, Count, Limit;
    var k, pOld := s.cells[p].kind, s.cells[p].target;
    var owed := if pOld.None? then None else Some((pOld.value, k));
    var t := s.(cells := s.cells[p := s.cells[p].(target := target)]);
    assert t.cells - {p} == s.cells - {p};
    var u := if target.None? then t else AddOn(t, target.value, k);
    QuietSpent(s, u);
    LinkTarget(s, p);
    if target.None? {
      DetachKeeps(s, t, p);
    } else {
      AddKeeps(s, u, p, target.value, owed);
      RoomBelowLimit(s, target.value, k);
      AddRefines(s.objs[target.value], k);
    }
    if pOld.Some? {
      ReleaseStarts(u, pOld.value, k);
      WithoutHandle(s, u, p);
      assert SpentIn(u, pOld.value) == {};
    }
  }

  /** `SetObject`: the variable has the new target, no other one changes, and the old target is let go. */
  lemma {:induction false} AssignEffect(s: State, p: PtrId, target: Option<ObjId>)
    requires Inv(s) && Enabled(s, SetPtr(p, target))
    ensures var t := Perform(s, SetPtr(p, target));
            && t.cells == s.cells[p := Cell(s.cells[p].kind, s.cells[p].owner, target)]
            && t.spent == s.spent && Live(s, s.cells[p].target)
            && t.stack == (if target == s.cells[p].target then [] else LetGo(s, p, {}))
            && SameRest(s, t, t.stack) && Inv(t) && (target == s.cells[p].target ==> t == s)
  {
    hide InvOwing, Holders, IsInvalid, ReleaseOn, OnlyHandle, NoHandle, Add, HasRoom, LetGo;
    var c := s.cells[p];
    PerformKeeps(s, SetPtr(p, target));
    if target == c.target {
      SelfAssignment(s, p);
      assert c == Cell(c.kind, c.owner, target);
    } else {
      Reassigned(s, p, target);
    }
  }

  // ----- Steps of a destruction -----

  lemma {:induction false} Parts(s: State)
    requires Inv(s)
    ensures SpentOk(s) && ChainOk(s) && FramesOk(s)
  {
  }

  /** A member goes: no other pointer variable changes, and its target is let go in a call inside the one in progress. */
  lemma {:induction false} DropEffect(s: State, p: PtrId)
    requires Inv(s) && s.stack != [] && MemberOf(s, p, Top(s).obj)
    ensures var t := DropMember(s, p);
            && t.cells == s.cells - {p} && t.spent == s.spent[p := s.cells[p]] && Live(s, s.cells[p].target)
            && exists again :: t.stack == s.stack + LetGo(s, p, again) && SameRest(s, t, LetGo(s, p, again))
  {
    hide InvOwing, Holders, IsInvalid, IsInvalidating, ReleaseOn, OnlyHandle, NoHandle, SpentIn;
    var u, c := s.(cells := s.cells - {p}, spent := s.spent[p := s.cells[p]]), s.cells[p];
    LinkTarget(s, p);
    Parts(s);
    PutAside(s, p);
    DetachKeeps(s, u, p);
    if c.target.Some? {
      ReleaseStarts(u, c.target.value, c.kind);
      WithoutHandle(s, u, p);
      assert Released(u, c.target.value, c.kind) == LetGo(s, p, SpentIn(u, c.target.value));
    } else {
      assert DropMember(s, p).stack == s.stack + LetGo(s, p, {});
    }
  }

  lemma {:induction false} TopIsLive(s: State)
    requires Inv(s) && s.stack != []
    ensures Top(s).obj in s.objs && (Top(s).why.Clearing? ==> Count(s.objs[Top(s).obj], Ref) > 0)
  {
    hide Count, IsInvalidating, IsInvalid;
    var x := Top(s).obj;
    assert FrameOk(s, |s.stack| - 1);
    assert Count(s.objs[x], Ref) == Due(s, None, Ref, x);
  }

  lemma {:induction false} LastReference(s: State, x: ObjId)
    requires Inv(s) && x in s.objs && IsInvalidating(s.objs[x]) && !BeingCleared(s, x)
    ensures Count(s.objs[x], Ref) == 1 && Count(s.objs[x], Obj) == 0 && Count(s.objs[x], MObj) == 0 <==> NoHandle(s, x)
  {
    hide Count, IsInvalidating, Holders;
    assert Count(s.objs[x], Ref) == Due(s, None, Ref, x);
    assert Count(s.objs[x], Obj) == Due(s, None, Obj, x);
    assert Count(s.objs[x], MObj) == Due(s, None, MObj, x);
    if Holders(s, Ref, x) == {} && Holders(s, Obj, x) == {} && Holders(s, MObj, x) == {} {
      forall j ensures Holders(s, j, x) == {} {
        match j
        case Ref =>
        case Obj =>
        case MObj =>
      }
    }
  }

  /** A destructor returns: a `Clear` is over; an object that has been invalidated is deleted next if no handle is left on
      it; an object that is being deleted is gone. */
  lemma {:induction false} ReturnEffect(s: State)
    requires Inv(s) && s.stack != [] && Emptied(s)
    ensures Top(s).obj in s.objs
    ensures var t, x, below := FinishFrame(s), Top(s).obj, s.stack[..|s.stack| - 1];
            && t.cells == s.cells && t.spent == s.spent - SpentIn(s, x) && t.crashed == s.crashed
            && match Top(s).why
               case Clearing => t.stack == below && SameRest(s, t, [])
               case Invalidating(_) =>
                 t.stack == below + (if NoHandle(s, x) then [Frame(x, Deleting, {})] else []) && SameRest(s, t, [])
               case Deleting => t.stack == below && t.objs == s.objs - {x} && t.deleted == s.deleted + {x}
  {
    hide InvOwing, IsInvalid, IsInvalidating, Count, FinishInvalidation, Dec, SpentIn, NoHandle, HasCellInside;
    var x := Top(s).obj;
    TopIsLive(s);
    match Top(s).why
    case Clearing =>
      DecRefines(s.objs[x], Ref);
    case Invalidating(_) =>
      InvalidationHolds(s);
      FinishRefines(s.objs[x]);
      LastReference(s, x);
    case Deleting =>
  }
}
