/**
  The heap of reference-counted objects of `ysafeptr`: objects with their packed counters, pointer variables of
  the three kinds inside and outside of objects, and the call stack of destructions in progress.

  The source runs a release as nested calls: a release may destroy the contents of an object, which releases
  the pointers inside it, and so on. Here each call in progress is a frame, and one step does one pointer or
  returns from one call. The order in which a destructor treats the pointers inside an object is left open.

  The destructor of a pointer does not reset it, so a member that has been released still shows its target until the
  destructor of its object has returned. A second destruction of the same object that starts before that releases
  such members again.
 */
module SafePtr {
  import opened PackedCounters
  import opened Wrappers

  type ObjId = nat
  type PtrId = nat

  datatype Owner = Outside | Inside(obj: ObjId)

  /** A pointer variable of one of the three kinds; `target` is None when it is null. */
  datatype Cell = Cell(kind: Kind, owner: Owner, target: Option<ObjId>)

  /** Why the contents of an object are being destroyed: `Clear`, the loss of its last owner of a kind, or `delete`. */
  datatype Why = Clearing | Invalidating(kind: Kind) | Deleting

  /** A destruction in progress; `again` are the members it has to release although they were released before. */
  datatype Frame = Frame(obj: ObjId, why: Why, again: set<PtrId>)

  /** `spent` are the members that have been released by a destructor that has not returned yet; `crashed` says that
      a deleted object has been touched. */
  datatype State = State(
    objs: map<ObjId, Counters>,
    cells: map<PtrId, Cell>,
    spent: map<PtrId, Cell>,
    stack: seq<Frame>,
    deleted: set<ObjId>,
    crashed: bool)

  // ----- Steps -----

  function SpentIn(s: State, x: ObjId): set<PtrId> {
    set p | p in s.spent && s.spent[p].owner == Inside(x)
  }

  /** The release of a handle of kind `k` on object `y`, up to the destruction that it starts. */
  function ReleaseOn(s: State, y: ObjId, k: Kind): State {
    if y !in s.objs then s.(crashed := true) else
    var (d, e) := Release(s.objs[y], k);
    var t := s.(objs := s.objs[y := d]);
    match e
    case Nothing => t
    case Delete => t.(stack := s.stack + [Frame(y, Deleting, SpentIn(s, y))])
    case Invalidate => t.(stack := s.stack + [Frame(y, Invalidating(k), SpentIn(s, y))])
  }

  function ReleaseTarget(s: State, c: Cell): State {
    if c.target.None? then s else ReleaseOn(s, c.target.value, c.kind)
  }

  /** The end of a pointer variable: `~TPtrBase`. An element of a container is taken out of it first. */
  function EndCell(s: State, p: PtrId): State
    requires p in s.cells
  {
    ReleaseTarget(s.(cells := s.cells - {p}), s.cells[p])
  }

  /** The same for a member of an object that is being destroyed: it keeps showing its target. */
  function DropMember(s: State, p: PtrId): State
    requires p in s.cells
  {
    ReleaseTarget(s.(cells := s.cells - {p}, spent := s.spent[p := s.cells[p]]), s.cells[p])
  }

  function AddOn(s: State, x: ObjId, k: Kind): State
    requires x in s.objs
  {
    s.(objs := s.objs[x := Add(s.objs[x], k)])
  }

  /** `SetObject`: the new target is counted before the old one is released. */
  function Assign(s: State, p: PtrId, target: Option<ObjId>): State
    requires p in s.cells && (target.Some? ==> target.value in s.objs)
  {
    var k, pOld := s.cells[p].kind, s.cells[p].target;
    var t := s.(cells := s.cells[p := s.cells[p].(target := target)]);
    var u := if target.None? then t else AddOn(t, target.value, k);
    if pOld.None? then u else ReleaseOn(u, pOld.value, k)
  }

  function Top(s: State): Frame
    requires s.stack != []
  {
    s.stack[|s.stack| - 1]
  }

  function Pop(s: State): State
    requires s.stack != []
  {
    s.(stack := s.stack[..|s.stack| - 1])
  }

  /** A member that was released before is released a second time, if it still shows a target. */
  function DropAgain(s: State, p: PtrId): State
    requires s.stack != []
  {
    var f := Top(s);
    var t := Pop(s).(stack := Pop(s).stack + [f.(again := f.again - {p})]);
    if p in s.spent then ReleaseTarget(t, s.spent[p]) else t
  }

  /** The contents of the object of the top frame are gone: its members show no targets any more. */
  function FinishFrame(s: State): State
    requires s.stack != [] && Top(s).obj in s.objs
  {
    var x := Top(s).obj;
    var u := Pop(s).(spent := s.spent - SpentIn(s, x));
    match Top(s).why
    case Clearing =>
      u.(objs := s.objs[x := Dec(s.objs[x], Ref)])
    case Invalidating(_) =>
      var (d, e) := FinishInvalidation(s.objs[x]);
      var t := u.(objs := s.objs[x := d]);
      if e == Delete then t.(stack := t.stack + [Frame(x, Deleting, {})]) else t
    case Deleting =>
      u.(objs := s.objs - {x}, deleted := s.deleted + {x})
  }

  ghost predicate MemberOf(s: State, p: PtrId, x: ObjId) {
    p in s.cells && s.cells[p].owner == Inside(x)
  }

  ghost predicate HasCellInside(s: State, x: ObjId) {
    exists p :: MemberOf(s, p, x)
  }

  ghost predicate Live(s: State, target: Option<ObjId>) {
    target.Some? ==> target.value in s.objs
  }

  /** The destructor of the top frame has come to its end. */
  ghost predicate Emptied(s: State)
    requires s.stack != []
  {
    !HasCellInside(s, Top(s).obj) && Top(s).again == {}
  }

  /** A step of the destruction in progress. */
  ghost predicate DestroyStep(s: State, t: State) {
    && !s.crashed && s.stack != []
    && if Top(s).obj !in s.objs then t == s.(crashed := true) else
       || (exists p :: MemberOf(s, p, Top(s).obj) && t == DropMember(s, p))
       || (exists p :: p in Top(s).again && t == DropAgain(s, p))
       || (Emptied(s) && t == FinishFrame(s))
  }

  /** What a program does between destructions. A handle is only added while its counter has room. */
  datatype Action =
    | NewObject(x: ObjId)
    | NewPtr(p: PtrId, kind: Kind, owner: Owner, target: Option<ObjId>)
    | SetPtr(p: PtrId, target: Option<ObjId>)
    | EndPtr(p: PtrId)
    | Extract(p: PtrId)
    | Clear(x: ObjId)

  ghost predicate HasRoom(s: State, x: ObjId, k: Kind)
    requires x in s.objs
  {
    Count(s.objs[x], k) < if k == Ref then Limit(k) - 3 else Limit(k)
  }

  ghost predicate Enabled(s: State, a: Action) {
    && !s.crashed && s.stack == []
    && match a
       case NewObject(x) => x !in s.objs && x !in s.deleted
       case NewPtr(p, k, owner, target) =>
         && p !in s.cells && (owner.Inside? ==> owner.obj in s.objs)
         && Live(s, target) && (target.Some? ==> HasRoom(s, target.value, k))
       case SetPtr(p, target) =>
         p in s.cells && Live(s, target)
         && (target.Some? ==> HasRoom(s, target.value, s.cells[p].kind))
       case EndPtr(p) => p in s.cells
       case Extract(p) => p in s.cells
       case Clear(x) => x in s.objs
  }

  function Perform(s: State, a: Action): State
    requires Enabled(s, a)
  {
    match a
    case NewObject(x) => s.(objs := s.objs[x := Counters(0, 0)])
    case NewPtr(p, k, owner, target) =>
      var t := s.(cells := s.cells[p := Cell(k, owner, target)]);
      if target.None? then t else AddOn(t, target.value, k)
    case SetPtr(p, target) => Assign(s, p, target)
    case EndPtr(p) => EndCell(s, p)
    case Extract(p) =>
      var c := s.cells[p];
      var t := s.(cells := s.cells[p := c.(target := None)]);
      if c.target.None? then t
      else if c.target.value !in s.objs then t.(crashed := true)
      else t.(objs := s.objs[c.target.value := Dec(s.objs[c.target.value], c.kind)])
    case Clear(x) => AddOn(s, x, Ref).(stack := [Frame(x, Clearing, {})])
  }

  ghost predicate ActionStep(s: State, t: State) {
    exists a :: Enabled(s, a) && t == Perform(s, a)
  }

  ghost predicate Step(s: State, t: State) {
    DestroyStep(s, t) || ActionStep(s, t)
  }

  // ----- What every step keeps -----

  /** The handles of kind `k` on object `x`. */
  ghost function Holders(s: State, k: Kind, x: ObjId): set<PtrId> {
    set p | p in s.cells && s.cells[p].kind == k && s.cells[p].target == Some(x)
  }

  ghost predicate BeingCleared(s: State, x: ObjId) {
    s.stack != [] && s.stack[0].obj == x && s.stack[0].why.Clearing?
  }

  /** One reference is held for a Clear in progress and one for an invalidation in progress. */
  ghost function Pins(s: State, x: ObjId): int
    requires x in s.objs
  {
    (if BeingCleared(s, x) then 1 else 0) + (if IsInvalidating(s.objs[x]) then 1 else 0)
  }

  /** A handle that is gone but has not been released yet. */
  type Owed = Option<(ObjId, Kind)>

  ghost function Due(s: State, owed: Owed, k: Kind, x: ObjId): int
    requires x in s.objs
  {
    |Holders(s, k, x)| + (if k == Ref then Pins(s, x) else 0) + (if owed == Some((x, k)) then 1 else 0)
  }

  /** Every counter of every object counts its handles. */
  ghost predicate CountsOk(s: State, owed: Owed) {
    forall x, k :: x in s.objs ==> Count(s.objs[x], k) == Due(s, owed, k, x)
  }

  ghost predicate RoomOk(s: State) {
    forall x :: x in s.objs ==> Count(s.objs[x], Ref) <= Limit(Ref) - 3 + Pins(s, x)
  }

  /** Pointers lead to objects that have not been deleted, and lie in such objects. */
  ghost predicate LinksOk(s: State) {
    && (forall p :: p in s.cells ==> Live(s, s.cells[p].target))
    && (forall p :: p in s.cells && s.cells[p].owner.Inside? ==> s.cells[p].owner.obj in s.objs)
    && s.objs.Keys !! s.deleted
  }

  ghost predicate FrameOk(s: State, i: nat)
    requires i < |s.stack|
  {
    var f := s.stack[i];
    && f.obj in s.objs && f.again == {}
    && match f.why
       case Clearing => i == 0
       case Invalidating(k) => k != Ref && Count(s.objs[f.obj], k) == 0 && IsInvalidating(s.objs[f.obj]) && IsInvalid(s.objs[f.obj])
       case Deleting => AllZero(s.objs[f.obj])
  }

  ghost predicate InvalidatingFrame(s: State, i: nat, x: ObjId) {
    i < |s.stack| && s.stack[i].obj == x && s.stack[i].why.Invalidating?
  }

  /** Two destructions of one object are in progress. */
  ghost predicate Overlap(s: State) {
    exists i, j :: 0 <= i < j < |s.stack| && s.stack[i].obj == s.stack[j].obj
  }

  ghost predicate FramesOk(s: State) {
    && (forall i :: 0 <= i < |s.stack| ==> FrameOk(s, i))
    && !Overlap(s)
    && (forall x :: x in s.objs && IsInvalidating(s.objs[x]) ==> exists i :: InvalidatingFrame(s, i, x))
  }

  ghost predicate HasFrame(s: State, x: ObjId) {
    exists i :: 0 <= i < |s.stack| && s.stack[i].obj == x
  }

  /** A released member of `x` that shows a target. */
  ghost predicate ShowsTarget(s: State, p: PtrId, x: ObjId) {
    p in s.spent && s.spent[p].owner == Inside(x) && s.spent[p].target.Some?
  }

  ghost predicate HasShown(s: State, x: ObjId) {
    exists p: PtrId :: ShowsTarget(s, p, x)
  }

  /** Released members lie in objects that are being destroyed. */
  ghost predicate SpentOk(s: State) {
    && s.spent.Keys !! s.cells.Keys
    && (forall p :: p in s.spent ==> s.spent[p].owner.Inside? && HasFrame(s, s.spent[p].owner.obj))
  }

  /** Every destruction but the last has started the next one by releasing a member. */
  ghost predicate ChainOk(s: State) {
    forall i :: 0 <= i < |s.stack| - 1 ==> HasShown(s, s.stack[i].obj)
  }

  /** A destruction that starts now is started by a member of the object being destroyed. */
  ghost predicate Starting(s: State) {
    s.stack != [] ==> HasShown(s, Top(s).obj)
  }

  ghost predicate InvOwing(s: State, owed: Owed) {
    CountsOk(s, owed) && RoomOk(s) && LinksOk(s) && FramesOk(s) && SpentOk(s) && ChainOk(s) && !s.crashed
  }

  ghost predicate Inv(s: State) {
    InvOwing(s, None)
  }

  // ----- Releases -----

  /** A handle is owed, so its object is not being deleted, and the counter to lower is positive. */
  lemma {:induction false} OwedIsHeld(s: State, y: ObjId, k: Kind)
    requires InvOwing(s, Some((y, k))) && y in s.objs
    ensures Count(s.objs[y], k) > 0 && Count(s.objs[y], Ref) < Limit(Ref)
    ensures forall i :: 0 <= i < |s.stack| && s.stack[i].obj == y ==> !s.stack[i].why.Deleting?
  {
    hide Count, IsInvalidating, IsInvalid;
    assert Count(s.objs[y], k) == Due(s, Some((y, k)), k, y);
    forall i | 0 <= i < |s.stack| && s.stack[i].obj == y ensures !s.stack[i].why.Deleting? {
      assert FrameOk(s, i);
    }
  }

  lemma {:induction false} SameCellsSameHolders(s: State, t: State, k: Kind, x: ObjId)
    requires s.cells == t.cells
    ensures Holders(s, k, x) == Holders(t, k, x)
  {
  }

  lemma {:induction false} ReleaseCounts(s: State, y: ObjId, k: Kind)
    requires InvOwing(s, Some((y, k))) && y in s.objs
    ensures CountsOk(ReleaseOn(s, y, k), None)
  {
    hide Count, IsInvalidating, IsInvalid, Release, AllZero, FramesOk, LinksOk, RoomOk, Limit;
    OwedIsHeld(s, y, k);
    ReleaseRefines(s.objs[y], k);
    var t := ReleaseOn(s, y, k);
    assert forall x :: BeingCleared(t, x) == BeingCleared(s, x);
    forall x, j | x in t.objs ensures Count(t.objs[x], j) == Due(t, None, j, x) {
      assert Count(s.objs[x], j) == Due(s, Some((y, k)), j, x);
      SameCellsSameHolders(s, t, j, x);
    }
  }

  lemma {:induction false} ReleaseRoom(s: State, y: ObjId, k: Kind)
    requires InvOwing(s, Some((y, k))) && y in s.objs
    ensures RoomOk(ReleaseOn(s, y, k))
  {
    hide Count, IsInvalidating, IsInvalid, Release, AllZero, FramesOk, LinksOk, CountsOk;
    OwedIsHeld(s, y, k);
    ReleaseRefines(s.objs[y], k);
    var t := ReleaseOn(s, y, k);
    assert forall x :: BeingCleared(t, x) == BeingCleared(s, x);
    forall x | x in t.objs ensures Count(t.objs[x], Ref) <= Limit(Ref) - 3 + Pins(t, x) {
      assert Count(s.objs[x], Ref) <= Limit(Ref) - 3 + Pins(s, x);
    }
  }

  /** When nothing holds an object any more, no call is destroying its contents. */
  lemma {:induction false} UnheldHasNoFrame(s: State, y: ObjId, k: Kind)
    requires InvOwing(s, Some((y, k))) && y in s.objs && AllZero(Dec(s.objs[y], k))
    ensures forall i :: 0 <= i < |s.stack| ==> s.stack[i].obj != y
    ensures !IsInvalidating(s.objs[y])
  {
    hide IsInvalidating, IsInvalid, Dec, Count;
    OwedIsHeld(s, y, k);
    DecRefines(s.objs[y], k);
    assert Count(s.objs[y], Ref) == Due(s, Some((y, k)), Ref, y);
    assert k == Ref ==> Count(s.objs[y], k) == 1;
    forall i | 0 <= i < |s.stack| ensures s.stack[i].obj != y {
      assert FrameOk(s, i);
    }
  }

  /** No released member is left in an object whose destruction starts while no other is in progress. */
  lemma {:induction false} NothingSpent(s: State, y: ObjId)
    requires SpentOk(s) && !HasFrame(s, y)
    ensures SpentIn(s, y) == {}
  {
  }

  lemma {:induction false} ReleaseToZero(c: Counters, k: Kind)
    requires Count(c, k) > 0 && (k != Ref ==> Count(c, Ref) < Limit(Ref)) && Release(c, k).1 == Delete
    ensures AllZero(Release(c, k).0)
  {
    hide Count, Release, Dec;
    ReleaseRefines(c, k);
    DecRefines(c, k);
  }

  lemma {:induction false} ReleaseFrames(s: State, y: ObjId, k: Kind)
    requires InvOwing(s, Some((y, k))) && y in s.objs && !Overlap(ReleaseOn(s, y, k))
    ensures FramesOk(ReleaseOn(s, y, k))
  {
    hide Count, IsInvalidating, IsInvalid, Release, CountsOk, RoomOk, LinksOk, SpentOk, ChainOk, SpentIn;
    OwedIsHeld(s, y, k);
    ReleaseRefines(s.objs[y], k);
    var t := ReleaseOn(s, y, k);
    var (d, e) := Release(s.objs[y], k);
    if e == Delete {
      UnheldHasNoFrame(s, y, k);
      ReleaseToZero(s.objs[y], k);
    }
    if e != Nothing {
      assert t.stack[|s.stack|].obj == y;
      assert forall i :: 0 <= i < |s.stack| ==> t.stack[i] == s.stack[i];
      NothingSpent(s, y);
    }
    forall i | 0 <= i < |t.stack| ensures FrameOk(t, i) {
      if i < |s.stack| {
        assert FrameOk(s, i) && s.stack[i] == t.stack[i];
      }
    }
    assert forall i :: 0 <= i < |s.stack| && s.stack[i].obj == y && s.stack[i].why.Invalidating? ==> FrameOk(s, i);
    forall x | x in t.objs && IsInvalidating(t.objs[x]) ensures exists i :: InvalidatingFrame(t, i, x) {
      if e == Invalidate && x == y {
        assert InvalidatingFrame(t, |s.stack|, x);
      } else {
        var i :| InvalidatingFrame(s, i, x);
        assert InvalidatingFrame(t, i, x);
      }
    }
  }

  /** A release changes neither which objects exist nor which have been deleted. */
  lemma {:induction false} ReleaseObjects(s: State, c: Cell)
    ensures ReleaseTarget(s, c).objs.Keys == s.objs.Keys && ReleaseTarget(s, c).deleted == s.deleted
    ensures ReleaseTarget(s, c).cells == s.cells && ReleaseTarget(s, c).spent == s.spent && s.stack <= ReleaseTarget(s, c).stack
    ensures |ReleaseTarget(s, c).stack| <= |s.stack| + 1
  {
    hide Release, SpentIn;
  }

  /** Released members stay accounted for when their number does not grow and their objects stay on the stack. */
  lemma {:induction false} SpentCarries(s: State, t: State)
    requires SpentOk(s) && t.spent.Keys <= s.spent.Keys && t.cells.Keys <= s.cells.Keys
    requires forall p :: p in t.spent ==> t.spent[p] == s.spent[p] && HasFrame(t, s.spent[p].owner.obj)
    ensures SpentOk(t)
  {
  }

  lemma {:induction false} FrameStays(s: State, t: State, x: ObjId)
    requires s.stack <= t.stack && HasFrame(s, x)
    ensures HasFrame(t, x)
  {
    var i :| 0 <= i < |s.stack| && s.stack[i].obj == x;
    assert t.stack[i].obj == x;
  }

  lemma {:induction false} ShownStays(s: State, t: State, x: ObjId)
    requires HasShown(s, x) && forall p: PtrId :: ShowsTarget(s, p, x) ==> ShowsTarget(t, p, x)
    ensures HasShown(t, x)
  {
    var p: PtrId :| ShowsTarget(s, p, x);
    assert ShowsTarget(t, p, x);
  }

  lemma {:induction false} ShownSame(s: State, t: State, x: ObjId)
    requires t.spent == s.spent && HasShown(s, x)
    ensures HasShown(t, x)
  {
    ShownStays(s, t, x);
  }

  lemma {:induction false} ReleaseSpent(s: State, y: ObjId, k: Kind)
    requires SpentOk(s) && ChainOk(s) && Starting(s) && y in s.objs
    ensures SpentOk(ReleaseOn(s, y, k)) && ChainOk(ReleaseOn(s, y, k))
  {
    hide ReleaseOn, ShowsTarget, HasShown;
    var t := ReleaseOn(s, y, k);
    ReleaseObjects(s, Cell(k, Outside, Some(y)));
    forall x | HasShown(s, x) ensures HasShown(t, x) {
      ShownSame(s, t, x);
    }
    forall p | p in t.spent ensures HasFrame(t, s.spent[p].owner.obj) {
      FrameStays(s, t, s.spent[p].owner.obj);
    }
    SpentCarries(s, t);
    forall i | 0 <= i < |t.stack| - 1 ensures HasShown(t, t.stack[i].obj) {
      assert t.stack[i] == s.stack[i];
    }
  }

  lemma {:induction false} ReleaseKeeps(s: State, y: ObjId, k: Kind)
    requires InvOwing(s, Some((y, k))) && y in s.objs && Starting(s) && !Overlap(ReleaseOn(s, y, k))
    ensures Inv(ReleaseOn(s, y, k))
  {
    hide Count, IsInvalidating, IsInvalid, Release, CountsOk, RoomOk, FramesOk, SpentOk, ChainOk, Starting, Overlap;
    ReleaseCounts(s, y, k);
    ReleaseRoom(s, y, k);
    ReleaseFrames(s, y, k);
    ReleaseSpent(s, y, k);
    var t := ReleaseOn(s, y, k);
    assert t.objs.Keys == s.objs.Keys && t.cells == s.cells && t.deleted == s.deleted;
  }

  lemma {:induction false} SameBut(s: State, t: State, p: PtrId, q: PtrId)
    requires t.cells - {p} == s.cells - {p}
    ensures q != p ==> (q in s.cells <==> q in t.cells) && (q in s.cells ==> s.cells[q] == t.cells[q])
  {
    assert q in s.cells && q != p <==> q in s.cells - {p};
    assert q in t.cells && q != p <==> q in t.cells - {p};
    if q != p && q in s.cells {
      assert s.cells[q] == (s.cells - {p})[q] == (t.cells - {p})[q];
    }
  }

  /** Changing one pointer changes the handle count of its old and its new target only. */
  lemma {:induction false} HoldersAfterChange(s: State, t: State, p: PtrId, k: Kind, x: ObjId)
    requires t.cells - {p} == s.cells - {p}
    ensures var was := p in s.cells && s.cells[p].kind == k && s.cells[p].target == Some(x);
            var now := p in t.cells && t.cells[p].kind == k && t.cells[p].target == Some(x);
            |Holders(t, k, x)| == |Holders(s, k, x)| + (if now then 1 else 0) - (if was then 1 else 0)
  {
    var a, b := Holders(s, k, x), Holders(t, k, x);
    forall q ensures q in a - {p} <==> q in b - {p} {
      SameBut(s, t, p, q);
    }
    assert a - {p} == b - {p};
    assert |a| == |a - {p}| + if p in a then 1 else 0;
    assert |b| == |b - {p}| + if p in b then 1 else 0;
  }

  /** Only the pointers have changed: what the other parts of the invariant say is untouched. */
  lemma {:induction false} CellsOnly(s: State, t: State)
    requires RoomOk(s) && FramesOk(s)
    requires t.objs == s.objs && t.stack == s.stack
    ensures RoomOk(t) && FramesOk(t)
  {
    hide Count, IsInvalidating, IsInvalid;
    forall i | 0 <= i < |t.stack| ensures FrameOk(t, i) {
      assert FrameOk(s, i);
    }
    forall x | x in t.objs && IsInvalidating(t.objs[x]) ensures exists i :: InvalidatingFrame(t, i, x) {
      var i :| InvalidatingFrame(s, i, x);
      assert InvalidatingFrame(t, i, x);
    }
    forall x | x in t.objs ensures Count(t.objs[x], Ref) <= Limit(Ref) - 3 + Pins(t, x) {
      assert Pins(t, x) == Pins(s, x);
    }
  }

  /** A pointer goes away or becomes null: its handle is owed until it is released. */
  lemma {:induction false} DetachKeeps(s: State, t: State, p: PtrId)
    requires Inv(s) && p in s.cells && SpentOk(t) && ChainOk(t)
    requires t == s.(cells := t.cells, spent := t.spent)
    requires t.cells == s.cells - {p} || t.cells == s.cells[p := s.cells[p].(target := None)]
    ensures InvOwing(t, if s.cells[p].target.None? then None else Some((s.cells[p].target.value, s.cells[p].kind)))
  {
    hide Count, IsInvalidating, IsInvalid, RoomOk, FramesOk, SpentOk, ChainOk;
    CellsOnly(s, t);
    var owed := if s.cells[p].target.None? then None else Some((s.cells[p].target.value, s.cells[p].kind));
    assert t.cells - {p} == s.cells - {p};
    forall x, k | x in t.objs ensures Count(t.objs[x], k) == Due(t, owed, k, x) {
      assert Count(s.objs[x], k) == Due(s, None, k, x);
      HoldersAfterChange(s, t, p, k, x);
    }
  }

  /** Between destructions no member is left that has been released. */
  lemma {:induction false} QuietSpent(s: State, t: State)
    requires Inv(s) && s.stack == []
    ensures s.spent == map[]
    ensures t.spent == map[] && |t.stack| <= 1 ==> SpentOk(t) && ChainOk(t)
  {
    forall x ensures !HasFrame(s, x) {
    }
    assert s.spent.Keys == {};
  }

  lemma {:induction false} LinkTarget(s: State, p: PtrId)
    requires Inv(s) && p in s.cells
    ensures Live(s, s.cells[p].target) && (s.cells[p].owner.Inside? ==> s.cells[p].owner.obj in s.objs)
  {
  }

  lemma {:induction false} EndKeeps(s: State, p: PtrId)
    requires Inv(s) && p in s.cells && s.stack == []
    ensures Inv(EndCell(s, p))
  {
    hide InvOwing, Release, SpentIn;
    var u := s.(cells := s.cells - {p});
    QuietSpent(s, u);
    LinkTarget(s, p);
    DetachKeeps(s, u, p);
    if s.cells[p].target.Some? {
      ReleaseKeeps(u, s.cells[p].target.value, s.cells[p].kind);
    }
  }

  lemma {:induction false} SpentWithout(s: State, p: PtrId)
    requires SpentOk(s) && ChainOk(s)
    ensures var u := s.(cells := s.cells - {p}); SpentOk(u) && ChainOk(u)
  {
    var u := s.(cells := s.cells - {p});
    forall q | q in u.spent ensures HasFrame(u, s.spent[q].owner.obj) {
      FrameStays(s, u, s.spent[q].owner.obj);
    }
    SpentCarries(s, u);
    forall i | 0 <= i < |u.stack| - 1 ensures HasShown(u, u.stack[i].obj) {
      ShownStays(s, u, s.stack[i].obj);
    }
  }

  /** A member of the object being destroyed is put aside before its target is released. */
  lemma {:induction false} PutAside(s: State, p: PtrId)
    requires SpentOk(s) && ChainOk(s) && s.stack != [] && MemberOf(s, p, Top(s).obj)
    ensures var u := s.(cells := s.cells - {p}, spent := s.spent[p := s.cells[p]]);
            SpentOk(u) && ChainOk(u) && (s.cells[p].target.Some? ==> Starting(u) && ShowsTarget(u, p, Top(s).obj))
  {
    var u := s.(cells := s.cells - {p}, spent := s.spent[p := s.cells[p]]);
    forall q | q in u.spent ensures u.spent[q].owner.Inside? && HasFrame(u, u.spent[q].owner.obj) {
      if q == p {
        assert u.stack[|s.stack| - 1].obj == Top(s).obj;
      } else {
        FrameStays(s, u, s.spent[q].owner.obj);
      }
    }
    assert u.cells.Keys == s.cells.Keys - {p} && u.spent.Keys == s.spent.Keys + {p};
    forall i | 0 <= i < |u.stack| - 1 ensures HasShown(u, u.stack[i].obj) {
      ShownStays(s, u, s.stack[i].obj);
    }
    assert s.cells[p].target.Some? ==> ShowsTarget(u, p, Top(u).obj) && HasShown(u, Top(u).obj);
  }

  lemma {:induction false} DropKeeps(s: State, p: PtrId)
    requires Inv(s) && s.stack != [] && MemberOf(s, p, Top(s).obj) && !Overlap(DropMember(s, p))
    ensures Inv(DropMember(s, p))
  {
    hide CountsOk, RoomOk, LinksOk, FramesOk, SpentOk, ChainOk, Release, SpentIn, Overlap, Starting, ShowsTarget;
    var u := s.(cells := s.cells - {p}, spent := s.spent[p := s.cells[p]]);
    PutAside(s, p);
    LinkTarget(s, p);
    DetachKeeps(s, u, p);
    if s.cells[p].target.Some? {
      ReleaseKeeps(u, s.cells[p].target.value, s.cells[p].kind);
    }
  }

  // ----- Returning from a destruction -----

  /** What a return leaves of the stack and of the members. */
  lemma {:induction false} FinishParts(s: State)
    requires s.stack != [] && Top(s).obj in s.objs
    ensures var t := FinishFrame(s);
            && t.cells == s.cells && t.spent == s.spent - SpentIn(s, Top(s).obj)
            && |s.stack| - 1 <= |t.stack| <= |s.stack| && (forall i :: 0 <= i < |s.stack| - 1 ==> t.stack[i] == s.stack[i])
            && (|t.stack| == |s.stack| ==> Top(t).obj == Top(s).obj)
  {
    hide FinishInvalidation, Dec, SpentIn;
  }

  lemma {:induction false} NotSpentIn(s: State, x: ObjId, p: PtrId)
    requires p in s.spent && p !in SpentIn(s, x)
    ensures s.spent[p].owner != Inside(x)
  {
  }

  lemma {:induction false} ShownElsewhere(s: State, t: State, x: ObjId, y: ObjId)
    requires HasShown(s, y) && y != x && t.spent == s.spent - SpentIn(s, x)
    ensures HasShown(t, y)
  {
    ShownStays(s, t, y);
  }

  lemma {:induction false} FinishSpent(s: State)
    requires Inv(s) && s.stack != [] && Top(s).obj in s.objs
    ensures SpentOk(FinishFrame(s)) && ChainOk(FinishFrame(s))
  {
    hide FinishFrame, FrameOk, IsInvalidating, CountsOk, RoomOk, LinksOk, HasShown, SpentIn;
    var x, t, n := Top(s).obj, FinishFrame(s), |s.stack| - 1;
    FinishParts(s);
    forall p | p in t.spent ensures t.spent[p] == s.spent[p] && HasFrame(t, s.spent[p].owner.obj) {
      var i :| 0 <= i < |s.stack| && s.stack[i].obj == s.spent[p].owner.obj;
      NotSpentIn(s, x, p);
      assert t.stack[i].obj == s.spent[p].owner.obj;
    }
    SpentCarries(s, t);
    forall i | 0 <= i < |t.stack| - 1 ensures HasShown(t, t.stack[i].obj) {
      assert s.stack[i].obj != s.stack[n].obj;
      ShownElsewhere(s, t, x, s.stack[i].obj);
    }
  }

  lemma {:induction false} FinishClear(s: State)
    requires Inv(s) && s.stack != [] && Top(s).why.Clearing? && Top(s).obj in s.objs
    ensures Inv(FinishFrame(s))
  {
    hide Count, IsInvalidating, IsInvalid, Dec, SpentOk, ChainOk, SpentIn;
    FinishSpent(s);
    var x, t := Top(s).obj, FinishFrame(s);
    assert FrameOk(s, |s.stack| - 1);
    assert |s.stack| == 1 && t.stack == [];
    assert Count(s.objs[x], Ref) == Due(s, None, Ref, x);
    DecRefines(s.objs[x], Ref);
    forall y, k | y in t.objs ensures Count(t.objs[y], k) == Due(t, None, k, y) {
      assert Count(s.objs[y], k) == Due(s, None, k, y);
      SameCellsSameHolders(s, t, k, y);
    }
    forall y | y in s.objs ensures !IsInvalidating(s.objs[y]) {
      assert forall i :: !InvalidatingFrame(s, i, y);
    }
  }

  lemma {:induction false} DeleteRoom(s: State)
    requires Inv(s) && s.stack != [] && Top(s).why.Deleting? && Top(s).obj in s.objs
    ensures RoomOk(FinishFrame(s))
  {
    hide Count, IsInvalidating, IsInvalid, CountsOk, LinksOk, FramesOk;
    var t := FinishFrame(s);
    forall y | y in t.objs ensures Count(t.objs[y], Ref) <= Limit(Ref) - 3 + Pins(t, y) {
      assert Count(s.objs[y], Ref) <= Limit(Ref) - 3 + Pins(s, y);
      assert BeingCleared(s, y) == BeingCleared(t, y);
    }
  }

  /** Nothing points at an object that is deleted. */
  lemma {:induction false} DeleteLinks(s: State)
    requires Inv(s) && s.stack != [] && Top(s).why.Deleting? && Top(s).obj in s.objs && !HasCellInside(s, Top(s).obj)
    ensures LinksOk(FinishFrame(s))
  {
    hide Count, IsInvalidating, IsInvalid, RoomOk;
    var x, t := Top(s).obj, FinishFrame(s);
    assert FrameOk(s, |s.stack| - 1);
    forall p | p in t.cells ensures Live(t, t.cells[p].target) {
      var k := s.cells[p].kind;
      assert Count(s.objs[x], k) == Due(s, None, k, x);
      assert Holders(s, k, x) == {};
      assert s.cells[p].target == Some(x) <==> p in Holders(s, k, x);
    }
    forall p | p in t.cells && t.cells[p].owner.Inside? ensures t.cells[p].owner.obj in t.objs {
      assert !MemberOf(s, p, x);
    }
  }

  lemma {:induction false} DeleteFrames(s: State)
    requires FramesOk(s) && s.stack != [] && Top(s).why.Deleting? && Top(s).obj in s.objs
    ensures FramesOk(FinishFrame(s))
  {
    hide Count, IsInvalidating, IsInvalid;
    var x, t := Top(s).obj, FinishFrame(s);
    var n := |s.stack| - 1;
    forall i | 0 <= i < |t.stack| ensures FrameOk(t, i) {
      assert FrameOk(s, i) && s.stack[i].obj != s.stack[n].obj;
    }
    forall y | y in t.objs && IsInvalidating(t.objs[y]) ensures exists i :: InvalidatingFrame(t, i, y) {
      var i :| InvalidatingFrame(s, i, y);
      assert InvalidatingFrame(t, i, y);
    }
  }

  lemma {:induction false} FinishDelete(s: State)
    requires Inv(s) && s.stack != [] && Top(s).why.Deleting? && Top(s).obj in s.objs && !HasCellInside(s, Top(s).obj)
    ensures Inv(FinishFrame(s))
  {
    hide Count, IsInvalidating, IsInvalid, SpentOk, ChainOk, SpentIn;
    FinishSpent(s);
    var x, t := Top(s).obj, FinishFrame(s);
    var n := |s.stack| - 1;
    assert FrameOk(s, n);
    assert n > 0 ==> s.stack[0].obj != s.stack[n].obj;
    forall y, k | y in t.objs ensures Count(t.objs[y], k) == Due(t, None, k, y) {
      assert Count(s.objs[y], k) == Due(s, None, k, y);
      SameCellsSameHolders(s, t, k, y);
      assert BeingCleared(s, y) == BeingCleared(t, y);
    }
    DeleteRoom(s);
    DeleteLinks(s);
    DeleteFrames(s);
  }

  /** The invalidation that ends still holds its own reference. */
  lemma {:induction false} InvalidationHolds(s: State)
    requires Inv(s) && s.stack != [] && Top(s).why.Invalidating? && Top(s).obj in s.objs
    ensures Count(s.objs[Top(s).obj], Ref) > 0 && IsInvalidating(s.objs[Top(s).obj])
    ensures !BeingCleared(s, Top(s).obj)
    ensures forall x :: BeingCleared(FinishFrame(s), x) == BeingCleared(s, x)
  {
    hide Count, IsInvalidating, IsInvalid, FinishInvalidation;
    var x := Top(s).obj;
    assert FrameOk(s, |s.stack| - 1);
    assert Count(s.objs[x], Ref) == Due(s, None, Ref, x);
  }

  lemma {:induction false} InvalidateCounts(s: State)
    requires Inv(s) && s.stack != [] && Top(s).why.Invalidating? && Top(s).obj in s.objs
    ensures CountsOk(FinishFrame(s), None)
  {
    hide Count, IsInvalidating, IsInvalid, FinishInvalidation, RoomOk, FramesOk, BeingCleared;
    var t := FinishFrame(s);
    InvalidationHolds(s);
    FinishRefines(s.objs[Top(s).obj]);
    forall y, k | y in t.objs ensures Count(t.objs[y], k) == Due(t, None, k, y) {
      assert Count(s.objs[y], k) == Due(s, None, k, y);
      SameCellsSameHolders(s, t, k, y);
    }
  }

  lemma {:induction false} InvalidateRoom(s: State)
    requires Inv(s) && s.stack != [] && Top(s).why.Invalidating? && Top(s).obj in s.objs
    ensures RoomOk(FinishFrame(s))
  {
    hide Count, IsInvalidating, IsInvalid, FinishInvalidation, CountsOk, FramesOk, BeingCleared;
    var t := FinishFrame(s);
    InvalidationHolds(s);
    FinishRefines(s.objs[Top(s).obj]);
    forall y | y in t.objs ensures Count(t.objs[y], Ref) <= Limit(Ref) - 3 + Pins(t, y) {
      assert Count(s.objs[y], Ref) <= Limit(Ref) - 3 + Pins(s, y);
    }
  }

  lemma {:induction false} InvalidatedFrame(s: State, i: nat)
    requires Inv(s) && s.stack != [] && Top(s).why.Invalidating? && Top(s).obj in s.objs && i < |FinishFrame(s).stack|
    ensures FrameOk(FinishFrame(s), i)
  {
    hide Count, IsInvalidating, IsInvalid, FinishInvalidation, CountsOk, RoomOk, LinksOk, SpentOk, ChainOk, SpentIn;
    InvalidationHolds(s);
    FinishRefines(s.objs[Top(s).obj]);
    if i < |s.stack| - 1 {
      assert FrameOk(s, i) && s.stack[i].obj != s.stack[|s.stack| - 1].obj;
    }
  }

  lemma {:induction false} InvalidatedFlag(s: State, y: ObjId)
    requires Inv(s) && s.stack != [] && Top(s).why.Invalidating? && Top(s).obj in s.objs
    requires y in FinishFrame(s).objs && IsInvalidating(FinishFrame(s).objs[y])
    ensures y != Top(s).obj && y in s.objs && IsInvalidating(s.objs[y])
  {
    hide Count, IsInvalidating, IsInvalid, FinishInvalidation, CountsOk, RoomOk, LinksOk, SpentOk, ChainOk, SpentIn;
    InvalidationHolds(s);
    FinishRefines(s.objs[Top(s).obj]);
  }

  lemma {:induction false} InvalidateFrames(s: State)
    requires Inv(s) && s.stack != [] && Top(s).why.Invalidating? && Top(s).obj in s.objs
    ensures FramesOk(FinishFrame(s))
  {
    hide Count, IsInvalidating, IsInvalid, FinishFrame, FinishInvalidation, CountsOk, RoomOk, LinksOk, SpentOk, ChainOk, FrameOk, SpentIn;
    var x, t, n := Top(s).obj, FinishFrame(s), |s.stack| - 1;
    FinishParts(s);
    assert forall i :: 0 <= i < n ==> s.stack[i].obj != s.stack[n].obj;
    forall i | 0 <= i < |t.stack| ensures FrameOk(t, i) {
      InvalidatedFrame(s, i);
    }
    forall y | y in t.objs && IsInvalidating(t.objs[y]) ensures exists i :: InvalidatingFrame(t, i, y) {
      InvalidatedFlag(s, y);
      var i: nat :| InvalidatingFrame(s, i, y);
      assert InvalidatingFrame(t, i, y);
    }
  }

  lemma {:induction false} FinishInvalidate(s: State)
    requires Inv(s) && s.stack != [] && Top(s).why.Invalidating? && Top(s).obj in s.objs
    ensures Inv(FinishFrame(s))
  {
    hide Count, IsInvalidating, IsInvalid, FinishInvalidation, CountsOk, RoomOk, FramesOk, SpentOk, ChainOk, SpentIn;
    FinishSpent(s);
    InvalidateCounts(s);
    InvalidateRoom(s);
    InvalidateFrames(s);
    var t := FinishFrame(s);
    assert t.objs.Keys == s.objs.Keys && t.cells == s.cells && t.deleted == s.deleted;
  }

  /** Every step of a destruction that does not start a second one of the same object keeps the invariant. */
  lemma {:induction false} DestroyKeeps(s: State, t: State)
    requires Inv(s) && DestroyStep(s, t) && !Overlap(t)
    ensures Inv(t)
  {
    hide CountsOk, RoomOk, LinksOk, SpentOk, ChainOk, DropMember, FinishFrame, DropAgain, Overlap;
    assert FrameOk(s, |s.stack| - 1);
    if p :| MemberOf(s, p, Top(s).obj) && t == DropMember(s, p) {
      DropKeeps(s, p);
    } else {
      match Top(s).why
      case Clearing => FinishClear(s);
      case Invalidating(_) => FinishInvalidate(s);
      case Deleting => FinishDelete(s);
    }
  }

  // ----- The actions of a program -----

  lemma {:induction false} QuietHeap(s: State)
    requires FramesOk(s) && s.stack == []
    ensures forall x :: x in s.objs ==> !IsInvalidating(s.objs[x]) && Pins(s, x) == 0
  {
    hide IsInvalidating;
    forall x | x in s.objs ensures !IsInvalidating(s.objs[x]) {
      assert forall i :: !InvalidatingFrame(s, i, x);
    }
  }

  lemma {:induction false} AddRest(s: State, t: State, p: PtrId, x: ObjId)
    requires Inv(s) && s.stack == [] && x in s.objs && p in t.cells && t.cells[p].target == Some(x)
    requires t == s.(cells := t.cells, objs := s.objs[x := Add(s.objs[x], t.cells[p].kind)])
    requires t.cells - {p} == s.cells - {p} && (t.cells[p].owner.Inside? ==> t.cells[p].owner.obj in s.objs)
    requires HasRoom(s, x, t.cells[p].kind)
    ensures RoomOk(t) && LinksOk(t) && FramesOk(t)
  {
    hide Count, IsInvalidating, IsInvalid, Add, CountsOk, SpentOk, ChainOk;
    AddRefines(s.objs[x], t.cells[p].kind);
    QuietHeap(s);
    forall q | q in t.cells ensures Live(t, t.cells[q].target) && (t.cells[q].owner.Inside? ==> t.cells[q].owner.obj in t.objs) {
      assert q != p ==> q in t.cells - {p} && q in s.cells && s.cells[q] == (t.cells - {p})[q];
    }
  }

  lemma {:induction false} AddKeeps(s: State, t: State, p: PtrId, x: ObjId, owed: Owed)
    requires Inv(s) && s.stack == [] && x in s.objs && p in t.cells && t.cells[p].target == Some(x)
    requires t == s.(cells := t.cells, objs := s.objs[x := Add(s.objs[x], t.cells[p].kind)])
    requires t.cells - {p} == s.cells - {p} && (t.cells[p].owner.Inside? ==> t.cells[p].owner.obj in s.objs)
    requires p in s.cells ==> s.cells[p].kind == t.cells[p].kind && s.cells[p].owner == t.cells[p].owner
    requires HasRoom(s, x, t.cells[p].kind)
    requires owed == if p !in s.cells || s.cells[p].target.None? then None else Some((s.cells[p].target.value, s.cells[p].kind))
    ensures InvOwing(t, owed)
  {
    hide Count, IsInvalidating, IsInvalid, Add, SpentOk, ChainOk;
    QuietSpent(s, t);
    AddRefines(s.objs[x], t.cells[p].kind);
    forall y, k | y in t.objs ensures Count(t.objs[y], k) == Due(t, owed, k, y) {
      assert Count(s.objs[y], k) == Due(s, None, k, y);
      HoldersAfterChange(s, t, p, k, y);
    }
    AddRest(s, t, p, x);
  }

  lemma {:induction false} NewIsZero()
    ensures AllZero(Counters(0, 0)) && !IsInvalidating(Counters(0, 0)) && !IsInvalid(Counters(0, 0))
    ensures forall k :: Count(Counters(0, 0), k) == 0
  {
  }

  lemma {:induction false} NewObjectKeeps(s: State, x: ObjId)
    requires Inv(s) && Enabled(s, NewObject(x))
    ensures Inv(Perform(s, NewObject(x)))
  {
    var t := Perform(s, NewObject(x));
    NewIsZero();
    QuietSpent(s, t);
    hide Count, IsInvalidating, IsInvalid, SpentOk, ChainOk;
    forall y, k | y in t.objs ensures Count(t.objs[y], k) == Due(t, None, k, y) {
      SameCellsSameHolders(s, t, k, y);
      if y == x {
        assert forall p :: p in s.cells ==> Live(s, s.cells[p].target);
        assert Holders(t, k, x) == {};
      } else {
        assert Count(s.objs[y], k) == Due(s, None, k, y);
      }
    }
    QuietHeap(s);
  }

  lemma {:induction false} ClearKeeps(s: State, x: ObjId)
    requires Inv(s) && Enabled(s, Clear(x))
    ensures Inv(Perform(s, Clear(x)))
  {
    hide Count, IsInvalidating, IsInvalid, Add, SpentOk, ChainOk;
    var t := Perform(s, Clear(x));
    QuietSpent(s, t);
    QuietHeap(s);
    assert Count(s.objs[x], Ref) <= Limit(Ref) - 3 + Pins(s, x);
    AddRefines(s.objs[x], Ref);
    forall y, k | y in t.objs ensures Count(t.objs[y], k) == Due(t, None, k, y) {
      assert Count(s.objs[y], k) == Due(s, None, k, y);
      SameCellsSameHolders(s, t, k, y);
    }
    assert FrameOk(t, 0);
  }

  lemma {:induction false} SpentSame(s: State, t: State)
    requires SpentOk(s) && ChainOk(s) && t == s.(objs := t.objs)
    ensures SpentOk(t) && ChainOk(t)
  {
    forall p | p in t.spent ensures HasFrame(t, s.spent[p].owner.obj) {
      FrameStays(s, t, s.spent[p].owner.obj);
    }
    SpentCarries(s, t);
    forall i | 0 <= i < |t.stack| - 1 ensures HasShown(t, t.stack[i].obj) {
      ShownStays(s, t, s.stack[i].obj);
    }
  }

  /** Lowering a counter without looking at the result. */
  lemma {:induction false} DecKeeps(s: State, y: ObjId, k: Kind)
    requires InvOwing(s, Some((y, k))) && s.stack == [] && y in s.objs
    ensures Inv(s.(objs := s.objs[y := Dec(s.objs[y], k)]))
  {
    hide Count, IsInvalidating, IsInvalid, Dec, SpentOk, ChainOk;
    var t := s.(objs := s.objs[y := Dec(s.objs[y], k)]);
    SpentSame(s, t);
    OwedIsHeld(s, y, k);
    DecRefines(s.objs[y], k);
    QuietHeap(s);
    forall x, j | x in t.objs ensures Count(t.objs[x], j) == Due(t, None, j, x) {
      assert Count(s.objs[x], j) == Due(s, Some((y, k)), j, x);
      SameCellsSameHolders(s, t, j, x);
    }
  }

  lemma {:induction false} ExtractKeeps(s: State, p: PtrId)
    requires Inv(s) && Enabled(s, Extract(p))
    ensures Inv(Perform(s, Extract(p)))
  {
    hide InvOwing, Dec;
    var c := s.cells[p];
    var u := s.(cells := s.cells[p := c.(target := None)]);
    QuietSpent(s, u);
    LinkTarget(s, p);
    DetachKeeps(s, u, p);
    if c.target.Some? {
      DecKeeps(u, c.target.value, c.kind);
    }
  }

  lemma {:induction false} NullCounts(s: State, t: State, p: PtrId)
    requires CountsOk(s, None) && p !in s.cells && p in t.cells && t.cells[p].target.None?
    requires t == s.(cells := t.cells) && t.cells - {p} == s.cells - {p}
    ensures CountsOk(t, None)
  {
    hide Count, IsInvalidating;
    forall y, j | y in t.objs ensures Count(t.objs[y], j) == Due(t, None, j, y) {
      assert Count(s.objs[y], j) == Due(s, None, j, y);
      HoldersAfterChange(s, t, p, j, y);
    }
  }

  lemma {:induction false} NewPtrKeeps(s: State, p: PtrId, k: Kind, owner: Owner, target: Option<ObjId>)
    requires Inv(s) && Enabled(s, NewPtr(p, k, owner, target))
    ensures Inv(Perform(s, NewPtr(p, k, owner, target)))
  {
    hide Count, IsInvalidating, IsInvalid, Add, CountsOk, RoomOk, FramesOk, SpentOk, ChainOk;
    var t := Perform(s, NewPtr(p, k, owner, target));
    QuietSpent(s, t);
    assert t.cells - {p} == s.cells - {p};
    if target.Some? {
      AddKeeps(s, t, p, target.value, None);
    } else {
      CellsOnly(s, t);
      NullCounts(s, t, p);
    }
  }

  lemma {:induction false} AssignKeeps(s: State, p: PtrId, target: Option<ObjId>)
    requires Inv(s) && Enabled(s, SetPtr(p, target))
    ensures Inv(Perform(s, SetPtr(p, target)))
  {
    hide InvOwing, HasRoom, Add, Release;
    var k, pOld := s.cells[p].kind, s.cells[p].target;
    var owed := if pOld.None? then None else Some((pOld.value, k));
    var t := s.(cells := s.cells[p := s.cells[p].(target := target)]);
    assert t.cells - {p} == s.cells - {p};
    var u := if target.None? then t else AddOn(t, target.value, k);
    QuietSpent(s, u);
    LinkTarget(s, p);
    if target.None? {
      DetachKeeps(s, t, p);
    } else {
      AddKeeps(s, u, p, target.value, owed);
    }
    if pOld.Some? {
      ReleaseKeeps(u, pOld.value, k);
    }
  }

  lemma {:induction false} PerformEnd(s: State, p: PtrId)
    requires Enabled(s, EndPtr(p))
    ensures Perform(s, EndPtr(p)) == EndCell(s, p)
  {
  }

  lemma {:induction false} PerformKeeps(s: State, a: Action)
    requires Inv(s) && Enabled(s, a)
    ensures Inv(Perform(s, a))
  {
    hide Inv, Perform;
    match a
    case NewObject(x) => NewObjectKeeps(s, x);
    case NewPtr(p, k, owner, target) => NewPtrKeeps(s, p, k, owner, target);
    case SetPtr(p, target) => AssignKeeps(s, p, target);
    case EndPtr(p) => PerformEnd(s, p); EndKeeps(s, p);
    case Extract(p) => ExtractKeeps(s, p);
    case Clear(x) => ClearKeeps(s, x);
  }

  /** Every step that does not start a second destruction of one object keeps the invariant. */
  lemma {:induction false} StepKeeps(s: State, t: State)
    requires Inv(s) && Step(s, t) && !Overlap(t)
    ensures Inv(t)
  {
    hide Inv, DestroyStep, Perform, Overlap;
    if DestroyStep(s, t) {
      DestroyKeeps(s, t);
    } else {
      var a :| Enabled(s, a) && t == Perform(s, a);
      PerformKeeps(s, a);
    }
  }

  // ----- Runs -----

  ghost predicate IsRun(r: seq<State>) {
    r != [] && forall i :: 0 <= i < |r| - 1 ==> Step(r[i], r[i + 1])
  }

  const EMPTY := State(map[], map[], map[], [], {}, false)

  lemma {:induction false} EmptyInv()
    ensures Inv(EMPTY)
  {
  }

  lemma {:induction false} DestroyObjects(s: State, t: State)
    requires DestroyStep(s, t)
    ensures s.deleted <= t.deleted && t.objs.Keys <= s.objs.Keys <= t.objs.Keys + t.deleted
    ensures t.deleted <= s.deleted + s.objs.Keys
    ensures forall p :: p in t.cells ==> p in s.cells && t.cells[p] == s.cells[p]
    ensures t.deleted == s.deleted || (Top(s).why.Deleting? && t == FinishFrame(s) && t.deleted == s.deleted + {Top(s).obj})
  {
    hide Release, Dec, FinishInvalidation, SpentIn, ReleaseTarget, HasCellInside;
    if Top(s).obj in s.objs {
      if p :| MemberOf(s, p, Top(s).obj) && t == DropMember(s, p) {
        ReleaseObjects(s.(cells := s.cells - {p}, spent := s.spent[p := s.cells[p]]), s.cells[p]);
      } else if p :| p in Top(s).again && t == DropAgain(s, p) {
        var f := Top(s);
        var u := Pop(s).(stack := Pop(s).stack + [f.(again := f.again - {p})]);
        if p in s.spent {
          ReleaseObjects(u, s.spent[p]);
        }
      }
    }
  }

  lemma {:induction false} PerformObjects(s: State, a: Action)
    requires Enabled(s, a)
    ensures s.deleted == Perform(s, a).deleted && s.objs.Keys <= Perform(s, a).objs.Keys
    ensures forall x :: x in Perform(s, a).objs && x in s.deleted ==> x in s.objs
  {
    hide ReleaseOn, Add, Dec;
    match a
    case SetPtr(p, target) =>
      var k := s.cells[p].kind;
      var t := s.(cells := s.cells[p := s.cells[p].(target := target)]);
      ReleaseObjects(if target.None? then t else AddOn(t, target.value, k), s.cells[p]);
    case EndPtr(p) =>
      ReleaseObjects(s.(cells := s.cells - {p}), s.cells[p]);
    case _ =>
  }

  ghost predicate DeletedAreGone(s: State) {
    s.objs.Keys !! s.deleted
  }

  lemma {:induction false} StepObjects(s: State, t: State)
    requires Step(s, t)
    ensures s.deleted <= t.deleted
    ensures s.objs.Keys <= t.objs.Keys + t.deleted
    ensures DeletedAreGone(s) ==> DeletedAreGone(t)
  {
    hide DestroyStep, Perform;
    if DestroyStep(s, t) {
      DestroyObjects(s, t);
    } else {
      var a :| Enabled(s, a) && t == Perform(s, a);
      PerformObjects(s, a);
    }
  }

  /** An object that has been deleted never comes back, in any run, so it is not deleted twice. */
  lemma {:induction false} DeletedOnce(r: seq<State>, i: nat, j: nat, x: ObjId)
    requires IsRun(r) && DeletedAreGone(r[0]) && i <= j < |r|
    ensures DeletedAreGone(r[j]) && (x in r[i].deleted ==> x in r[j].deleted && x !in r[j].objs)
    decreases j
  {
    hide Step;
    if 0 < j {
      DeletedOnce(r, if i < j then i else j - 1, j - 1, x);
      assert Step(r[j - 1], r[j - 1 + 1]);
      StepObjects(r[j - 1], r[j]);
    }
  }

  lemma {:induction false} OnStack(s: State, t: State)
    requires DestroyStep(s, t)
    ensures s.stack != []
  {
  }

  /** An object is only deleted when no handle of any kind is left on it and nothing else is destroying it. */
  lemma {:induction false} DeletedOnlyUnheld(s: State, t: State, x: ObjId)
    requires Inv(s) && Step(s, t) && x in t.deleted && x !in s.deleted
    ensures s.stack != [] && Top(s) == Frame(x, Deleting, {}) && x in s.objs && AllZero(s.objs[x])
    ensures forall k :: Holders(s, k, x) == {}
    ensures forall i :: 0 <= i < |s.stack| - 1 ==> s.stack[i].obj != x
  {
    hide DestroyStep, Perform, FinishFrame, Count, IsInvalidating, IsInvalid, SpentIn;
    if DestroyStep(s, t) {
      DestroyObjects(s, t);
    } else {
      var a :| Enabled(s, a) && t == Perform(s, a);
      PerformObjects(s, a);
    }
    OnStack(s, t);
    assert FrameOk(s, |s.stack| - 1);
    forall k ensures Holders(s, k, x) == {} {
      assert Count(s.objs[x], k) == Due(s, None, k, x);
    }
    assert forall i :: 0 <= i < |s.stack| - 1 ==> s.stack[i].obj != s.stack[|s.stack| - 1].obj;
  }

  /** The assertions of the source hold: an object that a release deletes is not being invalidated, and an
      invalidation ends with no handle of the kind whose loss started it. */
  lemma {:induction false} SourceAssertionsHold(s: State)
    requires Inv(s)
    ensures forall p :: p in s.cells && s.cells[p].target.Some? && s.cells[p].target.value in s.objs ==>
              var (d, e) := Release(s.objs[s.cells[p].target.value], s.cells[p].kind);
              e == Delete ==> !IsInvalidating(d)
    ensures s.stack != [] && Top(s).why.Invalidating? && Top(s).obj in s.objs ==>
              && Count(s.objs[Top(s).obj], Top(s).why.kind) == 0
              && (FinishInvalidation(s.objs[Top(s).obj]).1 == Delete ==> !IsInvalidating(FinishInvalidation(s.objs[Top(s).obj]).0))
  {
    hide Count, IsInvalidating, IsInvalid, Release, FinishInvalidation, SpentOk, ChainOk;
    forall p | p in s.cells && s.cells[p].target.Some? && s.cells[p].target.value in s.objs
      ensures var (d, e) := Release(s.objs[s.cells[p].target.value], s.cells[p].kind); e == Delete ==> !IsInvalidating(d)
    {
      var y, k := s.cells[p].target.value, s.cells[p].kind;
      var u := s.(cells := s.cells - {p});
      SpentWithout(s, p);
      DetachKeeps(s, u, p);
      OwedIsHeld(u, y, k);
      ReleaseRefines(s.objs[y], k);
      if Release(s.objs[y], k).1 == Delete {
        UnheldHasNoFrame(u, y, k);
      }
    }
    if s.stack != [] && Top(s).why.Invalidating? && Top(s).obj in s.objs {
      assert FrameOk(s, |s.stack| - 1);
      InvalidationHolds(s);
      FinishRefines(s.objs[Top(s).obj]);
    }
  }

  // ----- The flag of an invalidated object is never cleared -----

  lemma {:induction false} ReleaseKeepsFlag(s: State, y: ObjId, k: Kind, x: ObjId)
    requires InvOwing(s, Some((y, k))) && y in s.objs && x in s.objs && IsInvalid(s.objs[x])
    ensures IsInvalid(ReleaseOn(s, y, k).objs[x])
  {
    hide Count, IsInvalidating, IsInvalid, Release, SpentIn;
    OwedIsHeld(s, y, k);
    ReleaseRefines(s.objs[y], k);
  }

  lemma {:induction false} ReturnKeepsFlag(s: State, x: ObjId)
    requires Inv(s) && s.stack != [] && Top(s).obj in s.objs && x in s.objs && IsInvalid(s.objs[x])
    ensures x in FinishFrame(s).objs ==> IsInvalid(FinishFrame(s).objs[x])
  {
    hide Count, IsInvalidating, IsInvalid, FinishInvalidation, Dec, SpentIn;
    assert FrameOk(s, |s.stack| - 1);
    assert Count(s.objs[Top(s).obj], Ref) == Due(s, None, Ref, Top(s).obj);
    if Top(s).why.Clearing? {
      DecRefines(s.objs[Top(s).obj], Ref);
    } else if Top(s).why.Invalidating? {
      InvalidationHolds(s);
      FinishRefines(s.objs[Top(s).obj]);
    }
  }

  lemma {:induction false} DestroyKeepsFlag(s: State, t: State, x: ObjId)
    requires Inv(s) && DestroyStep(s, t) && x in s.objs && x in t.objs && IsInvalid(s.objs[x])
    ensures IsInvalid(t.objs[x])
  {
    hide CountsOk, RoomOk, LinksOk, SpentOk, ChainOk, FinishFrame, DropAgain, IsInvalid, ReleaseOn;
    assert FrameOk(s, |s.stack| - 1);
    if p :| MemberOf(s, p, Top(s).obj) && t == DropMember(s, p) {
      var u := s.(cells := s.cells - {p}, spent := s.spent[p := s.cells[p]]);
      PutAside(s, p);
      LinkTarget(s, p);
      DetachKeeps(s, u, p);
      if s.cells[p].target.Some? {
        ReleaseKeepsFlag(u, s.cells[p].target.value, s.cells[p].kind, x);
      }
    } else {
      ReturnKeepsFlag(s, x);
    }
  }

  lemma {:induction false} RoomBelowLimit(s: State, x: ObjId, k: Kind)
    requires x in s.objs && HasRoom(s, x, k)
    ensures Count(s.objs[x], k) < Limit(k)
  {
  }

  lemma {:induction false} RoomForClear(s: State, x: ObjId)
    requires Inv(s) && s.stack == [] && x in s.objs
    ensures Count(s.objs[x], Ref) < Limit(Ref)
  {
    hide Count, IsInvalidating;
    QuietHeap(s);
    assert Count(s.objs[x], Ref) <= Limit(Ref) - 3 + Pins(s, x);
  }

  lemma {:induction false} ExtractKeepsFlag(s: State, p: PtrId, x: ObjId)
    requires Inv(s) && Enabled(s, Extract(p)) && x in s.objs && IsInvalid(s.objs[x])
    ensures x in Perform(s, Extract(p)).objs && IsInvalid(Perform(s, Extract(p)).objs[x])
  {
    hide InvOwing, Count, IsInvalid, IsInvalidating, Dec;
    var c := s.cells[p];
    var u := s.(cells := s.cells[p := c.(target := None)]);
    QuietSpent(s, u);
    LinkTarget(s, p);
    DetachKeeps(s, u, p);
    if c.target.Some? {
      OwedIsHeld(u, c.target.value, c.kind);
      DecRefines(s.objs[c.target.value], c.kind);
    }
  }

  lemma {:induction false} AssignKeepsFlag(s: State, p: PtrId, target: Option<ObjId>, x: ObjId)
    requires Inv(s) && Enabled(s, SetPtr(p, target)) && x in s.objs && IsInvalid(s.objs[x])
    ensures x in Assign(s, p, target).objs && IsInvalid(Assign(s, p, target).objs[x])
  {
    hide InvOwing, HasRoom, Add, Release, Count, Limit, IsInvalid, IsInvalidating;
    var k, pOld := s.cells[p].kind, s.cells[p].target;
    var owed := if pOld.None? then None else Some((pOld.value, k));
    var t := s.(cells := s.cells[p := s.cells[p].(target := target)]);
    assert t.cells - {p} == s.cells - {p};
    var u := if target.None? then t else AddOn(t, target.value, k);
    QuietSpent(s, u);
    LinkTarget(s, p);
    if target.None? {
      DetachKeeps(s, t, p);
    } else {
      AddKeeps(s, u, p, target.value, owed);
      RoomBelowLimit(s, target.value, k);
      AddRefines(s.objs[target.value], k);
    }
    if pOld.Some? {
      ReleaseKeepsFlag(u, pOld.value, k, x);
      ReleaseObjects(u, s.cells[p]);
    }
  }

  lemma {:induction false} PerformKeepsFlag(s: State, a: Action, x: ObjId)
    requires Inv(s) && Enabled(s, a) && x in s.objs && IsInvalid(s.objs[x])
    ensures x in Perform(s, a).objs && IsInvalid(Perform(s, a).objs[x])
  {
    hide InvOwing, Count, Limit, IsInvalid, IsInvalidating, Add, Dec, ReleaseOn, Release;
    match a
    case NewObject(_) =>
    case NewPtr(p, k, owner, target) =>
      if target.Some? {
        RoomBelowLimit(s, target.value, k);
        AddRefines(s.objs[target.value], k);
      }
    case SetPtr(p, target) => AssignKeepsFlag(s, p, target, x);
    case EndPtr(p) =>
      var u := s.(cells := s.cells - {p});
      QuietSpent(s, u);
      LinkTarget(s, p);
      DetachKeeps(s, u, p);
      if s.cells[p].target.Some? {
        ReleaseKeepsFlag(u, s.cells[p].target.value, s.cells[p].kind, x);
        ReleaseObjects(u, s.cells[p]);
      }
    case Extract(p) => ExtractKeepsFlag(s, p, x);
    case Clear(y) =>
      RoomForClear(s, y);
      AddRefines(s.objs[y], Ref);
  }

  /** An object that has been invalidated stays invalid for as long as it exists. */
  lemma {:induction false} InvalidStays(s: State, t: State, x: ObjId)
    requires Inv(s) && Step(s, t) && x in s.objs && x in t.objs && IsInvalid(s.objs[x])
    ensures IsInvalid(t.objs[x])
  {
    hide Inv, DestroyStep, Perform, IsInvalid;
    if DestroyStep(s, t) {
      DestroyKeepsFlag(s, t, x);
    } else {
      var a :| Enabled(s, a) && t == Perform(s, a);
      PerformKeepsFlag(s, a, x);
    }
  }

  // ----- Runs that keep the invariant -----

  ghost predicate IsGoodRun(r: seq<State>) {
    IsRun(r) && forall i :: 0 <= i < |r| ==> Inv(r[i])
  }

  /** An object that is invalid stays invalid until it is deleted. */
  lemma {:induction false} DoomedForGood(r: seq<State>, i: nat, j: nat, x: ObjId)
    requires IsGoodRun(r) && i <= j < |r|
    requires x in r[i].deleted || (x in r[i].objs && IsInvalid(r[i].objs[x]))
    ensures x in r[j].deleted || (x in r[j].objs && IsInvalid(r[j].objs[x]))
    decreases j
  {
    hide Step, Inv, IsInvalid;
    if i < j {
      DoomedForGood(r, i, j - 1, x);
      assert Step(r[j - 1], r[j - 1 + 1]) && Inv(r[j - 1]);
      StepObjects(r[j - 1], r[j]);
      if x in r[j - 1].objs && x in r[j].objs && IsInvalid(r[j - 1].objs[x]) {
        InvalidStays(r[j - 1], r[j], x);
      }
    }
  }
}
