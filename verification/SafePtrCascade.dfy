/**
  Cascades of destructions: what a program starts when it lets go of the TObj handles outside of all objects, and what
  `Clear` starts when it lets go of the members of an object. A cascade ends, and the objects whose contents it does not
  destroy are described exactly on the heap it starts from, whatever the order in which members are destroyed.
 */
module SafePtrCascade {
  import opened PackedCounters
  import opened Wrappers
  import opened SafePtr

  /** What is let go: every TObj outside of all objects, or the members of an object that is being cleared. */
  datatype LetGo = OutsideOwners | MembersOf(obj: ObjId)

  ghost predicate Dropped(s: State, d: LetGo, p: PtrId) {
    p in s.cells && match d
                    case OutsideOwners => s.cells[p].owner == Outside && s.cells[p].kind == Obj
                    case MembersOf(x) => s.cells[p].owner == Inside(x)
  }

  /** Only the cascade in question is under way. */
  ghost predicate Cascading(s: State, d: LetGo) {
    match d
    case OutsideOwners => forall i :: 0 <= i < |s.stack| ==> !s.stack[i].why.Clearing?
    case MembersOf(x) => s.stack != [] ==> BeingCleared(s, x)
  }

  /** The destruction in progress goes on, or the next TObj outside of all objects is destroyed. */
  ghost predicate CascadeStep(s: State, t: State, d: LetGo) {
    || DestroyStep(s, t)
    || (d.OutsideOwners? && !s.crashed && s.stack == [] && exists p :: Dropped(s, d, p) && t == EndCell(s, p))
  }

  ghost predicate Ended(s: State, d: LetGo) {
    s.stack == [] && (d.OutsideOwners? ==> forall p :: !Dropped(s, d, p))
  }

  ghost predicate IsCascade(r: seq<State>, d: LetGo) {
    r != [] && forall i :: 0 <= i < |r| - 1 ==> CascadeStep(r[i], r[i + 1], d)
  }

  lemma {:induction false} CascadeIsStep(s: State, t: State, d: LetGo)
    requires CascadeStep(s, t, d)
    ensures Step(s, t)
  {
    hide EndCell, DestroyStep;
    if !DestroyStep(s, t) {
      var p :| Dropped(s, d, p) && t == EndCell(s, p);
      assert Enabled(s, EndPtr(p)) && t == Perform(s, EndPtr(p));
    }
  }

  // ----- What a step is -----

  /** The three things that a step of a cascade can be while the invariant holds. */
  datatype Move = DropOne(p: PtrId) | EndOne(p: PtrId) | Return

  ghost predicate IsMove(s: State, t: State, d: LetGo, m: Move) {
    match m
    case DropOne(p) => s.stack != [] && Top(s).obj in s.objs && MemberOf(s, p, Top(s).obj) && t == DropMember(s, p)
    case EndOne(p) => d.OutsideOwners? && s.stack == [] && Dropped(s, d, p) && t == EndCell(s, p)
    case Return => s.stack != [] && Top(s).obj in s.objs && !HasCellInside(s, Top(s).obj) && t == FinishFrame(s)
  }

  lemma {:induction false} MoveOf(s: State, t: State, d: LetGo) returns (m: Move)
    requires Inv(s) && CascadeStep(s, t, d)
    ensures IsMove(s, t, d, m)
  {
    hide EndCell, DropMember, DropAgain, FinishFrame, HasCellInside, CountsOk, RoomOk, LinksOk, SpentOk, ChainOk;
    if DestroyStep(s, t) {
      assert FrameOk(s, |s.stack| - 1);
      if p :| MemberOf(s, p, Top(s).obj) && t == DropMember(s, p) {
        m := DropOne(p);
      } else {
        m := Return;
      }
    } else {
      var p :| Dropped(s, d, p) && t == EndCell(s, p);
      m := EndOne(p);
    }
  }

  /** A pointer that goes: the state in which its handle is owed. */
  ghost function Without(s: State, m: Move): State
    requires !m.Return? && m.p in s.cells
  {
    if m.EndOne? then s.(cells := s.cells - {m.p})
    else s.(cells := s.cells - {m.p}, spent := s.spent[m.p := s.cells[m.p]])
  }

  lemma {:induction false} WithoutOwes(s: State, t: State, d: LetGo, m: Move)
    requires Inv(s) && IsMove(s, t, d, m) && !m.Return?
    ensures m.p in s.cells && Live(s, s.cells[m.p].target)
    ensures t == ReleaseTarget(Without(s, m), s.cells[m.p])
    ensures var c := s.cells[m.p];
            InvOwing(Without(s, m), if c.target.None? then None else Some((c.target.value, c.kind)))
  {
    hide CountsOk, RoomOk, LinksOk, FramesOk, SpentOk, ChainOk, ReleaseTarget;
    LinkTarget(s, m.p);
    if m.DropOne? {
      PutAside(s, m.p);
    } else {
      QuietSpent(s, Without(s, m));
    }
    DetachKeeps(s, Without(s, m), m.p);
  }

  /** A release of an owed handle starts a destruction of an object that has none, or an invalidation. */
  lemma {:induction false} NewFrame(u: State, y: ObjId, k: Kind)
    requires InvOwing(u, Some((y, k))) && y in u.objs
    ensures var t := ReleaseOn(u, y, k);
            && u.stack <= t.stack && |t.stack| <= |u.stack| + 1
            && (|t.stack| > |u.stack| ==>
                  && Top(t).obj == y && !Top(t).why.Clearing? && Top(t).again == SpentIn(u, y)
                  && !IsInvalidating(u.objs[y]) && (Top(t).why.Deleting? ==> !HasFrame(u, y))
                  && (Top(t).why.Invalidating? ==> Top(t).why.kind == k))
  {
    hide CountsOk, RoomOk, LinksOk, SpentOk, ChainOk, Release, SpentIn, Count, AllZero;
    OwedIsHeld(u, y, k);
    ReleaseRefines(u.objs[y], k);
    if Release(u.objs[y], k).1 == Delete {
      UnheldHasNoFrame(u, y, k);
    }
  }

  lemma {:induction false} SecondFrame(u: State, y: ObjId, k: Kind, i: nat)
    requires InvOwing(u, Some((y, k))) && y in u.objs && i < |u.stack| && u.stack[i].obj == y
    requires |ReleaseOn(u, y, k).stack| > |u.stack|
    ensures i == 0 && BeingCleared(u, y) && Top(ReleaseOn(u, y, k)).why.Invalidating?
  {
    hide CountsOk, RoomOk, LinksOk, SpentOk, ChainOk, ReleaseOn, Count, AllZero, IsInvalidating, IsInvalid;
    NewFrame(u, y, k);
    OwedIsHeld(u, y, k);
    assert HasFrame(u, y) && FrameOk(u, i);
  }

  lemma {:induction false} ReturnFrames(s: State)
    requires FramesOk(s) && s.stack != [] && Top(s).obj in s.objs
    ensures !Overlap(FinishFrame(s)) && |FinishFrame(s).stack| <= |s.stack|
    ensures forall i :: 0 <= i < |FinishFrame(s).stack| ==> FinishFrame(s).stack[i].obj == s.stack[i].obj
    ensures forall i :: 0 <= i < |s.stack| - 1 ==> FinishFrame(s).stack[i] == s.stack[i]
    ensures |FinishFrame(s).stack| == |s.stack| ==> Top(s).why.Invalidating? && Top(FinishFrame(s)).why.Deleting?
  {
    hide FinishInvalidation, Dec, SpentIn, FrameOk, IsInvalidating;
    var t := FinishFrame(s);
    forall i, j | 0 <= i < j < |t.stack| ensures t.stack[i].obj != t.stack[j].obj {
      assert s.stack[i].obj != s.stack[j].obj;
    }
  }

  /** A step can only overlap destructions by invalidating the object that is being cleared. */
  lemma {:induction false} OverlapIsClear(s: State, t: State, d: LetGo)
    requires Inv(s) && Cascading(s, d) && CascadeStep(s, t, d) && Overlap(t)
    ensures d.MembersOf? && BeingCleared(s, d.obj) && |t.stack| == |s.stack| + 1 && s.stack == t.stack[..|s.stack|]
    ensures Top(t).obj == d.obj && Top(t).why.Invalidating?
  {
    hide CountsOk, RoomOk, LinksOk, SpentOk, ChainOk, FrameOk, CascadeStep, MemberOf;
    hide Release, FinishInvalidation, SpentIn, FinishFrame;
    var m := MoveOf(s, t, d);
    if m.Return? {
      ReturnFrames(s);
    } else {
      WithoutOwes(s, t, d, m);
      var u, c := Without(s, m), s.cells[m.p];
      if c.target.Some? {
        NewFrame(u, c.target.value, c.kind);
        var i, j :| 0 <= i < j < |t.stack| && t.stack[i].obj == t.stack[j].obj;
        assert forall n :: 0 <= n < |s.stack| ==> t.stack[n] == s.stack[n];
        SecondFrame(u, c.target.value, c.kind, i);
      }
    }
  }

  lemma {:induction false} ReturnWhy(s: State)
    requires s.stack != [] && Top(s).obj in s.objs
    ensures Top(s).why.Clearing? ==> |FinishFrame(s).stack| == |s.stack| - 1
  {
    hide FinishInvalidation;
  }

  lemma {:induction false} StillCascading(s: State, t: State, d: LetGo)
    requires Inv(s) && Cascading(s, d) && CascadeStep(s, t, d)
    ensures Cascading(t, d)
  {
    hide CountsOk, RoomOk, LinksOk, SpentOk, ChainOk, Release, FinishInvalidation, FinishFrame, ReleaseOn;
    var m := MoveOf(s, t, d);
    if m.Return? {
      ReturnFrames(s);
      assert FrameOk(s, |s.stack| - 1);
      ReturnWhy(s);
    } else {
      WithoutOwes(s, t, d, m);
      if s.cells[m.p].target.Some? {
        NewFrame(Without(s, m), s.cells[m.p].target.value, s.cells[m.p].kind);
      }
    }
  }

  lemma {:induction false} CascadeKeeps(s: State, t: State, d: LetGo)
    requires Inv(s) && Cascading(s, d) && CascadeStep(s, t, d) && !Overlap(t)
    ensures Inv(t) && Cascading(t, d)
  {
    hide Inv, CascadeStep, Overlap, Cascading;
    CascadeIsStep(s, t, d);
    StepKeeps(s, t);
    StillCascading(s, t, d);
  }

  // ----- A cascade ends -----

  function FrameWeight(f: Frame): nat {
    if f.why.Invalidating? then 2 else 1
  }

  function StackWeight(stack: seq<Frame>): nat {
    if stack == [] then 0 else StackWeight(stack[..|stack| - 1]) + FrameWeight(stack[|stack| - 1])
  }

  /** A pointer may start one destruction when it goes; an invalidation may end in a deletion. */
  function Weight(s: State): nat {
    3 * |s.cells| + StackWeight(s.stack)
  }

  lemma {:induction false} PushWeight(stack: seq<Frame>, f: Frame)
    ensures StackWeight(stack + [f]) == StackWeight(stack) + FrameWeight(f)
  {
    assert (stack + [f])[..|stack|] == stack;
  }

  lemma {:induction false} ReleaseWeight(s: State, c: Cell)
    ensures StackWeight(ReleaseTarget(s, c).stack) <= StackWeight(s.stack) + 2 && ReleaseTarget(s, c).cells == s.cells
  {
    hide Release, SpentIn;
    if c.target.Some? {
      PushWeight(s.stack, Frame(c.target.value, Deleting, SpentIn(s, c.target.value)));
      PushWeight(s.stack, Frame(c.target.value, Invalidating(c.kind), SpentIn(s, c.target.value)));
    }
  }

  lemma {:induction false} ReturnLighter(s: State)
    requires s.stack != [] && Top(s).obj in s.objs
    ensures Weight(FinishFrame(s)) < Weight(s)
  {
    hide FinishInvalidation, Dec, SpentIn;
    PushWeight(s.stack[..|s.stack| - 1], Frame(Top(s).obj, Deleting, {}));
  }

  /** Every step makes the heap lighter, cycles or not, so a cascade ends. */
  lemma {:induction false} CascadeStepLighter(s: State, t: State, d: LetGo)
    requires Inv(s) && CascadeStep(s, t, d)
    ensures Weight(t) < Weight(s)
  {
    hide Inv, CascadeStep, ReleaseTarget, FinishFrame, StackWeight;
    var m := MoveOf(s, t, d);
    if m.Return? {
      ReturnLighter(s);
    } else {
      var u := Without(s, m);
      assert u.cells.Keys == s.cells.Keys - {m.p};
      assert |u.cells| == |s.cells| - 1;
      ReleaseWeight(u, s.cells[m.p]);
    }
  }

  /** A cascade never gets stuck before it is done. */
  lemma {:induction false} CascadeProgress(s: State, d: LetGo) returns (t: State)
    requires Inv(s) && !Ended(s, d)
    ensures CascadeStep(s, t, d)
  {
    hide CountsOk, RoomOk, LinksOk, SpentOk, ChainOk, EndCell, DropMember, FinishFrame;
    if s.stack != [] {
      assert FrameOk(s, |s.stack| - 1);
      if p :| MemberOf(s, p, Top(s).obj) {
        t := DropMember(s, p);
      } else {
        t := FinishFrame(s);
      }
    } else {
      var p :| Dropped(s, d, p);
      t := EndCell(s, p);
    }
  }

  // ----- What a cascade spares -----

  /** The pointer stays, because it is not let go and lies outside of all objects or in an object of `kept`. */
  ghost predicate Stays(s: State, d: LetGo, kept: set<ObjId>, p: PtrId) {
    p in s.cells && !Dropped(s, d, p) && (s.cells[p].owner.Inside? ==> s.cells[p].owner.obj in kept)
  }

  ghost predicate StayingHolder(s: State, d: LetGo, kept: set<ObjId>, k: Kind, y: ObjId) {
    exists p: PtrId :: p in Holders(s, k, y) && Stays(s, d, kept, p)
  }

  ghost predicate IsHeld(s: State, y: ObjId) {
    exists k :: Holders(s, k, y) != {}
  }

  /** Of each owning kind of handle on `y` that there is, one stays; and of all its handles one stays. An object that
      is being cleared is held by its `Clear`. */
  ghost predicate KeptAt(s: State, d: LetGo, kept: set<ObjId>, y: ObjId) {
    && (forall i :: 0 <= i < |s.stack| && s.stack[i].obj == y ==> s.stack[i].why.Clearing?)
    && (forall k :: k != Ref && Holders(s, k, y) != {} ==> StayingHolder(s, d, kept, k, y))
    && (d != MembersOf(y) && IsHeld(s, y) ==> exists k :: StayingHolder(s, d, kept, k, y))
  }

  ghost predicate Kept(s: State, d: LetGo, kept: set<ObjId>) {
    kept <= s.objs.Keys && forall y :: y in kept ==> KeptAt(s, d, kept, y)
  }

  /** A pointer that goes in a cascade is not one that stays. */
  lemma {:induction false} GoingDoesNotStay(s: State, t: State, d: LetGo, kept: set<ObjId>, m: Move)
    requires FramesOk(s) && Cascading(s, d) && Kept(s, d, kept) && IsMove(s, t, d, m) && !m.Return?
    ensures !Stays(s, d, kept, m.p)
  {
    if m.DropOne? && Top(s).obj in kept {
      assert KeptAt(s, d, kept, Top(s).obj);
      assert s.stack[|s.stack| - 1].why.Clearing? && FrameOk(s, |s.stack| - 1);
    }
  }

  /** A second holder of the same kind means that the counter is above one. */
  lemma {:induction false} TwoHolders(s: State, u: State, p: PtrId, q: PtrId, k: Kind, y: ObjId)
    requires u.cells == s.cells - {p} && p != q && q in Holders(s, k, y)
    ensures q in Holders(u, k, y)
  {
  }

  lemma {:induction false} CountedHolder(u: State, owed: Owed, k: Kind, y: ObjId, q: PtrId)
    requires CountsOk(u, owed) && y in u.objs && q in Holders(u, k, y)
    ensures Count(u.objs[y], k) >= 1 + (if owed == Some((y, k)) then 1 else 0)
  {
    hide Count, IsInvalidating;
    assert Count(u.objs[y], k) == Due(u, owed, k, y);
    assert |Holders(u, k, y)| >= 1 by {
      assert Holders(u, k, y) != {};
    }
  }

  lemma {:induction false} HolderItself(s: State, p: PtrId)
    requires p in s.cells && s.cells[p].target.Some?
    ensures p in Holders(s, s.cells[p].kind, s.cells[p].target.value)
  {
  }

  /** Releasing a handle on an object of which enough stays starts nothing. */
  lemma {:induction false} KeptIsSpared(s: State, t: State, d: LetGo, kept: set<ObjId>, m: Move)
    requires Inv(s) && Cascading(s, d) && Kept(s, d, kept) && IsMove(s, t, d, m) && !m.Return?
    requires m.p in s.cells && s.cells[m.p].target.Some? && s.cells[m.p].target.value in kept
    ensures t.stack == s.stack
  {
    hide RoomOk, LinksOk, FramesOk, SpentOk, ChainOk, Release, SpentIn, Count, IsInvalidating, Holders, Stays;
    WithoutOwes(s, t, d, m);
    GoingDoesNotStay(s, t, d, kept, m);
    var y, k, u := s.cells[m.p].target.value, s.cells[m.p].kind, Without(s, m);
    assert KeptAt(s, d, kept, y);
    HolderItself(s, m.p);
    OwedIsHeld(u, y, k);
    ReleaseRefines(u.objs[y], k);
    DecRefines(u.objs[y], k);
    if k != Ref {
      var q: PtrId :| q in Holders(s, k, y) && Stays(s, d, kept, q);
      TwoHolders(s, u, m.p, q, k, y);
      CountedHolder(u, Some((y, k)), k, y, q);
    } else if d == MembersOf(y) {
      assert Count(u.objs[y], Ref) == Due(u, Some((y, k)), Ref, y);
    } else {
      assert IsHeld(s, y);
      var j :| StayingHolder(s, d, kept, j, y);
      var q: PtrId :| q in Holders(s, j, y) && Stays(s, d, kept, q);
      TwoHolders(s, u, m.p, q, j, y);
      CountedHolder(u, Some((y, k)), j, y, q);
    }
  }

  lemma {:induction false} HoldersShrink(s: State, t: State, k: Kind, y: ObjId)
    requires forall p :: p in t.cells ==> p in s.cells && t.cells[p] == s.cells[p]
    ensures Holders(t, k, y) <= Holders(s, k, y)
  {
  }

  lemma {:induction false} CascadeShrinks(s: State, t: State, d: LetGo)
    requires CascadeStep(s, t, d)
    ensures forall p :: p in t.cells ==> p in s.cells && t.cells[p] == s.cells[p]
    ensures t.objs.Keys <= s.objs.Keys <= t.objs.Keys + t.deleted && s.deleted <= t.deleted
  {
    hide DestroyStep, ReleaseTarget;
    if DestroyStep(s, t) {
      DestroyObjects(s, t);
    } else {
      var p :| Dropped(s, d, p) && t == EndCell(s, p);
      ReleaseObjects(s.(cells := s.cells - {p}), s.cells[p]);
    }
  }

  lemma {:induction false} StayingStays(s: State, t: State, d: LetGo, kept: set<ObjId>, k: Kind, y: ObjId)
    requires StayingHolder(s, d, kept, k, y)
    requires forall p: PtrId :: Stays(s, d, kept, p) ==> p in t.cells && t.cells[p] == s.cells[p]
    ensures StayingHolder(t, d, kept, k, y)
  {
    var p: PtrId :| p in Holders(s, k, y) && Stays(s, d, kept, p);
    assert p in Holders(t, k, y) && Stays(t, d, kept, p);
  }

  /** A kept object stays kept when the pointers that stay stay and nothing destroys it. */
  lemma {:induction false} KeptAtStays(s: State, t: State, d: LetGo, kept: set<ObjId>, y: ObjId)
    requires KeptAt(s, d, kept, y)
    requires forall p :: p in t.cells ==> p in s.cells && t.cells[p] == s.cells[p]
    requires forall p: PtrId :: Stays(s, d, kept, p) ==> p in t.cells && t.cells[p] == s.cells[p]
    requires forall i :: 0 <= i < |t.stack| && t.stack[i].obj == y ==> t.stack[i].why.Clearing?
    ensures KeptAt(t, d, kept, y)
  {
    hide Holders, Stays, StayingHolder;
    forall k | k != Ref && Holders(t, k, y) != {} ensures StayingHolder(t, d, kept, k, y) {
      HoldersShrink(s, t, k, y);
      StayingStays(s, t, d, kept, k, y);
    }
    if d != MembersOf(y) && IsHeld(t, y) {
      var j :| Holders(t, j, y) != {};
      HoldersShrink(s, t, j, y);
      assert Holders(s, j, y) != {};
      assert IsHeld(s, y);
      var k :| StayingHolder(s, d, kept, k, y);
      StayingStays(s, t, d, kept, k, y);
    }
  }

  lemma {:induction false} ReturnObjects(s: State)
    requires s.stack != [] && Top(s).obj in s.objs
    ensures FinishFrame(s).objs.Keys == if Top(s).why.Deleting? then s.objs.Keys - {Top(s).obj} else s.objs.Keys
    ensures FinishFrame(s).cells == s.cells
  {
    hide FinishInvalidation, Dec, SpentIn;
  }

  lemma {:induction false} MoveSpares(s: State, t: State, d: LetGo, kept: set<ObjId>, m: Move, y: ObjId)
    requires Inv(s) && Cascading(s, d) && Kept(s, d, kept) && IsMove(s, t, d, m) && y in kept
    ensures forall i :: 0 <= i < |t.stack| && t.stack[i].obj == y ==> t.stack[i].why.Clearing?
    ensures y in t.objs
  {
    hide CountsOk, RoomOk, LinksOk, SpentOk, ChainOk, Release, FinishInvalidation, FinishFrame, ReleaseOn, Holders, StayingHolder;
    assert KeptAt(s, d, kept, y);
    if m.Return? {
      ReturnFrames(s);
      ReturnWhy(s);
      ReturnObjects(s);
      forall i | 0 <= i < |t.stack| && t.stack[i].obj == y ensures t.stack[i].why.Clearing? {
        assert s.stack[i].obj == y;
      }
    } else {
      WithoutOwes(s, t, d, m);
      var c := s.cells[m.p];
      ReleaseObjects(Without(s, m), c);
      if c.target.Some? {
        if c.target.value == y {
          KeptIsSpared(s, t, d, kept, m);
        }
        NewFrame(Without(s, m), c.target.value, c.kind);
      }
    }
  }

  lemma {:induction false} StayerStays(s: State, t: State, d: LetGo, kept: set<ObjId>, m: Move, p: PtrId)
    requires Inv(s) && Cascading(s, d) && Kept(s, d, kept) && IsMove(s, t, d, m) && Stays(s, d, kept, p)
    ensures p in t.cells && t.cells[p] == s.cells[p]
  {
    hide CountsOk, RoomOk, LinksOk, SpentOk, ChainOk, FramesOk, ReleaseTarget, FinishFrame, Kept, Cascading;
    if m.Return? {
      ReturnObjects(s);
    } else {
      GoingDoesNotStay(s, t, d, kept, m);
      ReleaseObjects(Without(s, m), s.cells[m.p]);
    }
  }

  /** What is kept stays kept at every step. */
  lemma {:induction false} KeptStep(s: State, t: State, d: LetGo, kept: set<ObjId>)
    requires Inv(s) && Cascading(s, d) && Kept(s, d, kept) && CascadeStep(s, t, d)
    ensures Kept(t, d, kept)
  {
    hide Inv, Cascading, KeptAt, CascadeStep, ReleaseTarget, Stays, FinishFrame;
    var m := MoveOf(s, t, d);
    CascadeShrinks(s, t, d);
    forall p: PtrId | Stays(s, d, kept, p) ensures p in t.cells && t.cells[p] == s.cells[p] {
      StayerStays(s, t, d, kept, m, p);
    }
    forall y | y in kept ensures y in t.objs && KeptAt(t, d, kept, y) {
      MoveSpares(s, t, d, kept, m, y);
      KeptAtStays(s, t, d, kept, y);
    }
  }

  // ----- What a cascade destroys -----

  /** The contents of `y` are being destroyed for good: it is being invalidated or deleted. */
  ghost predicate BeingDestroyed(s: State, y: ObjId) {
    exists i :: 0 <= i < |s.stack| && s.stack[i].obj == y && !s.stack[i].why.Clearing?
  }

  /** A cascade in which no destruction overlaps another one of the same object. */
  ghost predicate IsGoodCascade(r: seq<State>, d: LetGo) {
    IsCascade(r, d) && Cascading(r[0], d) && forall i :: 0 <= i < |r| ==> Inv(r[i])
  }

  lemma {:induction false} GoodStep(r: seq<State>, d: LetGo, i: nat)
    requires IsGoodCascade(r, d) && i < |r|
    ensures Cascading(r[i], d) && Inv(r[i])
    ensures i + 1 < |r| ==> CascadeStep(r[i], r[i + 1], d) && Inv(r[i + 1])
  {
    hide Inv, Cascading, CascadeStep;
    if i > 0 {
      GoodStep(r, d, i - 1);
      StillCascading(r[i - 1], r[i - 1 + 1], d);
    }
  }

  /** `y` has been hit by one of the first steps. */
  ghost predicate Hit(r: seq<State>, i: nat, y: ObjId) {
    exists j :: 0 <= j <= i && j < |r| && BeingDestroyed(r[j], y)
  }

  lemma {:induction false} InvalidatingIsDestroyed(s: State, y: ObjId)
    requires FramesOk(s) && y in s.objs && IsInvalidating(s.objs[y])
    ensures BeingDestroyed(s, y)
  {
    hide IsInvalidating, FrameOk;
    var i: nat :| InvalidatingFrame(s, i, y);
    assert s.stack[i].obj == y;
  }

  /** The last handle of an owning kind takes its object with it. */
  lemma {:induction false} LastOwnerLost(u: State, y: ObjId, k: Kind)
    requires InvOwing(u, Some((y, k))) && y in u.objs && k != Ref && Holders(u, k, y) == {} && !IsInvalidating(u.objs[y])
    ensures BeingDestroyed(ReleaseOn(u, y, k), y)
  {
    hide Count, IsInvalidating, IsInvalid, Release, SpentIn, RoomOk, LinksOk, FramesOk, SpentOk, ChainOk;
    OwedIsHeld(u, y, k);
    assert Count(u.objs[y], k) == Due(u, Some((y, k)), k, y);
    ReleaseRefines(u.objs[y], k);
    var t := ReleaseOn(u, y, k);
    assert t.stack[|u.stack|].obj == y;
  }

  /** So does the last handle of all. */
  lemma {:induction false} LastHandleLost(u: State, y: ObjId, k: Kind)
    requires InvOwing(u, Some((y, k))) && y in u.objs && !IsHeld(u, y) && !IsInvalidating(u.objs[y]) && !BeingCleared(u, y)
    ensures BeingDestroyed(ReleaseOn(u, y, k), y)
  {
    hide Count, IsInvalidating, IsInvalid, Release, Dec, SpentIn, RoomOk, LinksOk, FramesOk, SpentOk, ChainOk;
    OwedIsHeld(u, y, k);
    forall j ensures Count(u.objs[y], j) == if j == k then 1 else 0 {
      assert Holders(u, j, y) == {};
      assert Count(u.objs[y], j) == Due(u, Some((y, k)), j, y);
    }
    DecRefines(u.objs[y], k);
    ReleaseRefines(u.objs[y], k);
    var t := ReleaseOn(u, y, k);
    assert t.stack[|u.stack|].obj == y;
  }

  ghost predicate StillHeld(s: State, t: State, d: LetGo, y: ObjId) {
    && (forall k :: k != Ref && Holders(s, k, y) != {} ==> Holders(t, k, y) != {})
    && (d != MembersOf(y) && IsHeld(s, y) ==> IsHeld(t, y))
  }

  lemma {:induction false} NowDestroyed(t: State, i: nat)
    requires i < |t.stack| && !t.stack[i].why.Clearing?
    ensures BeingDestroyed(t, t.stack[i].obj)
  {
  }

  lemma {:induction false} NotCleared(s: State, d: LetGo, y: ObjId)
    requires Cascading(s, d) && d != MembersOf(y)
    ensures !BeingCleared(s, y)
  {
  }

  lemma {:induction false} OtherHolders(s: State, u: State, p: PtrId, k: Kind, y: ObjId)
    requires u.cells == s.cells - {p} && p in s.cells && s.cells[p].kind != k
    ensures Holders(u, k, y) == Holders(s, k, y)
  {
  }

  /** The handle that goes is not the last one, or its object would be hit. */
  lemma {:induction false} HolderGone(s: State, t: State, d: LetGo, m: Move, y: ObjId)
    requires Inv(s) && Cascading(s, d) && IsMove(s, t, d, m) && !m.Return? && y in s.objs && !IsInvalidating(s.objs[y])
    requires m.p in s.cells && s.cells[m.p].target == Some(y) && !BeingDestroyed(t, y)
    ensures StillHeld(s, t, d, y)
  {
    hide Count, IsInvalidating, Release, SpentIn, CountsOk, RoomOk, LinksOk, SpentOk, ChainOk, FrameOk, BeingDestroyed, ReleaseOn, Holders;
    WithoutOwes(s, t, d, m);
    var u, kind := Without(s, m), s.cells[m.p].kind;
    ReleaseObjects(u, s.cells[m.p]);
    forall k | k != Ref && Holders(s, k, y) != {} ensures Holders(t, k, y) != {} {
      SameCellsSameHolders(u, t, k, y);
      if k == kind {
        if Holders(u, k, y) == {} {
          LastOwnerLost(u, y, k);
        }
      } else {
        OtherHolders(s, u, m.p, k, y);
      }
    }
    if d != MembersOf(y) {
      if !IsHeld(u, y) {
        NotCleared(s, d, y);
        LastHandleLost(u, y, kind);
      }
      var k :| Holders(u, k, y) != {};
      SameCellsSameHolders(u, t, k, y);
      assert Holders(t, k, y) != {};
    }
  }

  lemma {:induction false} SparedRelease(s: State, t: State, d: LetGo, m: Move, y: ObjId)
    requires Inv(s) && Cascading(s, d) && IsMove(s, t, d, m) && !m.Return? && y in s.objs
    requires !BeingDestroyed(s, y) && !BeingDestroyed(t, y)
    ensures StillHeld(s, t, d, y) && y in t.objs && IsInvalid(t.objs[y]) == IsInvalid(s.objs[y])
  {
    hide Count, IsInvalidating, IsInvalid, Release, SpentIn, CountsOk, RoomOk, LinksOk, SpentOk, ChainOk, FrameOk, BeingDestroyed;
    WithoutOwes(s, t, d, m);
    var u, c := Without(s, m), s.cells[m.p];
    if IsInvalidating(s.objs[y]) {
      InvalidatingIsDestroyed(s, y);
    }
    ReleaseObjects(u, c);
    if c.target == Some(y) {
      HolderGone(s, t, d, m, y);
      OwedIsHeld(u, y, c.kind);
      ReleaseRefines(u.objs[y], c.kind);
      if Release(u.objs[y], c.kind).1 == Invalidate {
        assert t.stack[|u.stack|].obj == y;
        NowDestroyed(t, |u.stack|);
      }
    } else {
      forall k ensures Holders(t, k, y) == Holders(s, k, y) {
        assert forall p :: p != m.p ==> (p in t.cells <==> p in s.cells);
      }
    }
  }

  lemma {:induction false} ReturnFlags(s: State, y: ObjId)
    requires s.stack != [] && Top(s).obj in s.objs && y in s.objs && (Top(s).obj == y ==> Top(s).why.Clearing?)
    ensures y in FinishFrame(s).objs && IsInvalid(FinishFrame(s).objs[y]) == IsInvalid(s.objs[y])
  {
    hide FinishInvalidation, SpentIn;
  }

  lemma {:induction false} SparedStep(s: State, t: State, d: LetGo, y: ObjId)
    requires Inv(s) && Cascading(s, d) && CascadeStep(s, t, d) && y in s.objs
    requires !BeingDestroyed(s, y) && !BeingDestroyed(t, y)
    ensures StillHeld(s, t, d, y) && y in t.objs && IsInvalid(t.objs[y]) == IsInvalid(s.objs[y])
  {
    hide Inv, CascadeStep, FinishFrame, IsInvalid, Holders, Cascading;
    var m := MoveOf(s, t, d);
    if m.Return? {
      ReturnObjects(s);
      forall k ensures Holders(t, k, y) == Holders(s, k, y) {
        SameCellsSameHolders(s, t, k, y);
      }
      assert Top(s).obj == y ==> s.stack[|s.stack| - 1].why.Clearing?;
      ReturnFlags(s, y);
    } else {
      SparedRelease(s, t, d, m, y);
    }
  }

  /** A destruction that is over has left no member behind. */
  lemma {:induction false} DestroyedStep(s: State, t: State, d: LetGo, y: ObjId)
    requires Inv(s) && CascadeStep(s, t, d) && (BeingDestroyed(s, y) || !HasCellInside(s, y))
    ensures BeingDestroyed(t, y) || !HasCellInside(t, y)
  {
    hide Inv, CascadeStep, FinishFrame, ReleaseTarget;
    var m := MoveOf(s, t, d);
    CascadeShrinks(s, t, d);
    assert HasCellInside(t, y) ==> HasCellInside(s, y) by {
      if p :| MemberOf(t, p, y) {
        assert MemberOf(s, p, y);
      }
    }
    if BeingDestroyed(s, y) {
      var i :| 0 <= i < |s.stack| && s.stack[i].obj == y && !s.stack[i].why.Clearing?;
      if m.Return? {
        FinishParts(s);
        if i < |s.stack| - 1 {
          NowDestroyed(t, i);
        }
      } else {
        ReleaseObjects(Without(s, m), s.cells[m.p]);
        assert t.stack[i] == s.stack[i];
        NowDestroyed(t, i);
      }
    }
  }

  ghost predicate BeingDeleted(s: State, y: ObjId) {
    exists i :: 0 <= i < |s.stack| && s.stack[i].obj == y && s.stack[i].why.Deleting?
  }

  /** An object that is being destroyed is on its way to be deleted or invalid. */
  ghost predicate Doomed(s: State, y: ObjId) {
    y in s.deleted || (y in s.objs && (IsInvalid(s.objs[y]) || BeingDeleted(s, y)))
  }

  lemma {:induction false} DestroyedIsDoomed(s: State, y: ObjId)
    requires Inv(s) && BeingDestroyed(s, y)
    ensures Doomed(s, y)
  {
    hide Count, IsInvalid, IsInvalidating, CountsOk, RoomOk, LinksOk, SpentOk, ChainOk;
    var i :| 0 <= i < |s.stack| && s.stack[i].obj == y && !s.stack[i].why.Clearing?;
    assert FrameOk(s, i);
  }

  lemma {:induction false} DeletedStep(s: State, t: State, d: LetGo, y: ObjId)
    requires Inv(s) && CascadeStep(s, t, d) && BeingDeleted(s, y) && y in t.objs
    ensures BeingDeleted(t, y)
  {
    hide Inv, CascadeStep, FinishFrame, ReleaseTarget;
    var m := MoveOf(s, t, d);
    var i :| 0 <= i < |s.stack| && s.stack[i].obj == y && s.stack[i].why.Deleting?;
    if m.Return? {
      FinishParts(s);
      ReturnObjects(s);
      assert t.stack[i] == s.stack[i];
    } else {
      ReleaseObjects(Without(s, m), s.cells[m.p]);
      assert t.stack[i] == s.stack[i];
    }
  }

  lemma {:induction false} DoomedStep(s: State, t: State, d: LetGo, y: ObjId)
    requires Inv(s) && CascadeStep(s, t, d) && Doomed(s, y)
    ensures Doomed(t, y)
  {
    hide Inv, CascadeStep, FinishFrame, ReleaseTarget, IsInvalid;
    CascadeShrinks(s, t, d);
    CascadeIsStep(s, t, d);
    if y in s.objs && y in t.objs {
      if IsInvalid(s.objs[y]) {
        InvalidStays(s, t, y);
      } else if BeingDeleted(s, y) {
        DeletedStep(s, t, d, y);
      }
    }
  }

  lemma {:induction false} HitStays(r: seq<State>, i: nat, y: ObjId)
    requires 0 < i < |r| && Hit(r, i - 1, y)
    ensures Hit(r, i, y)
  {
    hide BeingDestroyed;
    var j :| 0 <= j <= i - 1 && j < |r| && BeingDestroyed(r[j], y);
    assert 0 <= j <= i;
  }

  lemma {:induction false} NotHitBefore(r: seq<State>, i: nat, y: ObjId)
    requires 0 < i < |r| && !Hit(r, i, y)
    ensures !Hit(r, i - 1, y) && !BeingDestroyed(r[i], y) && !BeingDestroyed(r[i - 1], y)
  {
    hide BeingDestroyed;
    if Hit(r, i - 1, y) {
      HitStays(r, i, y);
    }
  }

  /** Whatever is not hit keeps handles of the kinds it had. */
  lemma {:induction false} Unhit(r: seq<State>, d: LetGo, i: nat, y: ObjId)
    requires IsGoodCascade(r, d) && i < |r| && y in r[0].objs && !Hit(r, i, y)
    ensures y in r[i].objs && StillHeld(r[0], r[i], d, y) && IsInvalid(r[i].objs[y]) == IsInvalid(r[0].objs[y])
  {
    hide Inv, Cascading, CascadeStep, BeingDestroyed, IsInvalid, Holders, IsGoodCascade;
    if i > 0 {
      NotHitBefore(r, i, y);
      Unhit(r, d, i - 1, y);
      GoodStep(r, d, i - 1);
      SparedStep(r[i - 1], r[i - 1 + 1], d, y);
    }
  }

  /** Whatever has been hit is doomed, and its members go. */
  lemma {:induction false} AfterHit(r: seq<State>, d: LetGo, i: nat, y: ObjId)
    requires IsGoodCascade(r, d) && i < |r| && Hit(r, i, y)
    ensures Doomed(r[i], y) && (BeingDestroyed(r[i], y) || !HasCellInside(r[i], y))
  {
    hide Inv, Cascading, CascadeStep, BeingDestroyed, HasCellInside, IsGoodCascade;
    GoodStep(r, d, i);
    if BeingDestroyed(r[i], y) {
      DestroyedIsDoomed(r[i], y);
    } else {
      var j :| 0 <= j <= i && j < |r| && BeingDestroyed(r[j], y);
      assert j <= i - 1;
      AfterHit(r, d, i - 1, y);
      GoodStep(r, d, i - 1);
      DoomedStep(r[i - 1], r[i - 1 + 1], d, y);
      DestroyedStep(r[i - 1], r[i - 1 + 1], d, y);
    }
  }

  lemma {:induction false} ClearedStep(s: State, t: State, x: ObjId)
    requires Inv(s) && CascadeStep(s, t, MembersOf(x)) && (BeingCleared(s, x) || !HasCellInside(s, x))
    ensures BeingCleared(t, x) || !HasCellInside(t, x)
  {
    hide Inv, CascadeStep, FinishFrame, ReleaseTarget;
    var m := MoveOf(s, t, MembersOf(x));
    CascadeShrinks(s, t, MembersOf(x));
    assert HasCellInside(t, x) ==> HasCellInside(s, x) by {
      if p :| MemberOf(t, p, x) {
        assert MemberOf(s, p, x);
      }
    }
    if BeingCleared(s, x) {
      if m.Return? {
        FinishParts(s);
      } else {
        ReleaseObjects(Without(s, m), s.cells[m.p]);
      }
    }
  }

  /** The members of a cleared object have gone when its Clear is over. */
  lemma {:induction false} ClearedEmpties(r: seq<State>, x: ObjId, i: nat)
    requires IsGoodCascade(r, MembersOf(x)) && BeingCleared(r[0], x) && i < |r|
    ensures BeingCleared(r[i], x) || !HasCellInside(r[i], x)
  {
    hide Inv, Cascading, CascadeStep, HasCellInside, BeingCleared, IsGoodCascade;
    if i > 0 {
      ClearedEmpties(r, x, i - 1);
      GoodStep(r, MembersOf(x), i - 1);
      ClearedStep(r[i - 1], r[i - 1 + 1], x);
    }
  }

  lemma {:induction false} CascadeShrinksAll(r: seq<State>, d: LetGo, i: nat)
    requires IsGoodCascade(r, d) && i < |r|
    ensures forall p :: p in r[i].cells ==> p in r[0].cells && r[i].cells[p] == r[0].cells[p]
    ensures r[i].objs.Keys <= r[0].objs.Keys <= r[i].objs.Keys + r[i].deleted
  {
    hide CascadeStep, Inv, Cascading;
    if i > 0 {
      CascadeShrinksAll(r, d, i - 1);
      CascadeShrinks(r[i - 1], r[i - 1 + 1], d);
    }
  }

  // ----- The objects spared are those kept -----

  ghost function Spared(r: seq<State>): set<ObjId>
    requires r != []
  {
    set y | y in r[0].objs && !Hit(r, |r| - 1, y)
  }

  /** A pointer that is left at the end is one that stays. */
  lemma {:induction false} LeftStays(r: seq<State>, d: LetGo, p: PtrId)
    requires r != [] && IsGoodCascade(r, d) && Ended(r[|r| - 1], d) && p in r[|r| - 1].cells
    requires d.MembersOf? ==> BeingCleared(r[0], d.obj)
    ensures Stays(r[0], d, Spared(r), p)
  {
    hide Inv, Cascading, CascadeStep, IsGoodCascade, Hit;
    var e := |r| - 1;
    CascadeShrinksAll(r, d, e);
    GoodStep(r, d, e);
    var c := r[0].cells[p];
    assert d.OutsideOwners? ==> !Dropped(r[e], d, p);
    if c.owner.Inside? {
      var z := c.owner.obj;
      LinkTarget(r[e], p);
      assert MemberOf(r[e], p, z);
      if Hit(r, e, z) {
        AfterHit(r, d, e, z);
      }
      if d.MembersOf? {
        ClearedEmpties(r, d.obj, e);
      }
    }
  }

  lemma {:induction false} SparedIsKeptAt(r: seq<State>, d: LetGo, y: ObjId)
    requires r != [] && IsGoodCascade(r, d) && Ended(r[|r| - 1], d) && (d.MembersOf? ==> BeingCleared(r[0], d.obj)) && y in Spared(r)
    ensures KeptAt(r[0], d, Spared(r), y)
  {
    hide Inv, Cascading, CascadeStep, IsGoodCascade, Ended, Stays;
    var e := |r| - 1;
    Unhit(r, d, e, y);
    CascadeShrinksAll(r, d, e);
    forall k | Holders(r[e], k, y) != {} ensures StayingHolder(r[0], d, Spared(r), k, y) {
      var p: PtrId :| p in Holders(r[e], k, y);
      LeftStays(r, d, p);
      assert p in Holders(r[0], k, y);
    }
    assert !BeingDestroyed(r[0], y);
    forall i | 0 <= i < |r[0].stack| && r[0].stack[i].obj == y ensures r[0].stack[i].why.Clearing? {
    }
    if d != MembersOf(y) && IsHeld(r[0], y) {
      var k :| Holders(r[e], k, y) != {};
      assert StayingHolder(r[0], d, Spared(r), k, y);
    }
  }

  lemma {:induction false} SparedIsKept(r: seq<State>, d: LetGo)
    requires r != [] && IsGoodCascade(r, d) && Ended(r[|r| - 1], d) && (d.MembersOf? ==> BeingCleared(r[0], d.obj))
    ensures Kept(r[0], d, Spared(r))
  {
    hide Inv, Cascading, CascadeStep, IsGoodCascade, KeptAt, Hit;
    forall y | y in Spared(r) ensures KeptAt(r[0], d, Spared(r), y) {
      SparedIsKeptAt(r, d, y);
    }
  }

  lemma {:induction false} KeptIsUnhit(r: seq<State>, d: LetGo, kept: set<ObjId>, i: nat)
    requires IsGoodCascade(r, d) && Kept(r[0], d, kept) && i < |r|
    ensures Kept(r[i], d, kept) && forall y :: y in kept ==> !Hit(r, i, y)
  {
    hide Inv, Cascading, CascadeStep, IsGoodCascade;
    if i > 0 {
      KeptIsUnhit(r, d, kept, i - 1);
      GoodStep(r, d, i - 1);
      KeptStep(r[i - 1], r[i - 1 + 1], d, kept);
    }
    forall y | y in kept ensures !Hit(r, i, y) {
      assert KeptAt(r[i], d, kept, y);
      assert !BeingDestroyed(r[i], y);
      assert i > 0 ==> !Hit(r, i - 1, y);
    }
  }

  /** In every order of destruction: the contents of an object survive a cascade if and only if, on the heap it starts
      from, the object belongs to a set that is kept. */
  lemma {:induction false} SurvivesIffKept(r: seq<State>, d: LetGo, x: ObjId)
    requires r != [] && IsGoodCascade(r, d) && Ended(r[|r| - 1], d) && (d.MembersOf? ==> BeingCleared(r[0], d.obj)) && x in r[0].objs
    ensures !Hit(r, |r| - 1, x) <==> exists kept :: Kept(r[0], d, kept) && x in kept
  {
    hide Inv, IsGoodCascade, Ended, Kept, Hit;
    if !Hit(r, |r| - 1, x) {
      SparedIsKept(r, d);
    } else if kept :| Kept(r[0], d, kept) && x in kept {
      KeptIsUnhit(r, d, kept, |r| - 1);
    }
  }
}
