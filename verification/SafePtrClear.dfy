/**
  `Clear` destroys the contents of an object without marking it as being destroyed. When that takes the last TObj or the
  last TMObj of the object itself, the object is invalidated while its destructor runs, and its members are released
  twice. Whether this happens can be told from the heap before the call; everything else about handles and counters
  holds in exactly those runs in which it does not.
 */
module SafePtrClear {
  import opened Arithmetic
  import opened PackedCounters
  import opened Wrappers
  import opened SafePtr
  import opened SafePtrCascade

  /** Clearing `x` leaves it a handle of each owning kind it has: `x` belongs to a set of objects whose handles stay when
      the members of `x` go. */
  ghost predicate ClearIsSafe(s: State, x: ObjId) {
    exists kept :: Kept(s, MembersOf(x), kept) && x in kept
  }

  ghost predicate ClearedHere(r: seq<State>, i: nat, x: ObjId) {
    i + 1 < |r| && Enabled(r[i], Clear(x)) && r[i + 1] == Perform(r[i], Clear(x))
  }

  /** A run in which every Clear is safe. */
  ghost predicate EveryClearIsSafe(r: seq<State>) {
    forall i: nat, x: ObjId :: ClearedHere(r, i, x) ==> ClearIsSafe(r[i], x)
  }

  // ----- Runs with safe clears keep the invariant -----

  ghost predicate ClearingSafely(s: State) {
    s.stack != [] && s.stack[0].why.Clearing? ==> ClearIsSafe(s, s.stack[0].obj)
  }

  lemma {:induction false} KeptAfterClear(s: State, x: ObjId)
    requires Enabled(s, Clear(x)) && ClearIsSafe(s, x)
    ensures ClearIsSafe(Perform(s, Clear(x)), x)
  {
    hide Add;
    var t := Perform(s, Clear(x));
    var kept :| Kept(s, MembersOf(x), kept) && x in kept;
    forall y | y in kept ensures KeptAt(t, MembersOf(x), kept, y) {
      assert KeptAt(s, MembersOf(x), kept, y);
      KeptAtStays(s, t, MembersOf(x), kept, y);
    }
    assert Kept(t, MembersOf(x), kept);
  }

  /** A cascade of a safe Clear does not overlap and stays safe. */
  lemma {:induction false} SafeClearStep(s: State, t: State, x: ObjId)
    requires Inv(s) && BeingCleared(s, x) && ClearIsSafe(s, x) && DestroyStep(s, t)
    ensures Inv(t) && ClearIsSafe(t, x) && Cascading(t, MembersOf(x))
  {
    hide Inv, DestroyStep, Overlap;
    var kept :| Kept(s, MembersOf(x), kept) && x in kept;
    KeptStep(s, t, MembersOf(x), kept);
    assert KeptAt(t, MembersOf(x), kept, x);
    if Overlap(t) {
      OverlapIsClear(s, t, MembersOf(x));
    }
    CascadeKeeps(s, t, MembersOf(x));
  }

  /** Any other cascade does not overlap either. */
  lemma {:induction false} OtherStep(s: State, t: State)
    requires Inv(s) && s.stack != [] && !s.stack[0].why.Clearing? && DestroyStep(s, t)
    ensures Inv(t) && Cascading(t, OutsideOwners)
  {
    hide CountsOk, RoomOk, LinksOk, SpentOk, ChainOk, DestroyStep, Overlap;
    forall i | 0 <= i < |s.stack| ensures !s.stack[i].why.Clearing? {
      assert FrameOk(s, i);
    }
    if Overlap(t) {
      OverlapIsClear(s, t, OutsideOwners);
    }
    CascadeKeeps(s, t, OutsideOwners);
  }

  lemma {:induction false} PerformedFrames(s: State, a: Action)
    requires Enabled(s, a)
    ensures !a.Clear? && Perform(s, a).stack != [] ==> !Perform(s, a).stack[0].why.Clearing?
  {
    hide Release, Add, Dec, SpentIn;
  }

  lemma {:induction false} ClearFrame(s: State, x: ObjId)
    requires Enabled(s, Clear(x))
    ensures Perform(s, Clear(x)).stack == [Frame(x, Clearing, {})] && Perform(s, Clear(x)).cells == s.cells
    ensures Perform(s, Clear(x)).objs.Keys == s.objs.Keys
  {
    hide Add;
  }

  lemma {:induction false} SafeStep(s: State, t: State)
    requires Inv(s) && ClearingSafely(s) && Step(s, t)
    requires forall x :: Enabled(s, Clear(x)) && t == Perform(s, Clear(x)) ==> ClearIsSafe(s, x)
    ensures Inv(t) && ClearingSafely(t)
  {
    hide Inv, DestroyStep, Perform, ClearIsSafe;
    if DestroyStep(s, t) {
      OnStack(s, t);
      if s.stack[0].why.Clearing? {
        SafeClearStep(s, t, s.stack[0].obj);
      } else {
        OtherStep(s, t);
      }
    } else {
      var a :| Enabled(s, a) && t == Perform(s, a);
      PerformKeeps(s, a);
      PerformedFrames(s, a);
      if a.Clear? {
        KeptAfterClear(s, a.x);
        ClearFrame(s, a.x);
      }
    }
  }

  lemma {:induction false} SafePrefix(r: seq<State>, i: nat)
    requires IsRun(r) && Inv(r[0]) && r[0].stack == [] && i < |r|
    requires forall j: nat, x: ObjId :: j < i && ClearedHere(r, j, x) ==> ClearIsSafe(r[j], x)
    ensures Inv(r[i]) && ClearingSafely(r[i])
  {
    hide Inv, Step, ClearIsSafe;
    if i > 0 {
      SafePrefix(r, i - 1);
      assert Step(r[i - 1], r[i - 1 + 1]);
      forall x | Enabled(r[i - 1], Clear(x)) && r[i] == Perform(r[i - 1], Clear(x)) ensures ClearIsSafe(r[i - 1], x) {
        assert ClearedHere(r, i - 1, x);
      }
      SafeStep(r[i - 1], r[i]);
    }
  }

  lemma {:induction false} SafeRunIsGood(r: seq<State>)
    requires IsRun(r) && Inv(r[0]) && r[0].stack == [] && EveryClearIsSafe(r)
    ensures IsGoodRun(r)
  {
    hide Inv, Step, ClearedHere, ClearIsSafe;
    forall i | 0 <= i < |r| ensures Inv(r[i]) {
      SafePrefix(r, i);
    }
  }

  /** An object that is invalid or deleted is so at every later point, in every run in which every Clear is safe. */
  lemma {:induction false} InvalidForGood(r: seq<State>, i: nat, j: nat, x: ObjId)
    requires IsRun(r) && Inv(r[0]) && r[0].stack == [] && EveryClearIsSafe(r) && i <= j < |r|
    requires x in r[i].deleted || (x in r[i].objs && IsInvalid(r[i].objs[x]))
    ensures x in r[j].deleted || (x in r[j].objs && IsInvalid(r[j].objs[x]))
  {
    hide Inv, IsRun, EveryClearIsSafe, IsInvalid;
    SafeRunIsGood(r);
    DoomedForGood(r, i, j, x);
  }

  lemma {:induction false} OnlyFrame(s: State, x: ObjId, i: nat)
    requires !Overlap(s)
    ensures BeingCleared(s, x) && i < |s.stack| && s.stack[i].obj == x ==> i == 0
  {
  }

  lemma {:induction false} OnePin(s: State, x: ObjId)
    requires FramesOk(s) && x in s.objs
    ensures Pins(s, x) <= 1
  {
    hide IsInvalidating, FrameOk;
    forall i: nat ensures !(BeingCleared(s, x) && InvalidatingFrame(s, i, x)) {
      OnlyFrame(s, x, i);
    }
  }

  /** In every run from the empty heap in which every Clear is safe, and at every point of it, the packed words of every
      object count its handles, plus one reference for a Clear or invalidation in progress, and no pointer leads to a
      deleted object. */
  lemma {:induction false} HandlesAreCounted(r: seq<State>, i: nat, x: ObjId)
    requires IsRun(r) && r[0] == EMPTY && EveryClearIsSafe(r) && i < |r| && x in r[i].objs
    ensures var s := r[i];
            && s.objs[x].refData == |Holders(s, Ref, x)| + Pins(s, x) && Pins(s, x) <= 1
            && ObjBits(s.objs[x].objData) == |Holders(s, Obj, x)|
            && MObjBits(s.objs[x].objData) == |Holders(s, MObj, x)|
    ensures forall p :: p in r[i].cells && r[i].cells[p].target.Some? ==> r[i].cells[p].target.value !in r[i].deleted
  {
    hide Step, ClearIsSafe, RoomOk, SpentOk, ChainOk;
    EmptyInv();
    SafePrefix(r, i);
    var s := r[i];
    assert Count(s.objs[x], Ref) == Due(s, None, Ref, x);
    assert Count(s.objs[x], Obj) == Due(s, None, Obj, x);
    assert Count(s.objs[x], MObj) == Due(s, None, MObj, x);
    OnePin(s, x);
    forall p | p in s.cells && s.cells[p].target.Some? ensures s.cells[p].target.value !in s.deleted {
      assert Live(s, s.cells[p].target);
    }
  }

  // ----- An unsafe Clear breaks the counting -----

  /** The counters count the handles, pointers lead to objects that exist, and no deleted object has been touched. */
  ghost predicate Sound(s: State) {
    !s.crashed && CountsOk(s, None) && LinksOk(s)
  }

  lemma {:induction false} ObjBorrow(w: Word)
    ensures ObjBits(Wrap(w - 1)) != ObjBits(w)
  {
    var q, r := w / UNIT_MOBJ, w % UNIT_MOBJ;
    if r > 0 {
      Quotient(w - 1, UNIT_MOBJ, q, r - 1);
    } else if w > 0 {
      Quotient(w - 1, UNIT_MOBJ, q - 1, UNIT_MOBJ - 1);
    }
  }

  lemma {:induction false} MObjBorrow(w: Word)
    ensures MObjBits(Wrap(w - UNIT_MOBJ)) != MObjBits(w)
  {
    var q, r := w / UNIT_MOBJ, w % UNIT_MOBJ;
    if q > 0 {
      Quotient(w - UNIT_MOBJ, UNIT_MOBJ, q - 1, r);
      assert (q - 1) % 0x400 != q % 0x400;
    } else {
      Quotient(w - UNIT_MOBJ + 0x1_0000_0000, UNIT_MOBJ, 0xfff, r);
    }
  }

  /** A release always changes the field of its kind, with or without a borrow. */
  lemma {:induction false} ReleaseChanges(c: Counters, k: Kind)
    ensures Count(Release(c, k).0, k) != Count(c, k)
    ensures k == Ref ==> Release(c, k).0.objData == c.objData
  {
    hide ObjBits, MObjBits, Bit30, Bit31, CountBits;
    FlagsRefine(Dec(c, k).objData);
    if k == Obj {
      ObjBorrow(c.objData);
    } else if k == MObj {
      MObjBorrow(c.objData);
    }
  }

  lemma {:induction false} FieldsFull(w: Word, k: Kind)
    requires k != Ref && BIT_31 <= w < BIT_31 + Unit(k)
    ensures MObjBits(w - Unit(k)) == 0x3ff && (k == Obj ==> ObjBits(w - Unit(k)) == 0xf_ffff)
  {
    if k == MObj {
      Quotient(w - UNIT_MOBJ, UNIT_MOBJ, 0x7ff, w - BIT_31);
    }
  }

  /** A release takes the flag off an invalid object exactly when all bits from the field of its kind up to the flag are
      zero. */
  lemma {:induction false} FlagLostIffBorrowed(c: Counters, k: Kind)
    requires IsInvalid(c)
    ensures !IsInvalid(Release(c, k).0) <==> k != Ref && c.objData < BIT_31 + Unit(k)
  {
    hide CountBits, ObjBits, MObjBits, Bit30;
    var w, u := c.objData, Unit(k);
    if k == Ref {
    } else if w - u < BIT_31 {
      FieldsFull(w, k);
    } else {
      Unpack(w - u);
    }
  }

  /** A release without a handle that goes spoils the count. */
  lemma {:induction false} ReleaseMiscounts(s: State, w: ObjId, k: Kind)
    requires CountsOk(s, None) && w in s.objs
    ensures !CountsOk(ReleaseOn(s, w, k), None)
  {
    hide Count, Release, SpentIn;
    var t := ReleaseOn(s, w, k);
    ReleaseChanges(s.objs[w], k);
    assert Count(s.objs[w], k) == Due(s, None, k, w);
    SameCellsSameHolders(s, t, k, w);
    assert BeingCleared(t, w) == BeingCleared(s, w);
    assert Due(t, None, k, w) == Due(s, None, k, w);
  }

  /** Releasing a member a second time breaks the counting or touches a deleted object. */
  lemma {:induction false} AgainBreaks(s: State, p: PtrId)
    requires s.stack != [] && Sound(s) && p in s.spent && s.spent[p].target.Some?
    ensures !Sound(DropAgain(s, p))
  {
    hide Count, IsInvalidating, Release, SpentIn, LinksOk;
    var f := Top(s);
    var u := Pop(s).(stack := Pop(s).stack + [f.(again := f.again - {p})]);
    forall x ensures BeingCleared(u, x) == BeingCleared(s, x) {
    }
    forall x, k | x in u.objs ensures Count(u.objs[x], k) == Due(u, None, k, x) {
      assert Count(s.objs[x], k) == Due(s, None, k, x);
      SameCellsSameHolders(s, u, k, x);
    }
    if s.spent[p].target.value in s.objs {
      ReleaseMiscounts(u, s.spent[p].target.value, s.spent[p].kind);
    }
  }

  /** A second destruction of `x`, at index `n` of the stack, has member `m` to release again. */
  ghost predicate Stuck(s: State, n: nat, x: ObjId, m: PtrId) {
    && 0 < n < |s.stack| && s.stack[n].obj == x && m in s.stack[n].again
    && ShowsTarget(s, m, x) && m !in s.cells
    && x in s.objs && IsInvalidating(s.objs[x]) && BeingCleared(s, x)
    && (forall i :: n < i < |s.stack| ==> s.stack[i].obj != x)
  }

  lemma {:induction false} InvalidatedNow(u: State, x: ObjId, k: Kind)
    requires InvOwing(u, Some((x, k))) && x in u.objs && |ReleaseOn(u, x, k).stack| > |u.stack|
    requires Top(ReleaseOn(u, x, k)).why.Invalidating?
    ensures x in ReleaseOn(u, x, k).objs && IsInvalidating(ReleaseOn(u, x, k).objs[x])
  {
    hide Count, IsInvalidating, IsInvalid, Release, SpentIn, CountsOk, RoomOk, LinksOk, FramesOk, SpentOk, ChainOk;
    OwedIsHeld(u, x, k);
    ReleaseRefines(u.objs[x], k);
  }

  /** A member of the object being cleared that has been released already, the one just released included. */
  lemma {:induction false} ShownMember(s: State, v: Move, x: ObjId) returns (m: PtrId)
    requires Inv(s) && BeingCleared(s, x) && v.DropOne? && MemberOf(s, v.p, Top(s).obj) && s.cells[v.p].target.Some?
    ensures var u := Without(s, v); ShowsTarget(u, m, x) && m !in u.cells
  {
    hide CountsOk, RoomOk, LinksOk, FramesOk, HasFrame;
    if |s.stack| == 1 {
      m := v.p;
    } else {
      assert HasShown(s, s.stack[0].obj);
      m :| ShowsTarget(s, m, x);
      assert m !in s.cells;
    }
  }

  lemma {:induction false} SpentIsAgain(u: State, x: ObjId, m: PtrId)
    requires ShowsTarget(u, m, x)
    ensures m in SpentIn(u, x)
  {
  }

  /** The first overlap leaves a member to be released again. */
  lemma {:induction false} OverlapIsStuck(s: State, t: State, x: ObjId) returns (m: PtrId)
    requires Inv(s) && BeingCleared(s, x) && DestroyStep(s, t) && Overlap(t)
    ensures Stuck(t, |t.stack| - 1, x, m)
  {
    hide CountsOk, RoomOk, LinksOk, FrameOk, DestroyStep, ReleaseOn, FinishFrame, IsInvalidating, Overlap, SpentOk;
    var d := MembersOf(x);
    OverlapIsClear(s, t, d);
    var v := MoveOf(s, t, d);
    if v.Return? {
      FinishParts(s);
      ReturnFrames(s);
      assert false;
    } else {
      WithoutOwes(s, t, d, v);
      var u, c := Without(s, v), s.cells[v.p];
      if c.target.Some? {
        NewFrame(u, c.target.value, c.kind);
        ReleaseObjects(u, c);
        InvalidatedNow(u, x, c.kind);
        m := ShownMember(s, v, x);
        SpentIsAgain(u, x, m);
      } else {
        assert false;
      }
    }
  }

  /** An object that is being invalidated and still referenced is not destroyed a second time by a release. */
  lemma {:induction false} PinnedRelease(c: Counters, k: Kind)
    requires Count(c, k) > 0 && IsInvalidating(c) && Count(Dec(c, k), Ref) > 0
    ensures Release(c, k).1 == Nothing && IsInvalidating(Release(c, k).0)
  {
    hide ObjBits, MObjBits, Bit30, Bit31, CountBits, Dec;
    DecRefines(c, k);
  }

  lemma {:induction false} PinnedTarget(s: State, p: PtrId, x: ObjId)
    requires CountsOk(s, None) && x in s.objs && IsInvalidating(s.objs[x]) && BeingCleared(s, x)
    requires p in s.cells && s.cells[p].target == Some(x)
    ensures var k := s.cells[p].kind; Count(s.objs[x], k) > 0 && Count(Dec(s.objs[x], k), Ref) > 0
  {
    hide Count, IsInvalidating, Dec;
    var k := s.cells[p].kind;
    CountedHolder(s, None, k, x, p);
    DecRefines(s.objs[x], k);
    assert Count(s.objs[x], Ref) == Due(s, None, Ref, x);
    if k == Ref {
      assert p in Holders(s, Ref, x);
      assert |Holders(s, Ref, x)| >= 1;
    }
  }

  lemma {:induction false} StuckDrop(s: State, p: PtrId, n: nat, x: ObjId, m: PtrId)
    requires Stuck(s, n, x, m) && Sound(s) && MemberOf(s, p, Top(s).obj)
    ensures Stuck(DropMember(s, p), n, x, m)
  {
    hide Count, IsInvalidating, Release, SpentIn, CountsOk;
    var t, c := DropMember(s, p), s.cells[p];
    var u := s.(cells := s.cells - {p}, spent := s.spent[p := c]);
    ReleaseObjects(u, c);
    assert p != m && Live(s, c.target);
    if c.target == Some(x) {
      PinnedTarget(s, p, x);
      PinnedRelease(s.objs[x], c.kind);
    }
    assert forall i :: 0 <= i < |s.stack| ==> t.stack[i] == s.stack[i];
    forall i | n < i < |t.stack| ensures t.stack[i].obj != x {
      assert i < |s.stack| ==> s.stack[i].obj != x;
    }
  }

  lemma {:induction false} StuckReturn(s: State, n: nat, x: ObjId, m: PtrId)
    requires Stuck(s, n, x, m) && Emptied(s) && Top(s).obj in s.objs
    ensures Stuck(FinishFrame(s), n, x, m)
  {
    hide Count, IsInvalidating, FinishInvalidation, Dec;
    var t := FinishFrame(s);
    FinishParts(s);
    assert n != |s.stack| - 1 && Top(s).obj != x;
    assert t.stack[0] == s.stack[0] && t.stack[n] == s.stack[n];
    assert m !in SpentIn(s, Top(s).obj);
    forall i | n < i < |t.stack| ensures t.stack[i].obj != x {
      assert s.stack[i].obj != x;
    }
  }

  lemma {:induction false} StuckAgain(s: State, p: PtrId, n: nat, x: ObjId, m: PtrId)
    requires Stuck(s, n, x, m) && Sound(s) && p in Top(s).again && Sound(DropAgain(s, p))
    ensures Stuck(DropAgain(s, p), n, x, m)
  {
    hide Count, IsInvalidating, CountsOk, LinksOk, ReleaseOn, Sound;
    if p in s.spent && s.spent[p].target.Some? {
      AgainBreaks(s, p);
    }
    var t := DropAgain(s, p);
    assert forall i :: 0 <= i < |s.stack| ==> t.stack[i].obj == s.stack[i].obj && t.stack[i].why == s.stack[i].why;
    assert m in t.stack[n].again;
  }

  lemma {:induction false} StuckStep(s: State, t: State, n: nat, x: ObjId, m: PtrId)
    requires Stuck(s, n, x, m) && Sound(s) && Step(s, t) && Sound(t)
    ensures Stuck(t, n, x, m)
  {
    hide DropMember, DropAgain, FinishFrame, CountsOk, LinksOk, Perform, HasCellInside;
    assert s.stack != [] && DestroyStep(s, t);
    if p :| MemberOf(s, p, Top(s).obj) && t == DropMember(s, p) {
      StuckDrop(s, p, n, x, m);
    } else if p :| p in Top(s).again && t == DropAgain(s, p) {
      StuckAgain(s, p, n, x, m);
    } else if Top(s).obj in s.objs {
      StuckReturn(s, n, x, m);
    }
  }

  lemma {:induction false} StuckStays(r: seq<State>, a: nat, j: nat, n: nat, x: ObjId, m: PtrId)
    requires IsRun(r) && a <= j < |r| && Stuck(r[a], n, x, m) && forall i :: 0 <= i < |r| ==> Sound(r[i])
    ensures Stuck(r[j], n, x, m)
    decreases j
  {
    hide Step, Sound, Stuck;
    if a < j {
      StuckStays(r, a, j - 1, n, x, m);
      assert Step(r[j - 1], r[j - 1 + 1]);
      StuckStep(r[j - 1], r[j], n, x, m);
    }
  }

  lemma {:induction false} NotDestroyed(s: State, x: ObjId)
    requires Inv(s) && Cascading(s, MembersOf(x))
    ensures !BeingDestroyed(s, x)
  {
    hide CountsOk, RoomOk, LinksOk, SpentOk, ChainOk, FrameOk;
    forall i | 0 <= i < |s.stack| && s.stack[i].obj == x ensures s.stack[i].why.Clearing? {
      OnlyFrame(s, x, i);
    }
  }

  lemma {:induction false} ClearingIsNotHit(c: seq<State>, x: ObjId)
    requires IsGoodCascade(c, MembersOf(x))
    ensures !Hit(c, |c| - 1, x)
  {
    hide Inv, CascadeStep;
    forall j | 0 <= j < |c| ensures !BeingDestroyed(c[j], x) {
      GoodStep(c, MembersOf(x), j);
      NotDestroyed(c[j], x);
    }
  }

  /** A cascade of a Clear that ends without an overlap was safe to begin with. */
  lemma {:induction false} EndedIsSafe(s: State, x: ObjId, c: seq<State>)
    requires Enabled(s, Clear(x)) && c != [] && c[0] == Perform(s, Clear(x))
    requires IsGoodCascade(c, MembersOf(x)) && c[|c| - 1].stack == []
    ensures ClearIsSafe(s, x)
  {
    hide Inv, CascadeStep, Hit, Perform, KeptAt, IsGoodCascade;
    ClearFrame(s, x);
    ClearingIsNotHit(c, x);
    SurvivesIffKept(c, MembersOf(x), x);
    var kept :| Kept(c[0], MembersOf(x), kept) && x in kept;
    forall y | y in kept ensures KeptAt(s, MembersOf(x), kept, y) {
      KeptAtStays(c[0], s, MembersOf(x), kept, y);
    }
    assert Kept(s, MembersOf(x), kept);
  }

  lemma {:induction false} ExtendGood(c: seq<State>, t: State, d: LetGo)
    requires IsGoodCascade(c, d) && CascadeStep(c[|c| - 1], t, d) && Inv(t)
    ensures IsGoodCascade(c + [t], d)
  {
    hide Inv, CascadeStep, Cascading;
  }

  lemma {:induction false} StartGood(s: State, x: ObjId)
    requires Inv(s) && Enabled(s, Clear(x))
    ensures IsGoodCascade([Perform(s, Clear(x))], MembersOf(x)) && BeingCleared(Perform(s, Clear(x)), x)
  {
    hide Inv, Perform;
    ClearFrame(s, x);
    PerformKeeps(s, Clear(x));
  }

  lemma {:induction false} OnlyDestroys(s: State, t: State, x: ObjId)
    requires Step(s, t) && s.stack != [] && Cascading(s, MembersOf(x))
    ensures DestroyStep(s, t) && CascadeStep(s, t, MembersOf(x)) && BeingCleared(s, x)
  {
    hide DestroyStep, Perform;
  }

  /** In a run that comes to its end and stays sound, a Clear was safe. */
  lemma {:induction false} SoundWasSafe(r: seq<State>, i: nat, x: ObjId, j: nat)
    requires IsRun(r) && r[|r| - 1].stack == [] && forall a :: 0 <= a < |r| ==> Sound(r[a])
    requires ClearedHere(r, i, x) && i < j < |r| && IsGoodCascade(r[i + 1..j + 1], MembersOf(x))
    ensures ClearIsSafe(r[i], x)
    decreases |r| - j
  {
    hide Inv, Step, DestroyStep, Perform, Sound, Cascading, ClearIsSafe, Overlap, CascadeStep, IsGoodCascade;
    var c := r[i + 1..j + 1];
    assert c[|c| - 1] == r[j] && c[0] == r[i + 1];
    if r[j].stack == [] {
      EndedIsSafe(r[i], x, c);
    } else {
      assert Step(r[j], r[j + 1]);
      GoodStep(c, MembersOf(x), |c| - 1);
      OnlyDestroys(r[j], r[j + 1], x);
      if Overlap(r[j + 1]) {
        var m := OverlapIsStuck(r[j], r[j + 1], x);
        StuckStays(r, j + 1, |r| - 1, |r[j + 1].stack| - 1, x, m);
        assert false;
      }
      CascadeKeeps(r[j], r[j + 1], MembersOf(x));
      ExtendGood(c, r[j + 1], MembersOf(x));
      assert r[i + 1..j + 2] == c + [r[j + 1]];
      SoundWasSafe(r, i, x, j + 1);
    }
  }

  lemma {:induction false} InvIsSound(s: State)
    requires Inv(s)
    ensures Sound(s)
  {
  }

  lemma {:induction false} NotCrashed(s: State)
    requires Sound(s)
    ensures !s.crashed
  {
  }

  lemma {:induction false} SafeUpTo(r: seq<State>, n: nat)
    requires IsRun(r) && r[0] == EMPTY && r[|r| - 1].stack == [] && n <= |r| && forall i :: 0 <= i < |r| ==> Sound(r[i])
    ensures forall i: nat, x: ObjId :: i < n && ClearedHere(r, i, x) ==> ClearIsSafe(r[i], x)
  {
    hide Inv, Step, Sound, ClearIsSafe, Perform;
    EmptyInv();
    if n > 0 {
      var k := n - 1;
      SafeUpTo(r, k);
      forall x | ClearedHere(r, k, x) ensures ClearIsSafe(r[k], x) {
        SafePrefix(r, k);
        StartGood(r[k], x);
        assert r[k + 1..k + 2] == [r[k + 1]];
        SoundWasSafe(r, k, x, k + 1);
      }
    }
  }

  /** Every run from the empty heap that has come to its end: the counters count the handles at every point of it and no
      deleted object is touched, if and only if every Clear in it is safe. */
  lemma {:induction false} SoundIffClearsAreSafe(r: seq<State>)
    requires IsRun(r) && r[0] == EMPTY && (r[|r| - 1].stack == [] || r[|r| - 1].crashed)
    ensures (forall i :: 0 <= i < |r| ==> Sound(r[i])) <==> EveryClearIsSafe(r)
  {
    hide Inv, Step, Perform, Enabled, ClearIsSafe, Sound;
    EmptyInv();
    if EveryClearIsSafe(r) {
      forall i | 0 <= i < |r| ensures Sound(r[i]) {
        SafePrefix(r, i);
        InvIsSound(r[i]);
      }
    } else if forall i :: 0 <= i < |r| ==> Sound(r[i]) {
      NotCrashed(r[|r| - 1]);
      SafeUpTo(r, |r|);
    }
  }

  // ----- One Clear -----

  /** A cascade that `Clear(x)` can lead to. */
  ghost predicate IsClearRun(s: State, x: ObjId, c: seq<State>)
    requires Enabled(s, Clear(x))
  {
    IsCascade(c, MembersOf(x)) && c[0] == Perform(s, Clear(x))
  }

  lemma {:induction false} ClearMove(s: State, t: State, x: ObjId)
    requires CascadeStep(s, t, MembersOf(x)) && Cascading(s, MembersOf(x))
    ensures DestroyStep(s, t) && BeingCleared(s, x)
  {
    OnStack(s, t);
  }

  lemma {:induction false} SafeClearRun(s: State, x: ObjId, c: seq<State>, i: nat)
    requires Inv(s) && Enabled(s, Clear(x)) && ClearIsSafe(s, x) && IsClearRun(s, x, c) && i < |c|
    ensures Inv(c[i]) && ClearIsSafe(c[i], x) && Cascading(c[i], MembersOf(x))
  {
    hide Inv, CascadeStep, ClearIsSafe, Perform;
    if i == 0 {
      ClearFrame(s, x);
      PerformKeeps(s, Clear(x));
      KeptAfterClear(s, x);
    } else {
      SafeClearRun(s, x, c, i - 1);
      assert CascadeStep(c[i - 1], c[i - 1 + 1], MembersOf(x));
      ClearMove(c[i - 1], c[i], x);
      SafeClearStep(c[i - 1], c[i], x);
    }
  }

  lemma {:induction false} ExtendRun(c: seq<State>, t: State, d: LetGo)
    requires IsCascade(c, d) && CascadeStep(c[|c| - 1], t, d)
    ensures IsCascade(c + [t], d) && (c + [t])[0] == c[0]
  {
    hide CascadeStep;
  }

  lemma {:induction false} StuckBreaks(s: State, n: nat, x: ObjId, m: PtrId) returns (u: State)
    requires Stuck(s, n, x, m) && n == |s.stack| - 1 && Sound(s)
    ensures CascadeStep(s, u, MembersOf(x)) && !Sound(u)
  {
    hide DropAgain, CountsOk, LinksOk, IsInvalidating;
    u := DropAgain(s, m);
    AgainBreaks(s, m);
  }

  /** From an unsafe heap some cascade breaks, as soon as the overlap has come about. */
  lemma {:induction false} BreakingRun(s: State, x: ObjId, c: seq<State>) returns (b: seq<State>)
    requires Inv(s) && Enabled(s, Clear(x)) && !ClearIsSafe(s, x)
    requires IsClearRun(s, x, c) && IsGoodCascade(c, MembersOf(x))
    ensures IsClearRun(s, x, b) && b != [] && !Sound(b[|b| - 1])
    decreases Weight(c[|c| - 1])
  {
    hide Inv, CascadeStep, Cascading, ClearIsSafe, Perform, Weight, Overlap, Sound, IsGoodCascade, IsInvalidating;
    assert c != [];
    var e, d := c[|c| - 1], MembersOf(x);
    GoodStep(c, d, |c| - 1);
    if e.stack == [] {
      EndedIsSafe(s, x, c);
      assert false;
    }
    var t := CascadeProgress(e, d);
    ClearMove(e, t, x);
    ExtendRun(c, t, d);
    if Overlap(t) {
      var m := OverlapIsStuck(e, t, x);
      b := c + [t];
      if Sound(t) {
        var u := StuckBreaks(t, |t.stack| - 1, x, m);
        ExtendRun(b, u, d);
        b := b + [u];
      }
    } else {
      CascadeStepLighter(e, t, d);
      CascadeKeeps(e, t, d);
      ExtendGood(c, t, d);
      b := BreakingRun(s, x, c + [t]);
    }
  }

  /** For every heap and every object: all cascades of `Clear` keep the counting, in every order of destruction, if and
      only if the object keeps a handle of each owning kind it has. */
  lemma {:induction false} ClearIsSoundIffSafe(s: State, x: ObjId)
    requires Inv(s) && Enabled(s, Clear(x))
    ensures ClearIsSafe(s, x) <==> forall c :: IsClearRun(s, x, c) ==> Sound(c[|c| - 1])
  {
    hide Inv, CascadeStep, ClearIsSafe, Perform, Sound;
    if ClearIsSafe(s, x) {
      forall c | IsClearRun(s, x, c) ensures Sound(c[|c| - 1]) {
        SafeClearRun(s, x, c, |c| - 1);
        InvIsSound(c[|c| - 1]);
      }
    } else {
      StartGood(s, x);
      assert IsClearRun(s, x, [Perform(s, Clear(x))]);
      var b := BreakingRun(s, x, [Perform(s, Clear(x))]);
      assert IsClearRun(s, x, b) && !Sound(b[|b| - 1]);
    }
  }

  // ----- An object that owns itself -----

  const SELF := Cell(Obj, Inside(0), Some(0))
  const CLEARING := Frame(0, Clearing, {})

  /** States of a heap with the one object 0. */
  function One(objData: Word, refData: Word, cells: map<PtrId, Cell>, spent: map<PtrId, Cell>, stack: seq<Frame>): State {
    State(map[0 := Counters(objData, refData)], cells, spent, stack, {}, false)
  }

  /** A run: an object with one member, a TObj on itself, is made and cleared. */
  const SELF_OWNED_RUN: seq<State> := [
    EMPTY,
    One(0, 0, map[], map[], []),
    One(1, 0, map[0 := SELF], map[], []),
    One(1, 1, map[0 := SELF], map[], [CLEARING]),
    One(0xc000_0000, 2, map[], map[0 := SELF], [CLEARING, Frame(0, Invalidating(Obj), {0})]),
    One(0xbfff_ffff, 2, map[], map[0 := SELF], [CLEARING, Frame(0, Invalidating(Obj), {})]),
    One(0xbfff_ffff, 1, map[], map[], [CLEARING]),
    One(0xbfff_ffff, 0, map[], map[], [])]

  lemma {:induction false} MakeSelfOwned()
    ensures Enabled(SELF_OWNED_RUN[0], NewObject(0)) && SELF_OWNED_RUN[1] == Perform(SELF_OWNED_RUN[0], NewObject(0))
    ensures Enabled(SELF_OWNED_RUN[1], NewPtr(0, Obj, Inside(0), Some(0)))
    ensures SELF_OWNED_RUN[2] == Perform(SELF_OWNED_RUN[1], NewPtr(0, Obj, Inside(0), Some(0)))
    ensures Enabled(SELF_OWNED_RUN[2], Clear(0)) && SELF_OWNED_RUN[3] == Perform(SELF_OWNED_RUN[2], Clear(0))
  {
  }

  lemma {:induction false} FirstRelease()
    ensures SELF_OWNED_RUN[4] == DropMember(SELF_OWNED_RUN[3], 0) && DestroyStep(SELF_OWNED_RUN[3], SELF_OWNED_RUN[4])
  {
    var s := SELF_OWNED_RUN[3];
    var u := s.(cells := s.cells - {0}, spent := s.spent[0 := SELF]);
    assert u == One(1, 1, map[], map[0 := SELF], [CLEARING]);
    assert SpentIn(u, 0) == {0};
    assert Release(Counters(1, 1), Obj) == (Counters(0xc000_0000, 2), Invalidate);
    assert MemberOf(s, 0, 0);
  }

  lemma {:induction false} SecondRelease()
    ensures SELF_OWNED_RUN[5] == DropAgain(SELF_OWNED_RUN[4], 0) && DestroyStep(SELF_OWNED_RUN[4], SELF_OWNED_RUN[5])
  {
    assert Release(Counters(0xc000_0000, 2), Obj) == (Counters(0xbfff_ffff, 2), Nothing);
    assert {0} - {0} == {};
    assert 0 in Top(SELF_OWNED_RUN[4]).again;
  }

  lemma {:induction false} BothReturn()
    ensures DestroyStep(SELF_OWNED_RUN[5], SELF_OWNED_RUN[6]) && DestroyStep(SELF_OWNED_RUN[6], SELF_OWNED_RUN[7])
  {
    assert FinishInvalidation(Counters(0xbfff_ffff, 2)) == (Counters(0xbfff_ffff, 1), Nothing);
    assert Dec(Counters(0xbfff_ffff, 1), Ref) == Counters(0xbfff_ffff, 0);
    var s, t := SELF_OWNED_RUN[5], SELF_OWNED_RUN[6];
    assert s.spent - SpentIn(s, 0) == map[] && t.spent - SpentIn(t, 0) == map[];
    assert Emptied(s) && SELF_OWNED_RUN[6] == FinishFrame(s);
    assert Emptied(t) && SELF_OWNED_RUN[7] == FinishFrame(t);
  }

  lemma {:induction false} SelfOwnedRun()
    ensures IsRun(SELF_OWNED_RUN)
  {
    hide DestroyStep, Perform, Enabled, One;
    MakeSelfOwned();
    FirstRelease();
    SecondRelease();
    BothReturn();
    var r := SELF_OWNED_RUN;
    assert Step(r[0], r[1]) && Step(r[1], r[2]) && Step(r[2], r[3]) && Step(r[3], r[4]);
    assert Step(r[4], r[5]) && Step(r[5], r[6]) && Step(r[6], r[7]);
  }

  lemma {:induction false} Miscounted(s: State)
    requires 0 in s.objs && s.objs[0].objData == 0xbfff_ffff && s.cells == map[]
    ensures !Sound(s)
  {
    assert Holders(s, Obj, 0) == {};
    assert Count(s.objs[0], Obj) != Due(s, None, Obj, 0);
  }

  lemma {:induction false} OnlyClear()
    ensures forall j: nat, x: ObjId :: j < 5 && ClearedHere(SELF_OWNED_RUN, j, x) ==> j == 2 && x == 0
  {
    forall j: nat, x: ObjId | j < 5 && ClearedHere(SELF_OWNED_RUN, j, x) ensures j == 2 && x == 0 {
      ClearFrame(SELF_OWNED_RUN[j], x);
      assert SELF_OWNED_RUN[j + 1].stack == [Frame(x, Clearing, {})];
      assert SELF_OWNED_RUN[j].stack == [];
    }
  }

  /** The member is released twice. That borrows through both counts and the flag for an invalidation in progress, so
      the assertion at the end of the invalidation fails, and the counts stay wrong although no handle is left. */
  lemma {:induction false} ClearingSelfOwned()
    ensures IsRun(SELF_OWNED_RUN) && ClearedHere(SELF_OWNED_RUN, 2, 0) && !ClearIsSafe(SELF_OWNED_RUN[2], 0)
    ensures ObjBits(0xbfff_ffff) == 0xf_ffff && MObjBits(0xbfff_ffff) == 0x3ff && Bit30(0xbfff_ffff) == 0
    ensures !Sound(SELF_OWNED_RUN[5]) && !Sound(SELF_OWNED_RUN[7])
  {
    hide IsRun, DestroyStep, Perform, Enabled, ClearIsSafe, Sound, Inv;
    var r := SELF_OWNED_RUN;
    SelfOwnedRun();
    MakeSelfOwned();
    Miscounted(r[5]);
    Miscounted(r[7]);
    if ClearIsSafe(r[2], 0) {
      OnlyClear();
      EmptyInv();
      SafePrefix(r, 5);
      InvIsSound(r[5]);
    }
  }
}
