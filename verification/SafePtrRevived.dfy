/**
  A run in which an invalid object becomes valid again. Object 0 has a TObj on itself and a TObj on object 1 among its
  members, and the program holds a TPtr on object 1. Clearing object 0 is not safe.
 */
module SafePtrRevived {
  import opened PackedCounters
  import opened Wrappers
  import opened SafePtr
  import opened SafePtrClear

  const ON_ITSELF := Cell(Obj, Inside(0), Some(0))
  const ON_OTHER := Cell(Obj, Inside(0), Some(1))
  const WATCH := Cell(Ref, Outside, Some(1))

  /** States of a heap with the objects 0 and 1, with their two words. */
  function Two(x: Counters, y: Counters, cells: map<PtrId, Cell>, spent: map<PtrId, Cell>, stack: seq<Frame>): State {
    State(map[0 := x, 1 := y], cells, spent, stack, {}, false)
  }

  const MEMBERS := map[0 := ON_ITSELF, 1 := ON_OTHER, 2 := WATCH]
  const DESTROYED := map[0 := ON_ITSELF, 1 := ON_OTHER]

  const ONE_OBJECT := State(map[0 := Counters(0, 0)], map[], map[], [], {}, false)
  const TWO_OBJECTS := Two(Counters(0, 0), Counters(0, 0), map[], map[], [])
  const OWNS_ITSELF := Two(Counters(1, 0), Counters(0, 0), map[0 := ON_ITSELF], map[], [])
  const OWNS_OTHER := Two(Counters(1, 0), Counters(1, 0), DESTROYED, map[], [])
  const READY := Two(Counters(1, 0), Counters(1, 1), MEMBERS, map[], [])
  const CLEAR_STARTED := Two(Counters(1, 1), Counters(1, 1), MEMBERS, map[], [CLEARING])
  const OTHER_RELEASED :=
    Two(Counters(1, 1), Counters(0xc000_0000, 2), map[0 := ON_ITSELF, 2 := WATCH], map[1 := ON_OTHER],
        [CLEARING, Frame(1, Invalidating(Obj), {})])
  const OTHER_INVALID :=
    Two(Counters(1, 1), Counters(0x8000_0000, 1), map[0 := ON_ITSELF, 2 := WATCH], map[1 := ON_OTHER], [CLEARING])
  const ITSELF_RELEASED :=
    Two(Counters(0xc000_0000, 2), Counters(0x8000_0000, 1), map[2 := WATCH], DESTROYED,
        [CLEARING, Frame(0, Invalidating(Obj), {0, 1})])
  const OTHER_REVIVED :=
    Two(Counters(0xc000_0000, 2), Counters(0x7fff_ffff, 1), map[2 := WATCH], DESTROYED,
        [CLEARING, Frame(0, Invalidating(Obj), {0})])
  const ITSELF_TWICE :=
    Two(Counters(0xbfff_ffff, 2), Counters(0x7fff_ffff, 1), map[2 := WATCH], DESTROYED,
        [CLEARING, Frame(0, Invalidating(Obj), {})])
  const INVALIDATED := Two(Counters(0xbfff_ffff, 1), Counters(0x7fff_ffff, 1), map[2 := WATCH], map[], [CLEARING])
  const CLEAR_ENDED := Two(Counters(0xbfff_ffff, 0), Counters(0x7fff_ffff, 1), map[2 := WATCH], map[], [])

  const REVIVAL: seq<State> := [
    EMPTY, ONE_OBJECT, TWO_OBJECTS, OWNS_ITSELF, OWNS_OTHER, READY,
    CLEAR_STARTED, OTHER_RELEASED, OTHER_INVALID, ITSELF_RELEASED, OTHER_REVIVED, ITSELF_TWICE, INVALIDATED, CLEAR_ENDED]

  lemma {:induction false} Does(s: State, t: State, a: Action)
    requires Enabled(s, a) && t == Perform(s, a)
    ensures Step(s, t)
  {
  }

  lemma {:induction false} Drops(s: State, t: State, p: PtrId)
    requires !s.crashed && s.stack != [] && Top(s).obj in s.objs && MemberOf(s, p, Top(s).obj) && t == DropMember(s, p)
    ensures Step(s, t)
  {
  }

  lemma {:induction false} DropsAgain(s: State, t: State, p: PtrId)
    requires !s.crashed && s.stack != [] && Top(s).obj in s.objs && p in Top(s).again && t == DropAgain(s, p)
    ensures Step(s, t)
  {
  }

  lemma {:induction false} Returns(s: State, t: State)
    requires !s.crashed && s.stack != [] && Top(s).obj in s.objs && Emptied(s) && t == FinishFrame(s)
    ensures Step(s, t)
  {
  }

  lemma {:induction false} Make()
    ensures Step(EMPTY, ONE_OBJECT) && Step(ONE_OBJECT, TWO_OBJECTS)
  {
    Does(EMPTY, ONE_OBJECT, NewObject(0));
    Does(ONE_OBJECT, TWO_OBJECTS, NewObject(1));
  }

  lemma {:induction false} Own()
    ensures Step(TWO_OBJECTS, OWNS_ITSELF) && Step(OWNS_ITSELF, OWNS_OTHER)
  {
    Does(TWO_OBJECTS, OWNS_ITSELF, NewPtr(0, Obj, Inside(0), Some(0)));
    Does(OWNS_ITSELF, OWNS_OTHER, NewPtr(1, Obj, Inside(0), Some(1)));
  }

  lemma {:induction false} Watch()
    ensures Step(OWNS_OTHER, READY)
  {
    Does(OWNS_OTHER, READY, NewPtr(2, Ref, Outside, Some(1)));
  }

  lemma {:induction false} Starts()
    ensures Enabled(READY, Clear(0)) && CLEAR_STARTED == Perform(READY, Clear(0))
  {
  }

  /** Object 1 loses its only TObj and is invalidated. */
  lemma {:induction false} OtherGoes()
    ensures Step(CLEAR_STARTED, OTHER_RELEASED)
  {
    var s, t := CLEAR_STARTED, OTHER_RELEASED;
    assert s.cells - {1} == t.cells;
    assert Release(Counters(1, 1), Obj) == (Counters(0xc000_0000, 2), Invalidate);
    assert SpentIn(s.(cells := s.cells - {1}, spent := s.spent[1 := ON_OTHER]), 1) == {};
    Drops(s, t, 1);
  }

  lemma {:induction false} OtherReturns()
    ensures Step(OTHER_RELEASED, OTHER_INVALID)
  {
    var t := OTHER_RELEASED;
    assert FinishInvalidation(Counters(0xc000_0000, 2)) == (Counters(0x8000_0000, 1), Nothing);
    assert t.spent - SpentIn(t, 1) == t.spent;
    Returns(t, OTHER_INVALID);
  }

  /** Object 0 loses its TObj on itself and is invalidated while it is being cleared. */
  lemma {:induction false} ItselfGoes()
    ensures Step(OTHER_INVALID, ITSELF_RELEASED)
  {
    var s, t := OTHER_INVALID, ITSELF_RELEASED;
    assert s.cells - {0} == t.cells && s.spent[0 := ON_ITSELF] == t.spent;
    assert Release(Counters(1, 1), Obj) == (Counters(0xc000_0000, 2), Invalidate);
    assert SpentIn(t, 0) == {0, 1};
    Drops(s, t, 0);
  }

  /** The member on object 1 is released again: object 1 is valid. */
  lemma {:induction false} OtherGoesAgain()
    ensures Step(ITSELF_RELEASED, OTHER_REVIVED)
  {
    var s, t := ITSELF_RELEASED, OTHER_REVIVED;
    assert Release(Counters(0x8000_0000, 1), Obj) == (Counters(0x7fff_ffff, 1), Nothing);
    assert {0, 1} - {1} == {0};
    DropsAgain(s, t, 1);
  }

  lemma {:induction false} ItselfGoesAgain()
    ensures Step(OTHER_REVIVED, ITSELF_TWICE)
  {
    var s, t := OTHER_REVIVED, ITSELF_TWICE;
    assert Release(Counters(0xc000_0000, 2), Obj) == (Counters(0xbfff_ffff, 2), Nothing);
    assert {0} - {0} == {};
    DropsAgain(s, t, 0);
  }

  lemma {:induction false} ItselfReturns()
    ensures Step(ITSELF_TWICE, INVALIDATED)
  {
    var s, t := ITSELF_TWICE, INVALIDATED;
    assert FinishInvalidation(Counters(0xbfff_ffff, 2)) == (Counters(0xbfff_ffff, 1), Nothing);
    assert s.spent - SpentIn(s, 0) == map[];
    Returns(s, t);
  }

  lemma {:induction false} ClearReturns()
    ensures Step(INVALIDATED, CLEAR_ENDED)
  {
    var s, t := INVALIDATED, CLEAR_ENDED;
    assert Dec(Counters(0xbfff_ffff, 1), Ref) == Counters(0xbfff_ffff, 0);
    assert s.spent - SpentIn(s, 0) == map[];
    Returns(s, t);
  }

  lemma {:induction false} Whole()
    ensures IsRun(REVIVAL)
  {
    hide Step, Perform, Enabled, Two;
    Make();
    Own();
    Watch();
    Starts();
    Does(READY, CLEAR_STARTED, Clear(0));
    OtherGoes();
    OtherReturns();
    ItselfGoes();
    OtherGoesAgain();
    ItselfGoesAgain();
    ItselfReturns();
    ClearReturns();
  }

  lemma {:induction false} Flags()
    ensures IsInvalid(Counters(0x8000_0000, 1)) && !IsInvalid(Counters(0x7fff_ffff, 1))
  {
  }

  lemma {:induction false} OnlyClear()
    ensures forall j: nat, x: ObjId :: ClearedHere(REVIVAL, j, x) ==> j == 5 && x == 0
  {
    hide Perform;
    var r := REVIVAL;
    forall j: nat, x: ObjId | ClearedHere(r, j, x) ensures j == 5 && x == 0 {
      ClearFrame(r[j], x);
      assert r[j].stack == [] && r[j + 1].stack == [Frame(x, Clearing, {})];
    }
  }

  /** The run from the empty heap: at index 8 object 1 is invalid, from index 10 to the end it is valid, and all the
      time the program has its TPtr on it. */
  lemma {:induction false} InvalidObjectRevived()
    ensures var r := REVIVAL;
            && IsRun(r) && r[0] == EMPTY && r[|r| - 1].stack == [] && !r[|r| - 1].crashed
            && ClearedHere(r, 5, 0) && !ClearIsSafe(r[5], 0)
            && 1 in r[8].objs && IsInvalid(r[8].objs[1])
            && 1 in r[|r| - 1].objs && !IsInvalid(r[|r| - 1].objs[1]) && r[|r| - 1].cells == map[2 := WATCH]
  {
    hide Step, IsInvalid, Perform, Enabled, ClearIsSafe, Inv;
    var r := REVIVAL;
    Whole();
    Starts();
    Flags();
    if ClearIsSafe(r[5], 0) {
      OnlyClear();
      EmptyInv();
      assert EveryClearIsSafe(r);
      InvalidForGood(r, 8, |r| - 1, 1);
    }
  }
}
