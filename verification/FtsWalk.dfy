/**
  The directory walk of `fts` as a machine on values, and what it visits: over any finite tree its visits are the
  recursive traversal, and with the level bound of `TDirIterator` the traversal pruned below that level.
 */
module FtsWalk {
  import opened Wrappers

  /** What is not a directory: a regular file, a symbolic link, anything else. */
  datatype LeafKind = F | SL | DEFAULT

  /** The `fts_info` values of a physical walk without errors. */
  datatype Info = D | DP | DOT | INIT | Plain(kind: LeafKind)

  /** Instructions given with `yfts_set`. */
  datatype Instr = NoInstr | Again | Skip

  /** A finite, unchanging file tree; the entries of a directory are in the order in which they are read. */
  datatype Tree = Leaf(name: string, kind: LeafKind) | Dir(name: string, entries: seq<Tree>)

  /** The `fts_info` a node starts with: `yfts_open` takes a root named `.` or `..` for an ordinary directory. */
  function PreInfo(t: Tree): Info {
    if t.Dir? then D else Plain(t.kind)
  }

  /** What follows the last slash, which is all that `fts_load` leaves of the name of a root other than `/`. */
  function LastComponent(name: string): string {
    if name == "" then ""
    else if name[|name| - 1] == '/' then ""
    else LastComponent(name[..|name| - 1]) + [name[|name| - 1]]
  }

  /** It is what follows the last slash: a name without slashes keeps whole, and nothing before a slash counts. */
  lemma {:induction false} LastComponentIs(path: string, base: string)
    requires '/' !in base
    ensures LastComponent(base) == base && LastComponent(path + "/" + base) == base
  {
    var whole := path + "/" + base;
    if base == "" {
      assert whole[|whole| - 1] == '/';
    } else {
      var n := |base| - 1;
      LastComponentIs(path, base[..n]);
      assert base == base[..n] + [base[n]];
      assert whole[..|whole| - 1] == path + "/" + base[..n];
    }
  }

  /** `ISDOT` on the name of a directory. */
  predicate IsDot(t: Tree) {
    t.Dir? && (LastComponent(t.name) == "." || LastComponent(t.name) == "..")
  }

  /** What `fts_stat` finds when a node is visited again. */
  function StatInfo(t: Tree): Info {
    if IsDot(t) then DOT else PreInfo(t)
  }

  datatype Visit = Visit(tree: Tree, level: nat, info: Info)

  // ----- The recursive traversal -----

  /** Is `MaxLevel` k such that the entries of a directory at this level are left out? */
  predicate Beyond(level: nat, k: Option<nat>) {
    k.Some? && level + 1 > k.value
  }

  function Traverse(t: Tree, level: nat, k: Option<nat>): seq<Visit>
    decreases t, 1
  {
    match t
    case Leaf(_, kind) => [Visit(t, level, Plain(kind))]
    case Dir(_, entries) =>
      [Visit(t, level, D)] + (if Beyond(level, k) then [] else TraverseAll(entries, level + 1, k)) + [Visit(t, level, DP)]
  }

  function TraverseAll(ts: seq<Tree>, level: nat, k: Option<nat>): seq<Visit>
    decreases ts, 0
  {
    if ts == [] then [] else Traverse(ts[0], level, k) + TraverseAll(ts[1..], level, k)
  }

  // ----- The machine -----

  /** The node of the current path at some level, followed by its later siblings; `instr` belongs to the node. */
  datatype Level = Level(trees: seq<Tree>, instr: Instr)

  /** A walk in progress: the levels from the root down to the current node and the `fts_info` of that node. */
  datatype Walk = Walk(levels: seq<Level>, info: Info) | Finished

  ghost predicate WellFormed(w: Walk) {
    w.Walk? ==>
      && w.levels != []
      && (forall i :: 0 <= i < |w.levels| ==> w.levels[i].trees != [])
      && (forall i :: 0 <= i < |w.levels| - 1 ==> w.levels[i].trees[0].Dir?)
      && (w.info == D || w.info == DP ==> w.levels[|w.levels| - 1].trees[0].Dir?)
      && (w.info == INIT ==> |w.levels| == 1 && w.levels[0].instr == NoInstr)
  }

  /** What a call of `yfts_read` does to the walk. */
  function Advance(w: Walk): Walk
    requires w.Walk? && WellFormed(w)
  {
    var n := |w.levels| - 1;
    var top := w.levels[n];
    var t := top.trees[0];
    var quiet := w.levels[n := Level(top.trees, NoInstr)];
    if top.instr == Again then Walk(quiet, StatInfo(t))
    else if w.info == D then
      if top.instr == Skip || t.entries == [] then Walk(quiet, DP)
      else Walk(quiet + [Level(t.entries, NoInstr)], PreInfo(t.entries[0]))
    else if |top.trees| > 1 then
      Walk(w.levels[n := Level(top.trees[1..], NoInstr)], PreInfo(top.trees[1]))
    else if n == 0 then Finished
    else Walk(w.levels[..n], DP)
  }

  /** The node that is returned. */
  function Current(w: Walk): Visit
    requires w.Walk? && WellFormed(w)
  {
    var n := |w.levels| - 1;
    Visit(w.levels[n].trees[0], n, w.info)
  }

  /** `yfts_set` on the node of the current path at level `i`. */
  function SetInstr(w: Walk, i: nat, instr: Instr): Walk
    requires w.Walk? && i < |w.levels|
  {
    w.(levels := w.levels[i := w.levels[i].(instr := instr)])
  }

  /** `TDirIterator::Next` after `yfts_read`: nodes at the level bound are skipped. */
  function Bound(w: Walk, k: Option<nat>): Walk
    requires WellFormed(w)
  {
    if w.Walk? && Beyond(|w.levels| - 1, k) then SetInstr(w, |w.levels| - 1, Skip) else w
  }

  // ----- What is still to come -----

  /** What FTS_AGAIN brings: the node and all that lies below it, or just the node if it is a directory named `.` or `..`. */
  function AgainVisits(t: Tree, level: nat, k: Option<nat>): seq<Visit> {
    if IsDot(t) then [Visit(t, level, DOT)] else Traverse(t, level, k)
  }

  /** The visits that follow once the current node and all below it are done. */
  function Rest(levels: seq<Level>, k: Option<nat>): seq<Visit>
    requires forall i :: 0 <= i < |levels| ==> levels[i].trees != []
    decreases |levels|, 1
  {
    if levels == [] then [] else TraverseAll(levels[|levels| - 1].trees[1..], |levels| - 1, k) + Above(levels, k)
  }

  /** The visits that follow the nodes of the last level: their directory, again if it was told so, and the rest. */
  function Above(levels: seq<Level>, k: Option<nat>): seq<Visit>
    requires levels != [] && forall i :: 0 <= i < |levels| ==> levels[i].trees != []
    decreases |levels|, 0
  {
    var n := |levels| - 1;
    if n == 0 then [] else [Visit(levels[n - 1].trees[0], n - 1, DP)] + Return(levels[..n], k)
  }

  /** The visits that follow the return to a directory. */
  function Return(levels: seq<Level>, k: Option<nat>): seq<Visit>
    requires levels != [] && forall i :: 0 <= i < |levels| ==> levels[i].trees != []
    decreases |levels|, 2
  {
    var n := |levels| - 1;
    (if levels[n].instr == Again then AgainVisits(levels[n].trees[0], n, k) else []) + Rest(levels, k)
  }

  /** The rest of a directory that has been entered just now. */
  function Inside(t: Tree, level: nat, k: Option<nat>): seq<Visit>
    requires t.Dir?
  {
    (if Beyond(level, k) then [] else TraverseAll(t.entries, level + 1, k)) + [Visit(t, level, DP)]
  }

  /** The visits to come to the current node and to what lies below it. */
  function Now(w: Walk, k: Option<nat>): seq<Visit>
    requires w.Walk? && WellFormed(w)
  {
    var n := |w.levels| - 1;
    var t := w.levels[n].trees[0];
    match w.levels[n].instr
    case Again => AgainVisits(t, n, k)
    case Skip => if w.info == D then [Visit(t, n, DP)] else []
    case NoInstr => if w.info == D then Inside(t, n, k) else []
  }

  /** All visits that are still to come, with the instructions that wait on the nodes of the current path. */
  function Future(w: Walk, k: Option<nat>): seq<Visit>
    requires WellFormed(w)
  {
    if w.Finished? then [] else Now(w, k) + Rest(w.levels, k)
  }

  /** The walk does not go beyond the level bound: a directory at the bound is about to be skipped or visited again. */
  ghost predicate Bounded(w: Walk, k: Option<nat>) {
    w.Walk? && k.Some? ==>
      && |w.levels| - 1 <= k.value
      && (w.levels != [] && w.info == D && Beyond(|w.levels| - 1, k) ==> w.levels[|w.levels| - 1].instr != NoInstr)
  }

  /** The same trees everywhere and the same instructions above the last level. */
  ghost predicate SamePath(a: seq<Level>, b: seq<Level>) {
    && |a| == |b|
    && (forall i :: 0 <= i < |a| ==> a[i].trees == b[i].trees && a[i].trees != [])
    && (forall i :: 0 <= i < |a| - 1 ==> a[i].instr == b[i].instr)
  }

  lemma {:induction false} RestOfPath(a: seq<Level>, b: seq<Level>, k: Option<nat>)
    requires SamePath(a, b)
    ensures Rest(a, k) == Rest(b, k)
  {
    hide TraverseAll, AgainVisits;
    if |a| > 1 {
      var n := |a| - 1;
      assert a[n - 1] == b[n - 1];
      assert a[..n] == b[..n];
    }
  }

  lemma {:induction false} BoundKeeps(w: Walk, k: Option<nat>)
    requires WellFormed(w) && (w.Walk? ==> w.info != INIT)
    requires w.Walk? && k.Some? ==> |w.levels| - 1 <= k.value
    requires w.Walk? && Beyond(|w.levels| - 1, k) ==> w.levels[|w.levels| - 1].instr != Again
    ensures WellFormed(Bound(w, k)) && Bounded(Bound(w, k), k)
    ensures Future(Bound(w, k), k) == Future(w, k)
    ensures w.Walk? ==> Bound(w, k).Walk? && Current(Bound(w, k)) == Current(w)
  {
    hide Rest, TraverseAll, AgainVisits;
    if w.Walk? {
      var b := Bound(w, k);
      assert SamePath(b.levels, w.levels);
      RestOfPath(b.levels, w.levels, k);
    }
  }

  lemma {:induction false} TraverseHead(t: Tree, level: nat, k: Option<nat>)
    ensures Traverse(t, level, k) == [Visit(t, level, PreInfo(t))] + if t.Dir? then Inside(t, level, k) else []
  {
    hide TraverseAll;
    if t.Dir? {
      var inner := if Beyond(level, k) then [] else TraverseAll(t.entries, level + 1, k);
      assert Traverse(t, level, k) == [Visit(t, level, D)] + (inner + [Visit(t, level, DP)]);
    } else {
      assert Traverse(t, level, k) == [Visit(t, level, Plain(t.kind))] + [];
    }
  }

  lemma {:induction false} TraverseUnfold(ts: seq<Tree>, level: nat, k: Option<nat>)
    requires ts != []
    ensures TraverseAll(ts, level, k) ==
      [Visit(ts[0], level, PreInfo(ts[0]))] + (if ts[0].Dir? then Inside(ts[0], level, k) else [])
      + TraverseAll(ts[1..], level, k)
  {
    TraverseHead(ts[0], level, k);
  }

  lemma {:induction false} Associate(a: seq<Visit>, b: seq<Visit>, c: seq<Visit>, r: seq<Visit>)
    ensures (a + b + c) + r == a + (b + (c + r))
  {
  }

  /** The next sibling, or the first node of a directory, is visited. */
  lemma {:induction false} VisitHead(levels: seq<Level>, k: Option<nat>)
    requires levels != [] && forall i :: 0 <= i < |levels| ==> levels[i].trees != []
    requires forall i :: 0 <= i < |levels| - 1 ==> levels[i].trees[0].Dir?
    requires levels[|levels| - 1].instr == NoInstr
    ensures var n := |levels| - 1;
            var w := Walk(levels, PreInfo(levels[n].trees[0]));
            && WellFormed(w)
            && TraverseAll(levels[n].trees, n, k) + Above(levels, k) == [Current(w)] + Future(w, k)
  {
    hide TraverseAll, Above, Inside;
    var n := |levels| - 1;
    var ts := levels[n].trees;
    TraverseUnfold(ts, n, k);
    var inner := if ts[0].Dir? then Inside(ts[0], n, k) else [];
    Associate([Visit(ts[0], n, PreInfo(ts[0]))], inner, TraverseAll(ts[1..], n, k), Above(levels, k));
  }

  lemma {:induction false} Regroup(a: seq<Visit>, b: seq<Visit>, r: seq<Visit>)
    ensures (a + b) + r == a + (b + r)
  {
  }

  lemma {:induction false} AboveEntries(levels: seq<Level>, entries: seq<Tree>, k: Option<nat>)
    requires levels != [] && forall i :: 0 <= i < |levels| ==> levels[i].trees != []
    requires levels[|levels| - 1].instr == NoInstr && entries != []
    ensures var n := |levels| - 1;
            Above(levels + [Level(entries, NoInstr)], k) == [Visit(levels[n].trees[0], n, DP)] + Rest(levels, k)
  {
    hide Rest;
    var n, below := |levels| - 1, levels + [Level(entries, NoInstr)];
    assert below[..n + 1] == levels && below[n] == levels[n];
    assert Return(levels, k) == Rest(levels, k);
  }

  lemma {:induction false} Descend(w: Walk)
    requires w.Walk? && WellFormed(w) && w.info == D
    requires var top := w.levels[|w.levels| - 1]; top.instr == NoInstr && top.trees[0].entries != []
    ensures var entries := w.levels[|w.levels| - 1].trees[0].entries;
            Advance(w) == Walk(w.levels + [Level(entries, NoInstr)], PreInfo(entries[0]))
  {
    hide PreInfo;
    var n := |w.levels| - 1;
    assert w.levels[n := Level(w.levels[n].trees, NoInstr)] == w.levels;
  }

  lemma {:induction false} DescendVisits(w: Walk, k: Option<nat>)
    requires w.Walk? && WellFormed(w) && Bounded(w, k) && w.info == D
    requires var n := |w.levels| - 1; w.levels[n].instr == NoInstr && w.levels[n].trees[0].entries != []
    ensures var v := Advance(w);
            && WellFormed(v) && v.Walk? && !Beyond(|w.levels| - 1, k) && |v.levels| == |w.levels| + 1
            && Future(w, k) == [Current(v)] + Future(v, k)
  {
    hide TraverseAll, Rest, PreInfo, AgainVisits, Advance, Above;
    Descend(w);
    var n := |w.levels| - 1;
    var t, levels := w.levels[n].trees[0], Advance(w).levels;
    VisitHead(levels, k);
    AboveEntries(w.levels, t.entries, k);
    assert Now(w, k) == TraverseAll(t.entries, n + 1, k) + [Visit(t, n, DP)];
    Regroup(TraverseAll(t.entries, n + 1, k), [Visit(t, n, DP)], Rest(w.levels, k));
    assert levels[n + 1] == Level(t.entries, NoInstr);
  }

  lemma {:induction false} NextVisits(w: Walk, k: Option<nat>)
    requires w.Walk? && WellFormed(w) && w.info != D
    requires var n := |w.levels| - 1; w.levels[n].instr != Again && |w.levels[n].trees| > 1
    ensures var v := Advance(w); WellFormed(v) && v.Walk? && Future(w, k) == [Current(v)] + Future(v, k)
  {
    hide TraverseAll, Return, AgainVisits, PreInfo;
    var n := |w.levels| - 1;
    var v := Advance(w);
    VisitHead(v.levels, k);
    assert v.levels[..n] == w.levels[..n];
    assert n > 0 ==> v.levels[n - 1] == w.levels[n - 1];
    assert Above(v.levels, k) == Above(w.levels, k);
    assert Future(w, k) == Rest(w.levels, k);
  }

  /** A directory is left without having been entered. */
  lemma {:induction false} SkipVisits(w: Walk, k: Option<nat>)
    requires w.Walk? && WellFormed(w) && w.info == D
    requires var top := w.levels[|w.levels| - 1]; top.instr == Skip || (top.instr == NoInstr && top.trees[0].entries == [])
    ensures var v := Advance(w); WellFormed(v) && v.Walk? && Future(w, k) == [Current(v)] + Future(v, k)
  {
    hide Rest, Return;
    var n, v := |w.levels| - 1, Advance(w);
    assert SamePath(v.levels, w.levels);
    RestOfPath(v.levels, w.levels, k);
    var t := w.levels[n].trees[0];
    assert v.levels[n].trees[0] == t;
    assert Future(v, k) == Rest(v.levels, k);
    if w.levels[n].instr != Skip {
      assert (if Beyond(n, k) then [] else TraverseAll(t.entries, n + 1, k)) == [];
    }
  }

  /** The last entry of a directory has been visited. */
  lemma {:induction false} UpVisits(w: Walk, k: Option<nat>)
    requires w.Walk? && WellFormed(w) && w.info != D
    requires var top := w.levels[|w.levels| - 1]; top.instr != Again && |top.trees| == 1
    ensures var v := Advance(w);
            WellFormed(v) && Future(w, k) == if v.Finished? then [] else [Current(v)] + Future(v, k)
  {
    hide AgainVisits;
    var n, v := |w.levels| - 1, Advance(w);
    assert TraverseAll(w.levels[n].trees[1..], n, k) == [];
    assert Future(w, k) == Above(w.levels, k);
    if n > 0 {
      assert Future(v, k) == Return(w.levels[..n], k);
    }
  }

  lemma {:induction false} DotIsDir(t: Tree)
    ensures IsDot(t) ==> t.Dir?
  {
  }

  /** A node is visited again. */
  lemma {:induction false} AgainVisitsNode(w: Walk, k: Option<nat>)
    requires w.Walk? && WellFormed(w) && w.levels[|w.levels| - 1].instr == Again
    ensures var v := Advance(w);
            WellFormed(v) && v.Walk? && v.info != INIT && Future(w, k) == [Current(v)] + Future(v, k)
  {
    hide Rest, Traverse, Inside, IsDot;
    var n, v := |w.levels| - 1, Advance(w);
    var t := w.levels[n].trees[0];
    assert SamePath(v.levels, w.levels);
    RestOfPath(v.levels, w.levels, k);
    TraverseHead(t, n, k);
    DotIsDir(t);
    Associate([], [Current(v)], if v.info == D then Inside(t, n, k) else [], Rest(w.levels, k));
  }

  /** A call of `yfts_read` returns the first of the visits to come and leaves the others to come, whatever instructions
      wait on the nodes of the current path. */
  lemma {:induction false} AdvanceVisits(w: Walk, k: Option<nat>)
    requires w.Walk? && WellFormed(w) && Bounded(w, k)
    ensures var v := Advance(w);
            && WellFormed(v) && WellFormed(Bound(v, k)) && Bounded(Bound(v, k), k)
            && Future(Bound(v, k), k) == Future(v, k)
            && (if v.Finished? then Future(w, k) == []
                else Future(w, k) == [Current(v)] + Future(v, k) && Bound(v, k).Walk? && Current(Bound(v, k)) == Current(v))
  {
    hide Future, TraverseAll, IsDot;
    var top := w.levels[|w.levels| - 1];
    if top.instr == Again {
      AgainVisitsNode(w, k);
    } else if w.info == D && top.instr != Skip && top.trees[0].entries != [] {
      DescendVisits(w, k);
    } else if w.info != D && |top.trees| > 1 {
      NextVisits(w, k);
    } else if w.info == D {
      SkipVisits(w, k);
    } else {
      UpVisits(w, k);
    }
    BoundKeeps(Advance(w), k);
  }

  lemma {:induction false} FinishedFuture()
    ensures Future(Finished, None) == []
  {
  }

  /** What the next `n` calls of `yfts_read` return, until there is nothing left. */
  ghost function Reads(w: Walk, n: nat): seq<Visit>
    requires WellFormed(w)
    decreases n
  {
    if w.Finished? || n == 0 then []
    else
      AdvanceVisits(w, None);
      var v := Advance(w);
      if v.Finished? then [] else [Current(v)] + Reads(v, n - 1)
  }

  /** The reads return the visits to come in their order, from every walk and with any instructions on its path. */
  lemma {:induction false} ReadsAreFuture(w: Walk, n: nat)
    requires WellFormed(w)
    ensures Reads(w, n) == Future(w, None)[..if n < |Future(w, None)| then n else |Future(w, None)|]
    decreases n
  {
    hide Future, WellFormed, Advance, Current;
    if w.Walk? {
      AdvanceVisits(w, None);
      if n > 0 && Advance(w).Walk? {
        ReadsAreFuture(Advance(w), n - 1);
      }
    } else {
      FinishedFuture();
    }
  }

  // ----- What an instruction changes -----

  ghost predicate SameAgain(a: seq<Level>, b: seq<Level>) {
    |a| == |b| && forall i :: 0 <= i < |a| ==>
      a[i].trees == b[i].trees && a[i].trees != [] && (a[i].instr == Again <==> b[i].instr == Again)
  }

  lemma {:induction false} RestOnlyAgain(a: seq<Level>, b: seq<Level>, k: Option<nat>)
    requires SameAgain(a, b)
    ensures Rest(a, k) == Rest(b, k)
    decreases |a|
  {
    hide TraverseAll, AgainVisits;
    if |a| > 1 {
      var n := |a| - 1;
      var c, d := a[..n], b[..n];
      RestOnlyAgain(c, d, k);
      assert c[n - 1] == a[n - 1] && d[n - 1] == b[n - 1];
      assert Return(c, k) == Return(d, k);
    }
  }

  /** FTS_SKIP on a directory that has just been entered leaves out what lies below it and nothing else; on a directory
      above the current node, or on any other node, it has no effect. */
  lemma {:induction false} SkipLeavesOut(w: Walk, i: nat)
    requires w.Walk? && WellFormed(w) && w.info != INIT && i < |w.levels|
    ensures var n, t := |w.levels| - 1, w.levels[i].trees[0];
            var with, without := SetInstr(w, i, Skip), SetInstr(w, i, NoInstr);
            && WellFormed(with) && WellFormed(without)
            && Future(without, None)
               == (if i == n && w.info == D then TraverseAll(t.entries, n + 1, None) else []) + Future(with, None)
  {
    hide TraverseAll, AgainVisits, Rest;
    var n, t := |w.levels| - 1, w.levels[i].trees[0];
    var with, without := SetInstr(w, i, Skip), SetInstr(w, i, NoInstr);
    if i == n {
      RestOfPath(with.levels, without.levels, None);
      if w.info == D {
        Associate([], TraverseAll(t.entries, n + 1, None), [Visit(t, n, DP)], Rest(without.levels, None));
      }
    } else {
      assert with.levels[n] == without.levels[n] == w.levels[n];
      RestOnlyAgain(with.levels, without.levels, None);
      assert Now(with, None) == Now(without, None);
    }
  }

  /** FTS_AGAIN on the current node starts over with the node and all that lies below it, and then goes on as before, if
      and only if the node is not a directory named `.` or `..`; such a directory is returned once more and not entered. */
  lemma {:induction false} AgainRepeats(w: Walk)
    requires w.Walk? && WellFormed(w) && w.info != INIT
    ensures var n := |w.levels| - 1;
            var t := w.levels[n].trees[0];
            var v := SetInstr(w, n, Again);
            && WellFormed(v)
            && (Future(v, None) == Traverse(t, n, None) + Rest(w.levels, None) <==> !IsDot(t))
            && (IsDot(t) ==> Future(v, None) == [Visit(t, n, DOT)] + Rest(w.levels, None))
  {
    hide Rest, TraverseAll, LastComponent;
    var n := |w.levels| - 1;
    var t := w.levels[n].trees[0];
    var v := SetInstr(w, n, Again);
    assert SamePath(v.levels, w.levels);
    RestOfPath(v.levels, w.levels, None);
    assert v.levels[n].trees[0] == t;
    if IsDot(t) {
      TraverseHead(t, n, None);
      assert (Traverse(t, n, None) + Rest(w.levels, None))[0] == Visit(t, n, D);
      assert ([Visit(t, n, DOT)] + Rest(w.levels, None))[0] == Visit(t, n, DOT);
    }
  }

  /** The visits up to the end of the directory that holds the current node, and to the end of its repetition. */
  function Closing(levels: seq<Level>, k: Option<nat>): seq<Visit>
    requires |levels| > 1 && forall i :: 0 <= i < |levels| ==> levels[i].trees != []
  {
    var n := |levels| - 1;
    TraverseAll(levels[n].trees[1..], n, k) + [Visit(levels[n - 1].trees[0], n - 1, DP)]
    + if levels[n - 1].instr == Again then AgainVisits(levels[n - 1].trees[0], n - 1, k) else []
  }

  lemma {:induction false} RestCloses(levels: seq<Level>, k: Option<nat>)
    requires |levels| > 1 && forall i :: 0 <= i < |levels| ==> levels[i].trees != []
    ensures Rest(levels, k) == Closing(levels, k) + Rest(levels[..|levels| - 1], k)
  {
    hide TraverseAll, AgainVisits;
    var n := |levels| - 1;
    var own, dir := TraverseAll(levels[n].trees[1..], n, k), [Visit(levels[n - 1].trees[0], n - 1, DP)];
    var again := if levels[n - 1].instr == Again then AgainVisits(levels[n - 1].trees[0], n - 1, k) else [];
    assert levels[..n][n - 1] == levels[n - 1];
    assert Return(levels[..n], k) == again + Rest(levels[..n], k);
    assert Above(levels, k) == dir + Return(levels[..n], k);
    Associate(own, dir, again, Rest(levels[..n], k));
  }

  lemma {:induction false} SameClosing(a: seq<Level>, b: seq<Level>, k: Option<nat>)
    requires |a| == |b| > 1 && forall i :: 0 <= i < |a| ==> a[i].trees == b[i].trees && a[i].trees != []
    requires a[|a| - 1] == b[|a| - 1] && a[|a| - 2] == b[|a| - 2]
    ensures Closing(a, k) == Closing(b, k)
  {
  }

  lemma {:induction false} ClosingAgain(a: seq<Level>, b: seq<Level>, k: Option<nat>)
    requires |a| == |b| > 1 && forall i :: 0 <= i < |a| ==> a[i].trees == b[i].trees && a[i].trees != []
    requires a[|a| - 2].instr == Again && b[|a| - 2].instr == NoInstr
    ensures var n := |a| - 2;
            && Closing(a, k) == Closing(b, k) + AgainVisits(a[n].trees[0], n, k)
            && Closing(b, k) != [] && Closing(b, k)[|Closing(b, k)| - 1] == Visit(a[n].trees[0], n, DP)
  {
    hide TraverseAll, AgainVisits;
  }

  /** What is to come up to the end of the directory at level `i`. */
  lemma {:induction false} RestSplit(levels: seq<Level>, i: nat, k: Option<nat>) returns (first: seq<Visit>)
    requires i < |levels| - 1 && forall j :: 0 <= j < |levels| ==> levels[j].trees != []
    ensures first != [] && first[|first| - 1] == Visit(levels[i].trees[0], i, DP)
    ensures var t, rest := levels[i].trees[0], Rest(levels[..i + 1], k);
            && Rest(levels[i := Level(levels[i].trees, NoInstr)], k) == first + rest
            && Rest(levels[i := Level(levels[i].trees, Again)], k) == first + AgainVisits(t, i, k) + rest
    decreases |levels|
  {
    hide TraverseAll, AgainVisits, Rest, Closing;
    var n, t, rest := |levels| - 1, levels[i].trees[0], Rest(levels[..i + 1], k);
    var a, b := levels[i := Level(levels[i].trees, Again)], levels[i := Level(levels[i].trees, NoInstr)];
    RestCloses(a, k);
    RestCloses(b, k);
    if i == n - 1 {
      RestOfPath(a[..n], levels[..n], k);
      RestOfPath(b[..n], levels[..n], k);
      ClosingAgain(a, b, k);
      first := Closing(b, k);
    } else {
      var inner := RestSplit(levels[..n], i, k);
      assert a[..n] == levels[..n][i := Level(levels[i].trees, Again)];
      assert b[..n] == levels[..n][i := Level(levels[i].trees, NoInstr)];
      assert levels[..n][..i + 1] == levels[..i + 1];
      SameClosing(a, b, k);
      first := Closing(a, k) + inner;
      assert first + rest == Closing(b, k) + (inner + rest);
      Associate(Closing(a, k), inner, AgainVisits(t, i, k), rest);
      Associate([], inner, AgainVisits(t, i, k), rest);
    }
  }

  /** FTS_AGAIN on a directory above the current node: the walk goes on to the end of that directory, then visits it
      again, and then goes on as before. */
  lemma {:induction false} AgainAboveRepeats(w: Walk, i: nat) returns (first: seq<Visit>)
    requires w.Walk? && WellFormed(w) && w.info != INIT && i < |w.levels| - 1
    ensures var t := w.levels[i].trees[0];
            var with, without := SetInstr(w, i, Again), SetInstr(w, i, NoInstr);
            && WellFormed(with) && WellFormed(without)
            && (first != [] && first[|first| - 1] == Visit(t, i, DP))
            && Future(without, None) == first + Rest(w.levels[..i + 1], None)
            && Future(with, None) == first + AgainVisits(t, i, None) + Rest(w.levels[..i + 1], None)
  {
    hide Rest, TraverseAll, AgainVisits, Inside;
    var with, without := SetInstr(w, i, Again), SetInstr(w, i, NoInstr);
    var between := RestSplit(w.levels, i, None);
    var t, rest := w.levels[i].trees[0], Rest(w.levels[..i + 1], None);
    var now := Now(w, None);
    assert with.levels[|w.levels| - 1] == without.levels[|w.levels| - 1] == w.levels[|w.levels| - 1];
    first := now + between;
    assert first + rest == now + (between + rest);
    Associate(now, between, AgainVisits(t, i, None), rest);
    Associate([], between, AgainVisits(t, i, None), rest);
  }

  /** Such a root: the walk over `.` with one file in it, told to visit `.` again, returns `.` and is finished. */
  lemma {:induction false} DotIsNotRepeated()
    ensures var root := Dir(".", [Leaf("f", F)]);
            var w := Walk([Level([root], Again)], D);
            && IsDot(root) && Current(Advance(w)) == Visit(root, 0, DOT) && Future(w, None) == [Visit(root, 0, DOT)]
            && Traverse(root, 0, None) == [Visit(root, 0, D), Visit(Leaf("f", F), 1, Plain(F)), Visit(root, 0, DP)]
  {
    assert LastComponent(".") == LastComponent("") + ['.'];
    var root := Dir(".", [Leaf("f", F)]);
    var w := Walk([Level([root], Again)], D);
    assert w.levels[0].trees[1..] == [];
    assert Rest(w.levels, None) == [];
    assert TraverseAll([Leaf("f", F)], 1, None) == Traverse(Leaf("f", F), 1, None) + TraverseAll([], 1, None);
  }

  // ----- The bounded traversal is the full one without the visits below the bound -----

  function UpTo(vs: seq<Visit>, k: nat): seq<Visit> {
    if vs == [] then [] else (if vs[0].level <= k then [vs[0]] else []) + UpTo(vs[1..], k)
  }

  lemma {:induction false} UpToConcat(a: seq<Visit>, b: seq<Visit>, k: nat)
    ensures UpTo(a + b, k) == UpTo(a, k) + UpTo(b, k)
  {
    if a == [] {
      assert a + b == b;
    } else {
      assert (a + b)[1..] == a[1..] + b;
      UpToConcat(a[1..], b, k);
      var head := if a[0].level <= k then [a[0]] else [];
      assert head + (UpTo(a[1..], k) + UpTo(b, k)) == head + UpTo(a[1..], k) + UpTo(b, k);
    }
  }

  lemma {:induction false} TooDeep(ts: seq<Tree>, level: nat, k: nat)
    requires level > k
    ensures UpTo(TraverseAll(ts, level, None), k) == []
    decreases ts, 0
  {
    if ts != [] {
      UpToConcat(Traverse(ts[0], level, None), TraverseAll(ts[1..], level, None), k);
      TooDeep(ts[1..], level, k);
      if ts[0].Dir? {
        var d, c, e := [Visit(ts[0], level, D)], TraverseAll(ts[0].entries, level + 1, None), [Visit(ts[0], level, DP)];
        UpToConcat(d, c, k);
        UpToConcat(d + c, e, k);
        TooDeep(ts[0].entries, level + 1, k);
      }
    }
  }

  lemma {:induction false} BoundedIsPruned(ts: seq<Tree>, level: nat, k: nat)
    requires level <= k
    ensures TraverseAll(ts, level, Some(k)) == UpTo(TraverseAll(ts, level, None), k)
    decreases ts, 0
  {
    if ts != [] {
      UpToConcat(Traverse(ts[0], level, None), TraverseAll(ts[1..], level, None), k);
      BoundedIsPruned(ts[1..], level, k);
      if ts[0].Dir? {
        var d, c, e := [Visit(ts[0], level, D)], TraverseAll(ts[0].entries, level + 1, None), [Visit(ts[0], level, DP)];
        UpToConcat(d, c, k);
        UpToConcat(d + c, e, k);
        assert UpTo(d, k) == d && UpTo(e, k) == e;
        if level == k {
          TooDeep(ts[0].entries, level + 1, k);
          assert Traverse(ts[0], level, Some(k)) == d + e;
        } else {
          BoundedIsPruned(ts[0].entries, level + 1, k);
        }
      }
    }
  }
}
