/**
  The `FTS` stream itself: nodes that are allocated, linked by `fts_link` and `fts_parent`, and freed as the walk
  moves on. `nodes` is the set of allocated nodes, so reading or freeing a node requires that it is still allocated.
 */
module Fts {
  import opened Wrappers
  import opened FtsWalk

  type Id = nat

  const ROOT_PARENT_LEVEL := -1
  const ROOT_LEVEL := 0

  /** The fields of `FTSENT` that steer the walk; `tree` is what the file system holds at the node. */
  datatype Ent = Ent(tree: Tree, level: int, link: Option<Id>, parent: Option<Id>, info: Info, instr: Instr)

  type Nodes = map<Id, Ent>

  /** Where the allocated nodes sit: `stack[i]` holds the node of the current path at level i, last, preceded by its
      later siblings in reverse order; `top` is the parent of the roots; `pos` gives each node its place in the stack. */
  datatype Shape = Shape(stack: seq<seq<Id>>, pos: map<Id, (nat, nat)>, top: Id)

  ghost function Last(s: seq<Id>): Id {
    if s == [] then 0 else s[|s| - 1]
  }

  ghost predicate Within(sh: Shape, i: int, j: int) {
    0 <= i < |sh.stack| && 0 <= j < |sh.stack[i]|
  }

  ghost predicate Placed(sh: Shape) {
    && sh.stack != []
    && (forall i :: 0 <= i < |sh.stack| ==> sh.stack[i] != [])
    && (forall i, j :: Within(sh, i, j) ==> sh.stack[i][j] in sh.pos && sh.pos[sh.stack[i][j]] == (i, j))
    && (forall x :: x in sh.pos ==> Within(sh, sh.pos[x].0, sh.pos[x].1) && sh.stack[sh.pos[x].0][sh.pos[x].1] == x)
    && sh.top !in sh.pos
  }

  ghost predicate NodeOk(nodes: Nodes, sh: Shape, x: Id)
    requires Placed(sh) && x in sh.pos && x in nodes
  {
    var (i, j) := sh.pos[x];
    var e := nodes[x];
    && e.level == i
    && e.link == (if j == 0 then None else Some(sh.stack[i][j - 1]))
    && (e.info != INIT ==> e.parent == Some(if i == 0 then sh.top else Last(sh.stack[i - 1])))
    && (e.info == INIT ==> |sh.stack| == 1 && j > 0)
    && (j < |sh.stack[i]| - 1 ==> e.info == PreInfo(e.tree) && e.instr == NoInstr)
  }

  /** The allocated nodes are exactly the nodes of the current path, their later siblings, and the root parent. */
  ghost predicate NodesOk(nodes: Nodes, sh: Shape) {
    && Placed(sh)
    && nodes.Keys == sh.pos.Keys + {sh.top}
    && nodes[sh.top].level == ROOT_PARENT_LEVEL
    && forall x :: x in sh.pos ==> NodeOk(nodes, sh, x)
  }

  /** The trees of a level in the order of the walk. */
  ghost function Trees(nodes: Nodes, ids: seq<Id>): seq<Tree>
    requires forall j :: 0 <= j < |ids| ==> ids[j] in nodes
  {
    seq(|ids|, e requires 0 <= e < |ids| => nodes[ids[|ids| - 1 - e]].tree)
  }

  ghost function LevelOf(nodes: Nodes, ids: seq<Id>): Level
    requires ids != [] && forall j :: 0 <= j < |ids| ==> ids[j] in nodes
  {
    Level(Trees(nodes, ids), nodes[Last(ids)].instr)
  }

  ghost function Cur(sh: Shape): Id {
    if sh.stack == [] then 0 else Last(sh.stack[|sh.stack| - 1])
  }

  ghost predicate LevelAt(nodes: Nodes, ids: seq<Id>, l: Level) {
    ids != [] && (forall j :: 0 <= j < |ids| ==> ids[j] in nodes) && l == LevelOf(nodes, ids)
  }

  /** The nodes stand for a walk. */
  ghost predicate Represents(nodes: Nodes, sh: Shape, w: Walk) {
    && NodesOk(nodes, sh) && sh.stack != []
    && w.Walk?
    && |w.levels| == |sh.stack|
    && (forall i :: 0 <= i < |sh.stack| ==> LevelAt(nodes, sh.stack[i], w.levels[i]))
    && w.info == nodes[Cur(sh)].info
  }

  // ----- One node changes its info and instruction -----

  ghost predicate Touched(nodes: Nodes, nodes': Nodes, x: Id) {
    && x in nodes && nodes'.Keys == nodes.Keys
    && nodes'[x] == nodes[x].(info := nodes'[x].info, instr := nodes'[x].instr)
    && forall y :: y in nodes && y != x ==> nodes'[y] == nodes[y]
  }

  lemma {:induction false} TouchNodes(nodes: Nodes, nodes': Nodes, sh: Shape, i: nat)
    requires NodesOk(nodes, sh) && i < |sh.stack| && Touched(nodes, nodes', Last(sh.stack[i]))
    requires nodes'[Last(sh.stack[i])].info == INIT <==> nodes[Last(sh.stack[i])].info == INIT
    ensures NodesOk(nodes', sh)
  {
    assert Within(sh, i, |sh.stack[i]| - 1);
    forall y | y in sh.pos ensures NodeOk(nodes', sh, y) {
      assert NodeOk(nodes, sh, y);
    }
  }

  lemma {:induction false} TouchLevel(nodes: Nodes, nodes': Nodes, sh: Shape, i: nat, m: nat, l: Level)
    requires NodesOk(nodes, sh) && i < |sh.stack| && m < |sh.stack| && Touched(nodes, nodes', Last(sh.stack[i]))
    requires LevelAt(nodes, sh.stack[m], l)
    ensures LevelAt(nodes', sh.stack[m], if m == i then l.(instr := nodes'[Last(sh.stack[i])].instr) else l)
  {
    hide NodeOk;
    assert forall j :: 0 <= j < |sh.stack[m]| ==> Within(sh, m, j);
    assert Within(sh, i, |sh.stack[i]| - 1);
    assert Trees(nodes', sh.stack[m]) == Trees(nodes, sh.stack[m]);
  }

  /** Setting info and instruction of a node of the current path. */
  lemma {:induction false} TouchKeeps(nodes: Nodes, nodes': Nodes, sh: Shape, w: Walk, i: nat)
    requires Represents(nodes, sh, w) && i < |sh.stack| && Touched(nodes, nodes', Last(sh.stack[i]))
    requires nodes'[Last(sh.stack[i])].info == INIT <==> nodes[Last(sh.stack[i])].info == INIT
    ensures Cur(sh) in nodes'
    ensures Represents(nodes', sh, Walk(w.levels[i := w.levels[i].(instr := nodes'[Last(sh.stack[i])].instr)], nodes'[Cur(sh)].info))
  {
    TouchNodes(nodes, nodes', sh, i);
    forall m | 0 <= m < |sh.stack|
      ensures LevelAt(nodes', sh.stack[m], if m == i then w.levels[m].(instr := nodes'[Last(sh.stack[i])].instr) else w.levels[m])
    {
      TouchLevel(nodes, nodes', sh, i, m, w.levels[m]);
    }
    assert Within(sh, |sh.stack| - 1, |sh.stack[|sh.stack| - 1]| - 1);
  }

  // ----- The current node is freed and its next sibling takes its place -----

  ghost function DropHead(sh: Shape): Shape {
    var n := |sh.stack| - 1;
    if n < 0 || sh.stack[n] == [] then sh else
    var m := |sh.stack[n]| - 1;
    Shape(if m == 0 then sh.stack[..n] else sh.stack[n := sh.stack[n][..m]], sh.pos - {Cur(sh)}, sh.top)
  }

  lemma {:induction false} DropHeadPlaced(sh: Shape)
    requires Placed(sh) && (|sh.stack| > 1 || |sh.stack[0]| > 1)
    ensures Placed(DropHead(sh))
    ensures forall y :: y in DropHead(sh).pos ==> y in sh.pos && y != Cur(sh)
  {
    var n, sh' := |sh.stack| - 1, DropHead(sh);
    assert Within(sh, n, |sh.stack[n]| - 1);
    forall i, j | Within(sh', i, j) ensures sh'.stack[i][j] in sh'.pos && sh'.pos[sh'.stack[i][j]] == (i, j) {
      assert Within(sh, i, j) && sh.stack[i][j] == sh'.stack[i][j];
    }
    forall x | x in sh'.pos ensures Within(sh', sh'.pos[x].0, sh'.pos[x].1) && sh'.stack[sh'.pos[x].0][sh'.pos[x].1] == x {
      assert Within(sh, sh.pos[x].0, sh.pos[x].1) && sh.stack[sh.pos[x].0][sh.pos[x].1] == x;
    }
  }

  lemma {:induction false} Basics(nodes: Nodes, sh: Shape)
    requires NodesOk(nodes, sh)
    ensures Placed(sh) && sh.stack != [] && sh.stack[|sh.stack| - 1] != []
  {
    hide NodeOk;
  }

  lemma {:induction false} PlaceOf(nodes: Nodes, sh: Shape, x: Id)
    requires NodesOk(nodes, sh) && x in sh.pos
    ensures var (i, j) := sh.pos[x]; Within(sh, i, j) && sh.stack[i][j] == x && x in nodes
    ensures Placed(sh) && NodeOk(nodes, sh, x)
  {
    hide NodeOk;
  }

  lemma {:induction false} DropHeadNodeOk(nodes: Nodes, sh: Shape, y: Id)
    requires NodesOk(nodes, sh) && Placed(DropHead(sh)) && y in DropHead(sh).pos
    ensures y in nodes - {Cur(sh)} && NodeOk(nodes - {Cur(sh)}, DropHead(sh), y)
  {
    hide NodesOk, Placed;
    Basics(nodes, sh);
    PlaceOf(nodes, sh, y);
    var n := |sh.stack| - 1;
    var m := |sh.stack[n]| - 1;
    var (i, j) := sh.pos[y];
    assert (i, j) != (n, m) && DropHead(sh).pos[y] == (i, j);
    var stack' := DropHead(sh).stack;
    assert i < n ==> stack'[i] == sh.stack[i];
    assert i == n ==> stack'[i] == sh.stack[i][..m];
    assert i > 0 ==> stack'[i - 1] == sh.stack[i - 1];
    hide DropHead;
  }

  lemma {:induction false} DropHeadNodes(nodes: Nodes, sh: Shape)
    requires NodesOk(nodes, sh) && (|sh.stack| > 1 || |sh.stack[0]| > 1)
    ensures NodesOk(nodes - {Cur(sh)}, DropHead(sh))
  {
    hide NodeOk;
    var n, sh', nodes' := |sh.stack| - 1, DropHead(sh), nodes - {Cur(sh)};
    assert Within(sh, n, |sh.stack[n]| - 1);
    DropHeadPlaced(sh);
    hide Placed;
    assert nodes'.Keys == sh'.pos.Keys + {sh'.top};
    forall y | y in sh'.pos ensures NodeOk(nodes', sh', y) {
      DropHeadNodeOk(nodes, sh, y);
    }
  }

  lemma {:induction false} DropHeadTrees(nodes: Nodes, ids: seq<Id>, x: Id)
    requires |ids| > 1 && x == Last(ids) && forall j :: 0 <= j < |ids| ==> ids[j] in nodes
    requires forall j :: 0 <= j < |ids| - 1 ==> ids[j] != x
    ensures Trees(nodes - {x}, ids[..|ids| - 1]) == Trees(nodes, ids)[1..]
  {
  }

  lemma {:induction false} LowerLevel(nodes: Nodes, sh: Shape, i: nat, l: Level)
    requires NodesOk(nodes, sh) && i < |sh.stack| - 1 && LevelAt(nodes, sh.stack[i], l)
    ensures LevelAt(nodes - {Cur(sh)}, sh.stack[i], l)
  {
    hide NodeOk;
    var n := |sh.stack| - 1;
    assert Within(sh, n, |sh.stack[n]| - 1);
    assert forall j :: 0 <= j < |sh.stack[i]| ==> Within(sh, i, j);
    assert Trees(nodes - {Cur(sh)}, sh.stack[i]) == Trees(nodes, sh.stack[i]);
  }

  lemma {:induction false} At(nodes: Nodes, sh: Shape, i: nat, j: nat)
    requires NodesOk(nodes, sh) && Within(sh, i, j)
    ensures var x := sh.stack[i][j]; x in sh.pos && sh.pos[x] == (i, j) && x in nodes && NodeOk(nodes, sh, x)
  {
    hide NodeOk;
  }

  lemma {:induction false} LastIds(nodes: Nodes, sh: Shape)
    requires NodesOk(nodes, sh) && sh.stack != []
    ensures var ids := sh.stack[|sh.stack| - 1];
            && (forall j :: 0 <= j < |ids| ==> ids[j] in nodes)
            && (forall j :: 0 <= j < |ids| - 1 ==>
                  ids[j] != Cur(sh) && nodes[ids[j]].info == PreInfo(nodes[ids[j]].tree) && nodes[ids[j]].instr == NoInstr)
  {
    hide NodesOk, Placed;
    Basics(nodes, sh);
    var n := |sh.stack| - 1;
    var ids := sh.stack[n];
    At(nodes, sh, n, |ids| - 1);
    forall j | 0 <= j < |ids|
      ensures ids[j] in nodes
      ensures j < |ids| - 1 ==> ids[j] != Cur(sh) && nodes[ids[j]].info == PreInfo(nodes[ids[j]].tree) && nodes[ids[j]].instr == NoInstr
    {
      At(nodes, sh, n, j);
    }
  }

  /** What is left of a level when its first node goes. */
  lemma {:induction false} LastLevel(nodes: Nodes, ids: seq<Id>, x: Id, l: Level)
    requires |ids| > 1 && x == Last(ids) && LevelAt(nodes, ids, l)
    requires forall j :: 0 <= j < |ids| - 1 ==> ids[j] != x && nodes[ids[j]].instr == NoInstr
    ensures |l.trees| == |ids| && l.trees[1] == nodes[ids[|ids| - 2]].tree
    ensures LevelAt(nodes - {x}, ids[..|ids| - 1], Level(l.trees[1..], NoInstr))
  {
    DropHeadTrees(nodes, ids, x);
    assert (nodes - {x})[ids[|ids| - 2]] == nodes[ids[|ids| - 2]];
    hide Trees;
    assert Last(ids[..|ids| - 1]) == ids[|ids| - 2];
  }

  /** The walk at the next sibling of the current node. */
  ghost function Sibling(w: Walk): Walk {
    if w.Walk? && w.levels != [] && |w.levels[|w.levels| - 1].trees| > 1 then
      var n := |w.levels| - 1;
      Walk(w.levels[n := Level(w.levels[n].trees[1..], NoInstr)], PreInfo(w.levels[n].trees[1]))
    else w
  }

  lemma {:induction false} NextRepresents(nodes: Nodes, sh: Shape, w: Walk)
    requires sh.stack != [] && |sh.stack[|sh.stack| - 1]| > 1 && w.Walk? && |w.levels| == |sh.stack|
    requires NodesOk(nodes - {Cur(sh)}, DropHead(sh)) && |w.levels[|w.levels| - 1].trees| > 1
    requires var n := |w.levels| - 1;
             var ids := sh.stack[n];
             && LevelAt(nodes - {Cur(sh)}, ids[..|ids| - 1], Level(w.levels[n].trees[1..], NoInstr))
             && ids[|ids| - 2] in nodes - {Cur(sh)} && nodes[ids[|ids| - 2]].info == PreInfo(w.levels[n].trees[1])
             && forall i :: 0 <= i < n ==> LevelAt(nodes - {Cur(sh)}, sh.stack[i], w.levels[i])
    ensures Represents(nodes - {Cur(sh)}, DropHead(sh), Sibling(w))
  {
    hide NodesOk, LevelAt;
    var n := |sh.stack| - 1;
    assert DropHead(sh).stack == sh.stack[n := sh.stack[n][..|sh.stack[n]| - 1]];
    assert Cur(DropHead(sh)) == sh.stack[n][|sh.stack[n]| - 2];
  }

  /** The next sibling becomes the current node. */
  lemma {:induction false} NextKeeps(nodes: Nodes, sh: Shape, w: Walk)
    requires sh.stack != [] && |sh.stack[|sh.stack| - 1]| > 1 && Represents(nodes, sh, w)
    ensures Represents(nodes - {Cur(sh)}, DropHead(sh), Sibling(w))
  {
    hide NodesOk, LevelAt, DropHead;
    var n := |sh.stack| - 1;
    DropHeadNodes(nodes, sh);
    LastIds(nodes, sh);
    LastLevel(nodes, sh.stack[n], Cur(sh), w.levels[n]);
    forall i | 0 <= i < n ensures LevelAt(nodes - {Cur(sh)}, sh.stack[i], w.levels[i]) {
      LowerLevel(nodes, sh, i, w.levels[i]);
    }
    assert sh.stack[n][|sh.stack[n]| - 2] != Cur(sh);
    NextRepresents(nodes, sh, w);
  }

  /** The last entry of a directory is freed and its directory becomes the current node. */
  lemma {:induction false} UpKeeps(nodes: Nodes, sh: Shape, w: Walk)
    requires |sh.stack| > 1 && |sh.stack[|sh.stack| - 1]| == 1 && Represents(nodes, sh, w)
    ensures var n := |sh.stack| - 1;
            && NodesOk(nodes - {Cur(sh)}, DropHead(sh))
            && Represents(nodes - {Cur(sh)}, DropHead(sh), Walk(w.levels[..n], (nodes - {Cur(sh)})[Cur(DropHead(sh))].info))
            && Cur(DropHead(sh)) == Last(sh.stack[n - 1])
            && |w.levels[n].trees| == 1
  {
    hide NodesOk;
    var n := |sh.stack| - 1;
    DropHeadNodes(nodes, sh);
    forall i | 0 <= i < n ensures LevelAt(nodes - {Cur(sh)}, DropHead(sh).stack[i], w.levels[i]) {
      LowerLevel(nodes, sh, i, w.levels[i]);
    }
    assert LevelAt(nodes, sh.stack[n], w.levels[n]);
  }

  // ----- A directory is entered -----

  ghost predicate ChildAt(nodes: Nodes, sh: Shape, ids: seq<Id>, entries: seq<Tree>, j: nat)
    requires j < |ids| == |entries|
  {
    var t := entries[|ids| - 1 - j];
    && ids[j] in nodes
    && nodes[ids[j]] == Ent(t, |sh.stack|, if j == 0 then None else Some(ids[j - 1]), Some(Cur(sh)), PreInfo(t), NoInstr)
  }

  /** `ids` are new nodes for the entries of the current directory, the last entry first. */
  ghost predicate Children(nodes: Nodes, nodes': Nodes, sh: Shape, ids: seq<Id>, entries: seq<Tree>) {
    && |ids| == |entries|
    && (forall j, k :: 0 <= j < k < |ids| ==> ids[j] != ids[k])
    && (forall j :: 0 <= j < |ids| ==> ids[j] !in nodes && ids[j] in nodes')
    && (forall x :: x in nodes ==> x in nodes' && nodes'[x] == nodes[x])
    && (forall x :: x in nodes' ==> x in nodes || x in ids)
    && (forall j :: 0 <= j < |ids| ==> ChildAt(nodes', sh, ids, entries, j))
  }

  ghost function PosOf(ids: seq<Id>, i: nat): map<Id, (nat, nat)> {
    if ids == [] then map[] else PosOf(ids[..|ids| - 1], i)[ids[|ids| - 1] := (i, |ids| - 1)]
  }

  lemma {:induction false} PosOfAll(ids: seq<Id>, i: nat)
    requires forall j, k :: 0 <= j < k < |ids| ==> ids[j] != ids[k]
    ensures forall x :: x in PosOf(ids, i) <==> x in ids
    ensures forall j :: 0 <= j < |ids| ==> ids[j] in PosOf(ids, i) && PosOf(ids, i)[ids[j]] == (i, j)
  {
    if ids != [] {
      PosOfAll(ids[..|ids| - 1], i);
    }
  }

  ghost function Push(sh: Shape, ids: seq<Id>): Shape {
    Shape(sh.stack + [ids], sh.pos + PosOf(ids, |sh.stack|), sh.top)
  }

  lemma {:induction false} PushPlaced(sh: Shape, ids: seq<Id>)
    requires Placed(sh) && ids != []
    requires forall j, k :: 0 <= j < k < |ids| ==> ids[j] != ids[k]
    requires forall j :: 0 <= j < |ids| ==> ids[j] !in sh.pos && ids[j] != sh.top
    ensures Placed(Push(sh, ids))
    ensures Push(sh, ids).pos.Keys == sh.pos.Keys + set x | x in ids
  {
    hide PosOf;
    var sh', n := Push(sh, ids), |sh.stack|;
    PosOfAll(ids, n);
    forall i, j | Within(sh', i, j) ensures sh'.stack[i][j] in sh'.pos && sh'.pos[sh'.stack[i][j]] == (i, j) {
      assert i < n ==> Within(sh, i, j);
    }
    forall x | x in sh'.pos ensures Within(sh', sh'.pos[x].0, sh'.pos[x].1) && sh'.stack[sh'.pos[x].0][sh'.pos[x].1] == x {
      if x in sh.pos && x !in ids {
        assert Within(sh, sh.pos[x].0, sh.pos[x].1);
      }
    }
  }

  lemma {:induction false} PushNodeOk(nodes: Nodes, nodes': Nodes, sh: Shape, ids: seq<Id>, x: Id)
    requires NodesOk(nodes, sh) && Placed(Push(sh, ids)) && x in sh.pos && x in Push(sh, ids).pos && x in nodes'
    requires Push(sh, ids).pos[x] == sh.pos[x] && nodes'[x] == nodes[x] && x in nodes && nodes[x].info != INIT
    ensures NodeOk(nodes', Push(sh, ids), x)
  {
    assert NodeOk(nodes, sh, x) && Within(sh, sh.pos[x].0, sh.pos[x].1);
    var (i, j) := sh.pos[x];
    var stack' := Push(sh, ids).stack;
    assert stack'[i] == sh.stack[i] && (i > 0 ==> stack'[i - 1] == sh.stack[i - 1] != []);
    hide NodesOk, Placed, PosOf, Push;
  }

  lemma {:induction false} NotInit(nodes: Nodes, sh: Shape, x: Id)
    requires NodesOk(nodes, sh) && x in sh.pos && Cur(sh) in nodes && nodes[Cur(sh)].info != INIT
    ensures x in nodes && nodes[x].info != INIT
  {
    hide NodesOk, Placed;
    PlaceOf(nodes, sh, x);
    var (i, j) := sh.pos[x];
    assert |sh.stack| == 1 && j == |sh.stack[i]| - 1 ==> x == Cur(sh);
  }

  lemma {:induction false} NoneInit(nodes: Nodes, sh: Shape)
    requires NodesOk(nodes, sh) && Cur(sh) in nodes && nodes[Cur(sh)].info != INIT
    ensures forall x :: x in sh.pos ==> x in nodes && nodes[x].info != INIT
  {
    hide NodesOk, Placed;
    forall x | x in sh.pos ensures x in nodes && nodes[x].info != INIT {
      NotInit(nodes, sh, x);
    }
  }

  lemma {:induction false} ChildPlace(nodes: Nodes, nodes': Nodes, sh: Shape, ids: seq<Id>, entries: seq<Tree>, j: nat)
    requires NodesOk(nodes, sh) && Children(nodes, nodes', sh, ids, entries) && j < |ids|
    ensures sh.stack != [] && |ids| == |entries| && ChildAt(nodes', sh, ids, entries, j)
    ensures var sh', n := Push(sh, ids), |sh.stack|;
            && |sh'.stack| == n + 1 && sh'.stack[n] == ids && sh'.stack[n - 1] == sh.stack[n - 1] && sh'.top == sh.top
            && ids[j] in sh'.pos && sh'.pos[ids[j]] == (n, j)
  {
    hide NodeOk, ChildAt, PosOf;
    PosOfAll(ids, |sh.stack|);
  }

  lemma {:induction false} ChildNodeOk(nodes: Nodes, nodes': Nodes, sh: Shape, ids: seq<Id>, entries: seq<Tree>, j: nat)
    requires NodesOk(nodes, sh) && ids != [] && Children(nodes, nodes', sh, ids, entries) && j < |ids|
    requires Placed(Push(sh, ids))
    ensures ids[j] in Push(sh, ids).pos && NodeOk(nodes', Push(sh, ids), ids[j])
  {
    hide NodesOk, PosOf, Placed, Push, Children;
    ChildPlace(nodes, nodes', sh, ids, entries, j);
  }

  lemma {:induction false} PushNodes(nodes: Nodes, nodes': Nodes, sh: Shape, ids: seq<Id>, entries: seq<Tree>)
    requires NodesOk(nodes, sh) && ids != [] && Children(nodes, nodes', sh, ids, entries)
    requires Cur(sh) in nodes && nodes[Cur(sh)].info != INIT
    ensures NodesOk(nodes', Push(sh, ids))
  {
    hide NodeOk, PosOf, ChildAt;
    NoneInit(nodes, sh);
    var sh', n := Push(sh, ids), |sh.stack|;
    PushPlaced(sh, ids);
    PosOfAll(ids, n);
    assert nodes'.Keys == sh'.pos.Keys + {sh'.top};
    forall x | x in sh'.pos ensures NodeOk(nodes', sh', x) {
      if x in ids {
        var j :| 0 <= j < |ids| && ids[j] == x;
        ChildNodeOk(nodes, nodes', sh, ids, entries, j);
      } else {
        PushNodeOk(nodes, nodes', sh, ids, x);
      }
    }
  }

  lemma {:induction false} OlderLevel(nodes: Nodes, nodes': Nodes, ids: seq<Id>, l: Level)
    requires LevelAt(nodes, ids, l)
    requires forall x :: x in nodes ==> x in nodes' && nodes'[x] == nodes[x]
    ensures LevelAt(nodes', ids, l)
  {
    assert Trees(nodes', ids) == Trees(nodes, ids);
  }

  lemma {:induction false} NewLevel(nodes: Nodes, nodes': Nodes, sh: Shape, ids: seq<Id>, entries: seq<Tree>)
    requires ids != [] && Children(nodes, nodes', sh, ids, entries)
    ensures LevelAt(nodes', ids, Level(entries, NoInstr))
    ensures nodes'[Last(ids)].info == PreInfo(entries[0])
  {
    forall j | 0 <= j < |ids| ensures nodes'[ids[j]].tree == entries[|ids| - 1 - j] {
      assert ChildAt(nodes', sh, ids, entries, j);
    }
    assert Trees(nodes', ids) == entries;
    assert ChildAt(nodes', sh, ids, entries, |ids| - 1);
  }

  lemma {:induction false} InPath(nodes: Nodes, sh: Shape, i: nat)
    requires NodesOk(nodes, sh) && i < |sh.stack|
    ensures Last(sh.stack[i]) in sh.pos && Last(sh.stack[i]) in nodes && NodeOk(nodes, sh, Last(sh.stack[i]))
    ensures sh.stack[i] != [] && sh.pos[Last(sh.stack[i])] == (i, |sh.stack[i]| - 1)
  {
    assert Within(sh, i, |sh.stack[i]| - 1);
  }

  /** The new nodes become the last level of the walk. */
  lemma {:induction false} PushKeeps(nodes: Nodes, nodes': Nodes, sh: Shape, w: Walk, ids: seq<Id>, entries: seq<Tree>)
    requires Represents(nodes, sh, w) && ids != [] && Children(nodes, nodes', sh, ids, entries) && w.info != INIT
    ensures Represents(nodes', Push(sh, ids), Walk(w.levels + [Level(entries, NoInstr)], PreInfo(entries[0])))
  {
    hide LevelAt, NodesOk;
    InPath(nodes, sh, |sh.stack| - 1);
    PushNodes(nodes, nodes', sh, ids, entries);
    NewLevel(nodes, nodes', sh, ids, entries);
    forall i | 0 <= i < |sh.stack| ensures LevelAt(nodes', sh.stack[i], w.levels[i]) {
      OlderLevel(nodes, nodes', sh.stack[i], w.levels[i]);
    }
    hide NodesOk, Placed, Children;
    assert Cur(Push(sh, ids)) == Last(ids);
  }

  // ----- Lists of new nodes -----

  /** Nodes base, base + 1, ... form a linked list for the first `k` trees. */
  ghost predicate ListedAt(nodes: Nodes, base: Id, trees: seq<Tree>, k: nat, level: int, parent: Id, e: nat)
    requires e < k <= |trees|
  {
    && base + e in nodes
    && nodes[base + e] ==
       Ent(trees[e], level, if e == k - 1 then None else Some(base + e + 1), Some(parent), PreInfo(trees[e]), NoInstr)
  }

  ghost function ListIds(base: Id, n: nat): seq<Id> {
    seq(n, j requires 0 <= j < n => base + n - 1 - j)
  }

  ghost predicate Listed(nodes: Nodes, nodes': Nodes, base: Id, trees: seq<Tree>, k: nat, level: int, parent: Id) {
    && k <= |trees|
    && (forall x :: x in nodes ==> x < base && x in nodes' && nodes'[x] == nodes[x])
    && (forall x :: x in nodes' ==> x in nodes || base <= x < base + k)
    && (forall e :: 0 <= e < k ==> ListedAt(nodes', base, trees, k, level, parent, e))
  }

  lemma {:induction false} ListedChildren(nodes: Nodes, nodes': Nodes, base: Id, trees: seq<Tree>, sh: Shape)
    requires Listed(nodes, nodes', base, trees, |trees|, |sh.stack|, Cur(sh))
    ensures Children(nodes, nodes', sh, ListIds(base, |trees|), trees)
  {
    var ids := ListIds(base, |trees|);
    forall j | 0 <= j < |ids| ensures ids[j] !in nodes && ids[j] in nodes' && ChildAt(nodes', sh, ids, trees, j) {
      assert ListedAt(nodes', base, trees, |trees|, |sh.stack|, Cur(sh), |trees| - 1 - j);
    }
    forall x | x in nodes' && x !in nodes ensures x in ids {
      assert x == ids[base + |trees| - 1 - x];
    }
  }

  // ----- The start of a walk -----

  const DUMMY := Leaf("", DEFAULT)
  const ROOT_PARENT := Ent(DUMMY, ROOT_PARENT_LEVEL, None, None, INIT, NoInstr)

  /** The walk before the first read: the current node is a dummy in front of the roots. */
  function Start(roots: seq<Tree>): Walk {
    Walk([Level([DUMMY] + roots, NoInstr)], INIT)
  }

  ghost function StartShape(roots: nat): Shape {
    var ids := ListIds(1, roots) + [roots + 1];
    Shape([ids], PosOf(ids, 0), 0)
  }

  ghost predicate StartNodes(nodes: Nodes, roots: seq<Tree>) {
    && (forall x: Id :: x in nodes <==> x < |roots| + 2)
    && nodes[0].level == ROOT_PARENT_LEVEL
    && (forall e :: 0 <= e < |roots| ==> ListedAt(nodes, 1, roots, |roots|, ROOT_LEVEL, 0, e))
    && nodes[|roots| + 1] == Ent(DUMMY, ROOT_LEVEL, Some(1), None, INIT, NoInstr)
  }

  lemma {:induction false} StartPlaced(roots: nat)
    ensures Placed(StartShape(roots))
    ensures forall x :: x in StartShape(roots).pos <==> 0 < x < roots + 2
  {
    var sh := StartShape(roots);
    var ids := sh.stack[0];
    PosOfAll(ids, 0);
    forall i, j | Within(sh, i, j) ensures sh.stack[i][j] in sh.pos && sh.pos[sh.stack[i][j]] == (i, j) {
      assert i == 0;
    }
    forall x | x in sh.pos ensures Within(sh, sh.pos[x].0, sh.pos[x].1) && sh.stack[sh.pos[x].0][sh.pos[x].1] == x {
      var j :| 0 <= j < |ids| && ids[j] == x;
      assert sh.pos[x] == (0, j);
    }
    forall x ensures x in sh.pos <==> 0 < x < roots + 2 {
      if 0 < x < roots + 2 {
        assert x == if x == roots + 1 then ids[roots] else ids[roots - x];
      }
    }
  }

  lemma {:induction false} StartNodeOk(nodes: Nodes, roots: seq<Tree>, j: nat)
    requires roots != [] && StartNodes(nodes, roots) && j <= |roots| && Placed(StartShape(|roots|))
    ensures var sh := StartShape(|roots|);
            var x := sh.stack[0][j];
            x in sh.pos && x in nodes && NodeOk(nodes, sh, x)
  {
    var sh := StartShape(|roots|);
    assert Within(sh, 0, j);
    StartPlaced(|roots|);
    var ids := sh.stack[0];
    assert sh.pos[ids[j]] == (0, j) && |ids| == |roots| + 1;
    hide Placed, PosOf;
    if j < |roots| {
      assert ListedAt(nodes, 1, roots, |roots|, ROOT_LEVEL, 0, |roots| - 1 - j);
      assert j > 0 ==> ids[j - 1] == ids[j] + 1;
    } else {
      assert ids[j - 1] == 1;
    }
  }

  lemma {:induction false} StartNodesOk(nodes: Nodes, roots: seq<Tree>)
    requires roots != [] && StartNodes(nodes, roots)
    ensures NodesOk(nodes, StartShape(|roots|))
  {
    hide PosOf, NodeOk;
    var sh := StartShape(|roots|);
    StartPlaced(|roots|);
    forall x | x in sh.pos ensures x in nodes && NodeOk(nodes, sh, x) {
      assert Within(sh, sh.pos[x].0, sh.pos[x].1);
      StartNodeOk(nodes, roots, sh.pos[x].1);
    }
    assert nodes.Keys == sh.pos.Keys + {0};
  }

  lemma {:induction false} StartLevel(nodes: Nodes, roots: seq<Tree>)
    requires roots != [] && StartNodes(nodes, roots)
    ensures LevelAt(nodes, ListIds(1, |roots|) + [|roots| + 1], Level([DUMMY] + roots, NoInstr))
  {
    var ids := ListIds(1, |roots|) + [|roots| + 1];
    forall j | 0 <= j < |ids| ensures ids[j] in nodes && nodes[ids[j]].tree == ([DUMMY] + roots)[|roots| - j] {
      if j < |roots| {
        assert ListedAt(nodes, 1, roots, |roots|, ROOT_LEVEL, 0, |roots| - 1 - j);
      }
    }
    assert Trees(nodes, ids) == [DUMMY] + roots;
  }

  lemma {:induction false} StartRepresents(nodes: Nodes, roots: seq<Tree>)
    requires roots != [] && StartNodes(nodes, roots)
    ensures Represents(nodes, StartShape(|roots|), Start(roots))
    ensures Cur(StartShape(|roots|)) == |roots| + 1
  {
    hide NodesOk, LevelAt, ListIds, PosOf;
    StartNodesOk(nodes, roots);
    StartLevel(nodes, roots);
    var sh := StartShape(|roots|);
    assert Cur(sh) == Last(sh.stack[0]);
  }

  lemma {:induction false} FewerNodes(nodes: Nodes, x: Id)
    requires x in nodes
    ensures |nodes - {x}| < |nodes|
  {
    assert (nodes - {x}).Keys == nodes.Keys - {x};
    assert |(nodes - {x}).Keys| == |nodes - {x}| && |nodes.Keys| == |nodes|;
  }

  lemma {:induction false} RootParent(nodes: Nodes, sh: Shape)
    requires NodesOk(nodes, sh)
    ensures sh.top in nodes && sh.top !in sh.pos && nodes[sh.top].level == ROOT_PARENT_LEVEL && nodes.Keys == sh.pos.Keys + {sh.top}
  {
    hide NodeOk;
  }

  /** The node that `yfts_close` frees after the current one. */
  lemma {:induction false} CloseStep(nodes: Nodes, sh: Shape)
    requires NodesOk(nodes, sh)
    ensures Cur(sh) in nodes && nodes[Cur(sh)].level >= ROOT_LEVEL
    ensures var e := nodes[Cur(sh)];
            var rest := nodes - {Cur(sh)};
            && (e.link.Some? || e.parent.Some?)
            && var q := if e.link.Some? then e.link.value else e.parent.value;
            && q in rest
            && (if rest[q].level >= ROOT_LEVEL then NodesOk(rest, DropHead(sh)) && q == Cur(DropHead(sh)) else rest.Keys == {q})
  {
    hide NodesOk, Placed;
    Basics(nodes, sh);
    var n := |sh.stack| - 1;
    InPath(nodes, sh, n);
    RootParent(nodes, sh);
    if |sh.stack[n]| > 1 {
      At(nodes, sh, n, |sh.stack[n]| - 2);
      DropHeadNodes(nodes, sh);
    } else if n > 0 {
      InPath(nodes, sh, n - 1);
      DropHeadNodes(nodes, sh);
    } else {
      forall x | x in sh.pos ensures x == Cur(sh) {
        PlaceOf(nodes, sh, x);
      }
    }
  }

  lemma {:induction false} OpenNodes(listed: Nodes, nodes: Nodes, roots: seq<Tree>)
    requires roots != []
    requires Listed(map[0 := ROOT_PARENT], listed, 1, roots, |roots|, ROOT_LEVEL, 0)
    requires nodes == listed[|roots| + 1 := Ent(DUMMY, ROOT_LEVEL, Some(1), None, INIT, NoInstr)]
    ensures StartNodes(nodes, roots)
  {
    var first := map[0 := ROOT_PARENT];
    assert 0 in first && listed[0] == first[0];
    forall e | 0 <= e < |roots| ensures ListedAt(nodes, 1, roots, |roots|, ROOT_LEVEL, 0, e) {
      assert ListedAt(listed, 1, roots, |roots|, ROOT_LEVEL, 0, e);
    }
    forall x: Id ensures x in nodes <==> x < |roots| + 2 {
      assert x == 0 || x == |roots| + 1 || x > |roots| + 1 || ListedAt(listed, 1, roots, |roots|, ROOT_LEVEL, 0, x - 1);
    }
  }

  lemma {:induction false} OpenKeeps(listed: Nodes, nodes: Nodes, roots: seq<Tree>)
    requires roots != []
    requires Listed(map[0 := ROOT_PARENT], listed, 1, roots, |roots|, ROOT_LEVEL, 0)
    requires nodes == listed[|roots| + 1 := Ent(DUMMY, ROOT_LEVEL, Some(1), None, INIT, NoInstr)]
    ensures Represents(nodes, StartShape(|roots|), Start(roots)) && Cur(StartShape(|roots|)) == |roots| + 1
    ensures forall x :: x in nodes ==> x < |roots| + 2
    ensures WellFormed(Start(roots))
  {
    hide Represents, Listed, StartShape;
    OpenNodes(listed, nodes, roots);
    StartRepresents(nodes, roots);
  }

  lemma {:induction false} SetKeeps(nodes: Nodes, sh: Shape, w: Walk, i: nat, instr: Instr)
    requires Represents(nodes, sh, w) && i < |sh.stack| && Last(sh.stack[i]) in nodes
    ensures Represents(nodes[Last(sh.stack[i]) := nodes[Last(sh.stack[i])].(instr := instr)], sh, SetInstr(w, i, instr))
  {
    hide NodesOk, LevelAt;
    var nodes' := nodes[Last(sh.stack[i]) := nodes[Last(sh.stack[i])].(instr := instr)];
    InPath(nodes, sh, |sh.stack| - 1);
    TouchKeeps(nodes, nodes', sh, w, i);
  }

  lemma {:induction false} LevelFacts(nodes: Nodes, ids: seq<Id>, l: Level)
    requires LevelAt(nodes, ids, l)
    ensures ids != [] && Last(ids) in nodes && |l.trees| == |ids|
    ensures l.trees[0] == nodes[Last(ids)].tree && l.instr == nodes[Last(ids)].instr
  {
  }

  lemma {:induction false} CurrentTree(nodes: Nodes, sh: Shape, w: Walk)
    requires Represents(nodes, sh, w)
    ensures Cur(sh) in nodes
    ensures w.levels != [] && w.levels[|w.levels| - 1].trees != []
    ensures w.levels[|w.levels| - 1].trees[0] == nodes[Cur(sh)].tree
    ensures w.levels[|w.levels| - 1].instr == nodes[Cur(sh)].instr
    ensures |w.levels[|w.levels| - 1].trees| == |sh.stack[|sh.stack| - 1]|
    ensures nodes[Cur(sh)].level == |w.levels| - 1
  {
    hide NodesOk, LevelAt, Placed;
    var n := |sh.stack| - 1;
    InPath(nodes, sh, n);
    LevelFacts(nodes, sh.stack[n], w.levels[n]);
  }

  lemma {:induction false} InfoKeeps(nodes: Nodes, sh: Shape, w: Walk, info: Info)
    requires Represents(nodes, sh, w) && Cur(sh) in nodes && info != INIT && w.info != INIT
    ensures Represents(nodes[Cur(sh) := nodes[Cur(sh)].(info := info)], sh, w.(info := info))
  {
    hide NodesOk, LevelAt;
    var nodes' := nodes[Cur(sh) := nodes[Cur(sh)].(info := info)];
    var n := |sh.stack| - 1;
    CurrentTree(nodes, sh, w);
    InPath(nodes, sh, n);
    TouchKeeps(nodes, nodes', sh, w, n);
    assert w.levels[n := w.levels[n].(instr := nodes'[Cur(sh)].instr)] == w.levels;
  }

  /** What `yfts_read` finds at the current node. */
  lemma {:induction false} ReadFacts(nodes: Nodes, sh: Shape, w: Walk)
    requires Represents(nodes, sh, w) && WellFormed(w)
    ensures Cur(sh) in nodes && w.Walk? && w.levels != [] && |w.levels| == |sh.stack|
    ensures var n := |w.levels| - 1;
            var quiet := SetInstr(w, n, NoInstr);
            && w.levels[n].instr == nodes[Cur(sh)].instr && w.levels[n].trees != [] && w.levels[n].trees[0] == nodes[Cur(sh)].tree
            && w.info == nodes[Cur(sh)].info
            && (w.info == D ==> nodes[Cur(sh)].tree.Dir?)
            && nodes[Cur(sh)].level == n
            && Represents(nodes[Cur(sh) := nodes[Cur(sh)].(instr := NoInstr)], sh, quiet) && WellFormed(quiet)
    ensures WellFormed(Advance(w)) && (Advance(w).Walk? ==> Advance(w).info != INIT)
    ensures w.info == INIT ==> nodes[Cur(sh)].instr == NoInstr
  {
    hide NodesOk, LevelAt;
    CurrentTree(nodes, sh, w);
    SetKeeps(nodes, sh, w, |sh.stack| - 1, NoInstr);
  }

  /** An instruction other than FTS_AGAIN, or FTS_SKIP on a directory in pre-order, makes no difference. */
  lemma {:induction false} QuietAdvance(w: Walk)
    requires w.Walk? && WellFormed(w)
    ensures var n := |w.levels| - 1;
            var quiet := SetInstr(w, n, NoInstr);
            && WellFormed(quiet)
            && (w.levels[n].instr == NoInstr || (w.levels[n].instr == Skip && w.info != D) ==> Advance(quiet) == Advance(w))
            && (w.levels[n].instr == Again ==> Advance(w) == quiet.(info := StatInfo(w.levels[n].trees[0])))
            && (w.levels[n].instr == Skip && w.info == D ==> Advance(w) == quiet.(info := DP))
  {
    var n := |w.levels| - 1;
    var quiet := SetInstr(w, n, NoInstr);
    assert quiet.levels[..n] == w.levels[..n];
    assert quiet.levels[n := Level(quiet.levels[n].trees, NoInstr)] == quiet.levels;
    assert |w.levels[n].trees| > 1 ==>
      quiet.levels[n := Level(w.levels[n].trees[1..], NoInstr)] == w.levels[n := Level(w.levels[n].trees[1..], NoInstr)];
  }

  lemma {:induction false} EnterWalk(w: Walk)
    requires w.Walk? && WellFormed(w) && w.info == D && w.levels[|w.levels| - 1].instr == NoInstr
    ensures var entries := w.levels[|w.levels| - 1].trees[0].entries;
            Advance(w) == if entries == [] then w.(info := DP)
                          else Walk(w.levels + [Level(entries, NoInstr)], PreInfo(entries[0]))
  {
    var n := |w.levels| - 1;
    assert w.levels[n := Level(w.levels[n].trees, NoInstr)] == w.levels;
  }

  lemma {:induction false} MoveWalk(w: Walk)
    requires w.Walk? && WellFormed(w) && w.info != D && w.levels[|w.levels| - 1].instr == NoInstr
    ensures var n := |w.levels| - 1;
            Advance(w) == if |w.levels[n].trees| > 1 then Sibling(w) else if n == 0 then Finished else Walk(w.levels[..n], DP)
  {
  }

  lemma {:induction false} LinkFacts(nodes: Nodes, sh: Shape, w: Walk)
    requires Represents(nodes, sh, w)
    ensures Cur(sh) in nodes && sh.stack != [] && |w.levels| == |sh.stack|
    ensures var ids := sh.stack[|sh.stack| - 1];
            && |w.levels[|w.levels| - 1].trees| == |ids| > 0
            && nodes[Cur(sh)].link == (if |ids| == 1 then None else Some(ids[|ids| - 2]))
            && (|ids| > 1 ==> Cur(DropHead(sh)) == ids[|ids| - 2])
  {
    hide LevelAt, NodesOk, Placed;
    CurrentTree(nodes, sh, w);
    InPath(nodes, sh, |sh.stack| - 1);
  }

  lemma {:induction false} ParentFacts(nodes: Nodes, sh: Shape, w: Walk)
    requires Represents(nodes, sh, w) && |sh.stack[|sh.stack| - 1]| == 1
    ensures Cur(sh) in nodes
    ensures var n := |sh.stack| - 1;
            var e := nodes[Cur(sh)];
            && e.parent.Some? && e.parent.value in nodes && e.parent.value != Cur(sh)
            && nodes[e.parent.value].level == n - 1
            && (n > 0 ==> e.parent.value == Cur(DropHead(sh)) && nodes[e.parent.value].info != INIT)
            && (n == 0 ==> nodes.Keys == {Cur(sh), e.parent.value})
  {
    hide LevelAt, NodesOk, Placed;
    var n := |sh.stack| - 1;
    InPath(nodes, sh, n);
    RootParent(nodes, sh);
    if n > 0 {
      InPath(nodes, sh, n - 1);
    } else {
      forall x | x in sh.pos ensures x == Cur(sh) {
        PlaceOf(nodes, sh, x);
      }
    }
  }

  lemma {:induction false} EnterKeeps(nodes: Nodes, nodes': Nodes, sh: Shape, w: Walk, base: Id, entries: seq<Tree>)
    requires Represents(nodes, sh, w) && w.info != INIT && entries != []
    requires Listed(nodes, nodes', base, entries, |entries|, |sh.stack|, Cur(sh))
    ensures Represents(nodes', Push(sh, ListIds(base, |entries|)), Walk(w.levels + [Level(entries, NoInstr)], PreInfo(entries[0])))
    ensures Cur(Push(sh, ListIds(base, |entries|))) == base
  {
    hide NodesOk, LevelAt, Listed, Represents, Children;
    ListedChildren(nodes, nodes', base, entries, sh);
    PushKeeps(nodes, nodes', sh, w, ListIds(base, |entries|), entries);
  }

  lemma {:induction false} LeaveKeeps(nodes: Nodes, sh: Shape, w: Walk, parent: Id)
    requires |sh.stack| > 1 && |sh.stack[|sh.stack| - 1]| == 1 && Represents(nodes, sh, w)
    requires parent == Cur(DropHead(sh)) && parent in nodes - {Cur(sh)} && nodes[parent].info != INIT
    ensures var freed := nodes - {Cur(sh)};
            Represents(freed[parent := freed[parent].(info := DP)], DropHead(sh), Walk(w.levels[..|sh.stack| - 1], DP))
  {
    var freed := nodes - {Cur(sh)};
    UpKeeps(nodes, sh, w);
    assert freed[parent] == nodes[parent];
    hide Represents;
    InfoKeeps(freed, DropHead(sh), Walk(w.levels[..|sh.stack| - 1], freed[parent].info), DP);
  }

  /** The stream. `sh` and `walk` say how the nodes are arranged and which walk they stand for. */
  class FtsStream {
    var nodes: Nodes
    var cur: Option<Id>
    var nextId: nat
    ghost var sh: Shape
    ghost var walk: Walk

    ghost predicate Valid()
      reads this
    {
      && (forall x :: x in nodes ==> x < nextId)
      && WellFormed(walk)
      && (if cur.None? then walk == Finished && nodes == map[]
          else Represents(nodes, sh, walk) && cur.value == Cur(sh))
    }

    method Free(x: Id)
      requires x in nodes
      modifies this`nodes
      ensures nodes == old(nodes) - {x}
    {
      nodes := nodes - {x};
    }

    /** The loops of `yfts_open` and `fts_build` that allocate a node per entry and append it to a linked list. */
    method AllocateList(trees: seq<Tree>, level: int, parent: Id) returns (head: Option<Id>)
      requires forall x :: x in nodes ==> x < nextId
      modifies this`nodes, this`nextId
      ensures nextId == old(nextId) + |trees|
      ensures Listed(old(nodes), nodes, old(nextId), trees, |trees|, level, parent)
      ensures head == if trees == [] then None else Some(old(nextId))
    {
      head := None;
      var tail := nextId;
      ghost var base := nextId;
      for k := 0 to |trees|
        invariant nextId == base + k
        invariant Listed(old(nodes), nodes, base, trees, k, level, parent)
        invariant head == if k == 0 then None else Some(base)
        invariant k > 0 ==> tail == base + k - 1
      {
        ghost var before := nodes;
        var p := nextId;
        nodes := nodes[p := Ent(trees[k], level, None, Some(parent), PreInfo(trees[k]), NoInstr)];
        nextId := nextId + 1;
        if head.None? {
          head := Some(p);
        } else {
          assert ListedAt(before, base, trees, k, level, parent, k - 1);
          nodes := nodes[tail := nodes[tail].(link := Some(p))];
        }
        tail := p;
        ghost var after, n := nodes, k + 1;
        forall e | 0 <= e < n ensures ListedAt(after, base, trees, n, level, parent, e) {
          assert e < k ==> ListedAt(before, base, trees, k, level, parent, e);
        }
      }
    }
  
    /** A stream with the parent of the roots and nothing else. */
    constructor WithParent()
      ensures nodes == map[0 := ROOT_PARENT] && nextId == 1
    {
      nodes, nextId := map[0 := ROOT_PARENT], 1;
      cur, walk := None, Finished;
    }

    /** `fts_lfree`: follows the links from `head` and frees every node of the list. */
    method FreeList(head: Option<Id>, ghost before: Nodes, ghost base: Id, ghost trees: seq<Tree>, ghost level: int, ghost parent: Id)
      requires Listed(before, nodes, base, trees, |trees|, level, parent)
      requires head == if trees == [] then None else Some(base)
      modifies this`nodes
      ensures nodes == before
    {
      var next := head;
      ghost var k := 0;
      forall x | base <= x < base + |trees| ensures x in nodes {
        assert ListedAt(nodes, base, trees, |trees|, level, parent, x - base);
      }
      while next.Some?
        invariant 0 <= k <= |trees| && next == (if k == |trees| then None else Some(base + k))
        invariant forall x :: x in nodes <==> x in before || base + k <= x < base + |trees|
        invariant forall x :: x in nodes ==> x in old(nodes) && nodes[x] == old(nodes)[x]
        decreases |trees| - k
      {
        var p := next.value;
        assert ListedAt(old(nodes), base, trees, |trees|, level, parent, k);
        next := nodes[p].link;
        Free(p);
        k := k + 1;
      }
      assert nodes == before;
    }

    /** The dummy that `yfts_read` takes for a node it has finished goes in front of the roots. */
    method Begin(roots: seq<Tree>, root: Option<Id>)
      requires roots != [] && root == Some(1) && nextId == |roots| + 1
      requires Listed(map[0 := ROOT_PARENT], nodes, 1, roots, |roots|, ROOT_LEVEL, 0)
      modifies this
      ensures Valid() && walk == Start(roots) && cur.Some?
    {
      hide Represents, WellFormed, Listed, StartShape, Start, Cur;
      ghost var listed := nodes;
      nodes := nodes[nextId := Ent(DUMMY, ROOT_LEVEL, root, None, INIT, NoInstr)];
      cur := Some(nextId);
      nextId := nextId + 1;
      OpenKeeps(listed, nodes, roots);
      sh := StartShape(|roots|);
      walk := Start(roots);
    }

    /** `yfts_open`: refuses an empty list of roots and roots with an empty name. The nodes of the roots before an empty
        name, and their parent, have been allocated by then and are freed again: none is left. */
    static method Open(roots: seq<Tree>) returns (r: FtsStream?, ghost left: Nodes)
      ensures r == null <==> roots == [] || exists t :: t in roots && t.name == ""
      ensures r != null ==> fresh(r) && r.Valid() && r.walk == Start(roots) && r.cur.Some?
      ensures r == null ==> left == map[]
    {
      left := map[];
      if roots == [] {
        return null, left;
      }
      var sp := new FtsStream.WithParent();
      var n := 0;
      while n < |roots| && roots[n].name != ""
        invariant 0 <= n <= |roots| && forall j :: 0 <= j < n ==> roots[j].name != ""
      {
        n := n + 1;
      }
      var named := roots[..n];
      var root := sp.AllocateList(named, ROOT_LEVEL, 0);
      if n < |roots| {
        sp.FreeList(root, map[0 := ROOT_PARENT], 1, named, ROOT_LEVEL, 0);
        sp.Free(0);
        left := sp.nodes;
        return null, left;
      }
      assert named == roots;
      sp.Begin(roots, root);
      r := sp;
    }

    /** `yfts_set` on the node of the current path at level `i`, the current node or one of its ancestors. */
    method Set(x: Id, instr: Instr, ghost i: nat)
      requires Valid() && cur.Some? && walk.info != INIT
      requires i < |sh.stack| && x == Last(sh.stack[i])
      modifies this`nodes, this`walk
      ensures Valid()
      ensures walk == SetInstr(old(walk), i, instr)
    {
      hide NodesOk, LevelAt;
      InPath(nodes, sh, i);
      SetKeeps(nodes, sh, walk, i, instr);
      nodes := nodes[x := nodes[x].(instr := instr)];
      walk := SetInstr(walk, i, instr);
    }

    /** `fts_build` for `yfts_read`: reads the current directory. */
    method Build() returns (head: Option<Id>)
      requires cur.Some? && cur.value in nodes && nodes[cur.value].tree.Dir?
      requires forall x :: x in nodes ==> x < nextId
      modifies this`nodes, this`nextId
      ensures forall x :: x in nodes ==> x < nextId
      ensures var p := old(cur.value);
              var entries := old(nodes[p].tree.entries);
              && (entries == [] ==> head == None && nodes == old(nodes)[p := old(nodes[p]).(info := DP)])
              && (entries != [] ==> head == Some(old(nextId))
                                    && Listed(old(nodes), nodes, old(nextId), entries, |entries|, old(nodes[p].level) + 1, p))
    {
      var p := cur.value;
      head := AllocateList(nodes[p].tree.entries, nodes[p].level + 1, p);
      if head.None? {
        nodes := nodes[p := nodes[p].(info := DP)];
      }
    }

    /** The part of `yfts_read` for a directory that has been visited in pre-order and is not skipped. */
    method Enter() returns (ret: Option<Id>)
      requires Valid() && cur.Some? && walk.info == D && walk.levels[|walk.levels| - 1].instr == NoInstr
      modifies this
      ensures Valid() && ret == cur && cur.Some?
      ensures walk == Advance(old(walk))
    {
      hide Represents, WellFormed, Listed, Push;
      ghost var w, before, base := walk, nodes, nextId;
      ReadFacts(nodes, sh, w);
      var p := cur.value;
      var entries := nodes[p].tree.entries;
      var head := Build();
      walk := Advance(w);
      EnterWalk(w);
      if head.None? {
        InfoKeeps(before, sh, w, DP);
        return Some(p);
      }
      EnterKeeps(before, nodes, sh, w, base, entries);
      sh := Push(sh, ListIds(base, |entries|));
      cur := head;
      return head;
    }

    /** The part of `yfts_read` that moves to the next node on the level, or up to the directory. */
    method MoveOn() returns (ret: Option<Id>)
      requires Valid() && cur.Some? && walk.info != D && walk.levels[|walk.levels| - 1].instr == NoInstr
      modifies this
      ensures Valid() && ret == cur
      ensures walk == Advance(old(walk))
    {
      hide Represents, WellFormed, DropHead, Advance, Sibling, Cur, PreInfo;
      var p := cur.value;
      ghost var w := walk;
      ReadFacts(nodes, sh, w);
      LinkFacts(nodes, sh, w);
      MoveWalk(w);
      walk := Advance(w);
      var link := nodes[p].link;
      if link.Some? {
        NextKeeps(nodes, sh, w);
        Free(p);
        sh := DropHead(sh);
        cur := link;
        return link;
      }
      ParentFacts(nodes, sh, w);
      var parent := nodes[p].parent.value;
      if |sh.stack| > 1 {
        LeaveKeeps(nodes, sh, w, parent);
      }
      Free(p);
      if nodes[parent].level == ROOT_PARENT_LEVEL {
        Free(parent);
        cur := None;
        return None;
      }
      nodes := nodes[parent := nodes[parent].(info := DP)];
      sh := DropHead(sh);
      cur := Some(parent);
      return Some(parent);
    }

    /** `yfts_read`. Every node that is read or freed is allocated at that point, and the walk advances by one visit. */
    method Read() returns (ret: Option<Id>)
      requires Valid()
      modifies this
      ensures Valid() && ret == cur
      ensures old(cur).None? ==> cur.None?
      ensures old(cur).Some? ==> walk == Advance(old(walk))
    {
      hide Represents, WellFormed, Advance, Cur, PreInfo, IsDot;
      if cur.None? {
        return None;
      }
      var p := cur.value;
      ghost var w := walk;
      ReadFacts(nodes, sh, w);
      QuietAdvance(w);
      var instr := nodes[p].instr;
      nodes := nodes[p := nodes[p].(instr := NoInstr)];
      walk := SetInstr(w, |w.levels| - 1, NoInstr);
      if instr == Again {
        InfoKeeps(nodes, sh, walk, StatInfo(nodes[p].tree));
        nodes := nodes[p := nodes[p].(info := StatInfo(nodes[p].tree))];
        walk := Advance(w);
        return Some(p);
      }
      if nodes[p].info == D {
        if instr == Skip {
          InfoKeeps(nodes, sh, walk, DP);
          nodes := nodes[p := nodes[p].(info := DP)];
          walk := Advance(w);
          return Some(p);
        }
        ret := Enter();
      } else {
        ret := MoveOn();
      }
    }

    /** `yfts_close` at any moment of a walk frees each remaining node exactly once: a node that is freed is still
        allocated, and none is left. */
    method Close()
      requires Valid()
      modifies this
      ensures nodes == map[]
    {
      hide NodesOk, WellFormed, LevelAt;
      if cur.Some? {
        var p := cur.value;
        ghost var g := sh;
        CloseStep(nodes, g);
        while nodes[p].level >= ROOT_LEVEL
          invariant p in nodes
          invariant if nodes[p].level >= ROOT_LEVEL then NodesOk(nodes, g) && p == Cur(g) else nodes.Keys == {p}
          decreases |nodes|
        {
          CloseStep(nodes, g);
          var freep := p;
          p := if nodes[p].link.Some? then nodes[p].link.value else nodes[p].parent.value;
          FewerNodes(nodes, freep);
          Free(freep);
          g := DropHead(g);
        }
        Free(p);
      }
    }
  }
}
