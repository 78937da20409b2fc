/** `TDirIterator`: a walk that skips what lies below a level bound. */
module DirIterator {
  import opened Wrappers
  import opened FtsWalk
  import opened Fts

  lemma {:induction false} CurrentNode(nodes: Nodes, sh: Shape, w: Walk)
    requires Represents(nodes, sh, w) && WellFormed(w)
    ensures w.Walk? && |w.levels| == |sh.stack| > 0 && Last(sh.stack[|sh.stack| - 1]) == Cur(sh) && Cur(sh) in nodes
    ensures nodes[Cur(sh)].level >= 0
    ensures Current(w) == Visit(nodes[Cur(sh)].tree, nodes[Cur(sh)].level, nodes[Cur(sh)].info)
  {
    hide NodesOk, LevelAt;
    CurrentTree(nodes, sh, w);
  }

  lemma {:induction false} NothingToCome()
    ensures forall k :: Future(Finished, k) == []
    ensures forall k :: Bounded(Finished, k)
  {
  }

  class TDirIterator {
    const fileTree: FtsStream
    /** None is the default, the largest `size_t`. */
    const maxLevel: Option<nat>

    constructor (fileTree: FtsStream, maxLevel: Option<nat>)
      ensures this.fileTree == fileTree && this.maxLevel == maxLevel
    {
      this.fileTree, this.maxLevel := fileTree, maxLevel;
    }

    ghost predicate Valid()
      reads this, fileTree
    {
      fileTree.Valid() && Bounded(fileTree.walk, maxLevel)
    }

    /** The visits that are still to come. */
    ghost function ToCome(): seq<Visit>
      requires Valid()
      reads this, fileTree
    {
      Future(fileTree.walk, maxLevel)
    }

    /** Returns the visits to come one by one. */
    method Next() returns (ret: Option<Visit>)
      requires Valid()
      modifies fileTree
      ensures Valid()
      ensures old(ToCome()) == [] ==> ret == None && ToCome() == []
      ensures old(ToCome()) != [] ==> ret == Some(old(ToCome())[0]) && ToCome() == old(ToCome())[1..]
    {
      hide Represents, WellFormed, Advance, Future, Bounded;
      ghost var w := fileTree.walk;
      NothingToCome();
      if fileTree.cur.Some? {
        ReadFacts(fileTree.nodes, fileTree.sh, w);
        AdvanceVisits(w, maxLevel);
      }
      var p := fileTree.Read();
      if p.None? {
        return None;
      }
      CurrentNode(fileTree.nodes, fileTree.sh, fileTree.walk);
      var e := fileTree.nodes[p.value];
      ret := Some(Visit(e.tree, e.level, e.info));
      if maxLevel.Some? && e.level + 1 > maxLevel.value {
        fileTree.Set(p.value, Skip, |fileTree.sh.stack| - 1);
      }
    }
  }

  lemma {:induction false} AllToCome(roots: seq<Tree>, k: Option<nat>)
    ensures WellFormed(Start(roots)) && Bounded(Start(roots), k)
    ensures Future(Start(roots), k) == TraverseAll(roots, 0, k)
  {
    var w := Start(roots);
    assert w.levels[0].trees[1..] == roots;
    assert Above(w.levels, k) == [];
    assert Future(w, k) == TraverseAll(roots, 0, k);
  }

  /** Iterating to the end visits the recursive traversal of the roots, cut off below the level bound: every directory
      once before and once after its entries, every other node once; then closing leaves no node allocated. */
  method Collect(roots: seq<Tree>, maxLevel: Option<nat>) returns (visits: seq<Visit>)
    requires roots != [] && forall t :: t in roots ==> t.name != ""
    ensures visits == TraverseAll(roots, 0, maxLevel)
  {
    hide Represents, WellFormed, Bounded, Future, TraverseAll, Start;
    var stream, left := FtsStream.Open(roots);
    AllToCome(roots, maxLevel);
    var it := new TDirIterator(stream, maxLevel);
    visits := [];
    while true
      invariant it.Valid() && fresh(it) && fresh(it.fileTree)
      invariant visits + it.ToCome() == TraverseAll(roots, 0, maxLevel)
      decreases |it.ToCome()|
    {
      var next := it.Next();
      if next.None? {
        break;
      }
      visits := visits + [next.value];
    }
    it.fileTree.Close();
  }

  /** `MaxLevel` k leaves out exactly the visits at levels beyond k. */
  method CollectUpTo(roots: seq<Tree>, k: nat) returns (visits: seq<Visit>)
    requires roots != [] && forall t :: t in roots ==> t.name != ""
    ensures visits == UpTo(TraverseAll(roots, 0, None), k)
  {
    visits := Collect(roots, Some(k));
    BoundedIsPruned(roots, 0, k);
  }
}
