/** `_GitVersion._get_git_depth`: the longest path from HEAD to a parentless commit, by a depth-first walk
    with an explicit stack and a cache that is filled in parent by parent. */
module GitDepth {
  import opened Wrappers

  type Graph = map<string, seq<string>>

  ghost predicate LinkAt(g: Graph, p: seq<string>, i: int) {
    0 <= i < |p| - 1 ==> p[i] in g && p[i + 1] in g[p[i]]
  }

  /** `p` is a path that follows parent links. */
  ghost predicate IsPath(g: Graph, p: seq<string>) {
    && |p| >= 1
    && p[0] in g
    && forall i :: LinkAt(g, p, i)
  }

  ghost predicate IsPathFrom(g: Graph, c: string, p: seq<string>) {
    IsPath(g, p) && p[0] == c
  }

  ghost predicate Last(p: seq<string>, c: string) {
    p != [] && p[|p| - 1] == c
  }

  /** Some path of at least one link leads from `a` to `b`. */
  ghost predicate Reaches(g: Graph, a: string, b: string) {
    exists p :: IsPathFrom(g, a, p) && Last(p, b) && |p| >= 2
  }

  ghost predicate Acyclic(g: Graph) {
    forall c :: !Reaches(g, c, c)
  }

  /** `n` links is the length of some path from `c` to a parentless commit, and no path from `c` is longer. */
  ghost predicate IsDepth(g: Graph, c: string, n: int) {
    && (exists p :: IsPathFrom(g, c, p) && |p| == n + 1 && p[n] in g && g[p[n]] == [])
    && (forall p :: IsPathFrom(g, c, p) ==> |p| <= n + 1)
  }

  lemma {:induction false} ReachesParent(g: Graph, a: string, b: string)
    requires a in g && b in g[a]
    ensures Reaches(g, a, b)
  {
    var p := [a, b];
    assert IsPathFrom(g, a, p) && Last(p, b);
  }

  lemma {:induction false} ReachesStep(g: Graph, a: string, b: string, c: string)
    requires Reaches(g, a, b) && b in g && c in g[b]
    ensures Reaches(g, a, c)
  {
    var p :| IsPathFrom(g, a, p) && Last(p, b) && |p| >= 2;
    var q := p + [c];
    assert forall i :: LinkAt(g, p, i) ==> LinkAt(g, q, i);
    assert IsPathFrom(g, a, q) && Last(q, c);
  }

  /** `best` is one more than the largest value that `cache` gives to a parent from index `k` on. */
  ghost predicate IsBest(cache: map<string, int>, parents: seq<string>, k: nat, best: int) {
    && (forall j :: k <= j < |parents| ==> parents[j] in cache && cache[parents[j]] + 1 <= best)
    && (exists j :: k <= j < |parents| && parents[j] in cache && cache[parents[j]] + 1 == best)
  }

  lemma {:induction false} DepthOfParentless(g: Graph, c: string)
    requires c in g && g[c] == []
    ensures IsDepth(g, c, 0)
  {
    assert IsPathFrom(g, c, [c]);
    forall p | IsPathFrom(g, c, p) ensures |p| <= 1 {
      assert LinkAt(g, p, 0);
    }
  }

  lemma {:induction false} TailBound(g: Graph, cache: map<string, int>, c: string, best: int, r: seq<string>)
    requires c in g && IsBest(cache, g[c], 0, best)
    requires forall d :: d in g[c] ==> d in cache && IsDepth(g, d, cache[d])
    requires IsPathFrom(g, c, r) && |r| > 1
    ensures |r| <= best + 1
  {
    assert LinkAt(g, r, 0);
    var i :| 0 <= i < |g[c]| && g[c][i] == r[1];
    assert IsDepth(g, r[1], cache[r[1]]);
    var p :| IsPathFrom(g, r[1], p) && |p| == cache[r[1]] + 1;
    var tail := r[1..];
    assert forall i :: LinkAt(g, r, i + 1) ==> LinkAt(g, tail, i);
    assert IsPathFrom(g, r[1], tail);
  }

  /** A commit is one deeper than its deepest parent. */
  lemma {:induction false} DepthFromParents(g: Graph, cache: map<string, int>, c: string, best: int)
    requires c in g && g[c] != [] && IsBest(cache, g[c], 0, best)
    requires forall d :: d in g[c] ==> d in cache && IsDepth(g, d, cache[d])
    ensures IsDepth(g, c, best)
  {
    var j :| 0 <= j < |g[c]| && g[c][j] in cache && cache[g[c][j]] + 1 == best;
    assert IsDepth(g, g[c][j], best - 1);
    var p :| IsPathFrom(g, g[c][j], p) && |p| == best && p[best - 1] in g && g[p[best - 1]] == [];
    var q := [c] + p;
    assert forall i :: LinkAt(g, p, i - 1) ==> LinkAt(g, q, i);
    assert IsPathFrom(g, c, q) && |q| == best + 1 && q[best] in g && g[q[best]] == [];
    forall r | IsPathFrom(g, c, r) ensures |r| <= best + 1 {
      if |r| > 1 {
        TailBound(g, cache, c, best, r);
      }
    }
  }

  // ----- The walk -----

  /** A stack entry: a commit, the commit that asked for it, and whether its parents have been pushed already. */
  datatype Entry = Entry(commit: string, child: Option<string>, calculated: bool)

  datatype Result = Depth(n: int) | KeyError(commit: string)

  type Cache = map<string, int>

  /** A commit under way: its parents with an index below `next` are still on the stack. */
  datatype Frame = Frame(commit: string, next: nat)

  ghost function Child(frames: seq<Frame>, i: nat): Option<string>
    requires i < |frames|
  {
    if i == 0 then None else Some(frames[i - 1].commit)
  }

  ghost function Pending(parents: seq<string>, c: string): seq<Entry> {
    seq(|parents|, i requires 0 <= i < |parents| => Entry(parents[i], Some(c), false))
  }

  /** The frames form a chain: each commit under way is the parent, at index `next`, of the one below it. */
  ghost predicate Chain(g: Graph, frames: seq<Frame>) {
    && (forall i :: 0 <= i < |frames| ==> frames[i].commit in g && frames[i].next <= |g[frames[i].commit]|)
    && (forall i :: 0 <= i < |frames| - 1 ==>
          && frames[i].next < |g[frames[i].commit]|
          && g[frames[i].commit][frames[i].next] == frames[i + 1].commit)
  }

  /** The stack that a chain of frames stands for. */
  ghost function StackOf(g: Graph, frames: seq<Frame>): seq<Entry>
    requires Chain(g, frames)
  {
    if frames == [] then []
    else
      var n := |frames| - 1;
      StackOf(g, frames[..n]) + [Entry(frames[n].commit, Child(frames, n), true)]
      + Pending(g[frames[n].commit][..frames[n].next], frames[n].commit)
  }

  ghost predicate UnderWay(frames: seq<Frame>, c: string) {
    exists i :: 0 <= i < |frames| && frames[i].commit == c
  }

  /** The cache entry of `c` is final. */
  ghost predicate Complete(cache: Cache, frames: seq<Frame>, c: string) {
    c in cache && !UnderWay(frames, c)
  }

  /** First parent index of frame `i` whose depth has been folded into the cache. */
  ghost function Folded(frames: seq<Frame>, i: nat): nat
    requires i < |frames|
  {
    if i == |frames| - 1 then frames[i].next else frames[i].next + 1
  }

  /** What the cache holds for a commit whose parents from index `k` on have been folded in. */
  ghost predicate PartialEntry(g: Graph, cache: Cache, c: string, k: nat)
    requires c in g
  {
    && k <= |g[c]|
    && (g[c] == [] ==> c in cache && cache[c] == 0)
    && (k < |g[c]| ==> c in cache && IsBest(cache, g[c], k, cache[c]))
    && (g[c] != [] && k == |g[c]| ==> c !in cache)
  }

  /** A final entry has a commit of the graph whose parents are all final too. */
  ghost predicate FinalEntry(g: Graph, cache: Cache, frames: seq<Frame>, c: string) {
    && c in g
    && c in cache && cache[c] >= 0
    && forall d :: d in g[c] ==> Complete(cache, frames, d)
  }

  ghost predicate CacheOk(g: Graph, cache: Cache, frames: seq<Frame>)
    requires Chain(g, frames)
  {
    && (forall c :: Complete(cache, frames, c) ==> FinalEntry(g, cache, frames, c))
    && (forall i :: 0 <= i < |frames| ==> PartialEntry(g, cache, frames[i].commit, Folded(frames, i)))
    && (forall i, j :: 0 <= i < |frames| && Folded(frames, i) <= j < |g[frames[i].commit]| ==>
          Complete(cache, frames, g[frames[i].commit][j]))
  }

  lemma {:induction false} ChainReaches(g: Graph, frames: seq<Frame>, i: nat, j: nat)
    requires Chain(g, frames) && i < j < |frames|
    ensures Reaches(g, frames[i].commit, frames[j].commit)
    decreases j
  {
    assert frames[j - 1].commit in g && frames[j].commit in g[frames[j - 1].commit];
    if i == j - 1 {
      ReachesParent(g, frames[i].commit, frames[j].commit);
    } else {
      ChainReaches(g, frames, i, j - 1);
      ReachesStep(g, frames[i].commit, frames[j - 1].commit, frames[j].commit);
    }
  }

  /** In an acyclic graph a parent of the top commit is never under way itself. */
  lemma {:induction false} ParentNotUnderWay(g: Graph, frames: seq<Frame>, p: string)
    requires Acyclic(g) && Chain(g, frames) && frames != []
    requires p in g[frames[|frames| - 1].commit]
    ensures !UnderWay(frames, p)
  {
    var top := |frames| - 1;
    forall i | 0 <= i < |frames| ensures frames[i].commit != p {
      if i == top {
        ReachesParent(g, frames[top].commit, p);
      } else {
        ChainReaches(g, frames, i, top);
        ReachesStep(g, frames[i].commit, frames[top].commit, p);
      }
    }
  }

  function Max(a: int, b: int): int {
    if a < b then b else a
  }

  function Get(cache: Cache, c: string): int {
    if c in cache then cache[c] else 0
  }

  lemma {:induction false} ChainDistinct(g: Graph, frames: seq<Frame>, i: nat, j: nat)
    requires Acyclic(g) && Chain(g, frames) && i < j < |frames|
    ensures frames[i].commit != frames[j].commit
  {
    ChainReaches(g, frames, i, j);
  }

  /** Folding one more parent's depth into the running maximum. */
  lemma {:induction false} FoldBest(g: Graph, cache: Cache, c: string, k: nat)
    requires c in g && k < |g[c]| && PartialEntry(g, cache, c, k + 1)
    requires g[c][k] in cache && cache[g[c][k]] >= 0
    ensures IsBest(cache, g[c], k, Max(Get(cache, c), cache[g[c][k]] + 1))
  {
    var best := Max(Get(cache, c), cache[g[c][k]] + 1);
    if best == cache[g[c][k]] + 1 {
      assert g[c][k] in cache && cache[g[c][k]] + 1 == best;
    }
  }

  ghost predicate Inv(g: Graph, cache: Cache, frames: seq<Frame>) {
    Chain(g, frames) && CacheOk(g, cache, frames)
  }

  /** The top frame with one more of its parents folded in. */
  ghost function Advance(frames: seq<Frame>): seq<Frame>
    requires frames != [] && frames[|frames| - 1].next > 0
  {
    var n := |frames| - 1;
    frames[n := Frame(frames[n].commit, frames[n].next - 1)]
  }

  lemma {:induction false} AdvanceUnderWay(frames: seq<Frame>, c: string)
    requires frames != [] && frames[|frames| - 1].next > 0
    ensures UnderWay(Advance(frames), c) == UnderWay(frames, c)
  {
    var a := Advance(frames);
    assert |a| == |frames| && forall i :: 0 <= i < |a| ==> a[i].commit == frames[i].commit;
    if UnderWay(frames, c) {
      var i :| 0 <= i < |frames| && frames[i].commit == c;
      assert a[i].commit == c;
    }
    if UnderWay(a, c) {
      var i :| 0 <= i < |a| && a[i].commit == c;
      assert frames[i].commit == c;
    }
  }

  /** A finished parent of the top commit is popped: the cache takes its depth into account. */
  ghost function FoldedCache(g: Graph, cache: Cache, frames: seq<Frame>): Cache
    requires Chain(g, frames) && frames != [] && frames[|frames| - 1].next > 0
    requires g[frames[|frames| - 1].commit][frames[|frames| - 1].next - 1] in cache
  {
    var top := frames[|frames| - 1];
    cache[top.commit := Max(Get(cache, top.commit), cache[g[top.commit][top.next - 1]] + 1)]
  }

  ghost predicate ParentDone(g: Graph, cache: Cache, frames: seq<Frame>) {
    && Inv(g, cache, frames) && frames != []
    && frames[|frames| - 1].next > 0
    && Complete(cache, frames, g[frames[|frames| - 1].commit][frames[|frames| - 1].next - 1])
  }

  lemma {:induction false} FoldKeepsComplete(g: Graph, cache: Cache, frames: seq<Frame>, x: string)
    requires ParentDone(g, cache, frames)
    ensures Complete(FoldedCache(g, cache, frames), Advance(frames), x) == Complete(cache, frames, x)
    ensures Complete(cache, frames, x) ==> FoldedCache(g, cache, frames)[x] == cache[x]
  {
    AdvanceUnderWay(frames, x);
    assert UnderWay(frames, frames[|frames| - 1].commit);
  }

  lemma {:induction false} BestStable(cache: Cache, cache': Cache, parents: seq<string>, k: nat, best: int)
    requires IsBest(cache, parents, k, best)
    requires forall j :: k <= j < |parents| ==> parents[j] in cache' && cache'[parents[j]] == cache[parents[j]]
    ensures IsBest(cache', parents, k, best)
  {
    var j :| k <= j < |parents| && parents[j] in cache && cache[parents[j]] + 1 == best;
    assert parents[j] in cache' && cache'[parents[j]] + 1 == best;
  }

  lemma {:induction false} FoldPartial(g: Graph, cache: Cache, frames: seq<Frame>, i: nat)
    requires Acyclic(g) && ParentDone(g, cache, frames) && i < |frames|
    ensures PartialEntry(g, FoldedCache(g, cache, frames), frames[i].commit, Folded(Advance(frames), i))
  {
    var n := |frames| - 1;
    var c, k, cache' := frames[i].commit, Folded(Advance(frames), i), FoldedCache(g, cache, frames);
    assert PartialEntry(g, cache, c, Folded(frames, i));
    if i < n {
      ChainDistinct(g, frames, i, n);
    } else {
      assert FinalEntry(g, cache, frames, g[c][k]);
      FoldBest(g, cache, c, k);
    }
    if k < |g[c]| {
      forall j | k <= j < |g[c]| ensures Complete(cache, frames, g[c][j]) && g[c][j] in cache' && cache'[g[c][j]] == cache[g[c][j]] {
        FoldKeepsComplete(g, cache, frames, g[c][j]);
      }
      BestStable(cache, cache', g[c], k, cache'[c]);
    }
  }

  lemma {:induction false} FoldParent(g: Graph, cache: Cache, frames: seq<Frame>)
    requires Acyclic(g) && ParentDone(g, cache, frames)
    ensures Inv(g, FoldedCache(g, cache, frames), Advance(frames))
  {
    var cache', frames' := FoldedCache(g, cache, frames), Advance(frames);
    assert Chain(g, frames');
    forall c ensures Complete(cache', frames', c) == Complete(cache, frames, c) {
      FoldKeepsComplete(g, cache, frames, c);
    }
    forall c | Complete(cache', frames', c) ensures FinalEntry(g, cache', frames', c) {
      FoldKeepsComplete(g, cache, frames, c);
      assert FinalEntry(g, cache, frames, c);
    }
    forall i | 0 <= i < |frames'| ensures PartialEntry(g, cache', frames'[i].commit, Folded(frames', i)) {
      FoldPartial(g, cache, frames, i);
    }
    forall i, j | 0 <= i < |frames'| && Folded(frames', i) <= j < |g[frames'[i].commit]|
      ensures Complete(cache', frames', g[frames'[i].commit][j])
    {
      assert Complete(cache, frames, g[frames[i].commit][j]);
    }
  }

  /** The top commit has no parent left on the stack and leaves it; the commit below counts it as pending again. */
  ghost function Popped(frames: seq<Frame>): seq<Frame>
    requires frames != []
  {
    var n := |frames| - 1;
    if n == 0 then [] else frames[..n][n - 1 := Frame(frames[n - 1].commit, frames[n - 1].next + 1)]
  }

  lemma {:induction false} PoppedUnderWay(g: Graph, frames: seq<Frame>, x: string)
    requires Acyclic(g) && Chain(g, frames) && frames != []
    ensures UnderWay(Popped(frames), x) == (UnderWay(frames, x) && x != frames[|frames| - 1].commit)
  {
    var n, q := |frames| - 1, Popped(frames);
    assert |q| == n && forall i :: 0 <= i < n ==> q[i].commit == frames[i].commit;
    forall i | 0 <= i < n ensures frames[i].commit != frames[n].commit {
      ChainDistinct(g, frames, i, n);
    }
    if UnderWay(frames, x) && x != frames[n].commit {
      var i :| 0 <= i < |frames| && frames[i].commit == x;
      assert q[i].commit == x;
    }
    if UnderWay(q, x) {
      var i :| 0 <= i < |q| && q[i].commit == x;
      assert frames[i].commit == x;
    }
  }

  lemma {:induction false} TopIsFinal(g: Graph, cache: Cache, frames: seq<Frame>)
    requires Inv(g, cache, frames) && frames != [] && frames[|frames| - 1].next == 0
    ensures var c := frames[|frames| - 1].commit;
            && c in cache && cache[c] >= 0
            && (forall d :: d in g[c] ==> Complete(cache, frames, d))
            && (g[c] != [] ==> IsBest(cache, g[c], 0, cache[c]))
  {
    var n := |frames| - 1;
    var c := frames[n].commit;
    assert PartialEntry(g, cache, c, Folded(frames, n));
    forall d | d in g[c] ensures Complete(cache, frames, d) {
      var j :| 0 <= j < |g[c]| && g[c][j] == d;
    }
    if g[c] != [] {
      var j :| 0 <= j < |g[c]| && g[c][j] in cache && cache[g[c][j]] + 1 == cache[c];
      assert FinalEntry(g, cache, frames, g[c][j]);
    }
  }

  lemma {:induction false} PoppedComplete(g: Graph, cache: Cache, frames: seq<Frame>, x: string)
    requires Acyclic(g) && Inv(g, cache, frames) && frames != [] && frames[|frames| - 1].next == 0
    ensures Complete(cache, Popped(frames), x) == (Complete(cache, frames, x) || x == frames[|frames| - 1].commit)
  {
    PoppedUnderWay(g, frames, x);
    TopIsFinal(g, cache, frames);
  }

  lemma {:induction false} PopFrame(g: Graph, cache: Cache, frames: seq<Frame>)
    requires Acyclic(g) && Inv(g, cache, frames) && frames != [] && frames[|frames| - 1].next == 0
    ensures Inv(g, cache, Popped(frames))
    ensures Complete(cache, Popped(frames), frames[|frames| - 1].commit)
  {
    var n, q := |frames| - 1, Popped(frames);
    TopIsFinal(g, cache, frames);
    assert Chain(g, q);
    forall c ensures Complete(cache, q, c) == (Complete(cache, frames, c) || c == frames[n].commit) {
      PoppedComplete(g, cache, frames, c);
    }
    forall c | Complete(cache, q, c) ensures FinalEntry(g, cache, q, c) {
      assert c != frames[n].commit ==> FinalEntry(g, cache, frames, c);
    }
    forall i | 0 <= i < |q| ensures PartialEntry(g, cache, q[i].commit, Folded(q, i)) {
      assert Folded(q, i) == Folded(frames, i) && PartialEntry(g, cache, frames[i].commit, Folded(frames, i));
    }
    forall i, j | 0 <= i < |q| && Folded(q, i) <= j < |g[q[i].commit]| ensures Complete(cache, q, g[q[i].commit][j]) {
      assert Folded(q, i) == Folded(frames, i);
      assert Complete(cache, frames, g[frames[i].commit][j]);
    }
  }

  /** A commit seen for the first time is put under way. */
  ghost function Grown(g: Graph, frames: seq<Frame>, p: string): seq<Frame>
    requires p in g && (frames != [] ==> frames[|frames| - 1].next > 0)
  {
    (if frames == [] then [] else Advance(frames)) + [Frame(p, |g[p]|)]
  }

  ghost function GrownCache(g: Graph, cache: Cache, p: string): Cache
    requires p in g
  {
    if g[p] == [] then cache[p := 0] else cache
  }

  ghost predicate NewCommit(g: Graph, cache: Cache, frames: seq<Frame>, p: string) {
    && Inv(g, cache, frames)
    && p in g && p !in cache && !UnderWay(frames, p)
    && (frames != [] ==> frames[|frames| - 1].next > 0
                         && p == g[frames[|frames| - 1].commit][frames[|frames| - 1].next - 1])
  }

  lemma {:induction false} GrownComplete(g: Graph, cache: Cache, frames: seq<Frame>, p: string, x: string)
    requires NewCommit(g, cache, frames, p)
    ensures Complete(GrownCache(g, cache, p), Grown(g, frames, p), x) == Complete(cache, frames, x)
    ensures UnderWay(Grown(g, frames, p), x) == (UnderWay(frames, x) || x == p)
  {
    var q := Grown(g, frames, p);
    assert q[|frames|].commit == p;
    assert forall i :: 0 <= i < |frames| ==> q[i].commit == frames[i].commit;
    if UnderWay(frames, x) {
      var i :| 0 <= i < |frames| && frames[i].commit == x;
      assert q[i].commit == x;
    }
    if UnderWay(q, x) {
      var i :| 0 <= i < |q| && q[i].commit == x;
      assert i < |frames| ==> frames[i].commit == x;
    }
  }

  lemma {:induction false} GrownPartial(g: Graph, cache: Cache, frames: seq<Frame>, p: string, i: nat)
    requires NewCommit(g, cache, frames, p) && i < |Grown(g, frames, p)|
    ensures var q := Grown(g, frames, p); q[i].commit in g && PartialEntry(g, GrownCache(g, cache, p), q[i].commit, Folded(q, i))
  {
    hide IsBest;
    var q, cache' := Grown(g, frames, p), GrownCache(g, cache, p);
    if i < |frames| {
      var c, k := frames[i].commit, Folded(frames, i);
      assert UnderWay(frames, c) && Folded(q, i) == k && q[i].commit == c;
      assert PartialEntry(g, cache, c, k);
      if k < |g[c]| {
        BestStable(cache, cache', g[c], k, cache[c]);
      }
    }
  }

  lemma {:induction false} Grow(g: Graph, cache: Cache, frames: seq<Frame>, p: string)
    requires NewCommit(g, cache, frames, p)
    ensures Inv(g, GrownCache(g, cache, p), Grown(g, frames, p))
  {
    var q, cache' := Grown(g, frames, p), GrownCache(g, cache, p);
    assert Chain(g, q);
    forall c ensures Complete(cache', q, c) == Complete(cache, frames, c) {
      GrownComplete(g, cache, frames, p, c);
    }
    forall c | Complete(cache', q, c) ensures FinalEntry(g, cache', q, c) {
      assert FinalEntry(g, cache, frames, c);
    }
    forall i | 0 <= i < |q| ensures PartialEntry(g, cache', q[i].commit, Folded(q, i)) {
      GrownPartial(g, cache, frames, p, i);
    }
    forall i, j | 0 <= i < |q| && Folded(q, i) <= j < |g[q[i].commit]| ensures Complete(cache', q, g[q[i].commit][j]) {
      if i < |frames| {
        assert Folded(q, i) == Folded(frames, i) && Complete(cache, frames, g[frames[i].commit][j]);
      }
    }
  }

  ghost predicate DepthsOk(g: Graph, cache: Cache, frames: seq<Frame>) {
    forall c :: Complete(cache, frames, c) ==> IsDepth(g, c, cache[c])
  }

  lemma {:induction false} FoldDepths(g: Graph, cache: Cache, frames: seq<Frame>)
    requires ParentDone(g, cache, frames) && DepthsOk(g, cache, frames)
    ensures DepthsOk(g, FoldedCache(g, cache, frames), Advance(frames))
  {
    forall c | Complete(FoldedCache(g, cache, frames), Advance(frames), c)
      ensures IsDepth(g, c, FoldedCache(g, cache, frames)[c])
    {
      FoldKeepsComplete(g, cache, frames, c);
    }
  }

  lemma {:induction false} GrownDepths(g: Graph, cache: Cache, frames: seq<Frame>, p: string)
    requires NewCommit(g, cache, frames, p) && DepthsOk(g, cache, frames)
    ensures DepthsOk(g, GrownCache(g, cache, p), Grown(g, frames, p))
  {
    forall c | Complete(GrownCache(g, cache, p), Grown(g, frames, p), c)
      ensures IsDepth(g, c, GrownCache(g, cache, p)[c])
    {
      GrownComplete(g, cache, frames, p, c);
    }
  }

  lemma {:induction false} PoppedDepths(g: Graph, cache: Cache, frames: seq<Frame>)
    requires Acyclic(g) && Inv(g, cache, frames) && frames != [] && frames[|frames| - 1].next == 0
    requires DepthsOk(g, cache, frames)
    ensures DepthsOk(g, cache, Popped(frames))
  {
    var top := frames[|frames| - 1].commit;
    TopIsFinal(g, cache, frames);
    forall c | Complete(cache, Popped(frames), c) ensures IsDepth(g, c, cache[c]) {
      PoppedComplete(g, cache, frames, c);
      if c == top {
        if g[c] == [] {
          assert PartialEntry(g, cache, c, Folded(frames, |frames| - 1));
          DepthOfParentless(g, c);
        } else {
          DepthFromParents(g, cache, c, cache[c]);
        }
      }
    }
  }

  lemma {:induction false} StackAdvance(g: Graph, frames: seq<Frame>)
    requires Chain(g, frames) && frames != [] && frames[|frames| - 1].next > 0
    ensures var top := frames[|frames| - 1];
            && Chain(g, Advance(frames))
            && StackOf(g, frames) == StackOf(g, Advance(frames)) + [Entry(g[top.commit][top.next - 1], Some(top.commit), false)]
  {
    var n := |frames| - 1;
    var c, k := frames[n].commit, frames[n].next;
    assert Advance(frames)[..n] == frames[..n];
    assert Pending(g[c][..k], c) == Pending(g[c][..k - 1], c) + [Entry(g[c][k - 1], Some(c), false)];
  }

  lemma {:induction false} StackPop(g: Graph, frames: seq<Frame>)
    requires Chain(g, frames) && frames != [] && frames[|frames| - 1].next == 0
    ensures var n := |frames| - 1;
            && Chain(g, frames[..n])
            && StackOf(g, frames) == StackOf(g, frames[..n]) + [Entry(frames[n].commit, Child(frames, n), true)]
  {
    var n := |frames| - 1;
    assert Pending(g[frames[n].commit][..0], frames[n].commit) == [];
  }

  lemma {:induction false} StackGrow(g: Graph, frames: seq<Frame>, p: string)
    requires Chain(g, frames) && frames != [] && frames[|frames| - 1].next > 0
    requires p in g && p == g[frames[|frames| - 1].commit][frames[|frames| - 1].next - 1]
    ensures Chain(g, Advance(frames)) && Chain(g, Grown(g, frames, p))
    ensures StackOf(g, Grown(g, frames, p))
         == StackOf(g, Advance(frames)) + [Entry(p, Some(frames[|frames| - 1].commit), true)] + Pending(g[p], p)
  {
    var q := Grown(g, frames, p);
    assert q[..|frames|] == Advance(frames) && g[p][..|g[p]|] == g[p];
    assert Child(q, |frames|) == Some(frames[|frames| - 1].commit);
  }

  ghost function CacheWith(cache: Cache, e: Entry): Cache
    requires e.commit in cache
  {
    if e.child == None then cache
    else cache[e.child.value := Max(Get(cache, e.child.value), cache[e.commit] + 1)]
  }

  ghost predicate Sound(g: Graph, cache: Cache, frames: seq<Frame>) {
    Inv(g, cache, frames) && DepthsOk(g, cache, frames)
  }

  /** A parent entry whose commit is in the cache is popped. */
  lemma {:induction false} KnownParent(g: Graph, cache: Cache, frames: seq<Frame>, e: Entry)
    requires Acyclic(g) && Sound(g, cache, frames) && frames != [] && frames[|frames| - 1].next > 0
    requires var top := frames[|frames| - 1]; e == Entry(g[top.commit][top.next - 1], Some(top.commit), false)
    requires e.commit in cache
    ensures IsDepth(g, e.commit, cache[e.commit])
    ensures Sound(g, CacheWith(cache, e), Advance(frames))
  {
    hide IsDepth, CacheOk, Reaches;
    ParentNotUnderWay(g, frames, e.commit);
    assert Complete(cache, frames, e.commit);
    FoldParent(g, cache, frames);
    FoldDepths(g, cache, frames);
  }

  /** The second entry of a commit is popped: all its parents have been folded in. */
  lemma {:induction false} KnownTop(g: Graph, cache: Cache, frames: seq<Frame>, e: Entry)
    requires Acyclic(g) && Sound(g, cache, frames) && frames != [] && frames[|frames| - 1].next == 0
    requires e == Entry(frames[|frames| - 1].commit, Child(frames, |frames| - 1), true)
    ensures e.commit in cache && IsDepth(g, e.commit, cache[e.commit])
    ensures Sound(g, CacheWith(cache, e), frames[..|frames| - 1])
  {
    hide IsDepth, CacheOk, Reaches;
    var n := |frames| - 1;
    PopFrame(g, cache, frames);
    PoppedDepths(g, cache, frames);
    var q := Popped(frames);
    if n > 0 {
      assert Advance(q) == frames[..n];
      FoldParent(g, cache, q);
      FoldDepths(g, cache, q);
    } else {
      assert q == frames[..n];
    }
  }

  /** The frames after an entry whose depth is known has been popped. */
  ghost function AfterKnown(frames: seq<Frame>): seq<Frame>
    requires frames != []
  {
    if frames[|frames| - 1].next > 0 then Advance(frames) else frames[..|frames| - 1]
  }

  lemma {:induction false} SameLast<T>(a: seq<T>, x: T, b: seq<T>, y: T)
    requires a + [x] == b + [y]
    ensures a == b && x == y
  {
    assert a == (a + [x])[..|a|] && b == (b + [y])[..|b|];
  }

  /** The entry on top of the stack is popped and its depth is known: the depth that is read is final. */
  lemma {:induction false} KnownStep(g: Graph, cache: Cache, frames: seq<Frame>, e: Entry, rest: seq<Entry>)
    requires Acyclic(g) && Sound(g, cache, frames) && frames != []
    requires StackOf(g, frames) == rest + [e] && (e.commit in cache || e.calculated)
    ensures e.commit in cache && IsDepth(g, e.commit, cache[e.commit])
    ensures Sound(g, CacheWith(cache, e), AfterKnown(frames))
    ensures StackOf(g, AfterKnown(frames)) == rest
    ensures AfterKnown(frames) == [] ==> e.commit == frames[0].commit && e.child == None
  {
    hide CacheOk, DepthsOk, IsDepth, Reaches;
    var n := |frames| - 1;
    if frames[n].next > 0 {
      StackAdvance(g, frames);
      SameLast(StackOf(g, Advance(frames)), StackOf(g, frames)[|rest|], rest, e);
      KnownParent(g, cache, frames, e);
    } else {
      StackPop(g, frames);
      SameLast(StackOf(g, frames[..n]), StackOf(g, frames)[|rest|], rest, e);
      KnownTop(g, cache, frames, e);
    }
  }

  /** Everything reachable from `c` is in the graph. */
  ghost predicate AllReachablePresent(g: Graph, c: string) {
    c in g && forall d :: Reaches(g, c, d) ==> d in g
  }

  lemma {:induction false} PathIsComplete(g: Graph, cache: Cache, p: seq<string>, i: nat)
    requires Inv(g, cache, []) && IsPath(g, p) && p[0] in cache && i < |p|
    ensures p[i] in cache && p[i] in g
  {
    assert forall c :: c in cache ==> Complete(cache, [], c) && FinalEntry(g, cache, [], c);
    if i > 0 {
      PathIsComplete(g, cache, p, i - 1);
      assert LinkAt(g, p, i - 1);
      assert FinalEntry(g, cache, [], p[i - 1]);
      assert Complete(cache, [], p[i]);
    }
  }

  lemma {:induction false} CompleteIsPresent(g: Graph, cache: Cache, c: string)
    requires Inv(g, cache, []) && c in cache
    ensures AllReachablePresent(g, c)
  {
    assert Complete(cache, [], c) && FinalEntry(g, cache, [], c);
    forall d | Reaches(g, c, d) ensures d in g {
      var p :| IsPathFrom(g, c, p) && Last(p, d) && |p| >= 2;
      PathIsComplete(g, cache, p, |p| - 1);
    }
  }

  ghost predicate NoDuplicates(s: seq<string>) {
    forall i, j :: 0 <= i < j < |s| ==> s[i] != s[j]
  }

  ghost function Unseen(g: Graph, expanded: seq<string>): set<string> {
    set c | c in g && c !in expanded
  }

  /** The commits expanded so far are those with a cache entry or under way. */
  ghost predicate Tracks(expanded: seq<string>, cache: Cache, frames: seq<Frame>) {
    forall c :: c in expanded <==> c in cache || UnderWay(frames, c)
  }

  lemma {:induction false} PrefixUnderWay(frames: seq<Frame>, c: string)
    requires frames != []
    ensures UnderWay(frames, c) == (UnderWay(frames[..|frames| - 1], c) || c == frames[|frames| - 1].commit)
  {
    var q := frames[..|frames| - 1];
    if UnderWay(frames, c) && c != frames[|frames| - 1].commit {
      var i :| 0 <= i < |frames| && frames[i].commit == c;
      assert q[i].commit == c;
    }
    if UnderWay(q, c) {
      var i :| 0 <= i < |q| && q[i].commit == c;
      assert frames[i].commit == c;
    }
  }

  lemma {:induction false} KnownTracks(g: Graph, cache: Cache, frames: seq<Frame>, e: Entry, rest: seq<Entry>, expanded: seq<string>)
    requires Acyclic(g) && Chain(g, frames) && frames != []
    requires StackOf(g, frames) == rest + [e] && e.commit in cache
    requires Tracks(expanded, cache, frames)
    ensures Tracks(expanded, CacheWith(cache, e), AfterKnown(frames))
  {
    var n := |frames| - 1;
    forall c ensures c in expanded <==> c in CacheWith(cache, e) || UnderWay(AfterKnown(frames), c) {
      if frames[n].next > 0 {
        StackAdvance(g, frames);
        SameLast(StackOf(g, Advance(frames)), StackOf(g, frames)[|rest|], rest, e);
        AdvanceUnderWay(frames, c);
        assert UnderWay(frames, frames[n].commit);
      } else {
        StackPop(g, frames);
        SameLast(StackOf(g, frames[..n]), StackOf(g, frames)[|rest|], rest, e);
        PrefixUnderWay(frames, c);
        assert n > 0 ==> UnderWay(frames, frames[n - 1].commit);
      }
    }
  }

  /** What holds of an entry that is popped before its commit has been expanded. */
  lemma {:induction false} UnknownEntry(g: Graph, frames: seq<Frame>, e: Entry, rest: seq<Entry>)
    requires Acyclic(g) && Chain(g, frames) && frames != []
    requires StackOf(g, frames) == rest + [e] && !e.calculated
    ensures var top := frames[|frames| - 1];
            top.next > 0 && e == Entry(g[top.commit][top.next - 1], Some(top.commit), false)
    ensures StackOf(g, Advance(frames)) == rest
    ensures !UnderWay(frames, e.commit) && Reaches(g, frames[0].commit, e.commit)
  {
    var n := |frames| - 1;
    assert StackOf(g, frames)[|rest|] == e;
    if frames[n].next == 0 {
      StackPop(g, frames);
    } else {
      StackAdvance(g, frames);
      SameLast(StackOf(g, Advance(frames)), StackOf(g, frames)[|rest|], rest, e);
      ParentNotUnderWay(g, frames, e.commit);
      if n == 0 {
        ReachesParent(g, frames[0].commit, e.commit);
      } else {
        ChainReaches(g, frames, 0, n);
        ReachesStep(g, frames[0].commit, frames[n].commit, e.commit);
      }
    }
  }

  lemma {:induction false} GrownTracks(g: Graph, cache: Cache, frames: seq<Frame>, p: string, expanded: seq<string>)
    requires NewCommit(g, cache, frames, p) && Tracks(expanded, cache, frames)
    ensures Tracks(expanded + [p], GrownCache(g, cache, p), Grown(g, frames, p))
  {
    forall c ensures c in expanded + [p] <==> c in GrownCache(g, cache, p) || UnderWay(Grown(g, frames, p), c) {
      GrownComplete(g, cache, frames, p, c);
    }
  }

  /** A commit is expanded: its second entry and its parents go on the stack. */
  lemma {:induction false} GrowStep(g: Graph, cache: Cache, frames: seq<Frame>, e: Entry, rest: seq<Entry>, expanded: seq<string>)
    requires Acyclic(g) && Sound(g, cache, frames) && frames != []
    requires StackOf(g, frames) == rest + [e] && e.commit !in cache && !e.calculated && e.commit in g
    requires Tracks(expanded, cache, frames)
    ensures frames[|frames| - 1].next > 0 && e.commit !in expanded
    ensures Sound(g, GrownCache(g, cache, e.commit), Grown(g, frames, e.commit))
    ensures StackOf(g, Grown(g, frames, e.commit)) == rest + [Entry(e.commit, e.child, true)] + Pending(g[e.commit], e.commit)
    ensures Tracks(expanded + [e.commit], GrownCache(g, cache, e.commit), Grown(g, frames, e.commit))
  {
    hide CacheOk, DepthsOk, IsDepth, Reaches, UnderWay;
    UnknownEntry(g, frames, e, rest);
    assert NewCommit(g, cache, frames, e.commit);
    Grow(g, cache, frames, e.commit);
    GrownDepths(g, cache, frames, e.commit);
    StackGrow(g, frames, e.commit);
    GrownTracks(g, cache, frames, e.commit, expanded);
  }

  /** The first commit is expanded. */
  lemma {:induction false} StartStep(g: Graph, head: string)
    requires head in g
    ensures Sound(g, GrownCache(g, map[], head), Grown(g, [], head))
    ensures StackOf(g, Grown(g, [], head)) == [Entry(head, None, true)] + Pending(g[head], head)
    ensures Tracks([head], GrownCache(g, map[], head), Grown(g, [], head))
  {
    assert NewCommit(g, map[], [], head);
    Grow(g, map[], [], head);
    GrownDepths(g, map[], [], head);
    assert Grown(g, [], head)[..0] == [] && g[head][..|g[head]|] == g[head];
    GrownTracks(g, map[], [], head, []);
  }

  lemma {:induction false} UnseenShrinks(g: Graph, expanded: seq<string>, c: string)
    requires c in g && c !in expanded
    ensures |Unseen(g, expanded + [c])| < |Unseen(g, expanded)|
  {
    assert Unseen(g, expanded + [c]) == Unseen(g, expanded) - {c};
  }

  /** The state of the walk at the loop head. */
  ghost predicate Walking(g: Graph, head: string, cache: Cache, stack: seq<Entry>, frames: seq<Frame>, started: bool,
                          expanded: seq<string>)
  {
    && Sound(g, cache, frames)
    && Tracks(expanded, cache, frames)
    && NoDuplicates(expanded)
    && (frames != [] ==> frames[0].commit == head)
    && (if started then stack == StackOf(g, frames) && (frames == [] ==> head in cache)
        else stack == [Entry(head, None, false)] && frames == [] && cache == map[] && expanded == [])
  }

  ghost predicate Missing(g: Graph, head: string, c: string) {
    c !in g && (c == head || Reaches(g, head, c))
  }

  lemma {:induction false} WalkKnown(g: Graph, head: string, cache: Cache, stack: seq<Entry>, frames: seq<Frame>, started: bool,
                                     expanded: seq<string>, rest: seq<Entry>, e: Entry)
    requires Acyclic(g) && Walking(g, head, cache, stack, frames, started, expanded)
    requires stack == rest + [e] && (e.commit in cache || e.calculated)
    ensures frames != [] && e.commit in cache && IsDepth(g, e.commit, cache[e.commit])
    ensures Walking(g, head, CacheWith(cache, e), rest, AfterKnown(frames), true, expanded)
  {
    hide CacheOk, DepthsOk, IsDepth, Reaches, UnderWay, NoDuplicates, Tracks;
    assert stack[|rest|] == e;
    KnownStep(g, cache, frames, e, rest);
    KnownTracks(g, cache, frames, e, rest, expanded);
  }

  lemma {:induction false} WalkGrow(g: Graph, head: string, cache: Cache, stack: seq<Entry>, frames: seq<Frame>, started: bool,
                                    expanded: seq<string>, rest: seq<Entry>, e: Entry)
    requires Acyclic(g) && Walking(g, head, cache, stack, frames, started, expanded)
    requires stack == rest + [e] && e.commit !in cache && !e.calculated
    ensures e.commit !in g ==> Missing(g, head, e.commit)
    ensures e.commit in g ==>
      && e.commit !in expanded && (frames != [] ==> frames[|frames| - 1].next > 0)
      && Walking(g, head, GrownCache(g, cache, e.commit), rest + [Entry(e.commit, e.child, true)] + Pending(g[e.commit], e.commit),
                 Grown(g, frames, e.commit), true, expanded + [e.commit])
  {
    hide CacheOk, DepthsOk, IsDepth, Reaches, UnderWay, Tracks;
    assert stack[|rest|] == e;
    if started {
      UnknownEntry(g, frames, e, rest);
      if e.commit in g {
        GrowStep(g, cache, frames, e, rest, expanded);
      }
    } else {
      assert rest == [];
      if e.commit in g {
        StartStep(g, head);
        var marker := Entry(e.commit, e.child, true);
        assert rest + [marker] + Pending(g[e.commit], e.commit) == [marker] + Pending(g[e.commit], e.commit);
        assert expanded + [e.commit] == [head];
      }
    }
  }

  lemma {:induction false} ExpandedOnce(g: Graph, head: string, cache: Cache, stack: seq<Entry>, frames: seq<Frame>, started: bool,
                                        expanded: seq<string>)
    requires Walking(g, head, cache, stack, frames, started, expanded)
    ensures NoDuplicates(expanded)
  {
  }

  lemma {:induction false} WalkStart(g: Graph, head: string)
    ensures Walking(g, head, map[], [Entry(head, None, false)], [], false, [])
  {
  }

  lemma {:induction false} StackNonEmpty(g: Graph, frames: seq<Frame>)
    requires Chain(g, frames) && frames != []
    ensures StackOf(g, frames) != []
  {
    assert |StackOf(g, frames)| >= 1;
  }

  lemma {:induction false} WalkEnd(g: Graph, head: string, cache: Cache, frames: seq<Frame>, started: bool, expanded: seq<string>)
    requires Walking(g, head, cache, [], frames, started, expanded)
    ensures head in cache && AllReachablePresent(g, head) && IsDepth(g, head, cache[head])
  {
    if frames != [] {
      StackNonEmpty(g, frames);
    }
    CompleteIsPresent(g, cache, head);
    assert Complete(cache, [], head);
  }

  lemma {:induction false} MissingIsNotPresent(g: Graph, head: string, c: string)
    requires Missing(g, head, c)
    ensures !AllReachablePresent(g, head)
  {
  }

  /** `_get_git_depth`. A parent that is missing from the graph raises KeyError in the source. */
  method GetGitDepth(graph: Graph, head: string) returns (r: Result, ghost expanded: seq<string>)
    requires Acyclic(graph)
    ensures r.Depth? <==> AllReachablePresent(graph, head)
    ensures r.Depth? ==> IsDepth(graph, head, r.n)
    ensures r.KeyError? ==> Missing(graph, head, r.commit)
    ensures NoDuplicates(expanded)
  {
    hide Walking, IsDepth, Missing, AllReachablePresent, Grown, AfterKnown, NoDuplicates, Acyclic;
    var cache: Cache := map[];
    var stack := [Entry(head, None, false)];
    expanded := [];
    ghost var frames: seq<Frame> := [];
    ghost var started := false;
    WalkStart(graph, head);
    while stack != []
      invariant Walking(graph, head, cache, stack, frames, started, expanded)
      decreases |Unseen(graph, expanded)|, |stack|
    {
      var e := stack[|stack| - 1];
      ghost var before := stack;
      stack := stack[..|stack| - 1];
      ghost var rest := stack;
      assert before == rest + [e];
      var calculated := e.calculated;
      if e.commit in cache {
        calculated := true;
      }
      if calculated {
        WalkKnown(graph, head, cache, before, frames, started, expanded, rest, e);
        ghost var cache' := CacheWith(cache, e);
        if e.child != None {
          cache := cache[e.child.value := Max(Get(cache, e.child.value), cache[e.commit] + 1)];
        }
        assert cache == cache';
        frames := AfterKnown(frames);
      } else {
        WalkGrow(graph, head, cache, before, frames, started, expanded, rest, e);
        stack := stack + [Entry(e.commit, e.child, true)];
        if e.commit !in graph {
          ExpandedOnce(graph, head, cache, before, frames, started, expanded);
          MissingIsNotPresent(graph, head, e.commit);
          return KeyError(e.commit), expanded;
        }
        ghost var cache' := GrownCache(graph, cache, e.commit);
        var parents := graph[e.commit];
        if parents == [] {
          cache := cache[e.commit := 0];
        } else {
          for i := 0 to |parents|
            invariant stack == rest + [Entry(e.commit, e.child, true)] + Pending(parents[..i], e.commit)
          {
            stack := stack + [Entry(parents[i], Some(e.commit), false)];
          }
          assert parents[..|parents|] == parents;
        }
        assert cache == cache' && stack == rest + [Entry(e.commit, e.child, true)] + Pending(parents, e.commit);
        UnseenShrinks(graph, expanded, e.commit);
        expanded := expanded + [e.commit];
        frames := Grown(graph, frames, e.commit);
      }
      started := true;
    }
    WalkEnd(graph, head, cache, frames, started, expanded);
    ExpandedOnce(graph, head, cache, stack, frames, started, expanded);
    r := Depth(cache[head]);
  }
}
