/**
  The POSIX `resolvepath`, from the joined path on: split at slashes, compact the components in place, write them out.
  What it has to compute is said by `Location`: the directory the components lead to when they are followed in turn.
 */
module ResolvePath {
  predicate IsStay(c: string) {
    c == "." || c == ""
  }

  predicate IsDots(c: string) {
    IsStay(c) || c == ".."
  }

  function Parent(dir: seq<string>): seq<string> {
    if dir == [] then [] else dir[..|dir| - 1]
  }

  function Follow(dir: seq<string>, c: string): seq<string> {
    if IsStay(c) then dir else if c == ".." then Parent(dir) else dir + [c]
  }

  /** Where following the components from `dir` ends. */
  function Location(dir: seq<string>, cs: seq<string>): seq<string>
    decreases |cs|
  {
    if cs == [] then dir else Location(Follow(dir, cs[0]), cs[1..])
  }

  /** The path ends in a component that names a directory without a name of its own: a slash is kept after it. */
  predicate KeepsSlash(cs: seq<string>) {
    cs != [] && IsDots(cs[|cs| - 1])
  }

  function Normal(cs: seq<string>): seq<string> {
    Location([], cs) + (if KeepsSlash(cs) then [""] else [])
  }

  /** No component but the last is `.`, `..` or empty, and the last one is not `.` or `..`. */
  predicate IsNormal(cs: seq<string>) {
    && (forall k :: 0 <= k < |cs| - 1 ==> !IsDots(cs[k]))
    && (cs != [] ==> !IsDots(cs[|cs| - 1]) || cs[|cs| - 1] == "")
  }

  predicate AllNames(cs: seq<string>) {
    forall k :: 0 <= k < |cs| ==> !IsDots(cs[k])
  }

  lemma {:induction false} LocationIsNames(dir: seq<string>, cs: seq<string>)
    requires AllNames(dir)
    ensures AllNames(Location(dir, cs))
    decreases |cs|
  {
    if cs != [] {
      LocationIsNames(Follow(dir, cs[0]), cs[1..]);
    }
  }

  lemma {:induction false} LocationSnoc(dir: seq<string>, cs: seq<string>, c: string)
    ensures Location(dir, cs + [c]) == Follow(Location(dir, cs), c)
    decreases |cs|
  {
    if cs == [] {
      assert ([] + [c])[1..] == [];
    } else {
      assert (cs + [c])[1..] == cs[1..] + [c];
      LocationSnoc(Follow(dir, cs[0]), cs[1..], c);
    }
  }

  lemma {:induction false} LocationOfNames(dir: seq<string>, cs: seq<string>)
    requires AllNames(cs)
    ensures Location(dir, cs) == dir + cs
    decreases |cs|
  {
    if cs != [] {
      LocationOfNames(dir + [cs[0]], cs[1..]);
      assert dir + [cs[0]] + cs[1..] == dir + cs;
    }
  }

  /** The result has no inner `.`, `..` or empty component. */
  lemma {:induction false} NormalIsNormal(cs: seq<string>)
    ensures IsNormal(Normal(cs))
  {
    LocationIsNames([], cs);
  }

  /** Normalising keeps the place the path leads to, and whether a slash is kept after it. */
  lemma {:induction false} NormalKeepsMeaning(cs: seq<string>)
    ensures Location([], Normal(cs)) == Location([], cs)
    ensures KeepsSlash(Normal(cs)) == KeepsSlash(cs)
  {
    var names := Location([], cs);
    LocationIsNames([], cs);
    LocationOfNames([], names);
    if KeepsSlash(cs) {
      LocationSnoc([], names, "");
    } else {
      assert names + [] == names;
    }
  }

  lemma {:induction false} NormalIsFixed(cs: seq<string>)
    requires IsNormal(cs)
    ensures Normal(cs) == cs
  {
    if KeepsSlash(cs) {
      var names := cs[..|cs| - 1];
      LocationOfNames([], names);
      LocationSnoc([], names, "");
      assert cs == names + [""];
    } else {
      LocationOfNames([], cs);
    }
  }

  // ----- strings and components -----

  function Slash(s: string): (i: nat)
    ensures i <= |s| && '/' !in s[..i]
    ensures i < |s| ==> s[i] == '/'
  {
    if s == "" || s[0] == '/' then 0 else
    var i := Slash(s[1..]);
    assert s[..1 + i] == [s[0]] + s[1..][..i];
    1 + i
  }

  function Split(s: string): (cs: seq<string>)
    ensures 1 <= |cs| <= |s| + 1
  {
    var i := Slash(s);
    if i == |s| then [s] else [s[..i]] + Split(s[i + 1..])
  }

  function Join(cs: seq<string>): string
    requires cs != []
  {
    if |cs| == 1 then cs[0] else cs[0] + "/" + Join(cs[1..])
  }

  predicate NoSlashes(cs: seq<string>) {
    forall k :: 0 <= k < |cs| ==> '/' !in cs[k]
  }

  lemma {:induction false} SlashAt(c: string, rest: string)
    requires '/' !in c
    ensures Slash(c) == |c| && Slash(c + "/" + rest) == |c|
  {
    if c != "" {
      assert (c + "/" + rest)[1..] == c[1..] + "/" + rest;
      SlashAt(c[1..], rest);
    }
  }

  lemma {:induction false} SplitJoin(cs: seq<string>)
    requires cs != [] && NoSlashes(cs)
    ensures Split(Join(cs)) == cs
  {
    if |cs| == 1 {
      SlashAt(cs[0], "");
    } else {
      var rest := Join(cs[1..]);
      SlashAt(cs[0], rest);
      var s := cs[0] + "/" + rest;
      assert s[..|cs[0]|] == cs[0] && s[|cs[0]| + 1..] == rest;
      SplitJoin(cs[1..]);
    }
  }

  lemma {:induction false} JoinCons(c: string, cs: seq<string>)
    requires cs != []
    ensures Join([c] + cs) == c + "/" + Join(cs)
  {
    assert ([c] + cs)[1..] == cs;
  }

  lemma {:induction false} JoinSplit(s: string)
    ensures Join(Split(s)) == s
  {
    hide Slash;
    var i := Slash(s);
    if i == |s| {
      assert Split(s) == [s];
    } else {
      var rest := s[i + 1..];
      JoinSplit(rest);
      JoinCons(s[..i], Split(rest));
      assert s == s[..i] + "/" + rest;
    }
  }

  lemma {:induction false} SplitHasNoSlashes(s: string)
    ensures NoSlashes(Split(s))
  {
    var i := Slash(s);
    if i < |s| {
      SplitHasNoSlashes(s[i + 1..]);
    }
  }

  lemma {:induction false} LocationHasNoSlashes(dir: seq<string>, cs: seq<string>)
    requires NoSlashes(dir) && NoSlashes(cs)
    ensures NoSlashes(Location(dir, cs))
    decreases |cs|
  {
    if cs != [] {
      LocationHasNoSlashes(Follow(dir, cs[0]), cs[1..]);
    }
  }

  /** What `resolvepath` makes of a path; the component before the first slash is not touched. */
  function Resolved(path: string): string {
    var cs := Split(path);
    Join([cs[0]] + Normal(cs[1..]))
  }

  lemma {:induction false} ResolvedComponents(path: string)
    ensures var cs := Split(path); Split(Resolved(path)) == [cs[0]] + Normal(cs[1..])
  {
    hide Split, Join, Location;
    var cs := Split(path);
    SplitHasNoSlashes(path);
    LocationHasNoSlashes([], cs[1..]);
    SplitJoin([cs[0]] + Normal(cs[1..]));
  }

  /** Resolving twice is resolving once, the result is normal, and it leads where the path led. */
  lemma {:induction false} ResolvedIsIdempotent(path: string)
    ensures Resolved(Resolved(path)) == Resolved(path)
    ensures IsNormal(Split(Resolved(path))[1..])
    ensures Location([], Split(Resolved(path))[1..]) == Location([], Split(path)[1..])
    ensures Split(Resolved(path))[0] == Split(path)[0]
  {
    hide Split, Join, Location, IsNormal, Normal;
    var cs := Split(path);
    ResolvedComponents(path);
    assert Split(Resolved(path))[1..] == Normal(cs[1..]);
    NormalIsNormal(cs[1..]);
    NormalIsFixed(Normal(cs[1..]));
    NormalKeepsMeaning(cs[1..]);
  }

  /** A path comes back unchanged exactly when it was normal already. */
  lemma {:induction false} UnchangedIffNormal(path: string)
    ensures Resolved(path) == path <==> IsNormal(Split(path)[1..])
  {
    hide Split, Join, Location, IsNormal, Normal;
    var cs := Split(path);
    ResolvedComponents(path);
    NormalIsNormal(cs[1..]);
    assert ([cs[0]] + Normal(cs[1..]))[1..] == Normal(cs[1..]);
    if IsNormal(cs[1..]) {
      NormalIsFixed(cs[1..]);
      assert [cs[0]] + cs[1..] == cs;
      JoinSplit(path);
    }
  }

  /** The length of the components with a slash after each. */
  function Size(cs: seq<string>): nat {
    if cs == [] then 0 else |cs[0]| + 1 + Size(cs[1..])
  }

  lemma {:induction false} JoinSize(cs: seq<string>)
    requires cs != []
    ensures |Join(cs)| + 1 == Size(cs)
  {
    if |cs| > 1 {
      JoinSize(cs[1..]);
    }
  }

  lemma {:induction false} SizeConcat(a: seq<string>, b: seq<string>)
    ensures Size(a + b) == Size(a) + Size(b)
  {
    if a == [] {
      assert a + b == b;
    } else {
      assert (a + b)[1..] == a[1..] + b;
      SizeConcat(a[1..], b);
    }
  }

  lemma {:induction false} FollowSize(dir: seq<string>, c: string)
    ensures Size(Follow(dir, c)) <= Size(dir) + if IsDots(c) then 0 else |c| + 1
  {
    if c == ".." && dir != [] {
      assert dir == Parent(dir) + [dir[|dir| - 1]];
      SizeConcat(Parent(dir), [dir[|dir| - 1]]);
    } else if !IsDots(c) {
      SizeConcat(dir, [c]);
    }
  }

  lemma {:induction false} LocationSize(dir: seq<string>, cs: seq<string>)
    ensures Size(Location(dir, cs)) <= Size(dir) + Size(cs)
    decreases |cs|
  {
    if cs != [] {
      FollowSize(dir, cs[0]);
      LocationSize(Follow(dir, cs[0]), cs[1..]);
    }
  }

  lemma {:induction false} NormalSize(cs: seq<string>)
    ensures Size(Normal(cs)) <= Size(cs)
  {
    hide IsDots;
    if KeepsSlash(cs) {
      var init, c := cs[..|cs| - 1], cs[|cs| - 1];
      assert cs == init + [c];
      LocationSnoc([], init, c);
      LocationSize([], init);
      FollowSize(Location([], init), c);
      SizeConcat(init, [c]);
      SizeConcat(Location([], cs), [""]);
    } else {
      LocationSize([], cs);
      assert Location([], cs) + [] == Location([], cs);
    }
  }

  /** The result is no longer than the path. */
  lemma {:induction false} ResolvedFits(path: string)
    ensures |Resolved(path)| <= |path|
  {
    hide Split, Join, Normal;
    var cs := Split(path);
    NormalSize(cs[1..]);
    JoinSplit(path);
    JoinSize(cs);
    JoinSize([cs[0]] + Normal(cs[1..]));
    assert ([cs[0]] + Normal(cs[1..]))[1..] == Normal(cs[1..]);
  }

  lemma {:induction false} NormalNotEmpty(cs: seq<string>)
    requires cs != []
    ensures Normal(cs) != []
  {
    var init, c := cs[..|cs| - 1], cs[|cs| - 1];
    assert cs == init + [c];
    LocationSnoc([], init, c);
  }

  /** A rooted path stays rooted. */
  lemma {:induction false} ResolvedIsRooted(path: string)
    requires path != "" && path[0] == '/'
    ensures Resolved(path) != "" && Resolved(path)[0] == '/'
  {
    hide Normal;
    var cs := Split(path);
    assert cs[0] == "" && |cs| > 1;
    NormalNotEmpty(cs[1..]);
  }

  // ----- the steps of the source -----

  /** `strchr` on the rest of the buffer. */
  method FindSlash(path: string, from: nat) returns (at: nat)
    requires from <= |path|
    ensures at == from + Slash(path[from..])
  {
    at := from;
    while at < |path| && path[at] != '/'
      invariant from <= at <= |path| && at + Slash(path[at..]) == from + Slash(path[from..])
    {
      assert path[at..][1..] == path[at + 1..];
      at := at + 1;
    }
  }

  lemma {:induction false} SplitStep(path: string, s: nat, at: nat)
    requires s <= |path| && at == s + Slash(path[s..])
    ensures s <= at <= |path|
    ensures Split(path[s..]) == [path[s..at]] + if at == |path| then [] else Split(path[at + 1..])
  {
    var left := path[s..];
    assert path[s..at] == left[..Slash(left)];
    if at < |path| {
      assert left[Slash(left) + 1..] == path[at + 1..];
    } else {
      assert path[s..at] == left;
    }
  }

  /** The components of the path, in order, in the table. */
  method SplitInto(path: string, pp: array<string>) returns (i: nat)
    requires pp.Length == |path| + 1
    modifies pp
    ensures 1 <= i <= pp.Length && pp[..i] == Split(path)
  {
    hide Slash, Split;
    i := 0;
    var s := 0;
    assert path[0..] == path;
    assert pp[..0] == [];
    while true
      invariant i <= s <= |path|
      invariant pp[..i] + Split(path[s..]) == Split(path)
      decreases |path| - s
    {
      var at := FindSlash(path, s);
      SplitStep(path, s, at);
      ghost var before := pp[..i];
      var c := path[s..at];
      pp[i] := c;
      i := i + 1;
      assert pp[..i] == before + [c];
      if at == |path| {
        return;
      }
      s := at + 1;
      assert before + ([c] + Split(path[s..])) == pp[..i] + Split(path[s..]);
    }
  }

  /** `memmove` of the table entries from `src` up to `i`. */
  method Move(pp: array<string>, dst: nat, src: nat, i: nat)
    requires 1 <= dst <= src <= i <= pp.Length
    modifies pp
    ensures pp[0] == old(pp[0]) && pp[1..dst] == old(pp[1..dst])
    ensures pp[dst..dst + i - src] == old(pp[src..i])
  {
    forall k | 0 <= k < i - src {
      pp[dst + k] := pp[src + k];
    }
  }

  /** What the loop will leave after the first component, when `stack` is done and `rest` is to come. */
  ghost function Outcome(stack: seq<string>, rest: seq<string>): seq<string> {
    Location(stack, rest) + (if KeepsSlash(rest) then [""] else [])
  }

  /** A step that is not the last: the next component is followed. */
  lemma {:induction false} OutcomeStep(stack: seq<string>, rest: seq<string>)
    requires |rest| > 1
    ensures Outcome(stack, rest) == Outcome(Follow(stack, rest[0]), rest[1..])
  {
  }

  lemma {:induction false} OutcomeLast(stack: seq<string>, rest: seq<string>)
    requires |rest| == 1 && IsDots(rest[0])
    ensures Outcome(stack, rest) == Follow(stack, rest[0]) + [""]
  {
    assert rest[1..] == [];
    assert Location(stack, rest) == Location(Follow(stack, rest[0]), []);
  }

  lemma {:induction false} OutcomeName(stack: seq<string>, rest: seq<string>)
    requires rest != [] && !IsDots(rest[0])
    ensures Outcome(stack, rest) == Outcome(stack + [rest[0]], rest[1..])
  {
    if |rest| == 1 {
      assert rest[1..] == [];
    } else {
      OutcomeStep(stack, rest);
    }
  }

  lemma {:induction false} OutcomeNone(stack: seq<string>)
    ensures Outcome(stack, []) == stack
  {
  }

  lemma {:induction false} OutcomeAll(rest: seq<string>)
    ensures Outcome([], rest) == Normal(rest)
  {
  }

  /** A final `..`: it goes with the component before it, if there is one, and a slash is kept. */
  method DropLast(pp: array<string>, count: nat, j: nat) returns (i: nat)
    requires 1 <= j == count - 1 < pp.Length
    modifies pp
    ensures 1 <= i <= count
    ensures pp[..i] == [old(pp[0])] + (Parent(old(pp[1..j])) + [""])
  {
    i := count;
    if j == 1 {
      pp[j] := "";
    } else {
      i := i - 1;
      pp[j - 1] := "";
    }
  }

  /** A `..` that is not the last: it goes with the component before it, if there is one. */
  method Ascend(pp: array<string>, count: nat, at: nat) returns (i: nat, j: nat)
    requires 1 <= at < count - 1 < pp.Length
    modifies pp
    ensures 1 <= j < i < count && i - j == count - at - 1 && pp[0] == old(pp[0])
    ensures pp[1..j] == Parent(old(pp[1..at])) && pp[j..i] == old(pp[at + 1..count])
  {
    i, j := count, at;
    if j == 1 {
      Move(pp, j, j + 1, i);
      i := i - 1;
    } else {
      Move(pp, j - 1, j + 1, i);
      i := i - 2;
      j := j - 1;
    }
  }

  /** The component loop: `count` components of the table become the normal ones, in place. */
  method Compact(pp: array<string>, count: nat) returns (i: nat)
    requires 1 <= count <= pp.Length
    modifies pp
    ensures 1 <= i <= count
    ensures pp[..i] == [old(pp[0])] + Normal(old(pp[1..count]))
  {
    hide Location, KeepsSlash, Outcome, Normal;
    i := count;
    var j := 1;
    ghost var first := pp[0];
    OutcomeAll(pp[1..count]);
    assert pp[1..1] == [];
    while j < i
      invariant 1 <= j <= i <= count && pp[0] == first
      invariant Outcome(pp[1..j], pp[j..i]) == Normal(old(pp[1..count]))
      decreases i - j
    {
      ghost var stack, rest := pp[1..j], pp[j..i];
      var p := pp[j];
      if p == "." || p == "" {
        if j == i - 1 {
          OutcomeLast(stack, rest);
          pp[j] := "";
          assert pp[..i] == [first] + (stack + [""]);
          return;
        } else {
          OutcomeStep(stack, rest);
          Move(pp, j, j + 1, i);
          i := i - 1;
          assert pp[j..i] == rest[1..];
        }
      } else if p == ".." {
        if j == i - 1 {
          OutcomeLast(stack, rest);
          i := DropLast(pp, i, j);
          return;
        } else {
          OutcomeStep(stack, rest);
          i, j := Ascend(pp, i, j);
          assert pp[j..i] == rest[1..];
        }
      } else {
        OutcomeName(stack, rest);
        j := j + 1;
        assert pp[1..j] == stack + [p] && pp[j..i] == rest[1..];
      }
    }
    assert pp[j..i] == [];
    assert pp[..i] == [first] + pp[1..i];
    OutcomeNone(pp[1..i]);
  }

  lemma {:induction false} JoinSnoc(cs: seq<string>, c: string)
    requires cs != []
    ensures Join(cs + [c]) == Join(cs) + "/" + c
  {
    assert (cs + [c])[1..] == cs[1..] + [c];
    if |cs| > 1 {
      JoinSnoc(cs[1..], c);
      assert cs[0] + "/" + (Join(cs[1..]) + "/" + c) == (cs[0] + "/" + Join(cs[1..])) + "/" + c;
    } else {
      assert Join([c]) == c;
    }
  }

  lemma {:induction false} PrefixFits(cs: seq<string>, k: nat)
    requires 0 < k <= |cs|
    ensures |Join(cs[..k])| <= |Join(cs)|
  {
    JoinSize(cs);
    JoinSize(cs[..k]);
    SizeConcat(cs[..k], cs[k..]);
    assert cs == cs[..k] + cs[k..];
  }

  /** The components joined by slashes: each is written with a slash after it, and the last slash is overwritten with the
      terminating NUL. Nothing is written past the `room` bytes of the buffer. */
  method Write(pp: array<string>, i: nat, ghost room: nat) returns (newpath: string)
    requires 1 <= i <= pp.Length && |Join(pp[..i])| < room
    ensures newpath == Join(pp[..i])
  {
    newpath := "";
    ghost var cs := pp[..i];
    for k := 0 to i
      invariant k == 0 ==> newpath == ""
      invariant k > 0 ==> newpath == Join(cs[..k]) + "/"
      invariant |newpath| <= room
    {
      if k > 0 {
        JoinSnoc(cs[..k], cs[k]);
      }
      PrefixFits(cs, k + 1);
      assert cs[..k + 1] == cs[..k] + [cs[k]];
      newpath := newpath + pp[k] + "/";
    }
    assert cs[..i] == cs;
    newpath := newpath[..|newpath| - 1];
  }

  /** `resolvepath`, once the path has been joined to the home directory. */
  method Resolve(path: string) returns (newpath: string)
    ensures newpath == Resolved(path) && |newpath| <= |path|
  {
    hide Split, Join, Normal;
    var pp := new string[|path| + 1];
    var count := SplitInto(path, pp);
    assert pp[0] == pp[..count][0] && pp[1..count] == pp[..count][1..];
    var i := Compact(pp, count);
    ResolvedFits(path);
    newpath := Write(pp, i, |path| + 3);
  }
}
