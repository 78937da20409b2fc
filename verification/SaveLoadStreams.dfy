/** The serializers as the source runs them, on streams. */
module SaveLoadStreams {
  import opened SaveLoad
  import opened Wrappers

  /** `IOutputStream`. */
  class Output {
    var data: seq<Byte>

    constructor ()
      ensures data == []
    {
      data := [];
    }

    method Write(s: seq<Byte>)
      modifies this
      ensures data == old(data) + s
    {
      data := data + s;
    }
  }

  /** `IInputStream`; `Load` reads fewer bytes only at the end of the input. */
  class Input {
    var data: seq<Byte>

    constructor (s: seq<Byte>)
      ensures data == s
    {
      data := s;
    }

    method Load(n: nat) returns (s: seq<Byte>)
      modifies this
      ensures s == old(data)[..if n < |old(data)| then n else |old(data)|] && old(data) == s + data
    {
      var k := if n < |data| then n else |data|;
      s := data[..k];
      data := data[k..];
    }
  }

  /** A loaded value, or the exception thrown. */
  datatype Result<T> = Got(value: T) | EndOfInput | UnexpectedTag(tag: nat)

  /** The outcome of loading from a stream is the one of loading from its contents. */
  ghost predicate Agrees<T(!new)>(p: Parsed<T>, r: Result<T>, left: seq<Byte>) {
    match p
    case Loaded(v, rest) => r == Got(v) && left == rest
    case Eof => r == EndOfInput
    case BadTag(tag) => r == UnexpectedTag(tag)
  }

  function Rethrow<T, U>(r: Result<T>): Result<U>
    requires !r.Got?
  {
    if r.EndOfInput? then EndOfInput else UnexpectedTag(r.tag)
  }

  method SaveSize(len: nat, out: Output)
    modifies out
    ensures out.data == old(out.data) + SizeBytes(len)
  {
    hide NumBytes;
    if len < 0xffffffff {
      out.Write(NumBytes(len, 4));
    } else {
      out.Write(NumBytes(0xffffffff, 4));
      out.Write(NumBytes(len, 8));
    }
  }

  method SaveObject(t: Type, m: Object, out: Output)
    requires HasType(t, m)
    modifies out
    ensures out.data == old(out.data) + Save(t, m)
    decreases t, 1
  {
    hide NumBytes, SizeBytes, Fits, SaveRange, SaveParts;
    match t
    case Fixed(w) =>
      out.Write(NumBytes(m.n, w));
    case Vector(e) =>
      SaveSize(|m.items|, out);
      SaveItems(e, m.items, out);
    case Pair(a, b) =>
      SaveObject(a, m.a, out);
      SaveObject(b, m.b, out);
    case Tuple(ts) =>
      SaveTuple(t, m, out);
    case Optional(e) =>
      out.Write(if m.Present? then [1] else [0]);
      if m.Present? {
        SaveObject(e, m.item, out);
      }
    case Variant(ts) =>
      out.Write([m.index]);
      SaveObject(ts[m.index], m.item, out);
    case SetOf(e) =>
      SaveSize(|m.items|, out);
      SaveItems(e, m.items, out);
    case MapOf(e) =>
      SaveSize(|m.items|, out);
      SaveItems(e, m.items, out);
  }

  /** `SaveIterRange`. */
  method SaveItems(e: Type, ms: seq<Object>, out: Output)
    requires forall i :: 0 <= i < |ms| ==> HasType(e, ms[i])
    modifies out
    ensures out.data == old(out.data) + SaveRange(e, ms)
    decreases e, 2
  {
    hide HasType, Save;
    var b := 0;
    assert ms[0..] == ms;
    while b != |ms|
      invariant 0 <= b <= |ms|
      invariant out.data + SaveRange(e, ms[b..]) == old(out.data) + SaveRange(e, ms)
      decreases |ms| - b
    {
      ghost var before := out.data;
      assert ms[b..][0] == ms[b] && ms[b..][1..] == ms[b + 1..];
      SaveObject(e, ms[b], out);
      b := b + 1;
      assert before + (Save(e, ms[b - 1]) + SaveRange(e, ms[b..])) == out.data + SaveRange(e, ms[b..]);
    }
  }

  /** `TTupleSerializer::Save`. */
  method SaveTuple(t: Type, m: Object, out: Output)
    requires t.Tuple? && HasType(t, m)
    modifies out
    ensures out.data == old(out.data) + SaveParts(t, m, |t.parts|)
    decreases t, 0
  {
    hide Save;
    var k: nat := |t.parts|;
    while k > 0
      invariant k <= |t.parts|
      invariant out.data + SaveParts(t, m, k) == old(out.data) + SaveParts(t, m, |t.parts|)
    {
      ghost var before := out.data;
      SaveObject(t.parts[k - 1], m.items[k - 1], out);
      k := k - 1;
      assert before + (Save(t.parts[k], m.items[k]) + SaveParts(t, m, k)) == out.data + SaveParts(t, m, k);
    }
    assert out.data + [] == out.data;
  }

  /** `LoadPodType`. */
  method LoadNumber(width: nat, input: Input) returns (r: Result<nat>)
    modifies input
    ensures Agrees(LoadNum(width, old(input.data)), r, input.data)
  {
    ghost var all := input.data;
    var s := input.Load(width);
    if |s| != width {
      return EndOfInput;
    }
    assert all[width..] == input.data;
    r := Got(BytesNum(s));
  }

  method LoadLength(input: Input) returns (r: Result<nat>)
    modifies input
    ensures Agrees(LoadSize(old(input.data)), r, input.data)
  {
    hide LoadNum;
    r := LoadNumber(4, input);
    if r.Got? && r.value == 0xffffffff {
      r := LoadNumber(8, input);
    }
  }

  /** The values loaded so far, then what the rest of the range gives. */
  ghost function After(vs: seq<Value>, p: Parsed<seq<Value>>): Parsed<seq<Value>> {
    if p.Loaded? then Loaded(vs + p.value, p.rest) else p
  }

  lemma {:induction false} AfterNone(p: Parsed<seq<Value>>)
    ensures After([], p) == p
  {
    if p.Loaded? {
      assert [] + p.value == p.value;
    }
  }

  lemma {:induction false} AfterStep(vs: seq<Value>, e: Type, n: nat, s: seq<Byte>)
    requires n > 0
    ensures var p := Load(e, s);
            After(vs, LoadRange(e, n, s)) == if p.Loaded? then After(vs + [p.value], LoadRange(e, n - 1, p.rest)) else Fail(p)
  {
    hide Load;
    var p := Load(e, s);
    if p.Loaded? {
      var q := LoadRange(e, n - 1, p.rest);
      if q.Loaded? {
        assert vs + ([p.value] + q.value) == vs + [p.value] + q.value;
      }
    }
  }

  lemma {:induction false} RangeDone(vs: seq<Value>, e: Type, s: seq<Byte>)
    ensures After(vs, LoadRange(e, 0, s)) == Loaded(vs, s)
  {
    assert vs + [] == vs;
  }

  /** A vector: its size, then its elements in order. */
  method LoadVector(e: Type, input: Input) returns (r: Result<Value>)
    modifies input
    ensures Agrees(Load(Vector(e), old(input.data)), r, input.data)
    decreases e, 2
  {
    hide LoadRange, LoadSize;
    var size := LoadLength(input);
    if !size.Got? {
      return Rethrow(size);
    }
    ghost var start := LoadRange(e, size.value, input.data);
    var vs: seq<Value> := [];
    AfterNone(start);
    while |vs| != size.value
      invariant |vs| <= size.value && start == After(vs, LoadRange(e, size.value - |vs|, input.data))
      decreases size.value - |vs|
    {
      AfterStep(vs, e, size.value - |vs|, input.data);
      var v := LoadObject(e, input);
      if !v.Got? {
        return v;
      }
      vs := vs + [v.value];
    }
    RangeDone(vs, e, input.data);
    r := Got(Sequence(vs));
  }

  /** A set: every element is inserted as it is loaded. */
  method LoadSet(e: Type, input: Input) returns (r: Result<Value>)
    modifies input
    ensures Agrees(Load(SetOf(e), old(input.data)), r, input.data)
    decreases e, 2
  {
    hide LoadRange, LoadSize;
    var cnt := LoadLength(input);
    if !cnt.Got? {
      return Rethrow(cnt);
    }
    ghost var start := LoadRange(e, cnt.value, input.data);
    var elems: set<Value> := {};
    ghost var vs: seq<Value> := [];
    AfterNone(start);
    var i := 0;
    while i != cnt.value
      invariant i == |vs| <= cnt.value && start == After(vs, LoadRange(e, cnt.value - i, input.data))
      invariant elems == Inserted(vs)
      decreases cnt.value - i
    {
      AfterStep(vs, e, cnt.value - i, input.data);
      var v := LoadObject(e, input);
      if !v.Got? {
        return v;
      }
      elems := elems + {v.value};
      vs := vs + [v.value];
      i := i + 1;
    }
    RangeDone(vs, e, input.data);
    r := Got(Elements(elems));
  }

  /** A map: every entry is inserted as it is loaded, unless its key is there already. */
  method LoadMap(e: Type, input: Input) returns (r: Result<Value>)
    modifies input
    ensures Agrees(Load(MapOf(e), old(input.data)), r, input.data)
    decreases e, 2
  {
    hide LoadRange, LoadSize, InsertedEntries;
    var cnt := LoadLength(input);
    if !cnt.Got? {
      return Rethrow(cnt);
    }
    ghost var start := LoadRange(e, cnt.value, input.data);
    var entries: map<Value, Value> := map[];
    ghost var vs: seq<Value> := [];
    AfterNone(start);
    NoEntries();
    var i := 0;
    while i != cnt.value
      invariant i == |vs| <= cnt.value && start == After(vs, LoadRange(e, cnt.value - i, input.data))
      invariant entries == InsertedEntries(vs)
      decreases cnt.value - i
    {
      AfterStep(vs, e, cnt.value - i, input.data);
      var v := LoadObject(e, input);
      if !v.Got? {
        return v;
      }
      if v.value.Couple? && v.value.a !in entries {
        entries := entries[v.value.a := v.value.b];
      }
      InsertEntry(vs, v.value);
      vs := vs + [v.value];
      i := i + 1;
    }
    RangeDone(vs, e, input.data);
    r := Got(Entries(entries));
  }

  lemma {:induction false} TupleLoaded(t: Type, s: seq<Byte>)
    requires t.Tuple?
    ensures Load(t, s) == var p := LoadParts(t, |t.parts|, s);
                          if p.Loaded? then Loaded(Row(p.value), p.rest) else Fail(p)
  {
  }

  /** `TTupleSerializer::Load`: the last component comes first. */
  method LoadTuple(t: Type, input: Input) returns (r: Result<Value>)
    requires t.Tuple?
    modifies input
    ensures Agrees(Load(t, old(input.data)), r, input.data)
    decreases t, 0
  {
    hide Load;
    var vs: seq<Value> := [];
    var k: nat := |t.parts|;
    ghost var start := LoadParts(t, k, input.data);
    ghost var all := input.data;
    if start.Loaded? {
      assert start.value + [] == start.value;
    }
    while k > 0
      invariant k <= |t.parts|
      invariant var p := LoadParts(t, k, input.data);
                start == if p.Loaded? then Loaded(p.value + vs, p.rest) else p
    {
      ghost var p := Load(t.parts[k - 1], input.data);
      ghost var q := if p.Loaded? then LoadParts(t, k - 1, p.rest) else Fail(p);
      var v := LoadObject(t.parts[k - 1], input);
      if !v.Got? {
        TupleLoaded(t, all);
        return v;
      }
      if q.Loaded? {
        assert q.value + [v.value] + vs == q.value + ([v.value] + vs);
      }
      vs := [v.value] + vs;
      k := k - 1;
    }
    TupleLoaded(t, all);
    assert [] + vs == vs;
    r := Got(Row(vs));
  }

  method LoadObject(t: Type, input: Input) returns (r: Result<Value>)
    modifies input
    ensures Agrees(Load(t, old(input.data)), r, input.data)
    decreases t, 1
  {
    hide LoadNum, LoadSize, LoadCounted, Inserted, InsertedEntries;
    match t
    case Fixed(w) =>
      var n := LoadNumber(w, input);
      r := if n.Got? then Got(Number(n.value)) else Rethrow(n);
    case Vector(e) =>
      r := LoadVector(e, input);
    case Pair(a, b) =>
      r := LoadObject(a, input);
      if r.Got? {
        var second := LoadObject(b, input);
        r := if second.Got? then Got(Couple(r.value, second.value)) else second;
      }
    case Tuple(ts) =>
      r := LoadTuple(t, input);
    case Optional(e) =>
      r := LoadOptional(t, input);
    case Variant(ts) =>
      r := LoadVariant(t, input);
    case SetOf(e) =>
      r := LoadSet(e, input);
    case MapOf(e) =>
      r := LoadMap(e, input);
  }

  method LoadOptional(t: Type, input: Input) returns (r: Result<Value>)
    requires t.Optional?
    modifies input
    ensures Agrees(Load(t, old(input.data)), r, input.data)
    decreases t, 0
  {
    hide LoadNum;
    var hasValue := LoadNumber(1, input);
    if !hasValue.Got? {
      return Rethrow(hasValue);
    }
    if hasValue.value == 0 {
      return Got(Nothing);
    }
    r := LoadObject(t.elem, input);
    if r.Got? {
      r := Got(Just(r.value));
    }
  }

  method LoadVariant(t: Type, input: Input) returns (r: Result<Value>)
    requires t.Variant?
    modifies input
    ensures Agrees(Load(t, old(input.data)), r, input.data)
    decreases t, 0
  {
    hide LoadNum;
    var index := LoadNumber(1, input);
    if !index.Got? {
      return Rethrow(index);
    }
    if index.value >= |t.parts| {
      return UnexpectedTag(index.value);
    }
    r := LoadObject(t.parts[index.value], input);
    if r.Got? {
      r := Got(Choice(index.value, r.value));
    }
  }

  /** A value saved to a stream and loaded from what the stream then holds, whatever is written after it. */
  method SaveThenLoad(t: Type, m: Object, after: seq<Byte>) returns (r: Result<Value>, left: seq<Byte>)
    requires HasType(t, m)
    ensures r == Got(Meaning(m)) && left == after
  {
    hide HasType, Save, SaveLoad.Load, Meaning;
    var out := new Output();
    SaveObject(t, m, out);
    out.Write(after);
    RoundTrip(t, m, after);
    assert [] + Save(t, m) + after == Save(t, m) + after;
    var input := new Input(out.data);
    r := LoadObject(t, input);
    left := input.data;
  }
}
