/**
  The binary format of `ysaveload.h`. `Save` gives the bytes of a value in memory, `Load` what reading a byte string back
  gives. A set or map in memory has an iteration order, which is the order it is saved in; what is loaded is a set or map.
 */
module SaveLoad {
  import opened Arithmetic
  import opened Wrappers

  /** The types that can be saved. Strings, lists and deques are saved as vectors; a map as a set of pairs. */
  datatype Type =
    | Fixed(width: nat)
    | Vector(elem: Type)
    | Pair(first: Type, second: Type)
    | Tuple(parts: seq<Type>)
    | Optional(elem: Type)
    | Variant(parts: seq<Type>)
    | SetOf(elem: Type)
    | MapOf(elem: Type)

  /** A value in memory, with the iteration order of its sets and maps. */
  datatype Object =
    | Int(n: nat)
    | List(items: seq<Object>)
    | Both(a: Object, b: Object)
    | Parts(items: seq<Object>)
    | Absent
    | Present(item: Object)
    | Alternative(index: nat, item: Object)
    | SetOrder(items: seq<Object>)
    | MapOrder(items: seq<Object>)

  /** What a value means, with no order inside sets and maps. */
  datatype Value =
    | Number(n: nat)
    | Sequence(items: seq<Value>)
    | Couple(a: Value, b: Value)
    | Row(items: seq<Value>)
    | Nothing
    | Just(item: Value)
    | Choice(index: nat, item: Value)
    | Elements(elems: set<Value>)
    | Entries(entries: map<Value, Value>)

  // ----- meaning -----

  function Inserted(vs: seq<Value>): set<Value> {
    set v | v in vs
  }

  /** Inserting entries one by one: `insert` does not replace an entry whose key is there already. */
  function InsertedEntries(vs: seq<Value>): map<Value, Value> {
    if vs == [] then map[] else
    var m := InsertedEntries(vs[..|vs| - 1]);
    var v := vs[|vs| - 1];
    if v.Couple? && v.a !in m then m[v.a := v.b] else m
  }

  function Meaning(m: Object): Value {
    match m
    case Int(n) => Number(n)
    case List(items) => Sequence(Meanings(m))
    case Both(a, b) => Couple(Meaning(a), Meaning(b))
    case Parts(items) => Row(Meanings(m))
    case Absent => Nothing
    case Present(item) => Just(Meaning(item))
    case Alternative(i, item) => Choice(i, Meaning(item))
    case SetOrder(items) => Elements(Inserted(Meanings(m)))
    case MapOrder(items) => Entries(InsertedEntries(Meanings(m)))
  }

  function Meanings(m: Object): (vs: seq<Value>)
    requires m.List? || m.Parts? || m.SetOrder? || m.MapOrder?
    decreases m, 0
  {
    seq(|m.items|, i requires 0 <= i < |m.items| => Meaning(m.items[i]))
  }

  function Power256(width: nat): (p: nat)
    ensures p > 0
  {
    if width == 0 then 1 else 256 * Power256(width - 1)
  }

  /** `n` can be held in `width` bytes. */
  predicate Fits(n: nat, width: nat) {
    n < Power256(width)
  }

  const SIZE_LIMIT := 0x1_0000_0000_0000_0000

  predicate HasType(t: Type, m: Object) {
    match t
    case Fixed(w) => m.Int? && Fits(m.n, w)
    case Vector(e) => m.List? && |m.items| < SIZE_LIMIT && forall i :: 0 <= i < |m.items| ==> HasType(e, m.items[i])
    case Pair(a, b) => m.Both? && HasType(a, m.a) && HasType(b, m.b)
    case Tuple(ts) => m.Parts? && |m.items| == |ts| && forall i :: 0 <= i < |ts| ==> HasType(ts[i], m.items[i])
    case Optional(e) => m.Absent? || (m.Present? && HasType(e, m.item))
    case Variant(ts) => m.Alternative? && m.index < |ts| < 256 && HasType(ts[m.index], m.item)
    case SetOf(e) => m.SetOrder? && |m.items| < SIZE_LIMIT && forall i :: 0 <= i < |m.items| ==> HasType(e, m.items[i])
    case MapOf(e) => m.MapOrder? && |m.items| < SIZE_LIMIT && e.Pair? && forall i :: 0 <= i < |m.items| ==> HasType(e, m.items[i])
  }

  // ----- saving -----

  /** A fixed-width integer, least significant byte first. */
  function NumBytes(n: nat, width: nat): (s: seq<Byte>)
    ensures |s| == width
  {
    if width == 0 then [] else [n % 256] + NumBytes(n / 256, width - 1)
  }

  /** `SaveSize`. */
  function SizeBytes(len: nat): seq<Byte> {
    if len < 0xffffffff then NumBytes(len, 4) else NumBytes(0xffffffff, 4) + NumBytes(len, 8)
  }

  ghost function Save(t: Type, m: Object): seq<Byte>
    requires HasType(t, m)
    decreases t, 1, 0
  {
    match t
    case Fixed(w) => NumBytes(m.n, w)
    case Vector(e) => SizeBytes(|m.items|) + SaveRange(e, m.items)
    case Pair(a, b) => Save(a, m.a) + Save(b, m.b)
    case Tuple(ts) => SaveParts(t, m, |ts|)
    case Optional(e) => if m.Absent? then [0] else [1] + Save(e, m.item)
    case Variant(ts) => [m.index] + Save(ts[m.index], m.item)
    case SetOf(e) => SizeBytes(|m.items|) + SaveRange(e, m.items)
    case MapOf(e) => SizeBytes(|m.items|) + SaveRange(e, m.items)
  }

  ghost function SaveRange(e: Type, ms: seq<Object>): seq<Byte>
    requires forall i :: 0 <= i < |ms| ==> HasType(e, ms[i])
    decreases e, 2, |ms|
  {
    if ms == [] then [] else Save(e, ms[0]) + SaveRange(e, ms[1..])
  }

  /** Tuples are saved from the last component to the first. */
  ghost function SaveParts(t: Type, m: Object, k: nat): seq<Byte>
    requires t.Tuple? && HasType(t, m) && k <= |t.parts|
    decreases t, 0, k
  {
    if k == 0 then [] else Save(t.parts[k - 1], m.items[k - 1]) + SaveParts(t, m, k - 1)
  }

  // ----- the format -----

  lemma {:induction false} DivideTwice(n: nat, p: nat)
    requires p > 0
    ensures n / 256 / p == n / (256 * p)
  {
    var q, r := n / 256 / p, n / 256 % p;
    assert n / 256 == p * q + r;
    assert n == 256 * p * q + (256 * r + n % 256);
    Quotient(n, 256 * p, q, 256 * r + n % 256);
  }

  /** Byte `i` of a fixed-width integer. */
  lemma {:induction false} FixedByte(n: nat, width: nat, i: nat)
    requires i < width
    ensures NumBytes(n, width)[i] == n / Power256(i) % 256
  {
    if i > 0 {
      FixedByte(n / 256, width - 1, i - 1);
      DivideTwice(n, Power256(i - 1));
    }
  }

  lemma {:induction false} AllOnes()
    ensures NumBytes(0xffffffff, 4) == [0xff, 0xff, 0xff, 0xff]
  {
    assert NumBytes(0xff, 1) == [0xff] + NumBytes(0, 0);
    assert NumBytes(0xffff, 2) == [0xff] + NumBytes(0xff, 1);
    assert NumBytes(0xffffff, 3) == [0xff] + NumBytes(0xffff, 2);
    assert NumBytes(0xffffffff, 4) == [0xff] + NumBytes(0xffffff, 3);
  }

  /** A size below 0xffffffff takes four bytes, any other four bytes 0xff and eight more; the least significant byte comes
      first. */
  lemma {:induction false} SizeForm(len: nat)
    ensures len < 0xffffffff ==>
              |SizeBytes(len)| == 4 && forall i :: 0 <= i < 4 ==> SizeBytes(len)[i] == len / Power256(i) % 256
    ensures len >= 0xffffffff ==>
              && |SizeBytes(len)| == 12 && SizeBytes(len)[..4] == [0xff, 0xff, 0xff, 0xff]
              && forall i :: 0 <= i < 8 ==> SizeBytes(len)[4..][i] == len / Power256(i) % 256
  {
    hide NumBytes, Power256;
    forall i | 0 <= i < 4 ensures NumBytes(len, 4)[i] == len / Power256(i) % 256 {
      FixedByte(len, 4, i);
    }
    forall i | 0 <= i < 8 ensures NumBytes(len, 8)[i] == len / Power256(i) % 256 {
      FixedByte(len, 8, i);
    }
    AllOnes();
  }

  lemma {:induction false} Powers()
    ensures Power256(1) == 0x100 && Power256(2) == 0x1_0000
  {
  }

  lemma {:induction false} SmallSize()
    ensures SizeBytes(2) == [2, 0, 0, 0]
  {
    assert NumBytes(0, 1) == [0] + NumBytes(0, 0);
    assert NumBytes(0, 2) == [0] + NumBytes(0, 1);
    assert NumBytes(0, 3) == [0] + NumBytes(0, 2);
    assert NumBytes(2, 4) == [2] + NumBytes(0, 3);
  }

  lemma {:induction false} SaveSmall(n: nat)
    requires n < 256
    ensures HasType(Fixed(1), Int(n)) && Save(Fixed(1), Int(n)) == [n]
  {
    Powers();
    assert NumBytes(n, 1) == [n] + NumBytes(0, 0);
  }

  /** A pair with an optional vector: a 16-bit number low byte first, then the byte 1 of an optional that is there, then
      four bytes of size and the elements in their order. */
  lemma {:induction false} PairBytes()
    ensures var t := Pair(Fixed(2), Optional(Vector(Fixed(1))));
            var m := Both(Int(0x0102), Present(List([Int(7), Int(8)])));
            HasType(t, m) && Save(t, m) == [0x02, 0x01, 1, 2, 0, 0, 0, 7, 8]
  {
    Powers();
    var items := [Int(7), Int(8)];
    assert NumBytes(0x0102, 2) == [2] + NumBytes(1, 1);
    assert NumBytes(1, 1) == [1] + NumBytes(0, 0);
    SmallSize();
    assert items[1..] == [Int(8)];
    SaveSmall(7);
    SaveSmall(8);
    assert SaveRange(Fixed(1), [Int(8)]) == Save(Fixed(1), Int(8)) + SaveRange(Fixed(1), []);
    assert SaveRange(Fixed(1), items) == Save(Fixed(1), Int(7)) + SaveRange(Fixed(1), [Int(8)]);
  }

  /** An optional that is not there is the byte 0, a variant begins with its index, and a tuple with its last component. */
  lemma {:induction false} OtherBytes()
    ensures Save(Optional(Fixed(1)), Absent) == [0]
    ensures var t, m := Variant([Fixed(2), Fixed(1)]), Alternative(1, Int(5)); HasType(t, m) && Save(t, m) == [1, 5]
    ensures var t, m := Tuple([Fixed(1), Fixed(1)]), Parts([Int(5), Int(6)]); HasType(t, m) && Save(t, m) == [6, 5]
  {
    SaveSmall(5);
    SaveSmall(6);
    var t, m := Tuple([Fixed(1), Fixed(1)]), Parts([Int(5), Int(6)]);
    assert SaveParts(t, m, 1) == Save(Fixed(1), Int(5)) + SaveParts(t, m, 0);
    assert SaveParts(t, m, 2) == Save(Fixed(1), Int(6)) + SaveParts(t, m, 1);
  }

  // ----- loading -----

  /** The outcome of reading: the value and what is left, the end of the input, or a variant tag that is out of range. */
  datatype Parsed<T> = Loaded(value: T, rest: seq<Byte>) | Eof | BadTag(tag: nat)

  function Fail<T, U>(p: Parsed<T>): Parsed<U>
    requires !p.Loaded?
  {
    if p.Eof? then Eof else BadTag(p.tag)
  }

  function BytesNum(s: seq<Byte>): nat {
    if s == [] then 0 else s[0] + 256 * BytesNum(s[1..])
  }

  /** `LoadPodType`. */
  function LoadNum(width: nat, s: seq<Byte>): Parsed<nat> {
    if |s| < width then Eof else Loaded(BytesNum(s[..width]), s[width..])
  }

  /** `LoadSize`. */
  function LoadSize(s: seq<Byte>): Parsed<nat> {
    var p := LoadNum(4, s);
    if p.Loaded? && p.value == 0xffffffff then LoadNum(8, p.rest) else p
  }

  function Load(t: Type, s: seq<Byte>): Parsed<Value>
    decreases t, 1, 0
  {
    match t
    case Fixed(w) =>
      var p := LoadNum(w, s);
      if p.Loaded? then Loaded(Number(p.value), p.rest) else Fail(p)
    case Vector(e) =>
      var p := LoadCounted(e, s);
      if p.Loaded? then Loaded(Sequence(p.value), p.rest) else Fail(p)
    case Pair(a, b) =>
      var p := Load(a, s);
      if !p.Loaded? then p else
      var q := Load(b, p.rest);
      if q.Loaded? then Loaded(Couple(p.value, q.value), q.rest) else q
    case Tuple(ts) =>
      var p := LoadParts(t, |ts|, s);
      if p.Loaded? then Loaded(Row(p.value), p.rest) else Fail(p)
    case Optional(e) =>
      var p := LoadNum(1, s);
      if !p.Loaded? then Fail(p) else if p.value == 0 then Loaded(Nothing, p.rest) else
      var q := Load(e, p.rest);
      if q.Loaded? then Loaded(Just(q.value), q.rest) else q
    case Variant(ts) =>
      var p := LoadNum(1, s);
      if !p.Loaded? then Fail(p) else if p.value >= |ts| then BadTag(p.value) else
      var q := Load(ts[p.value], p.rest);
      if q.Loaded? then Loaded(Choice(p.value, q.value), q.rest) else q
    case SetOf(e) =>
      var p := LoadCounted(e, s);
      if p.Loaded? then Loaded(Elements(Inserted(p.value)), p.rest) else Fail(p)
    case MapOf(e) =>
      var p := LoadCounted(e, s);
      if p.Loaded? then Loaded(Entries(InsertedEntries(p.value)), p.rest) else Fail(p)
  }

  function LoadCounted(e: Type, s: seq<Byte>): Parsed<seq<Value>>
    decreases e, 3, 0
  {
    var p := LoadSize(s);
    if p.Loaded? then LoadRange(e, p.value, p.rest) else Fail(p)
  }

  function LoadRange(e: Type, n: nat, s: seq<Byte>): Parsed<seq<Value>>
    decreases e, 2, n
  {
    if n == 0 then Loaded([], s) else
    var p := Load(e, s);
    if !p.Loaded? then Fail(p) else
    var q := LoadRange(e, n - 1, p.rest);
    if q.Loaded? then Loaded([p.value] + q.value, q.rest) else q
  }

  function LoadParts(t: Type, k: nat, s: seq<Byte>): Parsed<seq<Value>>
    requires t.Tuple? && k <= |t.parts|
    decreases t, 0, k
  {
    if k == 0 then Loaded([], s) else
    var p := Load(t.parts[k - 1], s);
    if !p.Loaded? then Fail(p) else
    var q := LoadParts(t, k - 1, p.rest);
    if q.Loaded? then Loaded(q.value + [p.value], q.rest) else q
  }

  // ----- round trip -----

  lemma {:induction false} NumValue(n: nat, width: nat)
    requires Fits(n, width)
    ensures BytesNum(NumBytes(n, width)) == n
  {
    if width > 0 {
      NumValue(n / 256, width - 1);
      assert NumBytes(n, width)[1..] == NumBytes(n / 256, width - 1);
    }
  }

  lemma {:induction false} NumRoundTrip(n: nat, width: nat, rest: seq<Byte>)
    requires Fits(n, width)
    ensures LoadNum(width, NumBytes(n, width) + rest) == Loaded(n, rest)
  {
    NumValue(n, width);
    var s := NumBytes(n, width) + rest;
    assert s[..width] == NumBytes(n, width) && s[width..] == rest;
  }

  lemma {:induction false} SizesFit(n: nat)
    ensures n <= 0xffffffff ==> Fits(n, 4)
    ensures n < SIZE_LIMIT ==> Fits(n, 8)
  {
    assert Power256(2) == 0x1_0000;
    assert Power256(4) == 0x1_0000_0000;
    assert Power256(6) == 0x1_0000_0000_0000;
  }

  lemma {:induction false} SizeRoundTrip(len: nat, rest: seq<Byte>)
    requires len < SIZE_LIMIT
    ensures LoadSize(SizeBytes(len) + rest) == Loaded(len, rest)
  {
    hide Fits, NumBytes, LoadNum;
    SizesFit(len);
    SizesFit(0xffffffff);
    if len < 0xffffffff {
      NumRoundTrip(len, 4, rest);
    } else {
      NumRoundTrip(0xffffffff, 4, NumBytes(len, 8) + rest);
      NumRoundTrip(len, 8, rest);
      assert SizeBytes(len) + rest == NumBytes(0xffffffff, 4) + (NumBytes(len, 8) + rest);
    }
  }

  /** One byte: a flag or a variant tag. */
  lemma {:induction false} ByteRoundTrip(b: Byte, rest: seq<Byte>)
    ensures LoadNum(1, [b] + rest) == Loaded(b, rest)
  {
    var s := [b] + rest;
    assert s[..1] == [b] && s[1..] == rest && [b][1..] == [];
    assert BytesNum([b]) == b + 256 * BytesNum([]);
  }

  /** The meanings of a list of objects. */
  ghost function Each(ms: seq<Object>): seq<Value> {
    seq(|ms|, i requires 0 <= i < |ms| => Meaning(ms[i]))
  }

  lemma {:induction false} AllMeanings(m: Object)
    requires m.Parts?
    ensures Each(m.items[..|m.items|]) == Meanings(m)
  {
    assert m.items[..|m.items|] == m.items;
  }

  /** Loading what was saved gives the value back and leaves exactly what follows it. */
  lemma {:induction false} RoundTrip(t: Type, m: Object, rest: seq<Byte>)
    requires HasType(t, m)
    ensures Load(t, Save(t, m) + rest) == Loaded(Meaning(m), rest)
    decreases t, 1, 0
  {
    hide Fits, NumBytes, LoadNum, SizeBytes, LoadSize, Inserted, InsertedEntries, Meanings, LoadCounted;
    match t
    case Fixed(w) =>
      NumRoundTrip(m.n, w, rest);
    case Vector(e) =>
      CountedRoundTrip(e, m, rest);
    case Pair(a, b) =>
      assert Save(t, m) + rest == Save(a, m.a) + (Save(b, m.b) + rest);
      RoundTrip(a, m.a, Save(b, m.b) + rest);
      RoundTrip(b, m.b, rest);
    case Tuple(ts) =>
      PartsRoundTrip(t, m, |ts|, rest);
      AllMeanings(m);
    case Optional(e) =>
      OptionalRoundTrip(t, m, rest);
    case Variant(ts) =>
      assert Save(t, m) + rest == [m.index] + (Save(ts[m.index], m.item) + rest);
      ByteRoundTrip(m.index, Save(ts[m.index], m.item) + rest);
      RoundTrip(ts[m.index], m.item, rest);
    case SetOf(e) =>
      CountedRoundTrip(e, m, rest);
    case MapOf(e) =>
      CountedRoundTrip(e, m, rest);
  }

  lemma {:induction false} OptionalRoundTrip(t: Type, m: Object, rest: seq<Byte>)
    requires t.Optional? && HasType(t, m)
    ensures Load(t, Save(t, m) + rest) == Loaded(Meaning(m), rest)
    decreases t, 0, 0
  {
    hide LoadNum;
    if m.Absent? {
      ByteRoundTrip(0, rest);
    } else {
      var inner := Save(t.elem, m.item) + rest;
      assert Save(t, m) + rest == [1] + inner;
      ByteRoundTrip(1, inner);
      RoundTrip(t.elem, m.item, rest);
    }
  }

  lemma {:induction false} CountedRoundTrip(e: Type, m: Object, rest: seq<Byte>)
    requires m.List? || m.SetOrder? || m.MapOrder?
    requires |m.items| < SIZE_LIMIT && forall i :: 0 <= i < |m.items| ==> HasType(e, m.items[i])
    ensures LoadCounted(e, SizeBytes(|m.items|) + SaveRange(e, m.items) + rest) == Loaded(Meanings(m), rest)
    decreases e, 3, 0
  {
    hide SizeBytes, LoadSize, HasType, Load, Save;
    var range := SaveRange(e, m.items) + rest;
    assert SizeBytes(|m.items|) + SaveRange(e, m.items) + rest == SizeBytes(|m.items|) + range;
    SizeRoundTrip(|m.items|, range);
    RangeRoundTrip(e, m.items, rest);
    assert Each(m.items) == Meanings(m);
  }

  lemma {:induction false} RangeRoundTrip(e: Type, ms: seq<Object>, rest: seq<Byte>)
    requires forall i :: 0 <= i < |ms| ==> HasType(e, ms[i])
    ensures LoadRange(e, |ms|, SaveRange(e, ms) + rest) == Loaded(Each(ms), rest)
    decreases e, 2, |ms|
  {
    hide HasType, Load, Save, Meaning;
    if ms == [] {
      assert [] + rest == rest;
    } else {
      var more := SaveRange(e, ms[1..]) + rest;
      assert SaveRange(e, ms) + rest == Save(e, ms[0]) + more;
      RoundTrip(e, ms[0], more);
      RangeRoundTrip(e, ms[1..], rest);
      assert [Meaning(ms[0])] + Each(ms[1..]) == Each(ms);
    }
  }

  lemma {:induction false} PartsRoundTrip(t: Type, m: Object, k: nat, rest: seq<Byte>)
    requires t.Tuple? && HasType(t, m) && k <= |t.parts|
    ensures LoadParts(t, k, SaveParts(t, m, k) + rest) == Loaded(Each(m.items[..k]), rest)
    decreases t, 0, k
  {
    hide Load, Save, Meaning;
    if k == 0 {
      assert [] + rest == rest;
    } else {
      var more := SaveParts(t, m, k - 1) + rest;
      assert SaveParts(t, m, k) + rest == Save(t.parts[k - 1], m.items[k - 1]) + more;
      RoundTrip(t.parts[k - 1], m.items[k - 1], more);
      PartsRoundTrip(t, m, k - 1, rest);
      assert Each(m.items[..k - 1]) + [Meaning(m.items[k - 1])] == Each(m.items[..k]);
    }
  }

  // ----- no proper prefix loads -----

  /** More input changes nothing but what is left: a value or a bad tag that has been seen stays. */
  ghost predicate Extends<T(!new)>(p: Parsed<T>, q: Parsed<T>, more: seq<Byte>) {
    match p
    case Loaded(v, rest) => q == Loaded(v, rest + more)
    case Eof => true
    case BadTag(tag) => q == p
  }

  lemma {:induction false} NumExtends(width: nat, s: seq<Byte>, more: seq<Byte>)
    ensures Extends(LoadNum(width, s), LoadNum(width, s + more), more)
  {
    if |s| >= width {
      assert (s + more)[..width] == s[..width] && (s + more)[width..] == s[width..] + more;
    }
  }

  lemma {:induction false} SizeExtends(s: seq<Byte>, more: seq<Byte>)
    ensures Extends(LoadSize(s), LoadSize(s + more), more)
  {
    hide LoadNum;
    NumExtends(4, s, more);
    var p := LoadNum(4, s);
    if p.Loaded? && p.value == 0xffffffff {
      NumExtends(8, p.rest, more);
    }
  }

  lemma {:induction false} LoadExtends(t: Type, s: seq<Byte>, more: seq<Byte>)
    ensures Extends(Load(t, s), Load(t, s + more), more)
    decreases t, 1, 0
  {
    hide LoadNum, LoadSize, Inserted, InsertedEntries, LoadCounted;
    match t
    case Fixed(w) =>
      NumExtends(w, s, more);
    case Vector(e) =>
      CountedExtends(e, s, more);
    case Pair(a, b) =>
      LoadExtends(a, s, more);
      if Load(a, s).Loaded? {
        LoadExtends(b, Load(a, s).rest, more);
      }
    case Tuple(ts) =>
      PartsExtend(t, |ts|, s, more);
    case Optional(e) =>
      NumExtends(1, s, more);
      if LoadNum(1, s).Loaded? {
        LoadExtends(e, LoadNum(1, s).rest, more);
      }
    case Variant(ts) =>
      NumExtends(1, s, more);
      var p := LoadNum(1, s);
      if p.Loaded? && p.value < |ts| {
        LoadExtends(ts[p.value], p.rest, more);
      }
    case SetOf(e) =>
      CountedExtends(e, s, more);
    case MapOf(e) =>
      CountedExtends(e, s, more);
  }

  lemma {:induction false} CountedExtends(e: Type, s: seq<Byte>, more: seq<Byte>)
    ensures Extends(LoadCounted(e, s), LoadCounted(e, s + more), more)
    decreases e, 3, 0
  {
    hide LoadSize, Load, LoadRange;
    SizeExtends(s, more);
    var p := LoadSize(s);
    if p.Loaded? {
      RangeExtends(e, p.value, p.rest, more);
    }
  }

  lemma {:induction false} RangeExtends(e: Type, n: nat, s: seq<Byte>, more: seq<Byte>)
    ensures Extends(LoadRange(e, n, s), LoadRange(e, n, s + more), more)
    decreases e, 2, n
  {
    hide Load;
    if n > 0 {
      LoadExtends(e, s, more);
      var p := Load(e, s);
      if p.Loaded? {
        RangeExtends(e, n - 1, p.rest, more);
      }
    }
  }

  lemma {:induction false} PartsExtend(t: Type, k: nat, s: seq<Byte>, more: seq<Byte>)
    requires t.Tuple? && k <= |t.parts|
    ensures Extends(LoadParts(t, k, s), LoadParts(t, k, s + more), more)
    decreases t, 0, k
  {
    hide Load;
    if k > 0 {
      LoadExtends(t.parts[k - 1], s, more);
      var p := Load(t.parts[k - 1], s);
      if p.Loaded? {
        PartsExtend(t, k - 1, p.rest, more);
      }
    }
  }

  /** Cutting what was saved anywhere before its end makes loading report the end of the input. */
  lemma {:induction false} NoPrefixLoads(t: Type, m: Object, k: nat)
    requires HasType(t, m) && k < |Save(t, m)|
    ensures Load(t, Save(t, m)[..k]) == Eof
  {
    hide HasType, Save, Load, Meaning;
    var s := Save(t, m);
    RoundTrip(t, m, []);
    assert s + [] == s && s[..k] + s[k..] == s;
    LoadExtends(t, s[..k], s[k..]);
  }

  /** Two objects saved to the same bytes mean the same. */
  lemma {:induction false} SaveIsInjective(t: Type, m: Object, n: Object)
    requires HasType(t, m) && HasType(t, n) && Save(t, m) == Save(t, n)
    ensures Meaning(m) == Meaning(n)
  {
    hide HasType, Save, Load, Meaning;
    RoundTrip(t, m, []);
    RoundTrip(t, n, []);
  }

  // ----- maps -----

  ghost function KeysOf(vs: seq<Value>): set<Value> {
    set v | v in vs && v.Couple? :: v.a
  }

  ghost predicate DistinctKeys(vs: seq<Value>) {
    vs == [] ||
    (var init, v := vs[..|vs| - 1], vs[|vs| - 1];
     v.Couple? && v.a !in KeysOf(init) && DistinctKeys(init))
  }

  lemma {:induction false} InsertEntry(vs: seq<Value>, v: Value)
    ensures InsertedEntries(vs + [v]) ==
            var m := InsertedEntries(vs);
            if v.Couple? && v.a !in m then m[v.a := v.b] else m
  {
    assert (vs + [v])[..|vs|] == vs;
  }

  lemma {:induction false} NoEntries()
    ensures InsertedEntries([]) == map[] && KeysOf([]) == {}
  {
  }

  lemma {:induction false} KeysSnoc(vs: seq<Value>, v: Value)
    requires v.Couple?
    ensures KeysOf(vs + [v]) == KeysOf(vs) + {v.a}
  {
    forall k | k in KeysOf(vs) + {v.a}
      ensures k in KeysOf(vs + [v])
    {
      if k in KeysOf(vs) {
        var w :| w in vs && w.Couple? && w.a == k;
        assert w in vs + [v];
      } else {
        assert v in vs + [v];
      }
    }
  }

  /** When no key occurs twice, as in any map, the entries are all inserted and there are no others. */
  lemma {:induction false} AllEntriesInserted(vs: seq<Value>)
    requires DistinctKeys(vs)
    ensures InsertedEntries(vs).Keys == KeysOf(vs) && |InsertedEntries(vs)| == |vs|
    ensures forall i :: 0 <= i < |vs| ==> vs[i].Couple? && vs[i].a in InsertedEntries(vs) && InsertedEntries(vs)[vs[i].a] == vs[i].b
  {
    hide InsertedEntries, KeysOf;
    if vs == [] {
      NoEntries();
    } else {
      var init, v := vs[..|vs| - 1], vs[|vs| - 1];
      assert vs == init + [v];
      AllEntriesInserted(init);
      InsertEntry(init, v);
      KeysSnoc(init, v);
      assert InsertedEntries(vs).Keys == InsertedEntries(init).Keys + {v.a};
      forall i | 0 <= i < |vs|
        ensures vs[i].Couple? && vs[i].a in InsertedEntries(vs) && InsertedEntries(vs)[vs[i].a] == vs[i].b
      {
        if i < |init| {
          assert init[i] == vs[i];
        }
      }
    }
  }

  lemma {:induction false} EntriesHaveKeys(vs: seq<Value>, key: Value)
    requires forall j :: 0 <= j < |vs| && vs[j].Couple? ==> vs[j].a != key
    ensures key !in InsertedEntries(vs)
  {
    if vs != [] {
      EntriesHaveKeys(vs[..|vs| - 1], key);
    }
  }

  /** When a key occurs again, its first entry stays. */
  lemma {:induction false} FirstEntryStays(vs: seq<Value>, i: nat)
    requires i < |vs| && vs[i].Couple? && forall j :: 0 <= j < i && vs[j].Couple? ==> vs[j].a != vs[i].a
    ensures vs[i].a in InsertedEntries(vs) && InsertedEntries(vs)[vs[i].a] == vs[i].b
  {
    var init := vs[..|vs| - 1];
    if i < |init| {
      FirstEntryStays(init, i);
    } else {
      EntriesHaveKeys(init, vs[i].a);
    }
  }

  lemma {:induction false} LoadTag(tag: Byte, s: seq<Byte>)
    ensures LoadNum(1, [tag] + s) == Loaded(tag, s)
  {
    assert ([tag] + s)[..1] == [tag] && ([tag] + s)[1..] == s && [tag][1..] == [];
    assert BytesNum([tag]) == tag + 256 * BytesNum([]);
  }

  /** An index beyond the alternatives of a variant is reported. */
  lemma {:induction false} BadTags(ts: seq<Type>, tag: Byte, s: seq<Byte>)
    ensures Load(Variant(ts), [tag] + s) == BadTag(tag) <== tag >= |ts|
  {
    LoadTag(tag, s);
  }
}
