/**
  The integer hashes of `numeric.h` and the fold of `sequence.h`. A word of `w` bits is a number below 2^w; the shifts,
  the complement and the wrapping sum are written out, and exclusive or goes bit by bit. Every kind of step of the hash
  is shown to lose nothing, for every width and every shift.
 */
module IntHash {
  import opened Arithmetic

  function Pow2(k: nat): (p: nat)
    ensures p > 0
  {
    if k == 0 then 1 else 2 * Pow2(k - 1)
  }

  function Xor(a: nat, b: nat): nat
    decreases a + b
  {
    if a == 0 && b == 0 then 0 else 2 * Xor(a / 2, b / 2) + (a % 2 + b % 2) % 2
  }

  function Shr(x: nat, k: nat): nat {
    if k == 0 then x else Shr(x / 2, k - 1)
  }

  function Shl(x: nat, k: nat, w: nat): nat {
    x * Pow2(k) % Pow2(w)
  }

  function Not(x: nat, w: nat): int {
    Pow2(w) - 1 - x
  }

  function Plus(a: int, b: int, w: nat): nat {
    (a + b) % Pow2(w)
  }

  // The three kinds of step.

  function AddNotShl(x: nat, k: nat, w: nat): nat {
    Plus(x, Not(Shl(x, k, w), w), w)
  }

  function AddShl(x: nat, k: nat, w: nat): nat {
    Plus(x, Shl(x, k, w), w)
  }

  function XorShr(x: nat, k: nat): nat {
    Xor(x, Shr(x, k))
  }

  datatype Step = AddNot(k: nat) | Add(k: nat) | XorDown(k: nat)

  function Apply(step: Step, x: nat, w: nat): nat {
    match step
    case AddNot(k) => AddNotShl(x, k, w)
    case Add(k) => AddShl(x, k, w)
    case XorDown(k) => XorShr(x, k)
  }

  function Mix(steps: seq<Step>, x: nat, w: nat): nat {
    if steps == [] then x else Mix(steps[1..], Apply(steps[0], x, w), w)
  }

  /** `IntHashImpl` on `ui32`. */
  function Hash32(key: nat): nat {
    Mix([AddNot(15), XorDown(10), Add(3), XorDown(6), AddNot(11), XorDown(16)], key, 32)
  }

  /** `IntHashImpl` on `ui64`. */
  function Hash64(key: nat): nat {
    Mix([AddNot(32), XorDown(22), AddNot(13), XorDown(8), Add(3), XorDown(15), AddNot(27), XorDown(31)], key, 64)
  }

  // ----- exclusive or -----

  lemma {:induction false} XorStep(a: nat, b: nat)
    ensures Xor(a, b) / 2 == Xor(a / 2, b / 2) && Xor(a, b) % 2 == (a % 2 + b % 2) % 2
  {
  }

  lemma {:induction false} XorZero()
    ensures Xor(0, 0) == 0
  {
  }

  lemma {:induction false} XorTwice(a: nat, b: nat)
    ensures Xor(Xor(a, b), b) == a
    decreases a + b
  {
    hide Xor;
    var x := Xor(a, b);
    XorStep(a, b);
    XorStep(x, b);
    if a + b > 0 {
      XorTwice(a / 2, b / 2);
    } else {
      XorZero();
    }
  }

  lemma {:induction false} XorCommutes(a: nat, b: nat)
    ensures Xor(a, b) == Xor(b, a)
    decreases a + b
  {
    if a + b > 0 {
      XorCommutes(a / 2, b / 2);
    }
  }

  lemma {:induction false} XorShift(a: nat, b: nat, k: nat)
    ensures Shr(Xor(a, b), k) == Xor(Shr(a, k), Shr(b, k))
  {
    hide Xor;
    if k > 0 {
      XorStep(a, b);
      XorShift(a / 2, b / 2, k - 1);
    }
  }

  lemma {:induction false} XorBound(a: nat, b: nat, w: nat)
    requires a < Pow2(w) && b < Pow2(w)
    ensures Xor(a, b) < Pow2(w)
  {
    if w > 0 {
      XorBound(a / 2, b / 2, w - 1);
    }
  }

  lemma {:induction false} ShrShrinks(x: nat, k: nat)
    ensures Shr(x, k) <= x && (x > 0 && k > 0 ==> Shr(x, k) < x)
  {
    if k > 0 {
      ShrShrinks(x / 2, k - 1);
    }
  }

  /** The exclusive or with itself shifted down loses nothing: the high bits give the rest. */
  lemma {:induction false} XorShrInjective(x: nat, y: nat, k: nat)
    requires k > 0 && XorShr(x, k) == XorShr(y, k)
    ensures x == y
    decreases x + y
  {
    hide Xor, Shr;
    ShrShrinks(x, k);
    ShrShrinks(y, k);
    if x + y > 0 {
      XorShift(x, Shr(x, k), k);
      XorShift(y, Shr(y, k), k);
      XorShrInjective(Shr(x, k), Shr(y, k), k);
      XorTwice(x, Shr(x, k));
      XorTwice(y, Shr(y, k));
    }
  }

  // ----- sums -----

  lemma {:induction false} Rearrange(c: int, p: int, h: int)
    ensures 2 * c * (p * h) == c * p * (2 * h)
  {
  }

  lemma {:induction false} Pow2Splits(j: nat, w: nat) returns (u: int)
    requires j <= w
    ensures Pow2(w) == u * Pow2(j)
  {
    if j == w {
      u := 1;
    } else {
      var v := Pow2Splits(j, w - 1);
      u := 2 * v;
    }
  }

  /** A number that is an even multiple of itself modulo 2^w is a multiple of 2^w: of 2^j for every j up to w. */
  lemma {:induction false} EvenMultiple(d: int, c: int, t: int, w: nat, j: nat) returns (q: int)
    requires d == 2 * c * d + t * Pow2(w) && j <= w
    ensures d == q * Pow2(j)
  {
    if j == 0 {
      q := d;
    } else {
      var p := EvenMultiple(d, c, t, w, j - 1);
      var half := Pow2(j - 1);
      var u := Pow2Splits(j, w);
      q := c * p + t * u;
      assert d == 2 * c * (p * half) + t * (u * Pow2(j));
      assert 2 * c * (p * half) == c * p * (2 * half) by {
        Rearrange(c, p, half);
      }
      assert t * (u * Pow2(j)) == t * u * Pow2(j);
      assert d == (c * p + t * u) * Pow2(j);
    }
  }

  lemma {:induction false} SmallMultiple(d: int, q: int, m: int)
    requires d == q * m && m > 0 && -m < d < m
    ensures d == 0
  {
    assert q > 0 ==> q * m >= m;
    assert q < 0 ==> q * m <= -m;
  }

  lemma {:induction false} Expand(a: int, b: int, m: int)
    ensures (1 + a - b) * m == m + a * m - b * m && (0 + a - b) * m == a * m - b * m
  {
  }

  /** The wrapped sums, as sums with a multiple of 2^w added. */
  lemma {:induction false} AddNotShlWraps(x: nat, k: nat, w: nat) returns (t: int)
    ensures AddNotShl(x, k, w) == x - x * Pow2(k) - 1 + t * Pow2(w)
  {
    var m, p := Pow2(w), x * Pow2(k);
    var sum := x + Not(p % m, w);
    assert p % m == p - p / m * m;
    assert sum % m == sum - sum / m * m;
    t := 1 + p / m - sum / m;
    Expand(p / m, sum / m, m);
  }

  lemma {:induction false} AddShlWraps(x: nat, k: nat, w: nat) returns (t: int)
    ensures AddShl(x, k, w) == x + x * Pow2(k) + t * Pow2(w)
  {
    var m, p := Pow2(w), x * Pow2(k);
    var sum := x + p % m;
    assert p % m == p - p / m * m;
    assert sum % m == sum - sum / m * m;
    t := 0 - p / m - sum / m;
    Expand(-(p / m), sum / m, m);
  }

  lemma {:induction false} NoDifference(x: nat, y: nat, c: int, t: int, w: nat)
    requires x < Pow2(w) && y < Pow2(w)
    requires x - y == 2 * c * (x - y) + t * Pow2(w)
    ensures x == y
  {
    hide Pow2;
    var q := EvenMultiple(x - y, c, t, w, w);
    SmallMultiple(x - y, q, Pow2(w));
  }

  lemma {:induction false} AddNotShlInjective(x: nat, y: nat, k: nat, w: nat)
    requires k > 0 && x < Pow2(w) && y < Pow2(w)
    requires AddNotShl(x, k, w) == AddNotShl(y, k, w)
    ensures x == y
  {
    hide AddNotShl;
    var t := AddNotShlWraps(x, k, w);
    var u := AddNotShlWraps(y, k, w);
    var p, m := Pow2(k), Pow2(w);
    NoDifference(x, y, Pow2(k - 1), u - t, w) by {
      assert (x - y) * p == x * p - y * p && (u - t) * m == u * m - t * m;
      assert 2 * Pow2(k - 1) * (x - y) == (x - y) * p;
    }
  }

  lemma {:induction false} AddShlInjective(x: nat, y: nat, k: nat, w: nat)
    requires k > 0 && x < Pow2(w) && y < Pow2(w)
    requires AddShl(x, k, w) == AddShl(y, k, w)
    ensures x == y
  {
    hide AddShl;
    var t := AddShlWraps(x, k, w);
    var u := AddShlWraps(y, k, w);
    var p, m := Pow2(k), Pow2(w);
    var c: int := Pow2(k - 1);
    NoDifference(x, y, -c, u - t, w) by {
      assert (x - y) * p == x * p - y * p && (u - t) * m == u * m - t * m;
      assert 2 * -c * (x - y) == -((x - y) * p);
    }
  }

  // ----- the hashes -----

  lemma {:induction false} ApplyInWord(step: Step, x: nat, w: nat)
    requires x < Pow2(w)
    ensures Apply(step, x, w) < Pow2(w)
  {
    hide Xor, Shr;
    ShrShrinks(x, step.k);
    XorBound(x, Shr(x, step.k), w);
  }

  lemma {:induction false} ApplyInjective(step: Step, x: nat, y: nat, w: nat)
    requires step.k > 0 && x < Pow2(w) && y < Pow2(w) && Apply(step, x, w) == Apply(step, y, w)
    ensures x == y
  {
    hide Pow2, AddNotShl, AddShl, XorShr;
    match step
    case AddNot(k) => AddNotShlInjective(x, y, k, w);
    case Add(k) => AddShlInjective(x, y, k, w);
    case XorDown(k) => XorShrInjective(x, y, k);
  }

  /** Any chain of such steps keeps different words of any width different, and stays inside the word. */
  lemma {:induction false} MixInjective(steps: seq<Step>, x: nat, y: nat, w: nat)
    requires forall i :: 0 <= i < |steps| ==> steps[i].k > 0
    requires x < Pow2(w) && y < Pow2(w)
    ensures Mix(steps, x, w) < Pow2(w)
    ensures Mix(steps, x, w) == Mix(steps, y, w) ==> x == y
  {
    hide Pow2, Apply;
    if steps != [] {
      var x', y' := Apply(steps[0], x, w), Apply(steps[0], y, w);
      ApplyInWord(steps[0], x, w);
      ApplyInWord(steps[0], y, w);
      MixInjective(steps[1..], x', y', w);
      if x' == y' {
        ApplyInjective(steps[0], x, y, w);
      }
    }
  }

  lemma {:induction false} Hash32Injective(x: nat, y: nat)
    requires x < Pow2(32) && y < Pow2(32)
    ensures Hash32(x) < Pow2(32)
    ensures Hash32(x) == Hash32(y) <==> x == y
  {
    hide Pow2, Mix;
    MixInjective([AddNot(15), XorDown(10), Add(3), XorDown(6), AddNot(11), XorDown(16)], x, y, 32);
  }

  lemma {:induction false} Hash64Injective(x: nat, y: nat)
    requires x < Pow2(64) && y < Pow2(64)
    ensures Hash64(x) < Pow2(64)
    ensures Hash64(x) == Hash64(y) <==> x == y
  {
    hide Pow2, Mix;
    MixInjective([AddNot(32), XorDown(22), AddNot(13), XorDown(8), Add(3), XorDown(15), AddNot(27), XorDown(31)], x, y, 64);
  }

  // ----- hashes of ranges -----

  /** `CombineHashes` on `size_t`. */
  function Combine(l: nat, r: nat): nat {
    Xor(Hash64(l), r)
  }

  lemma {:induction false} CombineInjective(l: nat, l': nat, r: nat, r': nat)
    requires l < Pow2(64) && l' < Pow2(64) && r < Pow2(64)
    ensures Combine(l, r) < Pow2(64)
    ensures Combine(l, r) == Combine(l', r) <==> l == l'
    ensures Combine(l, r) == Combine(l, r') <==> r == r'
  {
    hide Xor, Hash64, Pow2;
    Hash64Injective(l, l');
    XorBound(Hash64(l), r, 64);
    XorTwice(Hash64(l), r);
    XorTwice(Hash64(l'), r);
    XorCommutes(Hash64(l), r);
    XorCommutes(Hash64(l), r');
    XorTwice(r, Hash64(l));
    XorTwice(r', Hash64(l));
  }

  /** The hash of a range, from the hashes of its elements. */
  function RangeHash(hs: seq<nat>): nat {
    if hs == [] then 0 else Combine(RangeHash(hs[..|hs| - 1]), hs[|hs| - 1])
  }

  /** The loop of `TRangeHash`. */
  method HashRange<T>(range: seq<T>, elementHash: T -> nat) returns (accumulated: nat)
    ensures accumulated == RangeHash(seq(|range|, i requires 0 <= i < |range| => elementHash(range[i])))
  {
    hide Combine;
    accumulated := 0;
    ghost var hs := seq(|range|, i requires 0 <= i < |range| => elementHash(range[i]));
    for i := 0 to |range|
      invariant accumulated == RangeHash(hs[..i])
    {
      accumulated := Combine(accumulated, elementHash(range[i]));
      assert hs[..i + 1][..i] == hs[..i];
    }
    assert hs[..|range|] == hs;
  }

  predicate Words(hs: seq<nat>) {
    forall i :: 0 <= i < |hs| ==> hs[i] < Pow2(64)
  }

  lemma {:induction false} RangeHashIsWord(hs: seq<nat>)
    requires Words(hs)
    ensures RangeHash(hs) < Pow2(64)
  {
    hide Combine, Pow2;
    if hs == [] {
      assert Pow2(64) > 0;
    } else {
      RangeHashIsWord(hs[..|hs| - 1]);
      var h := RangeHash(hs[..|hs| - 1]);
      CombineInjective(h, h, hs[|hs| - 1], 0);
    }
  }

  /** The hashes of two ranges of one length that differ in at most one element hash are equal only if all are. */
  lemma {:induction false} OneChangeShows(a: seq<nat>, b: seq<nat>, k: nat)
    requires Words(a) && Words(b) && |a| == |b| && k < |a|
    requires forall i :: 0 <= i < |a| && i != k ==> a[i] == b[i]
    ensures RangeHash(a) == RangeHash(b) <==> a == b
  {
    hide Combine, Pow2;
    var n := |a| - 1;
    var ha, hb := RangeHash(a[..n]), RangeHash(b[..n]);
    RangeHashIsWord(a[..n]);
    RangeHashIsWord(b[..n]);
    CombineInjective(ha, hb, a[n], b[n]);
    assert a == a[..n] + [a[n]] && b == b[..n] + [b[n]];
    if k == n {
      assert a[..n] == b[..n];
    } else {
      OneChangeShows(a[..n], b[..n], k);
    }
  }
}
