/** Machine integers and their saturating operations, as Rust's unsigned types have them. */
module Machine {
  const U8_MAX: nat := 0xFF
  const U16_MAX: nat := 0xFFFF
  const U32_MAX: nat := 0xFFFF_FFFF
  const U64_MAX: nat := 0xFFFF_FFFF_FFFF_FFFF

  type byte = x: nat | x <= U8_MAX
  type u16 = x: nat | x <= U16_MAX
  type u32 = x: nat | x <= U32_MAX
  type u64 = x: nat | x <= U64_MAX

  type Bytes = seq<byte>

  datatype Option<+T> = None | Some(value: T)

  function Min(a: int, b: int): int {
    if a <= b then a else b
  }

  function Max(a: int, b: int): int {
    if a <= b then b else a
  }

  /** `a.saturating_sub(b)` for every unsigned width. */
  function SatSub(a: nat, b: nat): nat {
    if a < b then 0 else a - b
  }

  /** `a.saturating_add(b)` for the unsigned type whose largest value is `max`. */
  function SatAdd(a: nat, b: nat, max: nat): nat {
    Min(a + b, max)
  }
}

/** Fixed-width big-endian integers (`to_be_bytes` / `from_be_bytes`). */
module BigEndian {
  import opened Machine

  function Pow256(k: nat): (p: nat)
    ensures p > 0
  {
    if k == 0 then 1 else 256 * Pow256(k - 1)
  }

  /** The low `k` bytes of `v`, most significant first. */
  function Be(v: nat, k: nat): (s: Bytes)
    ensures |s| == k
  {
    if k == 0 then [] else Be(v / 256, k - 1) + [v % 256]
  }

  function FromBe(s: Bytes): nat {
    if s == [] then 0 else FromBe(s[..|s| - 1]) * 256 + s[|s| - 1]
  }

  lemma {:induction false} FromBeOfBe(v: nat, k: nat)
    requires v < Pow256(k)
    ensures FromBe(Be(v, k)) == v
  {
    if k > 0 {
      FromBeOfBe(v / 256, k - 1);
      assert Be(v, k)[..k - 1] == Be(v / 256, k - 1);
    }
  }

  lemma {:induction false} BeOfFromBe(s: Bytes)
    ensures FromBe(s) < Pow256(|s|)
    ensures Be(FromBe(s), |s|) == s
  {
    if s != [] {
      var front, last := s[..|s| - 1], s[|s| - 1];
      BeOfFromBe(front);
      assert FromBe(s) / 256 == FromBe(front) && FromBe(s) % 256 == last;
      assert front + [last] == s;
    }
  }

  lemma {:induction false} BeInjective(v: nat, w: nat, k: nat)
    requires v < Pow256(k) && w < Pow256(k)
    requires Be(v, k) == Be(w, k)
    ensures v == w
  {
    FromBeOfBe(v, k);
    FromBeOfBe(w, k);
  }

  /** The widths used on the wire hold exactly the Rust types of that size. */
  lemma {:induction false} Widths()
    ensures Pow256(1) == U8_MAX + 1
    ensures Pow256(2) == U16_MAX + 1
    ensures Pow256(4) == U32_MAX + 1
    ensures Pow256(8) == U64_MAX + 1
  {
    assert Pow256(2) == 256 * Pow256(1);
    assert Pow256(3) == 256 * Pow256(2);
    assert Pow256(4) == 256 * Pow256(3);
    assert Pow256(5) == 256 * Pow256(4);
    assert Pow256(6) == 256 * Pow256(5);
    assert Pow256(7) == 256 * Pow256(6);
  }
}

/** Iteration in key order, as a `BTreeMap` or `BTreeSet` gives it. */
module Ordered {

  ghost predicate StrictTotal<K(!new)>(less: (K, K) -> bool) {
    && (forall x :: !less(x, x))
    && (forall x, y, z :: less(x, y) && less(y, z) ==> less(x, z))
    && (forall x, y :: x == y || less(x, y) || less(y, x))
  }

  ghost predicate Ascending<K>(s: seq<K>, less: (K, K) -> bool) {
    forall i, j :: 0 <= i < j < |s| ==> less(s[i], s[j])
  }

  ghost function Elements<K>(s: seq<K>): set<K> {
    set x | x in s
  }

  predicate IsLeast<K(==)>(k: K, s: set<K>, less: (K, K) -> bool) {
    k in s && forall x | x in s :: x == k || less(k, x)
  }

  lemma {:induction false} LeastExists<K(!new)>(s: set<K>, less: (K, K) -> bool)
    requires StrictTotal(less) && s != {}
    ensures exists k :: IsLeast(k, s, less)
  {
    var x :| x in s;
    if s == {x} {
      assert IsLeast(x, s, less);
    } else {
      var rest := s - {x};
      assert s == rest + {x};
      LeastExists(rest, less);
      var k :| IsLeast(k, rest, less);
      if less(x, k) {
        assert IsLeast(x, s, less);
      } else {
        assert IsLeast(k, s, less);
      }
    }
  }

  function Least<K(!new, ==)>(s: set<K>, less: (K, K) -> bool): (k: K)
    requires StrictTotal(less) && s != {}
    ensures IsLeast(k, s, less)
  {
    LeastExists(s, less);
    var k :| IsLeast(k, s, less);
    k
  }

  /** The elements of `s` in ascending order. */
  function InOrder<K(!new, ==)>(s: set<K>, less: (K, K) -> bool): (r: seq<K>)
    requires StrictTotal(less)
    ensures |r| == |s|
    ensures forall x :: x in r <==> x in s
    ensures Ascending(r, less)
  {
    if s == {} then [] else
      var k := Least(s, less);
      var rest := InOrder(s - {k}, less);
      assert forall x :: x in [k] + rest <==> x in s;
      [k] + rest
  }

  /** An ascending sequence is determined by its elements. */
  lemma {:induction false} InOrderUnique<K(!new)>(r: seq<K>, s: set<K>, less: (K, K) -> bool)
    requires StrictTotal(less) && Ascending(r, less)
    requires forall x :: x in r <==> x in s
    ensures r == InOrder(s, less)
  {
    if r == [] {
      assert s == {};
    } else {
      assert r[0] in s;
      var k := Least(s, less);
      var i :| 0 <= i < |r| && r[i] == k;
      assert i == 0;
      var tail := r[1..];
      assert forall x :: x in tail <==> x in s - {k};
      InOrderUnique(tail, s - {k}, less);
      assert r == [k] + tail;
    }
  }

  lemma {:induction false} SubsetSize<K>(a: set<K>, b: set<K>)
    requires a <= b
    ensures |a| <= |b|
  {
    assert b == a + (b - a);
  }

  /** Collects a set in ascending order. */
  method Sort<K(!new, ==)>(s: set<K>, less: (K, K) -> bool) returns (r: seq<K>)
    requires StrictTotal(less)
    ensures r == InOrder(s, less)
  {
    r := [];
    var todo := s;
    while todo != {}
      invariant todo <= s
      invariant forall x :: x in r <==> x in s && x !in todo
      invariant forall x, y :: x in r && y in todo ==> less(x, y)
      invariant Ascending(r, less)
      decreases todo
    {
      var k :| k in todo;
      var rest := todo - {k};
      while rest != {}
        invariant rest <= todo && k in todo
        invariant forall x :: x in todo && x !in rest ==> x == k || less(k, x)
        decreases rest
      {
        var c :| c in rest;
        if less(c, k) {
          k := c;
        }
        rest := rest - {c};
      }
      r := r + [k];
      todo := todo - {k};
    }
    InOrderUnique(r, s, less);
  }

  predicate NatLess(a: nat, b: nat) {
    a < b
  }

  /** Byte-wise lexicographic order, as `str` and `[u8]` compare. */
  predicate TextLess(a: string, b: string) {
    if b == [] then false
    else if a == [] then true
    else a[0] < b[0] || (a[0] == b[0] && TextLess(a[1..], b[1..]))
  }

  /** The strings agree up to `i`, where the first is smaller. */
  ghost predicate SmallerAt(a: string, b: string, i: nat) {
    i < |a| && i < |b| && a[..i] == b[..i] && a[i] < b[i]
  }

  lemma {:induction false} SmallerAtTail(a: string, b: string, i: nat)
    requires a != [] && b != [] && a[0] == b[0]
    ensures SmallerAt(a, b, i + 1) <==> SmallerAt(a[1..], b[1..], i)
  {
    if i < |a| - 1 && i < |b| - 1 {
      assert a[..i + 1] == [a[0]] + a[1..][..i] && b[..i + 1] == [b[0]] + b[1..][..i];
      assert a[1..][..i] == a[..i + 1][1..] && b[1..][..i] == b[..i + 1][1..];
    }
  }

  lemma {:induction false} PrefixTail(a: string, b: string)
    requires a != [] && b != [] && a[0] == b[0]
    ensures a < b <==> a[1..] < b[1..]
  {
    assert a == [a[0]] + a[1..] && b == [b[0]] + b[1..];
  }

  /** Shorter by being a proper prefix, or smaller at the first difference. */
  lemma {:induction false} TextLessIff(a: string, b: string)
    ensures TextLess(a, b) <==> a < b || exists i: nat :: SmallerAt(a, b, i)
  {
    if a != [] && b != [] {
      assert SmallerAt(a, b, 0) <==> a[0] < b[0] by {
        assert a[..0] == b[..0];
      }
      if a[0] == b[0] {
        hide SmallerAt;
        var a', b' := a[1..], b[1..];
        TextLessIff(a', b');
        PrefixTail(a, b);
        forall i: nat ensures SmallerAt(a, b, i + 1) <==> SmallerAt(a', b', i) {
          SmallerAtTail(a, b, i);
        }
        if i: nat :| SmallerAt(a, b, i) && i > 0 {
          assert SmallerAt(a', b', i - 1);
        }
        if i: nat :| SmallerAt(a', b', i) {
          assert SmallerAt(a, b, i + 1);
        }
      } else {
        OnlyFirst(a, b);
      }
    }
  }

  lemma {:induction false} OnlyFirst(a: string, b: string)
    requires a != [] && b != [] && a[0] != b[0]
    ensures !(a < b) && forall i: nat :: SmallerAt(a, b, i) ==> i == 0
  {
    forall i: nat | 0 < i < |a| && i < |b| ensures a[..i] != b[..i] {
      assert a[..i][0] == a[0] && b[..i][0] == b[0];
    }
  }

  lemma {:induction false} TextLessTotal(a: string, b: string)
    ensures a == b || TextLess(a, b) || TextLess(b, a)
    ensures !(TextLess(a, b) && TextLess(b, a))
    ensures !TextLess(a, a)
  {
    if a != [] {
      TextLessTotal(a[1..], a[1..]);
    }
    if a != [] && b != [] && a[0] == b[0] {
      TextLessTotal(a[1..], b[1..]);
      if a[1..] == b[1..] {
        assert a == [a[0]] + a[1..] && b == [b[0]] + b[1..];
      }
    }
  }

  lemma {:induction false} TextLessTransitive(a: string, b: string, c: string)
    requires TextLess(a, b) && TextLess(b, c)
    ensures TextLess(a, c)
  {
    if a != [] && a[0] == b[0] == c[0] {
      TextLessTransitive(a[1..], b[1..], c[1..]);
    }
  }

  lemma {:induction false} NatOrder()
    ensures StrictTotal(NatLess)
  {
  }

  /** Lexicographic order on pairs of numbers. */
  predicate PairLess(a: (nat, nat), b: (nat, nat)) {
    a.0 < b.0 || (a.0 == b.0 && a.1 < b.1)
  }

  lemma {:induction false} PairOrder()
    ensures StrictTotal(PairLess)
  {
  }

  lemma {:induction false} TextOrder()
    ensures StrictTotal(TextLess)
  {
    forall a, b {
      TextLessTotal(a, b);
    }
    forall a, b, c | TextLess(a, b) && TextLess(b, c) ensures TextLess(a, c) {
      TextLessTransitive(a, b, c);
    }
  }
}

/** Sums over finite maps, and how one update moves them. */
module Sums {

  ghost function Sum<K, V>(m: map<K, V>, f: (K, V) -> nat): nat {
    if m == map[] then 0 else
      var k :| k in m;
      f(k, m[k]) + Sum(m - {k}, f)
  }

  lemma {:induction false} SumEmpty<K, V>(f: (K, V) -> nat)
    ensures Sum(map[], f) == 0
  {
  }

  lemma {:induction false} SumRemove<K, V>(m: map<K, V>, k: K, f: (K, V) -> nat)
    requires k in m
    ensures Sum(m, f) == f(k, m[k]) + Sum(m - {k}, f)
    decreases |m|
  {
    var p :| p in m && Sum(m, f) == f(p, m[p]) + Sum(m - {p}, f);
    if p != k {
      SumRemove(m - {p}, k, f);
      SumRemove(m - {k}, p, f);
      assert m - {p} - {k} == m - {k} - {p};
    }
  }

  lemma {:induction false} SumPut<K, V>(m: map<K, V>, k: K, v: V, f: (K, V) -> nat)
    ensures Sum(m[k := v], f) == f(k, v) + Sum(m - {k}, f)
    ensures k !in m ==> Sum(m[k := v], f) == f(k, v) + Sum(m, f)
    ensures k in m ==> Sum(m[k := v], f) + f(k, m[k]) == Sum(m, f) + f(k, v)
  {
    SumRemove(m[k := v], k, f);
    assert m[k := v] - {k} == m - {k};
    if k in m {
      SumRemove(m, k, f);
    } else {
      assert m - {k} == m;
    }
  }

  /** Every entry is within the sum. */
  lemma {:induction false} SumEntry<K, V>(m: map<K, V>, k: K, f: (K, V) -> nat)
    requires k in m
    ensures f(k, m[k]) <= Sum(m, f)
  {
    SumRemove(m, k, f);
  }
}
