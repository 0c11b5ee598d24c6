/** Fixed-width integers, byte strings and their lexicographic order. */
module Bytes {
  const U32_LIMIT: int := 0x1_0000_0000
  const U64_LIMIT: int := 0x1_0000_0000_0000_0000

  type byte = x: int | 0 <= x < 256
  type u32 = x: int | 0 <= x < U32_LIMIT
  type u64 = x: int | 0 <= x < U64_LIMIT

  type Bytes = seq<byte>
  type Bytes32 = b: Bytes | |b| == 32 witness seq(32, _ => 0)
  type Bytes64 = b: Bytes | |b| == 64 witness seq(64, _ => 0)

  // ---------- little-endian integers ----------

  function Pow256(w: nat): (p: nat)
    ensures 0 < p
  {
    if w == 0 then 1 else 256 * Pow256(w - 1)
  }

  function Le(n: nat, w: nat): (b: Bytes)
    ensures |b| == w
  {
    if w == 0 then [] else [n % 256] + Le(n / 256, w - 1)
  }

  function FromLe(b: Bytes): (n: nat)
    ensures n < Pow256(|b|)
  {
    if b == [] then 0 else b[0] + 256 * FromLe(b[1..])
  }

  lemma {:induction false} LeRoundTrip(n: nat, w: nat)
    requires n < Pow256(w)
    ensures FromLe(Le(n, w)) == n
  {
    if w == 0 {
    } else {
      LeRoundTrip(n / 256, w - 1);
      assert Le(n, w)[1..] == Le(n / 256, w - 1);
    }
  }

  lemma Widths()
    ensures Pow256(4) == U32_LIMIT
    ensures Pow256(8) == U64_LIMIT
  {
    assert Pow256(2) == 0x1_0000;
    assert Pow256(4) == 0x1_0000_0000;
    assert Pow256(6) == 0x1_0000_0000_0000;
  }

  // ---------- division ----------

  lemma NextMultiple(k: nat, q: nat, d: nat)
    requires k < q
    ensures q * d >= k * d + d
  {
    assert q * d == k * d + (q - k) * d;
    assert (q - k) * d == d + (q - k - 1) * d;
  }

  lemma Quotient(n: nat, d: nat, q: nat, r: nat)
    requires r < d && n == q * d + r
    ensures n / d == q
  {
    var k, m := n / d, n % d;
    assert n == k * d + m;
    if k < q {
      NextMultiple(k, q, d);
    } else if q < k {
      NextMultiple(q, k, d);
    }
  }

  lemma DivideTwice(n: nat, p: nat)
    requires p > 0
    ensures n / 256 / p == n / (256 * p)
  {
    var m := n / 256;
    var q, r := m / p, m % p;
    assert m == q * p + r;
    var low := 256 * r + n % 256;
    assert n == q * (256 * p) + low by {
      assert n == 256 * m + n % 256;
      assert 256 * (q * p) == q * (256 * p);
    }
    Quotient(n, 256 * p, q, low);
  }

  lemma DivideTen(n: nat, p: nat)
    requires p > 0
    ensures n / 10 / p == n / (10 * p)
  {
    var m := n / 10;
    var q, r := m / p, m % p;
    assert m == q * p + r;
    var low := 10 * r + n % 10;
    assert n == q * (10 * p) + low by {
      assert n == 10 * m + n % 10;
      assert 10 * (q * p) == q * (10 * p);
    }
    Quotient(n, 10 * p, q, low);
  }

  // ---------- concatenation ----------

  lemma Assoc(a: Bytes, b: Bytes, c: Bytes)
    ensures (a + b) + c == a + (b + c)
  {
  }

  lemma SplitAt(a: Bytes, b: Bytes)
    ensures (a + b)[..|a|] == a && (a + b)[|a|..] == b
  {
  }

  // Two concatenations that agree, with first parts of equal length, agree part by part.
  lemma SameSplit(a: Bytes, x: Bytes, b: Bytes, y: Bytes)
    requires |a| == |b| && a + x == b + y
    ensures a == b && x == y
  {
    SplitAt(a, x);
    SplitAt(b, y);
  }

  predicate HasPrefix(prefix: Bytes, b: Bytes) {
    |prefix| <= |b| && b[..|prefix|] == prefix
  }

  // ---------- lexicographic order ----------

  predicate LexLt(a: Bytes, b: Bytes) {
    b != [] && (a == [] || a[0] < b[0] || (a[0] == b[0] && LexLt(a[1..], b[1..])))
  }

  lemma {:induction false} LexTrichotomy(a: Bytes, b: Bytes)
    ensures LexLt(a, b) || a == b || LexLt(b, a)
    ensures !(LexLt(a, b) && LexLt(b, a))
    ensures !LexLt(a, a)
  {
    if a == [] || b == [] {
    } else {
      LexTrichotomy(a[1..], b[1..]);
      assert a == [a[0]] + a[1..] && b == [b[0]] + b[1..];
    }
    LexIrreflexive(a);
  }

  lemma {:induction false} LexIrreflexive(a: Bytes)
    ensures !LexLt(a, a)
  {
    if a != [] {
      LexIrreflexive(a[1..]);
    }
  }

  lemma {:induction false} LexTransitive(a: Bytes, b: Bytes, c: Bytes)
    requires LexLt(a, b) && LexLt(b, c)
    ensures LexLt(a, c)
  {
    if a != [] && a[0] == b[0] && b[0] == c[0] {
      LexTransitive(a[1..], b[1..], c[1..]);
    }
  }

  // Fields of equal width compare first, then what follows them.
  lemma {:induction false} LexConcat(a: Bytes, x: Bytes, b: Bytes, y: Bytes)
    requires |a| == |b|
    ensures LexLt(a + x, b + y) <==> LexLt(a, b) || (a == b && LexLt(x, y))
  {
    if a == [] {
      assert a + x == x && b + y == y;
    } else {
      LexConcat(a[1..], x, b[1..], y);
      assert (a + x)[1..] == a[1..] + x && (b + y)[1..] == b[1..] + y;
      assert a == [a[0]] + a[1..] && b == [b[0]] + b[1..];
    }
  }

  // ---------- sets of keys in order ----------

  ghost predicate IsMin(k: Bytes, s: set<Bytes>) {
    k in s && forall x | x in s :: x == k || LexLt(k, x)
  }

  lemma {:induction false} MinExists(s: set<Bytes>)
    requires s != {}
    ensures exists k :: IsMin(k, s)
    decreases |s|
  {
    var x :| x in s;
    var rest := s - {x};
    if rest == {} {
      assert s == {x};
      assert IsMin(x, s);
    } else {
      MinExists(rest);
      var k :| IsMin(k, rest);
      LexTrichotomy(k, x);
      if LexLt(k, x) {
        assert IsMin(k, s);
      } else {
        forall y | y in s ensures y == x || LexLt(x, y) {
          if y != x && y != k {
            LexTransitive(x, k, y);
          }
        }
        assert IsMin(x, s);
      }
    }
  }

  lemma MinUnique(k: Bytes, l: Bytes, s: set<Bytes>)
    requires IsMin(k, s) && IsMin(l, s)
    ensures k == l
  {
    LexTrichotomy(k, l);
  }

  function Min(s: set<Bytes>): (k: Bytes)
    requires s != {}
    ensures IsMin(k, s)
  {
    MinExists(s);
    assert forall a, b | IsMin(a, s) && IsMin(b, s) :: a == b by {
      forall a, b | IsMin(a, s) && IsMin(b, s) ensures a == b {
        MinUnique(a, b, s);
      }
    }
    assert forall a :: a in s && (forall x | x in s :: x == a || LexLt(a, x)) ==> IsMin(a, s);
    var k: Bytes :| k in s && forall x | x in s :: x == k || LexLt(k, x);
    k
  }

  // The keys of an ordered tree, in ascending order.
  function Sorted(s: set<Bytes>): (keys: seq<Bytes>)
    decreases |s|
  {
    if s == {} then [] else [Min(s)] + Sorted(s - {Min(s)})
  }

  ghost predicate Ascending(keys: seq<Bytes>) {
    forall i, j | 0 <= i < j < |keys| :: LexLt(keys[i], keys[j])
  }

  lemma {:induction false} SortedEnumerates(s: set<Bytes>)
    ensures Ascending(Sorted(s))
    ensures forall k :: k in Sorted(s) <==> k in s
    ensures |Sorted(s)| == |s|
    decreases |s|
  {
    if s != {} {
      var first, rest := Min(s), s - {Min(s)};
      SortedEnumerates(rest);
      assert Sorted(s) == [first] + Sorted(rest);
      forall j | 0 < j < |Sorted(s)| ensures LexLt(first, Sorted(s)[j]) {
        assert Sorted(s)[j] == Sorted(rest)[j - 1];
        assert Sorted(rest)[j - 1] in Sorted(rest);
      }
    }
  }
}
