/** Bytes, fixed-width integers in both byte orders, and byte-string order. */
module Bytes {

  type Byte = x: int | 0 <= x < 256

  /** The values a `k`-byte field can hold are `0 .. Pow256(k)`. */
  function Pow256(k: nat): (p: nat)
    ensures p > 0
  {
    if k == 0 then 1 else 256 * Pow256(k - 1)
  }

  lemma PowValues()
    ensures Pow256(1) == 0x100
    ensures Pow256(2) == 0x1_0000
    ensures Pow256(4) == 0x1_0000_0000
    ensures Pow256(8) == 0x1_0000_0000_0000_0000
  {
    assert Pow256(1) == 256 * Pow256(0);
    assert Pow256(2) == 256 * Pow256(1);
    assert Pow256(3) == 256 * Pow256(2);
    assert Pow256(4) == 256 * Pow256(3);
    assert Pow256(5) == 256 * Pow256(4);
    assert Pow256(6) == 256 * Pow256(5);
    assert Pow256(7) == 256 * Pow256(6);
    assert Pow256(8) == 256 * Pow256(7);
  }

  /** `n` in `k` bytes, least significant first; higher bits are dropped, as by an `as` cast. */
  function Le(n: nat, k: nat): (s: seq<Byte>)
    ensures |s| == k
  {
    if k == 0 then [] else [n % 256] + Le(n / 256, k - 1)
  }

  function FromLe(s: seq<Byte>): nat {
    if s == [] then 0 else s[0] + 256 * FromLe(s[1..])
  }

  /** `n` in `k` bytes, most significant first. */
  function Be(n: nat, k: nat): (s: seq<Byte>)
    ensures |s| == k
  {
    if k == 0 then [] else Be(n / 256, k - 1) + [n % 256]
  }

  function FromBe(s: seq<Byte>): nat {
    if s == [] then 0 else 256 * FromBe(s[..|s| - 1]) + s[|s| - 1]
  }

  lemma {:induction false} LeRoundTrip(n: nat, k: nat)
    requires n < Pow256(k)
    ensures FromLe(Le(n, k)) == n
  {
    if k > 0 {
      LeRoundTrip(n / 256, k - 1);
      assert Le(n, k)[1..] == Le(n / 256, k - 1);
    }
  }

  lemma {:induction false} LeInverse(s: seq<Byte>)
    ensures Le(FromLe(s), |s|) == s
  {
    if s != [] { LeInverse(s[1..]); }
  }

  lemma {:induction false} BeRoundTrip(n: nat, k: nat)
    requires n < Pow256(k)
    ensures FromBe(Be(n, k)) == n
  {
    if k > 0 {
      BeRoundTrip(n / 256, k - 1);
      assert Be(n, k)[..k - 1] == Be(n / 256, k - 1);
    }
  }

  /** The order in which byte slices compare. */
  predicate LexLess(a: seq<Byte>, b: seq<Byte>) {
    b != [] && (a == [] || a[0] < b[0] || (a[0] == b[0] && LexLess(a[1..], b[1..])))
  }

  /** Neither string is a proper prefix of the other. */
  predicate PrefixFree(a: seq<Byte>, b: seq<Byte>) {
    (a <= b || b <= a) ==> a == b
  }

  lemma {:induction false} LexIrreflexive(a: seq<Byte>)
    ensures !LexLess(a, a)
  {
    if a != [] { LexIrreflexive(a[1..]); }
  }

  lemma {:induction false} LexAsymmetric(a: seq<Byte>, b: seq<Byte>)
    ensures !(LexLess(a, b) && LexLess(b, a))
  {
    if a != [] && b != [] && a[0] == b[0] { LexAsymmetric(a[1..], b[1..]); }
  }

  lemma {:induction false} LexTotal(a: seq<Byte>, b: seq<Byte>)
    requires !LexLess(a, b) && a != b
    ensures LexLess(b, a)
  {
    if a != [] && b != [] && a[0] == b[0] {
      assert a == [a[0]] + a[1..] && b == [b[0]] + b[1..];
      LexTotal(a[1..], b[1..]);
    }
  }

  /** Between prefix-free heads the heads decide; equal heads leave it to the tails. */
  lemma {:induction false} LexConcat(x: seq<Byte>, y: seq<Byte>, u: seq<Byte>, v: seq<Byte>)
    requires PrefixFree(x, y)
    ensures LexLess(x + u, y + v) <==> LexLess(x, y) || (x == y && LexLess(u, v))
  {
    if x == [] || y == [] {
      assert x <= y || y <= x;
      assert x + u == u && y + v == v;
    } else if x[0] == y[0] {
      assert x == [x[0]] + x[1..] && y == [y[0]] + y[1..];
      LexConcat(x[1..], y[1..], u, v);
      assert (x + u)[1..] == x[1..] + u && (y + v)[1..] == y[1..] + v;
    }
  }

  /** Big-endian strings of one width sort as the numbers they encode. */
  lemma {:induction false} BeOrder(m: nat, n: nat, k: nat)
    requires m < Pow256(k) && n < Pow256(k)
    ensures LexLess(Be(m, k), Be(n, k)) <==> m < n
    ensures Be(m, k) == Be(n, k) <==> m == n
  {
    if k > 0 {
      var a, b := Be(m / 256, k - 1), Be(n / 256, k - 1);
      BeOrder(m / 256, n / 256, k - 1);
      LexConcat(a, b, [m % 256], [n % 256]);
      assert Be(m, k)[..k - 1] == a && Be(n, k)[..k - 1] == b;
      assert Be(m, k)[k - 1] == m % 256 && Be(n, k)[k - 1] == n % 256;
    }
  }

  // ----- fields of a buffer -----

  /** `bytes` written over `d` at `off`. */
  function Splice(d: seq<Byte>, off: nat, bytes: seq<Byte>): (s: seq<Byte>)
    requires off + |bytes| <= |d|
    ensures |s| == |d|
  {
    d[..off] + bytes + d[off + |bytes|..]
  }

  lemma SpliceAt(d: seq<Byte>, off: nat, bytes: seq<Byte>)
    requires off + |bytes| <= |d|
    ensures Splice(d, off, bytes)[off..off + |bytes|] == bytes
  {
  }

  lemma SpliceApart(d: seq<Byte>, off: nat, bytes: seq<Byte>, a: nat, b: nat)
    requires off + |bytes| <= |d| && a <= b <= |d| && (b <= off || off + |bytes| <= a)
    ensures Splice(d, off, bytes)[a..b] == d[a..b]
  {
  }

  /** A little-endian field of `k` bytes. */
  function Field(d: seq<Byte>, off: nat, k: nat): nat
    requires off + k <= |d|
  {
    FromLe(d[off..off + k])
  }

  lemma FieldWritten(d: seq<Byte>, off: nat, n: nat, k: nat)
    requires off + k <= |d| && n < Pow256(k)
    ensures Field(Splice(d, off, Le(n, k)), off, k) == n
  {
    SpliceAt(d, off, Le(n, k));
    LeRoundTrip(n, k);
  }

  lemma {:induction false} FromLeBound(s: seq<Byte>)
    ensures FromLe(s) < Pow256(|s|)
  {
    if s != [] { FromLeBound(s[1..]); }
  }

  lemma FieldBound(d: seq<Byte>, off: nat, k: nat)
    requires off + k <= |d|
    ensures Field(d, off, k) < Pow256(k)
  {
    FromLeBound(d[off..off + k]);
  }
}
