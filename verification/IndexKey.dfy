/** Index keys: byte strings that sort as (values, rowid) and mark where each value ends. */
module IndexKey {
  import opened Bytes
  import opened Values
  import opened Store

  // ----- one value -----

  /** Big-endian two's complement with the sign bit flipped. */
  function SortableInteger(i: Int64): (s: seq<Byte>)
    ensures |s| == 8
  {
    var be := Be(Unsigned(i), 8);
    [(be[0] as int + 0x80) % 0x100] + be[1..]
  }

  /** Negative reals have all bits flipped, the others the sign bit. */
  function SortableReal(bits: Word64): (s: seq<Byte>)
    ensures |s| == 8
  {
    Be(if bits >= TWO_63 then TWO_64 - 1 - bits else bits + TWO_63, 8)
  }

  predicate NulFree(s: seq<Byte>) {
    0 !in s
  }

  /** Cross-type pairs that the source converts between integer and floating point. */
  predicate Converted(t: Type, v: Value) {
    (t.IntegerType? && v.Real?) || (t.RealType? && v.Integer?)
  }

  /** Null and types that are not indexable have no encoding. */
  function ValuePrefix(t: Type, v: Value): Option<seq<Byte>>
    requires !Converted(t, v)
  {
    match (t, v)
    case (IntegerType, Integer(i)) => Some(SortableInteger(i))
    case (RealType, Real(bits)) => Some(SortableReal(bits))
    case (TextType, Text(s)) => Some(s + [0])
    case _ => None
  }

  /** A value that has an encoding, text free of the terminator. */
  predicate Indexable(t: Type, v: Value) {
    match (t, v)
    case (IntegerType, Integer(_)) => true
    case (RealType, Real(_)) => true
    case (TextType, Text(s)) => NulFree(s)
    case _ => false
  }

  lemma {:induction false} BeTop(n: nat, k: nat)
    requires k > 0 && n < Pow256(k)
    ensures n / Pow256(k - 1) < 256
    ensures Be(n, k) == [n / Pow256(k - 1)] + Be(n % Pow256(k - 1), k - 1)
  {
    if k == 1 {
      assert Be(n, 1) == Be(n / 256, 0) + [n % 256];
    } else {
      var p := Pow256(k - 2);
      BeTop(n / 256, k - 1);
      DivMod(n, p);
      assert Be(n % (256 * p), k - 1) == Be(n % (256 * p) / 256, k - 2) + [n % (256 * p) % 256];
    }
  }

  /** Taking off the low byte commutes with taking off the high one. */
  lemma DivMod(n: nat, p: nat)
    requires p > 0
    ensures n / (256 * p) == n / 256 / p
    ensures n % (256 * p) / 256 == n / 256 % p
    ensures n % (256 * p) % 256 == n % 256
  {
    var q, r, b := n / 256 / p, n / 256 % p, n % 256;
    assert n / 256 == p * q + r;
    assert n == 256 * (p * q + r) + b;
    var m, rest := 256 * p, 256 * r + b;
    assert n == m * q + rest by { assert m * q == 256 * (p * q); }
    QuotientUnique(n, m, q, rest);
  }

  lemma QuotientUnique(n: nat, m: nat, q: nat, rest: nat)
    requires n == m * q + rest && rest < m
    ensures n / m == q && n % m == rest
  {
    var d := n / m - q;
    assert m * d == rest - n % m by { assert n == m * (n / m) + n % m; assert m * (n / m) - m * q == m * d; }
    ProductSign(m, d);
  }

  lemma ProductSign(m: int, d: int)
    requires m >= 0
    ensures d >= 1 ==> m * d >= m
    ensures d <= -1 ==> m * d <= -m
  {
  }

  /** The integer encoding is the number shifted up by 2^63. */
  lemma SortableIntegerValue(i: Int64)
    ensures SortableInteger(i) == Be(i + TWO_63, 8)
  {
    TopFlipped(Unsigned(i), i + TWO_63);
  }

  lemma TopFlipped(n: nat, m: nat)
    requires n < TWO_64 && m == if n < TWO_63 then n + TWO_63 else n - TWO_63
    ensures [(Be(n, 8)[0] as int + 0x80) % 0x100] + Be(n, 8)[1..] == Be(m, 8)
  {
    PowValues();
    assert Pow256(7) == 0x100_0000_0000_0000 by { assert Pow256(8) == 256 * Pow256(7); }
    BeTop(n, 8);
    BeTop(m, 8);
    TopByte(n, m);
  }

  /** Adding or taking 2^63 changes the top byte alone. */
  lemma TopByte(n: nat, m: nat)
    requires n < TWO_64 && m == if n < TWO_63 then n + TWO_63 else n - TWO_63
    ensures m % 0x100_0000_0000_0000 == n % 0x100_0000_0000_0000
    ensures m / 0x100_0000_0000_0000 == (n / 0x100_0000_0000_0000 + 128) % 256
  {
  }

  lemma {:induction false} TextOrder(s: seq<Byte>, u: seq<Byte>)
    requires NulFree(s) && NulFree(u)
    ensures PrefixFree(s + [0], u + [0])
    ensures LexLess(s + [0], u + [0]) <==> LexLess(s, u)
    ensures s + [0] == u + [0] <==> s == u
  {
    if s != [] && u != [] && s[0] == u[0] {
      TextOrder(s[1..], u[1..]);
      TailsOf(s, [0]);
      TailsOf(u, [0]);
      assert s == [s[0]] + s[1..] && u == [u[0]] + u[1..];
      assert s + [0] <= u + [0] ==> (s + [0])[1..] <= (u + [0])[1..];
      assert u + [0] <= s + [0] ==> (u + [0])[1..] <= (s + [0])[1..];
    } else {
      assert s != [] ==> s[0] in s;
      assert u != [] ==> u[0] in u;
      assert (s + [0])[0] == if s == [] then 0 else s[0];
      assert (u + [0])[0] == if u == [] then 0 else u[0];
      if s == [] && u == [] { LexIrreflexive([0]); }
    }
  }

  lemma TailsOf(s: seq<Byte>, z: seq<Byte>)
    requires s != []
    ensures (s + z)[1..] == s[1..] + z && (s + z)[0] == s[0]
  {
  }

  /** One value: byte order is value order, and no encoding starts another. */
  lemma PartOrder(t: Type, v: Value, w: Value)
    requires Indexable(t, v) && Indexable(t, w)
    ensures ValuePrefix(t, v).Some? && ValuePrefix(t, w).Some?
    ensures var a, b := ValuePrefix(t, v).value, ValuePrefix(t, w).value;
            PrefixFree(a, b) && (LexLess(a, b) <==> ValueLess(v, w)) && (a == b <==> v == w)
  {
    PowValues();
    match (t, v, w)
    case (IntegerType, Integer(i), Integer(j)) =>
      SortableIntegerValue(i);
      SortableIntegerValue(j);
      BeOrder(i + TWO_63, j + TWO_63, 8);
    case (RealType, Real(a), Real(b)) =>
      BeOrder(if a >= TWO_63 then TWO_64 - 1 - a else a + TWO_63, if b >= TWO_63 then TWO_64 - 1 - b else b + TWO_63, 8);
    case (TextType, Text(s), Text(u)) =>
      TextOrder(s, u);
  }

  // ----- tuples -----

  predicate Unconverted(types: seq<Type>, vals: seq<Value>) {
    |types| == |vals| && forall i :: 0 <= i < |vals| ==> !Converted(types[i], vals[i])
  }

  predicate TupleIndexable(types: seq<Type>, vals: seq<Value>) {
    |types| == |vals| && forall i :: 0 <= i < |vals| ==> Indexable(types[i], vals[i])
  }

  /** The encodings of the values one after another; none if any has none. */
  function TuplePrefix(types: seq<Type>, vals: seq<Value>): Option<seq<Byte>>
    requires Unconverted(types, vals)
    decreases |vals|
  {
    if vals == [] then Some([])
    else
      match (ValuePrefix(types[0], vals[0]), TuplePrefix(types[1..], vals[1..]))
      case (Some(a), Some(b)) => Some(a + b)
      case _ => None
  }

  function EncodeKey(types: seq<Type>, vals: seq<Value>, rowid: nat): Option<seq<Byte>>
    requires Unconverted(types, vals)
  {
    match TuplePrefix(types, vals)
    case None => None
    case Some(p) => Some(p + Be(rowid, 8))
  }

  predicate TupleLess(v: seq<Value>, w: seq<Value>)
    requires |v| == |w|
    decreases |v|
  {
    v != [] && (ValueLess(v[0], w[0]) || (v[0] == w[0] && TupleLess(v[1..], w[1..])))
  }

  function Behind(out: seq<Byte>, rest: Option<seq<Byte>>): Option<seq<Byte>> {
    if rest.None? then None else Some(out + rest.value)
  }

  /** Builds the value part of a key column by column. */
  method EncodeTuplePrefix(types: seq<Type>, vals: seq<Value>) returns (r: Option<seq<Byte>>)
    requires Unconverted(types, vals)
    ensures r == TuplePrefix(types, vals)
  {
    var out: seq<Byte> := [];
    assert types[0..] == types && vals[0..] == vals;
    assert TuplePrefix(types, vals).Some? ==> out + TuplePrefix(types, vals).value == TuplePrefix(types, vals).value;
    for i := 0 to |vals|
      invariant TuplePrefix(types, vals) == Behind(out, TuplePrefix(types[i..], vals[i..]))
    {
      assert types[i..][1..] == types[i + 1..] && vals[i..][1..] == vals[i + 1..];
      var part := ValuePrefix(types[i], vals[i]);
      if part.None? { return None; }
      ghost var later := TuplePrefix(types[i + 1..], vals[i + 1..]);
      if later.Some? { assert out + (part.value + later.value) == out + part.value + later.value; }
      out := out + part.value;
    }
    assert out + [] == out;
    return Some(out);
  }

  lemma {:induction false} TupleEncodes(types: seq<Type>, vals: seq<Value>)
    requires TupleIndexable(types, vals)
    ensures Unconverted(types, vals) && TuplePrefix(types, vals).Some?
    decreases |vals|
  {
    if vals != [] {
      PartOrder(types[0], vals[0], vals[0]);
      TupleEncodes(types[1..], vals[1..]);
    }
  }

  /** A tuple is encoded exactly when no component is null or of a type that is not indexable. */
  lemma {:induction false} EncodedWhenPresent(types: seq<Type>, vals: seq<Value>)
    requires Unconverted(types, vals)
    ensures TuplePrefix(types, vals).Some? <==>
      forall i :: 0 <= i < |vals| ==>
        match types[i] case IntegerType => vals[i].Integer? case RealType => vals[i].Real? case TextType => vals[i].Text? case _ => false
    decreases |vals|
  {
    if vals != [] {
      EncodedWhenPresent(types[1..], vals[1..]);
      assert forall i :: 1 <= i < |vals| ==> vals[i] == vals[1..][i - 1] && types[i] == types[1..][i - 1];
    }
  }

  /** Tuples of one type list compare as their encodings, whatever follows. */
  lemma {:induction false} TupleOrder(types: seq<Type>, v: seq<Value>, w: seq<Value>, x: seq<Byte>, y: seq<Byte>)
    requires TupleIndexable(types, v) && TupleIndexable(types, w)
    ensures Unconverted(types, v) && Unconverted(types, w)
    ensures TuplePrefix(types, v).Some? && TuplePrefix(types, w).Some?
    ensures LexLess(TuplePrefix(types, v).value + x, TuplePrefix(types, w).value + y)
            <==> TupleLess(v, w) || (v == w && LexLess(x, y))
    decreases |v|
  {
    TupleEncodes(types, v);
    TupleEncodes(types, w);
    if v == [] {
      assert [] + x == x && [] + y == y;
    } else {
      PartOrder(types[0], v[0], w[0]);
      TupleOrder(types[1..], v[1..], w[1..], x, y);
      var a, b := ValuePrefix(types[0], v[0]).value, ValuePrefix(types[0], w[0]).value;
      var c, d := TuplePrefix(types[1..], v[1..]).value, TuplePrefix(types[1..], w[1..]).value;
      LexConcat(a, b, c + x, d + y);
      assert a + (c + x) == a + c + x && b + (d + y) == b + d + y;
      assert v == [v[0]] + v[1..] && w == [w[0]] + w[1..];
    }
  }

  /** Byte order of whole keys is the order of (values, rowid). */
  lemma KeyOrder(types: seq<Type>, v: seq<Value>, w: seq<Value>, r: nat, s: nat)
    requires TupleIndexable(types, v) && TupleIndexable(types, w) && r < TWO_64 && s < TWO_64
    ensures Unconverted(types, v) && Unconverted(types, w)
    ensures EncodeKey(types, v, r).Some? && EncodeKey(types, w, s).Some?
    ensures LexLess(EncodeKey(types, v, r).value, EncodeKey(types, w, s).value)
            <==> TupleLess(v, w) || (v == w && r < s)
  {
    PowValues();
    TupleOrder(types, v, w, Be(r, 8), Be(s, 8));
    BeOrder(r, s, 8);
  }

  lemma HeadsMeet(a: seq<Byte>, b: seq<Byte>, c: seq<Byte>, d: seq<Byte>)
    requires a + c <= b + d
    ensures a <= b || b <= a
  {
    var n := if |a| <= |b| then |a| else |b|;
    assert a[..n] == (a + c)[..n] == (b + d)[..n] == b[..n];
  }

  /** Prefix-free heads: one whole starts the other only if the heads are equal. */
  lemma HeadsDecide(a: seq<Byte>, b: seq<Byte>, c: seq<Byte>, d: seq<Byte>)
    requires PrefixFree(a, b)
    ensures a + c <= b + d <==> a == b && c <= d
  {
    if a + c <= b + d {
      HeadsMeet(a, b, c, d);
      assert c == (a + c)[|a|..] && d == (b + d)[|a|..];
    }
  }

  /** The encoding of leading values starts a key exactly when the key's row has those values. */
  lemma {:induction false} PrefixMatches(types: seq<Type>, lead: seq<Value>, w: seq<Value>, tail: seq<Byte>)
    requires |lead| <= |types| && TupleIndexable(types[..|lead|], lead) && TupleIndexable(types, w)
    ensures Unconverted(types[..|lead|], lead) && Unconverted(types, w)
    ensures TuplePrefix(types[..|lead|], lead).Some? && TuplePrefix(types, w).Some?
    ensures TuplePrefix(types[..|lead|], lead).value <= TuplePrefix(types, w).value + tail <==> lead == w[..|lead|]
    decreases |lead|
  {
    TupleEncodes(types[..|lead|], lead);
    TupleEncodes(types, w);
    if lead != [] {
      var ts := types[..|lead|];
      assert ts[1..] == types[1..][..|lead| - 1];
      PartOrder(types[0], lead[0], w[0]);
      PrefixMatches(types[1..], lead[1..], w[1..], tail);
      var a, b := ValuePrefix(types[0], lead[0]).value, ValuePrefix(types[0], w[0]).value;
      var c, d := TuplePrefix(ts[1..], lead[1..]).value, TuplePrefix(types[1..], w[1..]).value;
      HeadsDecide(a, b, c, d + tail);
      assert b + (d + tail) == b + d + tail;
      assert w[..|lead|] == [w[0]] + w[1..][..|lead| - 1] && lead == [lead[0]] + lead[1..];
    }
  }

  /** The rowid is the big-endian number in the last 8 bytes of a key. */
  function RowidOf(key: seq<Byte>): nat
    requires |key| >= 8
  {
    FromBe(key[|key| - 8..])
  }

  /** The type-directed reading: a fixed place for integers and reals, the end of the key for text. */
  function ExtractRowid(t: Type, key: seq<Byte>): nat
    requires |key| >= 8 && (t.TextType? || |key| >= 16)
  {
    if t.TextType? then RowidOf(key) else FromBe(key[8..16])
  }

  /** On keys of one column both readings give the rowid. */
  lemma SingleRowid(t: Type, v: Value, rowid: nat)
    requires Indexable(t, v) && rowid < TWO_64
    ensures ValuePrefix(t, v).Some?
    ensures var key := ValuePrefix(t, v).value + Be(rowid, 8);
            |key| >= 8 && (t.TextType? || |key| == 16) && RowidOf(key) == rowid && ExtractRowid(t, key) == rowid
  {
    PowValues();
    BeRoundTrip(rowid, 8);
    PartOrder(t, v, v);
    LastEight(ValuePrefix(t, v).value, Be(rowid, 8));
  }

  /**
   * The reading of a text key asserts, in debug builds, that the key has at least ten bytes:
   * that holds exactly for texts that are not empty.
   */
  lemma TextKeyLength(text: seq<Byte>, rowid: nat)
    requires Indexable(TextType, Text(text)) && rowid < TWO_64
    ensures ValuePrefix(TextType, Text(text)).Some?
    ensures |ValuePrefix(TextType, Text(text)).value + Be(rowid, 8)| >= 10 <==> text != []
  {
    PartOrder(TextType, Text(text), Text(text));
  }

  lemma LastEight(p: seq<Byte>, tail: seq<Byte>)
    requires |tail| == 8
    ensures (p + tail)[|p + tail| - 8..] == tail
    ensures |p| == 8 ==> (p + tail)[8..16] == tail
  {
  }

  /** Keys determine their rowid and, for one type list, their values. */
  lemma KeyRecovers(types: seq<Type>, v: seq<Value>, w: seq<Value>, r: nat, s: nat)
    requires TupleIndexable(types, v) && TupleIndexable(types, w) && r < TWO_64 && s < TWO_64
    ensures Unconverted(types, v) && Unconverted(types, w)
    ensures var k, l := EncodeKey(types, v, r), EncodeKey(types, w, s);
            && k.Some? && l.Some? && |k.value| >= 8 && RowidOf(k.value) == r
            && (k == l <==> v == w && r == s)
  {
    PowValues();
    BeRoundTrip(r, 8);
    BeRoundTrip(s, 8);
    assert types[..|types|] == types && w[..|w|] == w;
    PrefixMatches(types, v, w, Be(s, 8));
    var p, q := TuplePrefix(types, v).value, TuplePrefix(types, w).value;
    assert (p + Be(r, 8))[|p|..] == Be(r, 8) && (q + Be(s, 8))[|q|..] == Be(s, 8);
    if p + Be(r, 8) == q + Be(s, 8) {
      assert p <= q + Be(s, 8);
    }
  }

  /**
   * The multi-column encoder does not reject text that contains the terminator. Probes
   * find exactly their own text in a key exactly when the text in the key is free of it.
   */
  lemma TerminatorMatters(text: seq<Byte>, tail: seq<Byte>)
    ensures (forall probe :: NulFree(probe) ==> (probe + [0] <= text + [0] + tail <==> probe == text)) <==> NulFree(text)
  {
    if NulFree(text) {
      forall probe | NulFree(probe) ensures probe + [0] <= text + [0] + tail <==> probe == text {
        TextOrder(probe, text);
        HeadsDecide(probe + [0], text + [0], [], tail);
        assert probe + [0] + [] == probe + [0];
      }
    } else {
      var i := FirstNul(text);
      var probe := text[..i];
      assert probe + [0] == (text + [0] + tail)[..i + 1];
      assert NulFree(probe) && probe != text;
    }
  }

  lemma {:induction false} FirstNul(s: seq<Byte>) returns (i: nat)
    requires !NulFree(s)
    ensures i < |s| && s[i] == 0 && NulFree(s[..i])
  {
    if s[0] == 0 {
      i := 0;
    } else {
      i := FirstNul(s[1..]);
      assert s[..i + 1] == [s[0]] + s[1..][..i];
      i := i + 1;
    }
  }

  // ----- keys as numbers -----

  /** The longest key a branch entry holds without cutting it. */
  const BRANCH_KEY_MAX := 36

  function Pow257(k: nat): (p: nat)
    ensures p > 0
  {
    if k == 0 then 1 else 257 * Pow257(k - 1)
  }

  /** A string of at most `k` bytes as a number: digits 1 to 256, 0 where the string has ended. */
  function RankIn(s: seq<Byte>, k: nat): (n: nat)
    requires |s| <= k
  {
    if s == [] then 0 else (s[0] + 1) * Pow257(k - 1) + RankIn(s[1..], k - 1)
  }

  function Rank(key: seq<Byte>): nat
    requires |key| <= BRANCH_KEY_MAX
  {
    RankIn(key, BRANCH_KEY_MAX)
  }

  const RANKS := Pow257(BRANCH_KEY_MAX)

  lemma {:induction false} RankBound(s: seq<Byte>, k: nat)
    requires |s| <= k
    ensures RankIn(s, k) < Pow257(k)
  {
    if s != [] {
      RankBound(s[1..], k - 1);
      DigitLeq(s[0] as int + 1, 256, Pow257(k - 1));
    }
  }

  lemma DigitLeq(a: nat, b: nat, p: nat)
    requires a <= b
    ensures a * p <= b * p
  {
  }

  /** Ranks order keys as bytes do. */
  lemma {:induction false} RankOrder(a: seq<Byte>, b: seq<Byte>, k: nat)
    requires |a| <= k && |b| <= k
    ensures RankIn(a, k) < RankIn(b, k) <==> LexLess(a, b)
    ensures RankIn(a, k) == RankIn(b, k) <==> a == b
  {
    if a == [] || b == [] {
      if a != [] { DigitLeq(1, a[0] as int + 1, Pow257(k - 1)); }
      if b != [] { DigitLeq(1, b[0] as int + 1, Pow257(k - 1)); }
    } else {
      RankOrder(a[1..], b[1..], k - 1);
      RankBound(a[1..], k - 1);
      RankBound(b[1..], k - 1);
      assert a == [a[0]] + a[1..] && b == [b[0]] + b[1..];
      if a[0] < b[0] { DigitStep(a[0] as int + 1, b[0] as int + 1, Pow257(k - 1)); }
      if b[0] < a[0] { DigitStep(b[0] as int + 1, a[0] as int + 1, Pow257(k - 1)); }
    }
  }

  lemma DigitStep(a: nat, b: nat, p: nat)
    requires a < b
    ensures a * p + p <= b * p
  {
    DigitLeq(a + 1, b, p);
    assert (a + 1) * p == a * p + p;
  }
}
