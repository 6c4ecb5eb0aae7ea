/** One value in bytes: a type tag, then the value. */
module ValueCodec {
  import opened Bytes
  import opened Values
  import opened Store

  const TAG_NULL := 0
  const TAG_TEXT := 1
  const TAG_INTEGER := 2
  const TAG_REAL := 3
  const TAG_BLOB := 4
  const TAG_BOOLEAN := 5

  predicate Continuations(s: seq<Byte>, from: nat, n: nat) {
    from + n <= |s| && forall i :: from <= i < from + n ==> 0x80 <= s[i] <= 0xBF
  }

  /** Well-formed UTF-8 (section 4 of RFC 3629). */
  predicate Utf8(s: seq<Byte>) {
    s == []
    || (s[0] <= 0x7F && Utf8(s[1..]))
    || (0xC2 <= s[0] <= 0xDF && Continuations(s, 1, 1) && Utf8(s[2..]))
    || (0xE0 <= s[0] <= 0xEF && Continuations(s, 1, 2)
        && (s[0] == 0xE0 ==> s[1] >= 0xA0) && (s[0] == 0xED ==> s[1] <= 0x9F) && Utf8(s[3..]))
    || (0xF0 <= s[0] <= 0xF4 && Continuations(s, 1, 3)
        && (s[0] == 0xF0 ==> s[1] >= 0x90) && (s[0] == 0xF4 ==> s[1] <= 0x8F) && Utf8(s[4..]))
  }

  /** The characters text is made of. */
  predicate Scalar(c: nat) {
    c < 0xD800 || 0xE000 <= c <= 0x10FFFF
  }

  /** The bytes of one character (section 3 of RFC 3629). */
  function CharBytes(c: nat): seq<Byte>
    requires Scalar(c)
  {
    if c <= 0x7F then [c]
    else if c <= 0x7FF then [0xC0 + c / 64, 0x80 + c % 64]
    else if c <= 0xFFFF then [0xE0 + c / 4096, 0x80 + c / 64 % 64, 0x80 + c % 64]
    else [0xF0 + c / 262144, 0x80 + c / 4096 % 64, 0x80 + c / 64 % 64, 0x80 + c % 64]
  }

  ghost predicate AllScalar(cs: seq<nat>) {
    forall i :: 0 <= i < |cs| ==> Scalar(cs[i])
  }

  function TextBytes(cs: seq<nat>): seq<Byte>
    requires AllScalar(cs)
  {
    if cs == [] then [] else CharBytes(cs[0]) + TextBytes(cs[1..])
  }

  /** The bytes accepted as text are exactly the bytes of some characters. */
  lemma Utf8IsText(s: seq<Byte>)
    ensures Utf8(s) <==> exists cs :: AllScalar(cs) && TextBytes(cs) == s
  {
    if Utf8(s) { var cs := TextOf(s); }
    if cs :| AllScalar(cs) && TextBytes(cs) == s { TextIsUtf8(cs); }
  }

  lemma {:induction false} TextIsUtf8(cs: seq<nat>)
    requires AllScalar(cs)
    ensures Utf8(TextBytes(cs))
  {
    if cs != [] {
      TextIsUtf8(cs[1..]);
      CharThenText(cs[0], TextBytes(cs[1..]));
    }
  }

  /** The length of the first character. */
  function CharSize(s: seq<Byte>): nat
    requires s != []
  {
    if s[0] <= 0x7F then 1 else if s[0] <= 0xDF then 2 else if s[0] <= 0xEF then 3 else 4
  }

  lemma CharThenText(c: nat, rest: seq<Byte>)
    requires Scalar(c) && Utf8(rest)
    ensures Utf8(CharBytes(c) + rest)
  {
    var b, s := CharBytes(c), CharBytes(c) + rest;
    CharShape(c);
    assert s[|b|..] == rest && s[0] == b[0];
    assert (|b| > 1 ==> s[1] == b[1]) && (|b| > 2 ==> s[2] == b[2]) && (|b| > 3 ==> s[3] == b[3]);
  }

  /** Which bytes a character begins with and goes on with. */
  lemma CharShape(c: nat)
    requires Scalar(c)
    ensures var b := CharBytes(c);
            && |b| == CharSize(b) && (forall i :: 1 <= i < |b| ==> 0x80 <= b[i] <= 0xBF) && b[0] <= 0xF4 && !(0x80 <= b[0] <= 0xC1)
            && (b[0] == 0xE0 ==> b[1] >= 0xA0) && (b[0] == 0xED ==> b[1] <= 0x9F)
            && (b[0] == 0xF0 ==> b[1] >= 0x90) && (b[0] == 0xF4 ==> b[1] <= 0x8F)
  {
  }

  lemma FirstChar(s: seq<Byte>) returns (c: nat)
    requires Utf8(s) && s != []
    ensures Scalar(c) && CharSize(s) <= |s| && CharBytes(c) == s[..CharSize(s)] && Utf8(s[CharSize(s)..])
  {
    if s[0] <= 0x7F {
      c := s[0];
    } else if s[0] <= 0xDF {
      c := TwoBytes(s[0], s[1]);
    } else if s[0] <= 0xEF {
      c := ThreeBytes(s[0], s[1], s[2]);
    } else {
      c := FourBytes(s[0], s[1], s[2], s[3]);
    }
  }

  lemma TwoBytes(a: int, b: int) returns (c: nat)
    requires 0xC2 <= a <= 0xDF && 0x80 <= b <= 0xBF
    ensures Scalar(c) && CharBytes(c) == [a, b]
  {
    c := (a - 0xC0) * 64 + (b - 0x80);
  }

  lemma ThreeBytes(a: int, b: int, d: int) returns (c: nat)
    requires 0xE0 <= a <= 0xEF && 0x80 <= b <= 0xBF && 0x80 <= d <= 0xBF
    requires (a == 0xE0 ==> b >= 0xA0) && (a == 0xED ==> b <= 0x9F)
    ensures Scalar(c) && CharBytes(c) == [a, b, d]
  {
    c := ((a - 0xE0) * 64 + (b - 0x80)) * 64 + (d - 0x80);
    assert c / 64 == (a - 0xE0) * 64 + (b - 0x80) && c % 64 == d - 0x80;
    ByDigits(c);
  }

  lemma FourBytes(a: int, b: int, d: int, e: int) returns (c: nat)
    requires 0xF0 <= a <= 0xF4 && 0x80 <= b <= 0xBF && 0x80 <= d <= 0xBF && 0x80 <= e <= 0xBF
    requires (a == 0xF0 ==> b >= 0x90) && (a == 0xF4 ==> b <= 0x8F)
    ensures Scalar(c) && CharBytes(c) == [a, b, d, e]
  {
    var high := (a - 0xF0) * 64 + (b - 0x80);
    c := (high * 64 + (d - 0x80)) * 64 + (e - 0x80);
    assert c / 64 == high * 64 + (d - 0x80) && c % 64 == e - 0x80;
    ByDigits(c);
  }

  lemma ByDigits(c: nat)
    ensures c / 4096 == c / 64 / 64 && c / 262144 == c / 64 / 64 / 64
  {
  }

  lemma {:induction false} TextOf(s: seq<Byte>) returns (cs: seq<nat>)
    requires Utf8(s)
    ensures AllScalar(cs) && TextBytes(cs) == s
  {
    cs := [];
    if s != [] {
      var c := FirstChar(s);
      var rest := TextOf(s[CharSize(s)..]);
      cs := [c] + rest;
      assert cs[1..] == rest && s == s[..CharSize(s)] + s[CharSize(s)..];
    }
  }

  /** A value as the program can hold it: text in UTF-8, lengths in 32 bits. */
  predicate ValueOk(v: Value) {
    && (v.Text? ==> Utf8(v.chars) && |v.chars| < Pow256(4))
    && (v.Blob? ==> |v.bytes| < Pow256(4))
  }

  function EncodeValue(v: Value): (s: seq<Byte>)
    ensures |s| >= 1
  {
    match v
    case Null => [TAG_NULL]
    case Text(chars) => [TAG_TEXT] + Le(|chars|, 4) + chars
    case Integer(i) => [TAG_INTEGER] + Le(Unsigned(i), 8)
    case Real(bits) => [TAG_REAL] + Le(bits, 8)
    case Blob(bytes) => [TAG_BLOB] + Le(|bytes|, 4) + bytes
    case Boolean(b) => [TAG_BOOLEAN, if b then 1 else 0]
  }

  datatype Decoded = Decoded(v: Value, size: nat)

  /** The bytes behind a tag and a 32-bit length, if they are all there. */
  function Sized(data: seq<Byte>): Option<seq<Byte>> {
    if |data| < 5 || 5 + Field(data, 1, 4) > |data| then None else Some(data[5..5 + Field(data, 1, 4)])
  }

  /** Reads the value at the start of `data`; none for truncated or malformed bytes. */
  function DecodeValue(data: seq<Byte>): (r: Option<Decoded>)
    ensures r.Some? ==> 1 <= r.value.size <= |data|
  {
    if data == [] then None
    else if data[0] == TAG_NULL then Some(Decoded(Null, 1))
    else if data[0] == TAG_TEXT then
      var chars := Sized(data);
      if chars.None? || !Utf8(chars.value) then None else Some(Decoded(Text(chars.value), 5 + |chars.value|))
    else if data[0] == TAG_INTEGER then
      if |data| < 9 then None
      else
        FieldBound(data, 1, 8);
        PowValues();
        Some(Decoded(Integer(Signed(Field(data, 1, 8))), 9))
    else if data[0] == TAG_REAL then
      if |data| < 9 then None
      else
        FieldBound(data, 1, 8);
        PowValues();
        Some(Decoded(Real(Field(data, 1, 8)), 9))
    else if data[0] == TAG_BLOB then
      var bytes := Sized(data);
      if bytes.None? then None else Some(Decoded(Blob(bytes.value), 5 + |bytes.value|))
    else if data[0] == TAG_BOOLEAN then
      if |data| < 2 then None else Some(Decoded(Boolean(data[1] != 0), 2))
    else None
  }

  lemma SizedReads(tag: Byte, s: seq<Byte>, rest: seq<Byte>)
    requires |s| < Pow256(4)
    ensures Sized([tag] + Le(|s|, 4) + s + rest) == Some(s)
  {
    LeRoundTrip(|s|, 4);
    SizedHead(tag, Le(|s|, 4), s, rest);
  }

  lemma SizedHead(tag: Byte, head: seq<Byte>, s: seq<Byte>, rest: seq<Byte>)
    requires |head| == 4 && FromLe(head) == |s|
    ensures Sized([tag] + head + s + rest) == Some(s)
  {
    var data := [tag] + head + s + rest;
    assert data[1..5] == head;
    assert data[5..5 + |s|] == s;
  }

  lemma WordReads(tag: Byte, n: nat, rest: seq<Byte>)
    requires n < Pow256(8)
    ensures Field([tag] + Le(n, 8) + rest, 1, 8) == n
  {
    LeRoundTrip(n, 8);
    assert ([tag] + Le(n, 8) + rest)[1..9] == Le(n, 8);
  }

  /** An encoded value reads back, and reading stops at its end whatever follows. */
  lemma ValueRoundTrip(v: Value, rest: seq<Byte>)
    requires ValueOk(v)
    ensures DecodeValue(EncodeValue(v) + rest) == Some(Decoded(v, |EncodeValue(v)|))
  {
    PowValues();
    match v
    case Text(chars) => SizedReads(TAG_TEXT, chars, rest);
    case Blob(bytes) => SizedReads(TAG_BLOB, bytes, rest);
    case Integer(i) => WordReads(TAG_INTEGER, Unsigned(i), rest);
    case Real(bits) => WordReads(TAG_REAL, bits, rest);
    case _ =>
  }
}
