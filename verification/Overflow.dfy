/** Rows too long for one page: an inline head with a trailer, and a chain of overflow pages. */
module Overflow {
  import opened Bytes

  const PAGE_SIZE := 4096
  const PAGE_HEADER_SIZE := 16
  const CHECKSUM_SIZE := 4
  const OVERFLOW_PAYLOAD_MAX := PAGE_SIZE - PAGE_HEADER_SIZE - 4
  const OVERFLOW_TRAILER_SIZE := 10
  const OVERFLOW_MAGIC: seq<Byte> := [0xFF, 0xFE]

  /** The longest row a leaf page can hold by itself. */
  const MAX_SINGLE_ROW := PAGE_SIZE - PAGE_HEADER_SIZE - 2 - CHECKSUM_SIZE
  const INLINE_DATA_LEN := MAX_SINGLE_ROW - OVERFLOW_TRAILER_SIZE
  const MAX_REASSEMBLE_SIZE := 64 * 1024 * 1024

  datatype OverPage = OverPage(payload: seq<Byte>, next: nat)

  datatype ReadError = ClaimsTooMuch | ChainCycle | MissingPage
  datatype Read = Row(bytes: seq<Byte>) | Failed(error: ReadError)

  predicate HasOverflow(raw: seq<Byte>) {
    && |raw| >= OVERFLOW_TRAILER_SIZE
    && raw[|raw| - OVERFLOW_TRAILER_SIZE..][..2] == OVERFLOW_MAGIC
  }

  function Trailer(first: nat, remaining: nat): (s: seq<Byte>)
    ensures |s| == OVERFLOW_TRAILER_SIZE
  {
    OVERFLOW_MAGIC + Le(first, 4) + Le(remaining, 4)
  }

  function TrailerFirst(raw: seq<Byte>): nat
    requires |raw| >= OVERFLOW_TRAILER_SIZE
  {
    FromLe(raw[|raw| - 8..|raw| - 4])
  }

  function TrailerRemaining(raw: seq<Byte>): nat
    requires |raw| >= OVERFLOW_TRAILER_SIZE
  {
    FromLe(raw[|raw| - 4..])
  }

  /** How many payload pages `len` bytes need. */
  function PagesFor(len: nat): nat {
    if len == 0 then 0 else 1 + PagesFor(if len > OVERFLOW_PAYLOAD_MAX then len - OVERFLOW_PAYLOAD_MAX else 0)
  }

  /**
   * The chain holding `data`. Pages are allocated for the last chunk first, so the
   * chunks from here on own the page numbers `base .. base + PagesFor(|data|)` and the
   * first of them owns the highest.
   */
  function Chain(data: seq<Byte>, base: nat): map<nat, OverPage>
    decreases |data|
  {
    if data == [] then map[]
    else
      var cut := if |data| > OVERFLOW_PAYLOAD_MAX then OVERFLOW_PAYLOAD_MAX else |data|;
      var rest := data[cut..];
      Chain(rest, base)[base + PagesFor(|rest|) := OverPage(data[..cut], ChainHead(|rest|, base))]
  }

  /** The page where a chain of `len` bytes starts; 0 for no chain. */
  function ChainHead(len: nat, base: nat): nat {
    if len == 0 then 0 else base + PagesFor(len) - 1
  }

  /** What the leaf keeps of an oversized row whose chain was allocated from `base` on. */
  function Inline(data: seq<Byte>, base: nat): (s: seq<Byte>)
    requires |data| > MAX_SINGLE_ROW
    ensures |s| == MAX_SINGLE_ROW
  {
    var tail := data[INLINE_DATA_LEN..];
    data[..INLINE_DATA_LEN] + Trailer(ChainHead(|tail|, base), |tail|)
  }

  /** The reading loop: `fuel` is what the cycle guard still allows. */
  function ReadChain(over: map<nat, OverPage>, current: nat, left: nat, fuel: nat): Read
    decreases fuel
  {
    if current == 0 || left == 0 then Row([])
    else if fuel == 0 then Failed(ChainCycle)
    else if current !in over then Failed(MissingPage)
    else
      var payload := over[current].payload;
      var take := if |payload| < left then |payload| else left;
      match ReadChain(over, over[current].next, left - take, fuel - 1)
      case Failed(e) => Failed(e)
      case Row(rest) => Row(payload[..take] + rest)
  }

  function Reassemble(raw: seq<Byte>, over: map<nat, OverPage>): Read {
    if !HasOverflow(raw) then Row(raw)
    else
      var remaining := TrailerRemaining(raw);
      if |raw| - OVERFLOW_TRAILER_SIZE + remaining > MAX_REASSEMBLE_SIZE then Failed(ClaimsTooMuch)
      else
        match ReadChain(over, TrailerFirst(raw), remaining, remaining / OVERFLOW_PAYLOAD_MAX + 2)
        case Failed(e) => Failed(e)
        case Row(tail) => Row(raw[..|raw| - OVERFLOW_TRAILER_SIZE] + tail)
  }

  lemma {:induction false} PagesForBound(len: nat)
    ensures PagesFor(len) <= len / OVERFLOW_PAYLOAD_MAX + 1
    ensures PagesFor(len) <= len
  {
    if len > OVERFLOW_PAYLOAD_MAX { PagesForBound(len - OVERFLOW_PAYLOAD_MAX); }
  }

  /** A chain uses exactly the page numbers allocated for it. */
  lemma {:induction false} ChainKeys(data: seq<Byte>, base: nat)
    ensures forall p :: p in Chain(data, base) <==> base <= p < base + PagesFor(|data|)
    decreases |data|
  {
    if data != [] {
      var cut := if |data| > OVERFLOW_PAYLOAD_MAX then OVERFLOW_PAYLOAD_MAX else |data|;
      ChainKeys(data[cut..], base);
    }
  }

  lemma ReadStep(over: map<nat, OverPage>, current: nat, fuel: nat, chunk: seq<Byte>, next: nat, rest: seq<Byte>)
    requires current != 0 && fuel > 0 && chunk != [] && current in over && over[current] == OverPage(chunk, next)
    requires ReadChain(over, next, |rest|, fuel - 1) == Row(rest)
    ensures ReadChain(over, current, |chunk| + |rest|, fuel) == Row(chunk + rest)
  {
    assert chunk[..|chunk|] == chunk;
  }

  /** Reading back a stored chain gives its bytes, and the cycle guard does not fire. */
  lemma {:induction false} ReadChainBack(data: seq<Byte>, base: nat, over: map<nat, OverPage>, fuel: nat)
    requires base > 0 && fuel >= PagesFor(|data|)
    requires forall p :: p in Chain(data, base) ==> p in over && over[p] == Chain(data, base)[p]
    ensures ReadChain(over, ChainHead(|data|, base), |data|, fuel) == Row(data)
    decreases |data|
  {
    if data != [] {
      var cut := if |data| > OVERFLOW_PAYLOAD_MAX then OVERFLOW_PAYLOAD_MAX else |data|;
      var rest := data[cut..];
      ChainKeys(rest, base);
      ReadChainBack(rest, base, over, fuel - 1);
      assert data == data[..cut] + rest;
      var head := ChainHead(|data|, base);
      assert head in Chain(data, base);
      ReadStep(over, head, fuel, data[..cut], ChainHead(|rest|, base), rest);
    }
  }

  lemma InlineTrailer(data: seq<Byte>, base: nat)
    requires |data| > MAX_SINGLE_ROW
    requires base + PagesFor(|data| - INLINE_DATA_LEN) <= Pow256(4) && |data| < Pow256(4)
    ensures HasOverflow(Inline(data, base))
    ensures TrailerFirst(Inline(data, base)) == ChainHead(|data| - INLINE_DATA_LEN, base)
    ensures TrailerRemaining(Inline(data, base)) == |data| - INLINE_DATA_LEN
  {
    var n := |data| - INLINE_DATA_LEN;
    var raw := Inline(data, base);
    var t := Trailer(ChainHead(n, base), n);
    assert raw == data[..INLINE_DATA_LEN] + t;
    assert raw[|raw| - OVERFLOW_TRAILER_SIZE..] == t;
    assert t[..2] == OVERFLOW_MAGIC;
    assert raw[|raw| - 8..|raw| - 4] == Le(ChainHead(n, base), 4);
    assert raw[|raw| - 4..] == Le(n, 4);
    LeRoundTrip(ChainHead(n, base), 4);
    LeRoundTrip(n, 4);
  }

  /**
   * A row of 4075 bytes up to the 64 MB cap comes back whole from its inline part and
   * its chain, whatever other overflow pages exist.
   */
  lemma OverflowRoundTrip(data: seq<Byte>, base: nat, over: map<nat, OverPage>)
    requires MAX_SINGLE_ROW < |data| <= MAX_REASSEMBLE_SIZE
    requires base > 0 && base + PagesFor(|data| - INLINE_DATA_LEN) <= Pow256(4)
    requires forall p :: p in Chain(data[INLINE_DATA_LEN..], base) ==>
      p in over && over[p] == Chain(data[INLINE_DATA_LEN..], base)[p]
    ensures Reassemble(Inline(data, base), over) == Row(data)
  {
    PowValues();
    InlineTrailer(data, base);
    var tail := data[INLINE_DATA_LEN..];
    PagesForBound(|tail|);
    ReadChainBack(tail, base, over, |tail| / OVERFLOW_PAYLOAD_MAX + 2);
    assert Inline(data, base)[..INLINE_DATA_LEN] == data[..INLINE_DATA_LEN];
    assert data == data[..INLINE_DATA_LEN] + tail;
  }

  /** One byte past the cap the same row is refused: the cap is exact. */
  lemma OverflowCapIsExact(data: seq<Byte>, base: nat, over: map<nat, OverPage>)
    requires |data| > MAX_SINGLE_ROW && |data| < Pow256(4)
    requires base > 0 && base + PagesFor(|data| - INLINE_DATA_LEN) <= Pow256(4)
    requires forall p :: p in Chain(data[INLINE_DATA_LEN..], base) ==>
      p in over && over[p] == Chain(data[INLINE_DATA_LEN..], base)[p]
    ensures Reassemble(Inline(data, base), over) == Row(data) <==> |data| <= MAX_REASSEMBLE_SIZE
  {
    if |data| <= MAX_REASSEMBLE_SIZE {
      OverflowRoundTrip(data, base, over);
    } else {
      InlineTrailer(data, base);
    }
  }

  /**
   * A row stored whole reads back as itself, whatever overflow pages exist, exactly when it
   * does not look as if it had a trailer.
   */
  lemma WholeReadsBack(raw: seq<Byte>)
    ensures (forall over :: Reassemble(raw, over) == Row(raw)) <==> !HasOverflow(raw)
  {
    if HasOverflow(raw) {
      var r := Reassemble(raw, map[]);
      assert r.Row? ==> |r.bytes| == |raw| - OVERFLOW_TRAILER_SIZE;
      assert r != Row(raw);
    }
  }

  /** More overflow pages never change a row that already reads. */
  lemma {:induction false} ReadChainMonotone(
      over: map<nat, OverPage>, more: map<nat, OverPage>, current: nat, left: nat, fuel: nat)
    requires forall p :: p in over ==> p in more && more[p] == over[p]
    requires ReadChain(over, current, left, fuel).Row?
    ensures ReadChain(more, current, left, fuel) == ReadChain(over, current, left, fuel)
    decreases fuel
  {
    if current != 0 && left != 0 {
      var payload := over[current].payload;
      var take := if |payload| < left then |payload| else left;
      ReadChainMonotone(over, more, over[current].next, left - take, fuel - 1);
    }
  }

  lemma ReassembleMonotone(raw: seq<Byte>, over: map<nat, OverPage>, more: map<nat, OverPage>)
    requires forall p :: p in over ==> p in more && more[p] == over[p]
    requires Reassemble(raw, over).Row?
    ensures Reassemble(raw, more) == Reassemble(raw, over)
  {
    if HasOverflow(raw) {
      var remaining := TrailerRemaining(raw);
      ReadChainMonotone(over, more, TrailerFirst(raw), remaining, remaining / OVERFLOW_PAYLOAD_MAX + 2);
    }
  }
}
