/** Encoded rows as the tree stores them. */
module RowStorage {
  import opened Bytes
  import opened Values
  import opened ValueCodec
  import opened Overflow
  import opened BTree
  import opened LeafSplit
  import opened BTreeRuns
  import opened RowLayout
  import opened RowCodec

  /** A row begins with its id and has at least the smallest row size. */
  lemma EncodedKeyed(rowid: nat, cols: seq<Col>)
    requires RowFits(rowid, cols)
    ensures Keyed(BTree.Entry(rowid, Encoded(rowid, cols))) && |Encoded(rowid, cols)| >= MIN_ROW
  {
    LeRoundTrip(rowid, 8);
    assert Encoded(rowid, cols)[..8] == Le(rowid, 8);
  }

  /** The tree accepts an encoded row exactly when it is within the cap and, if stored whole, shows no trailer. */
  lemma EncodedRowOk(rowid: nat, cols: seq<Col>)
    requires RowFits(rowid, cols) && rowid < MAX_ID
    ensures var data := Encoded(rowid, cols);
            RowOk(BTree.Entry(rowid, data)) <==>
            |data| <= MAX_REASSEMBLE_SIZE && (|data| <= MAX_SINGLE_ROW ==> !HasOverflow(data))
  {
    EncodedKeyed(rowid, cols);
  }

  lemma {:induction false} BodyEnds(parts: seq<Part>)
    requires parts != []
    ensures var last := parts[|parts| - 1].bytes;
            |Body(parts)| >= |last| && Body(parts)[|Body(parts)| - |last|..] == last
  {
    if |parts| > 1 {
      BodyEnds(parts[1..]);
    } else {
      assert parts[1..] == [];
    }
  }

  lemma SameTail(a: seq<Byte>, b: seq<Byte>)
    requires |b| >= OVERFLOW_TRAILER_SIZE && |a| >= |b| && a[|a| - |b|..] == b
    ensures HasOverflow(a) <==> HasOverflow(b)
  {
    assert a[|a| - OVERFLOW_TRAILER_SIZE..] == b[|b| - OVERFLOW_TRAILER_SIZE..];
  }

  /** Rows can look so: one that ends in a blob of ten bytes or more does exactly when the blob does. */
  lemma BlobLooksSpilled(rowid: nat, cols: seq<Col>, blob: seq<Byte>)
    requires cols != [] && cols[|cols| - 1].v == Blob(blob) && |blob| >= OVERFLOW_TRAILER_SIZE
    ensures HasOverflow(Encoded(rowid, cols)) <==> HasOverflow(blob)
  {
    var ps := Parts(cols);
    var last, data := ps[|ps| - 1].bytes, Encoded(rowid, cols);
    BodyEnds(ps);
    assert data[|data| - |Body(ps)|..] == Body(ps);
    assert last[|last| - |blob|..] == blob;
    assert data[|data| - |last|..] == last;
    assert data[|data| - |blob|..] == blob;
    SameTail(data, blob);
  }
}
