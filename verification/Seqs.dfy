/** Cutting and joining sequences. */
module Seqs {

  lemma TailOfConcat<T>(a: seq<T>, b: seq<T>)
    requires a != []
    ensures (a + b)[1..] == a[1..] + b && (a + b)[0] == a[0]
  {
  }

  lemma EmptyFront<T>(a: seq<T>, b: seq<T>)
    requires a == []
    ensures a + b == b
  {
  }

  lemma Assoc<T>(a: seq<T>, b: seq<T>, c: seq<T>)
    ensures (a + b) + c == a + (b + c)
  {
  }

  lemma CutAt<T>(s: seq<T>, i: nat)
    requires i <= |s|
    ensures s == s[..i] + s[i..]
  {
  }

  /** Around position `i`. */
  lemma CutAround<T>(s: seq<T>, i: nat)
    requires i < |s|
    ensures s == s[..i] + [s[i]] + s[i + 1..]
    ensures s[..i + 1] == s[..i] + [s[i]] && s[i..] == [s[i]] + s[i + 1..] && s[i..][1..] == s[i + 1..]
  {
  }

  /** A stretch in the middle, element by element. */
  lemma Middle<T>(a: seq<T>, x: seq<T>, b: seq<T>)
    ensures forall i :: 0 <= i < |x| ==> (a + x + b)[|a| + i] == x[i]
    ensures forall e :: e in x ==> e in a + x + b
  {
    assert forall i :: 0 <= i < |x| ==> (a + x + b)[|a| + i] == x[i];
  }

  lemma NothingBetween<T>(a: seq<T>, b: seq<T>)
    ensures a + [] + b == a + b
  {
  }

  lemma Rejoin<T>(a: seq<T>, l: seq<T>, r: seq<T>, b: seq<T>)
    ensures (a + l) + (r + b) == a + (l + r) + b
  {
  }

  lemma SwapOne<T>(s: seq<T>, i: nat, x: T)
    requires i < |s|
    ensures s[i := x] == s[..i] + [x] + s[i + 1..]
  {
  }
}
