/** Small facts about slicing and concatenating sequences, stated once so the
    proofs about strings and pages can cite them without re-deriving them. */
module Sequences {

  lemma ConsSplit<T>(s: seq<T>)
    requires s != []
    ensures s == [s[0]] + s[1..]
  {
  }

  lemma TailOfConcat<T>(x: seq<T>, y: seq<T>)
    requires x != []
    ensures (x + y)[0] == x[0]
    ensures (x + y)[1..] == x[1..] + y
  {
  }

  lemma ConsConcat<T>(x: seq<T>, y: seq<T>)
    requires x != []
    ensures [x[0]] + (x[1..] + y) == x + y
  {
    ConsSplit(x);
  }

  lemma DropConcat<T>(a: seq<T>, b: seq<T>)
    ensures (a + b)[|a|..] == b
  {
  }

  lemma DropPrefix<T>(w: seq<T>, c: T, z: seq<T>)
    ensures (w + ([c] + z))[|w| + 1..] == z
  {
    assert (w + ([c] + z))[|w|..] == [c] + z;
  }

  lemma TailNotIn<T>(s: seq<T>, c: T)
    requires s != [] && c !in s
    ensures c !in s[1..]
  {
    ConsSplit(s);
  }

  lemma CutAt<T>(s: seq<T>, k: nat)
    requires k < |s|
    ensures s == s[..k] + [s[k]] + s[k + 1..]
  {
  }

  lemma ThreeParts<T>(s: seq<T>, i: nat, j: nat)
    requires i <= j <= |s|
    ensures s == s[..i] + s[i..j] + s[j..]
  {
  }

  lemma EmptyConcat<T>(a: seq<T>, b: seq<T>)
    requires a == []
    ensures a + b == b
  {
  }

  lemma Snoc3<T>(a: seq<T>, b: seq<T>, c: seq<T>, x: T)
    ensures a + b + c + [x] == a + b + (c + [x])
  {
  }

  lemma Regroup<T>(w1: seq<T>, a: seq<T>, t: seq<T>, b: seq<T>, w2: seq<T>)
    ensures w1 + (a + t + b) + w2 == (w1 + a) + t + (b + w2)
  {
  }
}
