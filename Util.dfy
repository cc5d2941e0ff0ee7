/** An optional value, and facts about slices of sequences. */
module Util {

  datatype Option<T> = None | Some(value: T)

  // Facts about slices of sequences, proved apart from the contexts that
  // use them (where the matcher's contract makes them costly).

  lemma SlicesOfAppendLeft<T>(a: seq<T>, b: seq<T>, k: nat)
    requires k <= |a|
    ensures (a + b)[..k] == a[..k]
    ensures (a + b)[k..] == a[k..] + b
  {
  }

  lemma SlicesOfAppendRight<T>(a: seq<T>, b: seq<T>, k: nat)
    requires k <= |b|
    ensures (a + b)[..|a| + k] == a + b[..k]
    ensures (a + b)[|a| + k..] == b[k..]
  {
  }

  lemma SlicesWhole<T>(a: seq<T>)
    ensures a[..|a|] == a
    ensures a[|a|..] == []
  {
  }

  lemma SliceSplit<T>(a: seq<T>, k: nat)
    requires k <= |a|
    ensures a == a[..k] + a[k..]
  {
  }

  lemma AppendAssoc<T>(a: seq<T>, b: seq<T>, c: seq<T>)
    ensures (a + b) + c == a + (b + c)
  {
  }
}
