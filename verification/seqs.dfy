/** Sequences of sequences laid end to end: `"".join(pieces)` on strings, and `pd.concat`
    on row sets.
 */
module Seqs {

  /** The parts end to end, in order, with nothing between them. */
  function Flatten<T>(ss: seq<seq<T>>): seq<T> {
    if |ss| == 0 then [] else ss[0] + Flatten(ss[1..])
  }

  /** Flattening loses no element and adds none: every element of every part is in the
      result, and every element of the result comes from some part. */
  lemma {:induction false} FlattenMembers<T>(ss: seq<seq<T>>)
    ensures forall i, j :: 0 <= i < |ss| && 0 <= j < |ss[i]| ==> ss[i][j] in Flatten(ss)
    ensures forall x :: x in Flatten(ss) ==> exists i :: 0 <= i < |ss| && x in ss[i]
    decreases |ss|
  {
    if |ss| > 0 {
      FlattenMembers(ss[1..]);
      assert forall i :: 1 <= i < |ss| ==> ss[i] == ss[1..][i - 1];
    }
  }

  /** The length of the result is the sum of the parts' lengths: the last part adds its
      length to that of the others. */
  lemma FlattenLength<T>(ss: seq<seq<T>>, last: seq<T>)
    ensures |Flatten(ss + [last])| == |Flatten(ss)| + |last|
  {
    FlattenAppend(ss, [last]);
    FlattenSingle(last);
  }

  /** Flattening distributes over laying two lists of parts end to end. */
  lemma {:induction false} FlattenAppend<T>(a: seq<seq<T>>, b: seq<seq<T>>)
    ensures Flatten(a + b) == Flatten(a) + Flatten(b)
    decreases |a|
  {
    if |a| == 0 {
      assert a + b == b;
    } else {
      assert (a + b)[1..] == a[1..] + b;
      FlattenAppend(a[1..], b);
    }
  }

  /** A one-part list flattens to that part. */
  lemma FlattenSingle<T>(s: seq<T>)
    ensures Flatten([s]) == s
  {
    assert [s][1..] == [];
  }

  /** Regrouping three sequences laid end to end. Stated once here so that proofs about
      text can regroup without searching for it. */
  lemma AppendAssoc<T>(a: seq<T>, b: seq<T>, c: seq<T>)
    ensures a + (b + c) == a + b + c
  {
  }
}
