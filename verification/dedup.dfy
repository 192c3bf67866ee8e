/** Order-preserving removal of duplicates by a key, keeping the first occurrence.
    Both pandas' `drop_duplicates(subset=..., keep="first")` (the scraper, keyed on six
    columns) and `list(dict.fromkeys(...))` (the URL lister, keyed on the whole pair)
    are this operation.
 */
module Dedup {

  /** The keys of the elements of `s`. */
  function KeysOf<T, K>(s: seq<T>, key: T -> K): set<K> {
    set i | 0 <= i < |s| :: key(s[i])
  }

  /** Position `i` of `s` holds the first element with its key. */
  predicate IsFirstOfKey<T, K(==)>(s: seq<T>, key: T -> K, i: int) {
    0 <= i < |s| && forall j :: 0 <= j < i ==> key(s[j]) != key(s[i])
  }

  /** No two elements of `r` share a key. */
  predicate UniqueKeys<T, K(==)>(r: seq<T>, key: T -> K) {
    forall i, j :: 0 <= i < j < |r| ==> key(r[i]) != key(r[j])
  }

  /** `r` is the subsequence of `s` at the strictly increasing positions `idx`. */
  ghost predicate SelectedAt<T>(r: seq<T>, s: seq<T>, idx: seq<int>) {
    && |idx| == |r|
    && (forall k :: 0 <= k < |idx| ==> 0 <= idx[k] < |s| && r[k] == s[idx[k]])
    && (forall k, l :: 0 <= k < l < |idx| ==> idx[k] < idx[l])
  }

  /** The elements of `s` whose key has not been seen earlier in `s`, in their order.
      Stated on the last element: it survives exactly when no earlier element has
      its key. */
  function KeepFirst<T, K(==)>(s: seq<T>, key: T -> K): (r: seq<T>)
    ensures |r| <= |s|
    ensures forall k :: 0 <= k < |r| ==> r[k] in s
  {
    if |s| == 0 then []
    else
      var init := s[..|s| - 1];
      if key(s[|s| - 1]) in KeysOf(init, key) then KeepFirst(init, key)
      else KeepFirst(init, key) + [s[|s| - 1]]
  }

  /** The insertion loop of `dict.fromkeys` / `drop_duplicates`: walk `s` once with a set
      of keys already seen, appending every element whose key is new. */
  method KeepFirstLoop<T, K(==)>(s: seq<T>, key: T -> K) returns (r: seq<T>)
    ensures r == KeepFirst(s, key)
    ensures UniqueKeys(r, key)
  {
    r := [];
    var seen: set<K> := {};
    for i := 0 to |s|
      invariant r == KeepFirst(s[..i], key)
      invariant seen == KeysOf(s[..i], key)
      invariant UniqueKeys(r, key)
      invariant KeysOf(r, key) == seen
    {
      assert s[..i + 1][..i] == s[..i];
      assert KeysOf(s[..i + 1], key) == seen + {key(s[i])};
      if key(s[i]) !in seen {
        KeysOfSnoc(r, s[i], key);
        r := r + [s[i]];
        seen := seen + {key(s[i])};
      }
    }
    assert s[..|s|] == s;
  }

  // ---------------------------------------------------------------------------
  // Properties
  // ---------------------------------------------------------------------------

  lemma KeysOfSnoc<T, K>(s: seq<T>, x: T, key: T -> K)
    ensures KeysOf(s + [x], key) == KeysOf(s, key) + {key(x)}
  {
    var l := KeysOf(s + [x], key);
    var r := KeysOf(s, key) + {key(x)};
    forall k | k in r
      ensures k in l
    {
      if k != key(x) {
        var i :| 0 <= i < |s| && key(s[i]) == k;
        assert (s + [x])[i] == s[i];
      } else {
        assert (s + [x])[|s|] == x;
      }
    }
  }

  /** Every key of the input survives, and no other key appears. */
  lemma {:induction false} KeepFirstKeys<T, K>(s: seq<T>, key: T -> K)
    ensures KeysOf(KeepFirst(s, key), key) == KeysOf(s, key)
    decreases |s|
  {
    if |s| > 0 {
      var init := s[..|s| - 1];
      var last := s[|s| - 1];
      assert s == init + [last];
      KeysOfSnoc(init, last, key);
      KeepFirstKeys(init, key);
      KeysOfSnoc(KeepFirst(init, key), last, key);
    }
  }

  /** No two elements of the output share a key. */
  lemma {:induction false} KeepFirstUnique<T, K>(s: seq<T>, key: T -> K)
    ensures UniqueKeys(KeepFirst(s, key), key)
    decreases |s|
  {
    if |s| > 0 {
      var init := s[..|s| - 1];
      var last := s[|s| - 1];
      var p := KeepFirst(init, key);
      KeepFirstUnique(init, key);
      if key(last) !in KeysOf(init, key) {
        KeepFirstKeys(init, key);
        var r := p + [last];
        forall i, j | 0 <= i < j < |r|
          ensures key(r[i]) != key(r[j])
        {
          if j == |p| {
            assert key(r[i]) in KeysOf(p, key);
          }
        }
      }
    }
  }

  /** On input whose keys are already unique, nothing is removed. */
  lemma {:induction false} KeepFirstOfUnique<T, K>(s: seq<T>, key: T -> K)
    requires UniqueKeys(s, key)
    ensures KeepFirst(s, key) == s
    decreases |s|
  {
    if |s| > 0 {
      var init := s[..|s| - 1];
      var last := s[|s| - 1];
      assert UniqueKeys(init, key);
      KeepFirstOfUnique(init, key);
      assert key(last) !in KeysOf(init, key) by {
        forall i | 0 <= i < |init|
          ensures key(init[i]) != key(last)
        {
          assert init[i] == s[i];
        }
      }
      assert s == init + [last];
    }
  }

  /** Removing duplicates twice is removing them once. */
  lemma KeepFirstIdempotent<T, K>(s: seq<T>, key: T -> K)
    ensures KeepFirst(KeepFirst(s, key), key) == KeepFirst(s, key)
  {
    KeepFirstUnique(s, key);
    KeepFirstOfUnique(KeepFirst(s, key), key);
  }

  /** The output is the subsequence of the input at exactly the positions that hold the
      first element of their key: it is a subsequence, each kept element is the first
      occurrence of its key, and every first occurrence is kept, in input order. */
  lemma {:induction false} KeepFirstPositions<T, K>(s: seq<T>, key: T -> K)
    returns (idx: seq<int>)
    ensures SelectedAt(KeepFirst(s, key), s, idx)
    ensures forall i :: 0 <= i < |s| ==> (i in idx <==> IsFirstOfKey(s, key, i))
    decreases |s|
  {
    if |s| == 0 {
      idx := [];
    } else {
      var n := |s| - 1;
      var init := s[..n];
      var last := s[n];
      var p := KeepFirst(init, key);
      var pidx := KeepFirstPositions(init, key);
      forall i | 0 <= i < n
        ensures IsFirstOfKey(s, key, i) == IsFirstOfKey(init, key, i)
      {
        assert forall j :: 0 <= j <= i ==> s[j] == init[j];
      }
      if key(last) in KeysOf(init, key) {
        idx := pidx;
        var j :| 0 <= j < |init| && key(init[j]) == key(last);
        assert key(s[j]) == key(s[n]);
        assert !IsFirstOfKey(s, key, n);
        assert n !in idx;
      } else {
        idx := pidx + [n];
        assert IsFirstOfKey(s, key, n) by {
          forall j | 0 <= j < n
            ensures key(s[j]) != key(s[n])
          {
            assert s[j] == init[j];
          }
        }
        forall i | 0 <= i < n
          ensures i in idx <==> i in pidx
        {
        }
      }
    }
  }
}
