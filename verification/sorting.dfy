/** `OrderBy` on element handles: a stable sort by an integer key.

    LINQ's `OrderBy` is stable, so elements with equal keys keep their
    relative order. The model is an insertion sort that inserts each new
    entry after every entry whose key is not larger, and the lemmas show it
    sorts, permutes and is stable.
 */
module Sorting {

  /** A handle together with the key it is ordered by. */
  datatype Keyed = Keyed(handle: nat, key: int)

  predicate Sorted(s: seq<Keyed>) {
    forall i, j :: 0 <= i < j < |s| ==> s[i].key <= s[j].key
  }

  /** The entries of `s` whose key is `k`, in order. */
  function WithKey(s: seq<Keyed>, k: int): seq<Keyed>
    decreases |s|
  {
    if |s| == 0 then []
    else (if s[0].key == k then [s[0]] else []) + WithKey(s[1..], k)
  }

  /** Where `x` goes in `t`: after the leading entries whose key is at
      most its own. */
  function InsertPos(t: seq<Keyed>, x: Keyed): (p: nat)
    ensures p <= |t|
    ensures forall j :: 0 <= j < p ==> t[j].key <= x.key
    ensures p < |t| ==> x.key < t[p].key
    decreases |t|
  {
    if |t| == 0 || x.key < t[0].key then 0 else 1 + InsertPos(t[1..], x)
  }

  /** `x` inserted into the sorted `t` after every entry with a key at most
      its own. */
  function Insert(t: seq<Keyed>, x: Keyed): (r: seq<Keyed>)
    requires Sorted(t)
    ensures Sorted(r)
    ensures |r| == |t| + 1
  {
    var p := InsertPos(t, x);
    InsertSorted(t, x, p);
    t[..p] + [x] + t[p..]
  }

  /** Splitting a sorted sequence where `x`'s key fits keeps it sorted. */
  lemma {:induction false} InsertSorted(t: seq<Keyed>, x: Keyed, p: nat)
    requires Sorted(t) && p <= |t|
    requires forall j :: 0 <= j < p ==> t[j].key <= x.key
    requires p < |t| ==> x.key < t[p].key
    ensures Sorted(t[..p] + [x] + t[p..])
  {
    var r := t[..p] + [x] + t[p..];
    forall i, j | 0 <= i < j < |r|
      ensures r[i].key <= r[j].key
    {
      if j < p || i > p {
        assert r[i] == t[if i < p then i else i - 1];
        assert r[j] == t[if j < p then j else j - 1];
      } else if i == p {
        assert r[j] == t[j - 1];
      } else if j == p {
        assert r[i] == t[i];
      } else {
        assert r[i] == t[i] && r[j] == t[j - 1];
      }
    }
  }

  /** Insertion adds `x` and keeps every entry of `t`. */
  lemma {:induction false} InsertPermutes(t: seq<Keyed>, x: Keyed)
    requires Sorted(t)
    ensures multiset(Insert(t, x)) == multiset(t) + multiset{x}
  {
    var p := InsertPos(t, x);
    assert t == t[..p] + t[p..];
  }

  /** `OrderBy(key)`: the entries sorted by key, equal keys in input order. */
  function SortByKey(s: seq<Keyed>): (r: seq<Keyed>)
    ensures Sorted(r)
    ensures |r| == |s|
    decreases |s|
  {
    if |s| == 0 then [] else Insert(SortByKey(s[..|s| - 1]), s[|s| - 1])
  }

  /** Sorting keeps every entry, as often as it occurs. */
  lemma {:induction false} SortPermutes(s: seq<Keyed>)
    ensures multiset(SortByKey(s)) == multiset(s)
    decreases |s|
  {
    if |s| > 0 {
      var init := s[..|s| - 1];
      SortPermutes(init);
      InsertPermutes(SortByKey(init), s[|s| - 1]);
      assert s == init + [s[|s| - 1]];
    }
  }

  lemma {:induction false} WithKeyConcat(a: seq<Keyed>, b: seq<Keyed>, k: int)
    ensures WithKey(a + b, k) == WithKey(a, k) + WithKey(b, k)
    decreases |a|
  {
    if |a| == 0 {
      assert a + b == b;
    } else {
      assert (a + b)[0] == a[0] && (a + b)[1..] == a[1..] + b;
      WithKeyConcat(a[1..], b, k);
    }
  }

  /** Every entry of a sorted sequence that precedes the insertion point has
      a key at most the inserted one, so inserting adds `x` at the end of its
      own key class. */
  lemma {:induction false} InsertStable(t: seq<Keyed>, x: Keyed, k: int)
    requires Sorted(t)
    ensures WithKey(Insert(t, x), k) == WithKey(t, k) + (if x.key == k then [x] else [])
  {
    var p := InsertPos(t, x);
    var lo, hi := t[..p], t[p..];
    assert Insert(t, x) == lo + [x] + hi;
    assert t == lo + hi;
    WithKeySplit(lo, x, hi, k);
    WithKeyConcat(lo, hi, k);
    if x.key == k {
      PastInsertPos(t, x);
    }
  }

  /** Past the insertion point of a sorted sequence no entry has `x`'s
      key. */
  lemma {:induction false} PastInsertPos(t: seq<Keyed>, x: Keyed)
    requires Sorted(t)
    ensures WithKey(t[InsertPos(t, x)..], x.key) == []
  {
    var p := InsertPos(t, x);
    var hi := t[p..];
    forall j | 0 <= j < |hi|
      ensures x.key < hi[j].key
    {
      assert hi[j] == t[p + j];
    }
    NoneWithKey(hi, x.key);
  }

  /** The entries with key `k` of `lo + [x] + hi`, piece by piece. */
  lemma {:induction false} WithKeySplit(lo: seq<Keyed>, x: Keyed, hi: seq<Keyed>, k: int)
    ensures WithKey(lo + [x] + hi, k) == WithKey(lo, k) + (if x.key == k then [x] else []) + WithKey(hi, k)
  {
    WithKeyConcat(lo + [x], hi, k);
    WithKeyConcat(lo, [x], k);
    assert [x][1..] == [];
  }

  lemma {:induction false} NoneWithKey(t: seq<Keyed>, k: int)
    requires forall j :: 0 <= j < |t| ==> k < t[j].key
    ensures WithKey(t, k) == []
    decreases |t|
  {
    if |t| > 0 {
      NoneWithKey(t[1..], k);
    }
  }

  /** Stability: for every key, the entries with that key appear in the
      sorted output in the same order as in the input. */
  lemma {:induction false} SortStable(s: seq<Keyed>, k: int)
    ensures WithKey(SortByKey(s), k) == WithKey(s, k)
    decreases |s|
  {
    if |s| > 0 {
      var init := s[..|s| - 1];
      var x := s[|s| - 1];
      assert s == init + [x];
      SortStable(init, k);
      InsertStable(SortByKey(init), x, k);
      WithKeyConcat(init, [x], k);
    }
  }
}
