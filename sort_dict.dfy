/**
  `sort_dict_by_value(inputdict)`: list the `(value, key)` pairs, sort them
  ascending, reverse the list and keep the keys. The keys come out by
  descending value, and equal values by descending key.

  Keys are strings compared as Python compares `str` (code point by code
  point, a proper prefix first); values are integers.
 */
module SortByValue {
  import opened Sequences

  /** Python's `<` on `str`. */
  predicate StrLt(a: string, b: string)
  {
    if |a| == 0 then |b| > 0
    else if |b| == 0 then false
    else a[0] < b[0] || (a[0] == b[0] && StrLt(a[1..], b[1..]))
  }

  lemma {:induction false} StrLtIrreflexive(a: string)
    ensures !StrLt(a, a)
  {
    if |a| > 0 {
      StrLtIrreflexive(a[1..]);
    }
  }

  lemma {:induction false} StrLtTransitive(a: string, b: string, c: string)
    requires StrLt(a, b) && StrLt(b, c)
    ensures StrLt(a, c)
  {
    if |a| > 0 && a[0] == b[0] && b[0] == c[0] {
      StrLtTransitive(a[1..], b[1..], c[1..]);
    }
  }

  lemma {:induction false} StrLtTotal(a: string, b: string)
    requires a != b
    ensures StrLt(a, b) || StrLt(b, a)
  {
    if |a| > 0 && |b| > 0 && a[0] == b[0] {
      assert a == [a[0]] + a[1..] && b == [b[0]] + b[1..];
      StrLtTotal(a[1..], b[1..]);
    }
  }

  /** One entry of the list being sorted: `(value, key)`. */
  type Item = (int, string)

  /** Python's `<` on `(value, key)` tuples: by value, then by key. */
  predicate ItemLt(x: Item, y: Item)
  {
    x.0 < y.0 || (x.0 == y.0 && StrLt(x.1, y.1))
  }

  lemma ItemLtAsymmetric(x: Item, y: Item)
    ensures ItemLt(x, y) ==> !ItemLt(y, x)
  {
    if ItemLt(x, y) && ItemLt(y, x) {
      StrLtTransitive(x.1, y.1, x.1);
      StrLtIrreflexive(x.1);
    }
  }

  lemma ItemLtTotal(x: Item, y: Item)
    requires x != y
    ensures ItemLt(x, y) || ItemLt(y, x)
  {
    if x.0 == y.0 {
      StrLtTotal(x.1, y.1);
    }
  }

  lemma ItemLtTransitive(x: Item, y: Item, z: Item)
    requires ItemLt(x, y) && ItemLt(y, z)
    ensures ItemLt(x, z)
  {
    if x.0 == y.0 && y.0 == z.0 {
      StrLtTransitive(x.1, y.1, z.1);
    }
  }

  /** Not-less is transitive, so sorting adjacent pairs sorts the whole list. */
  lemma ItemLeTransitive(x: Item, y: Item, z: Item)
    requires !ItemLt(y, x) && !ItemLt(z, y)
    ensures !ItemLt(z, x)
  {
    if ItemLt(z, x) && x != y {
      ItemLtTotal(x, y);
      ItemLtTransitive(z, x, y);
    }
  }

  /** Ascending, as `list.sort()` leaves it. */
  ghost predicate Sorted(s: seq<Item>)
  {
    forall i, j :: 0 <= i < j < |s| ==> !ItemLt(s[j], s[i])
  }

  lemma {:induction false} AdjacentSorted(s: seq<Item>)
    requires forall k :: 0 < k < |s| ==> !ItemLt(s[k], s[k - 1])
    ensures Sorted(s)
    decreases |s|
  {
    if |s| > 1 {
      var s' := s[..|s| - 1];
      AdjacentSorted(s');
      forall i | 0 <= i < |s| - 1 ensures !ItemLt(s[|s| - 1], s[i]) {
        if i < |s| - 2 {
          assert s'[i] == s[i] && s'[|s| - 2] == s[|s| - 2];
          ItemLeTransitive(s[i], s[|s| - 2], s[|s| - 1]);
        }
      }
    }
  }

  method Swap(a: array<Item>, i: int, j: int)
    requires 0 <= i < a.Length && 0 <= j < a.Length
    modifies a
    ensures a[i] == old(a[j]) && a[j] == old(a[i])
    ensures forall k :: 0 <= k < a.Length && k != i && k != j ==> a[k] == old(a[k])
    ensures multiset(a[..]) == multiset(old(a[..]))
  {
    a[i], a[j] := a[j], a[i];
  }

  /** Sorts the items in place into ascending tuple order. */
  method SortItems(a: array<Item>)
    modifies a
    ensures Sorted(a[..])
    ensures multiset(a[..]) == multiset(old(a[..]))
  {
    var i := 0;
    while i < a.Length
      invariant 0 <= i <= a.Length
      invariant forall k :: 0 < k < i ==> !ItemLt(a[k], a[k - 1])
      invariant multiset(a[..]) == multiset(old(a[..]))
    {
      var j := i;
      while j > 0 && ItemLt(a[j], a[j - 1])
        invariant 0 <= j <= i
        invariant forall k :: 0 < k < j ==> !ItemLt(a[k], a[k - 1])
        invariant forall k :: j < k <= i ==> !ItemLt(a[k], a[k - 1])
        invariant 0 < j < i ==> !ItemLt(a[j + 1], a[j - 1])
        invariant multiset(a[..]) == multiset(old(a[..]))
      {
        ItemLtAsymmetric(a[j], a[j - 1]);
        Swap(a, j - 1, j);
        j := j - 1;
      }
      i := i + 1;
    }
    AdjacentSorted(a[..]);
  }

  /** The items in the opposite order. */
  function Reversed(s: seq<Item>): (t: seq<Item>)
    ensures |t| == |s|
    ensures forall k :: 0 <= k < |s| ==> t[k] == s[|s| - 1 - k]
  {
    seq(|s|, k requires 0 <= k < |s| => s[|s| - 1 - k])
  }

  /** The keys of the items, in order. */
  function KeyColumn(s: seq<Item>): (r: seq<string>)
    ensures |r| == |s|
    ensures forall k :: 0 <= k < |s| ==> r[k] == s[k].1
  {
    seq(|s|, k requires 0 <= k < |s| => s[k].1)
  }

  /** Reverses the items in place. */
  method ReverseItems(a: array<Item>)
    modifies a
    ensures a[..] == Reversed(old(a[..]))
  {
    var i := 0;
    while i < a.Length / 2
      invariant 0 <= i <= a.Length / 2
      invariant forall k :: 0 <= k < i ==> a[k] == old(a[a.Length - 1 - k]) && a[a.Length - 1 - k] == old(a[k])
      invariant forall k :: i <= k < a.Length - i ==> a[k] == old(a[k])
    {
      Swap(a, i, a.Length - 1 - i);
      i := i + 1;
    }
  }

  /** Keeps the key of each item, in order. */
  method Keys(a: array<Item>) returns (r: seq<string>)
    ensures r == KeyColumn(a[..])
  {
    r := [];
    for m := 0 to a.Length
      invariant |r| == m
      invariant forall t :: 0 <= t < m ==> r[t] == a[t].1
    {
      r := r + [a[m].1];
    }
  }

  /** `x` comes before `y`: a larger value, or an equal value and a larger key. */
  ghost predicate Before(d: map<string, int>, x: string, y: string)
    requires x in d && y in d
  {
    d[x] > d[y] || (d[x] == d[y] && StrLt(y, x))
  }

  /** `r` lists every key of `d` exactly once. */
  ghost predicate ListsKeys(d: map<string, int>, r: seq<string>)
  {
    Distinct(r) && |r| == |d| && forall k :: k in r <==> k in d
  }

  /** `r` lists the keys of `d` in descending `(value, key)` order. */
  ghost predicate Descending(d: map<string, int>, r: seq<string>)
    requires forall k :: k in r ==> k in d
  {
    forall i, j :: 0 <= i < j < |r| ==> Before(d, r[i], r[j])
  }

  /** Each item is `(d[k], k)` for a key `k` of `d`. */
  ghost predicate Entries(d: map<string, int>, s: seq<Item>)
  {
    forall m :: 0 <= m < |s| ==> s[m].1 in d && s[m].0 == d[s[m].1]
  }

  /** Every key of `d` has its item in `s`. */
  ghost predicate Covers(d: map<string, int>, s: seq<Item>)
  {
    forall x :: x in d ==> (d[x], x) in s
  }

  /** Sorting rearranges the items and so keeps what they say about `d`. */
  lemma ItemsPermuted(d: map<string, int>, s: seq<Item>, t: seq<Item>)
    requires multiset(s) == multiset(t)
    requires Entries(d, s) && Covers(d, s) && Distinct(s)
    ensures Entries(d, t) && Covers(d, t) && Distinct(t)
  {
    DistinctPermutation(s, t);
    forall m | 0 <= m < |t| ensures t[m].1 in d && t[m].0 == d[t[m].1] {
      assert t[m] in multiset(s);
      var m' :| 0 <= m' < |s| && s[m'] == t[m];
    }
    forall x | x in d ensures (d[x], x) in t {
      assert (d[x], x) in multiset(t);
    }
  }

  /** Reading the keys off the items from the back lists every key once. */
  lemma KeysListed(d: map<string, int>, sorted: seq<Item>)
    requires Entries(d, sorted) && Covers(d, sorted) && Distinct(sorted)
    requires |sorted| == |d|
    ensures ListsKeys(d, KeyColumn(Reversed(sorted)))
  {
    var r := KeyColumn(Reversed(sorted));
    var n := |r|;
    forall x | x in d ensures x in r {
      var m :| 0 <= m < n && sorted[m] == (d[x], x);
      assert r[n - 1 - m] == x;
    }
    forall p, q | 0 <= p < q < n ensures r[p] != r[q] {
      var x, y := sorted[n - 1 - p], sorted[n - 1 - q];
      assert x != y && x.0 == d[x.1] && y.0 == d[y.1];
    }
  }

  /** Reading the keys off the sorted items from the back gives them by
      descending `(value, key)`. */
  lemma KeysDescending(d: map<string, int>, sorted: seq<Item>)
    requires Entries(d, sorted) && Distinct(sorted) && Sorted(sorted)
    ensures forall k :: k in KeyColumn(Reversed(sorted)) ==> k in d
    ensures Descending(d, KeyColumn(Reversed(sorted)))
  {
    var r := KeyColumn(Reversed(sorted));
    var n := |r|;
    forall p, q | 0 <= p < q < n ensures Before(d, r[p], r[q]) {
      var x, y := sorted[n - 1 - p], sorted[n - 1 - q];
      assert !ItemLt(x, y);
      assert x != y;
      ItemLtTotal(x, y);
    }
  }

  /** One `(value, key)` item per key of the dictionary, in whatever order the dictionary yields them. */
  method ListItems(d: map<string, int>) returns (items: array<Item>)
    ensures fresh(items) && items.Length == |d|
    ensures Entries(d, items[..]) && Covers(d, items[..]) && Distinct(items[..])
  {
    var n := |d|;
    items := new Item[n];
    var rest := d.Keys;
    ghost var ks: seq<string> := [];
    var i := 0;
    while rest != {}
      invariant i == |ks| && i + |rest| == n
      invariant rest <= d.Keys
      invariant Distinct(ks)
      invariant forall x :: x in ks <==> x in d && x !in rest
      invariant forall m :: 0 <= m < i ==> ks[m] in d && items[m] == (d[ks[m]], ks[m])
    {
      var k :| k in rest;
      items[i] := (d[k], k);
      ks := ks + [k];
      rest := rest - {k};
      i := i + 1;
    }
    forall x | x in d ensures (d[x], x) in items[..] {
      var m :| 0 <= m < n && ks[m] == x;
      assert items[..][m] == (d[x], x);
    }
    forall p, q | 0 <= p < q < n ensures items[..][p] != items[..][q] {
      assert items[p].1 == ks[p] && items[q].1 == ks[q];
    }
  }

  method SortDictByValue(d: map<string, int>) returns (r: seq<string>)
    ensures ListsKeys(d, r)
    ensures Descending(d, r)
  {
    var items := ListItems(d);
    ghost var listed := items[..];
    // sort ascending
    SortItems(items);
    ghost var sorted := items[..];
    ItemsPermuted(d, listed, sorted);
    // reverse in place
    ReverseItems(items);
    // keep the keys
    r := Keys(items);
    KeysListed(d, sorted);
    KeysDescending(d, sorted);
  }

  /** The result does not depend on the order in which the dictionary lists its items. */
  lemma {:induction false} SortedKeysUnique(d: map<string, int>, r1: seq<string>, r2: seq<string>)
    requires ListsKeys(d, r1) && Descending(d, r1)
    requires ListsKeys(d, r2) && Descending(d, r2)
    ensures r1 == r2
  {
    SameDescendingLists(d, r1, r2);
  }

  lemma {:induction false} SameDescendingLists(d: map<string, int>, r1: seq<string>, r2: seq<string>)
    requires forall k :: k in r1 ==> k in d
    requires forall k :: k in r1 <==> k in r2
    requires Distinct(r1) && Distinct(r2)
    requires Descending(d, r1) && Descending(d, r2)
    ensures r1 == r2
    decreases |r1|
  {
    if r1 != [] {
      assert r1[0] in r1 && r1[0] in r2;
      assert r2 != [] && r2[0] in r2 && r2[0] in r1;
      if r1[0] != r2[0] {
        var i :| 0 <= i < |r1| && r1[i] == r2[0];
        var j :| 0 <= j < |r2| && r2[j] == r1[0];
        assert Before(d, r1[0], r2[0]) && Before(d, r2[0], r1[0]);
        StrLtTransitive(r1[0], r2[0], r1[0]);
        StrLtIrreflexive(r1[0]);
      }
      var t1, t2 := r1[1..], r2[1..];
      assert Distinct(t1) by {
        forall p, q | 0 <= p < q < |t1| ensures t1[p] != t1[q] { assert t1[p] == r1[p + 1] && t1[q] == r1[q + 1]; }
      }
      assert Distinct(t2) by {
        forall p, q | 0 <= p < q < |t2| ensures t2[p] != t2[q] { assert t2[p] == r2[p + 1] && t2[q] == r2[q + 1]; }
      }
      forall k ensures k in t1 <==> k in t2 {
        assert r1 == [r1[0]] + t1 && r2 == [r2[0]] + t2;
        if k in t1 {
          var p :| 0 <= p < |t1| && t1[p] == k;
          assert r1[p + 1] == k && k != r1[0];
          assert k in r2;
        }
        if k in t2 {
          var p :| 0 <= p < |t2| && t2[p] == k;
          assert r2[p + 1] == k && k != r2[0];
          assert k in r1;
        }
      }
      assert Descending(d, t1) by {
        forall p, q | 0 <= p < q < |t1| ensures Before(d, t1[p], t1[q]) { assert t1[p] == r1[p + 1] && t1[q] == r1[q + 1]; }
      }
      assert Descending(d, t2) by {
        forall p, q | 0 <= p < q < |t2| ensures Before(d, t2[p], t2[q]) { assert t2[p] == r2[p + 1] && t2[q] == r2[q + 1]; }
      }
      SameDescendingLists(d, t1, t2);
      assert r1 == [r1[0]] + t1 && r2 == [r2[0]] + t2;
    }
  }
}
