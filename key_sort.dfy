/**
 * `uksort_recursive` of the backend module: PHP's `uksort` on an array,
 * then the same on every element that is itself an array, through a
 * reference to it. The comparator (`strnatcmp` where the module calls it)
 * is abstract: any function that orders keys as a total preorder.
 */
module KeySort {

  /** An element of a PHP array as the sort sees it: a scalar it never looks into, or a nested array. */
  datatype Item = Scalar(text: string) | Nested(entries: seq<Entry>)

  /** One key/element pair, in the array's order. */
  datatype Entry = Entry(key: string, item: Item)

  /** The comparator lets `x` come before `y`. */
  predicate Le(cmp: (string, string) -> int, x: string, y: string) {
    cmp(x, y) <= 0
  }

  /** The comparator must order keys totally and transitively. */
  ghost predicate TotalPreorder(cmp: (string, string) -> int) {
    && (forall x, y :: Le(cmp, x, y) || Le(cmp, y, x))
    && (forall x, y, z :: Le(cmp, x, y) && Le(cmp, y, z) ==> Le(cmp, x, z))
  }

  predicate SortedByKey(s: seq<Entry>, cmp: (string, string) -> int) {
    forall p, q :: 0 <= p < q < |s| ==> Le(cmp, s[p].key, s[q].key)
  }

  /** Sorted by key at this level and inside every nested array. */
  predicate DeepSorted(s: seq<Entry>, cmp: (string, string) -> int)
    decreases s
  {
    && SortedByKey(s, cmp)
    && forall i :: 0 <= i < |s| && s[i].item.Nested? ==> DeepSorted(s[i].item.entries, cmp)
  }

  /**
   * `r` is `t` rearranged: the entries of `t` in some order, each keeping
   * its key, a scalar kept as it is, a nested array itself rearranged.
   */
  ghost predicate Resorted(t: seq<Entry>, r: seq<Entry>, cmp: (string, string) -> int)
    decreases t, 2
  {
    exists s: seq<Entry> :: RearrangedVia(t, s, r, cmp)
  }

  /** `s` is `t` in another order, and `r` is `s` with every element itself rearranged. */
  ghost predicate RearrangedVia(t: seq<Entry>, s: seq<Entry>, r: seq<Entry>, cmp: (string, string) -> int)
    decreases t, 1
  {
    && multiset(s) == multiset(t) && |s| == |r|
    && forall i :: 0 <= i < |s| ==> s[i] in t && r[i].key == s[i].key && ItemResorted(s[i].item, r[i].item, cmp)
  }

  ghost predicate ItemResorted(a: Item, b: Item, cmp: (string, string) -> int)
    decreases a, 3
  {
    match a
    case Scalar(_) => b == a
    case Nested(entries) => b.Nested? && Resorted(entries, b.entries, cmp)
  }

  /** While the element at `j` moves left: the first `i + 1` elements are sorted apart from the one at `j`. */
  predicate SortedExcept(s: seq<Entry>, i: nat, j: nat, cmp: (string, string) -> int)
    requires i < |s|
  {
    forall p, q :: 0 <= p < q <= i && p != j && q != j ==> Le(cmp, s[p].key, s[q].key)
  }

  /** ... and the element at `j` may come before every element after it, up to `i`. */
  predicate BeforeRest(s: seq<Entry>, i: nat, j: nat, cmp: (string, string) -> int)
    requires j <= i < |s|
  {
    forall q :: j < q <= i ==> Le(cmp, s[j].key, s[q].key)
  }

  lemma InsertStart(s: seq<Entry>, i: nat, cmp: (string, string) -> int)
    requires i < |s| && SortedByKey(s[..i], cmp)
    ensures SortedExcept(s, i, i, cmp) && BeforeRest(s, i, i, cmp)
  {
    assert forall p :: 0 <= p < i ==> s[..i][p] == s[p];
  }

  /** Swapping the moving element with a larger left neighbour keeps both facts, one place further left. */
  lemma SwapStep(s: seq<Entry>, i: nat, j: nat, cmp: (string, string) -> int)
    requires TotalPreorder(cmp)
    requires 0 < j <= i < |s|
    requires SortedExcept(s, i, j, cmp) && BeforeRest(s, i, j, cmp)
    requires !Le(cmp, s[j - 1].key, s[j].key)
    ensures var t := s[j - 1 := s[j]][j := s[j - 1]];
            SortedExcept(t, i, j - 1, cmp) && BeforeRest(t, i, j - 1, cmp) && multiset(t) == multiset(s)
  {
    var t := s[j - 1 := s[j]][j := s[j - 1]];
    assert Le(cmp, s[j].key, s[j - 1].key);
    forall p, q | 0 <= p < q <= i && p != j - 1 && q != j - 1
      ensures Le(cmp, t[p].key, t[q].key)
    {
      if p == j {
        assert t[p] == s[j - 1] && t[q] == s[q];
      } else if q == j {
        assert t[p] == s[p] && t[q] == s[j - 1];
      }
    }
  }

  /** Once the moving element stops, the first `i + 1` elements are sorted. */
  lemma InsertDone(s: seq<Entry>, i: nat, j: nat, cmp: (string, string) -> int)
    requires TotalPreorder(cmp)
    requires j <= i < |s|
    requires SortedExcept(s, i, j, cmp) && BeforeRest(s, i, j, cmp)
    requires j == 0 || Le(cmp, s[j - 1].key, s[j].key)
    ensures SortedByKey(s[..i + 1], cmp)
  {
    forall p, q | 0 <= p < q <= i
      ensures Le(cmp, s[p].key, s[q].key)
    {
      if q == j && p < j - 1 {
        assert Le(cmp, s[p].key, s[j - 1].key);
      }
    }
  }

  /**
   * One step of the sort: the element at `i` moves left past the larger
   * keys before it, so that the first `i + 1` elements are sorted.
   */
  method InsertAt(a: array<Entry>, i: nat, cmp: (string, string) -> int)
    requires TotalPreorder(cmp)
    requires i < a.Length
    requires SortedByKey(a[..i], cmp)
    modifies a
    ensures SortedByKey(a[..i + 1], cmp)
    ensures multiset(a[..]) == multiset(old(a[..]))
  {
    var j := i;
    InsertStart(a[..], i, cmp);
    assert a[..][..i] == a[..i];
    while j > 0 && cmp(a[j - 1].key, a[j].key) > 0
      invariant 0 <= j <= i
      invariant multiset(a[..]) == multiset(old(a[..]))
      invariant SortedExcept(a[..], i, j, cmp) && BeforeRest(a[..], i, j, cmp)
    {
      ghost var s := a[..];
      SwapStep(s, i, j, cmp);
      a[j - 1], a[j] := a[j], a[j - 1];
      assert a[..] == s[j - 1 := s[j]][j := s[j - 1]];
      j := j - 1;
    }
    InsertDone(a[..], i, j, cmp);
    assert a[..][..i + 1] == a[..i + 1];
  }

  /** `uksort`: sorts the array by key in place and reports success. */
  method UkSort(a: array<Entry>, cmp: (string, string) -> int) returns (ret: bool)
    requires TotalPreorder(cmp)
    modifies a
    ensures ret
    ensures SortedByKey(a[..], cmp)
    ensures multiset(a[..]) == multiset(old(a[..]))
  {
    for i := 0 to a.Length
      invariant SortedByKey(a[..i], cmp)
      invariant multiset(a[..]) == multiset(old(a[..]))
    {
      InsertAt(a, i, cmp);
    }
    assert a[..a.Length] == a[..];
    ret := true;
  }

  /** `e` is `s` after the recursive pass: same key, element rearranged, nested array sorted. */
  ghost predicate EntryResorted(s: Entry, e: Entry, cmp: (string, string) -> int) {
    && e.key == s.key
    && ItemResorted(s.item, e.item, cmp)
    && (e.item.Nested? ==> DeepSorted(e.item.entries, cmp))
  }

  /** The first `|done|` entries of `sorted` have been through the recursive pass. */
  ghost predicate PrefixResorted(sorted: seq<Entry>, done: seq<Entry>, cmp: (string, string) -> int) {
    && |done| <= |sorted|
    && forall k :: 0 <= k < |done| ==> EntryResorted(sorted[k], done[k], cmp)
  }

  lemma PrefixResortedExtend(sorted: seq<Entry>, done: seq<Entry>, e: Entry, cmp: (string, string) -> int)
    requires PrefixResorted(sorted, done, cmp) && |done| < |sorted|
    requires EntryResorted(sorted[|done|], e, cmp)
    ensures PrefixResorted(sorted, done + [e], cmp)
  {
  }

  /** A scalar passes through unchanged. */
  lemma ScalarResorted(s: Entry, cmp: (string, string) -> int)
    requires s.item.Scalar?
    ensures EntryResorted(s, s, cmp)
  {
  }

  /** After the pass over a sorted rearrangement of `before`, the whole array is sorted and rearranged. */
  lemma PassDone(before: seq<Entry>, sorted: seq<Entry>, r: seq<Entry>, cmp: (string, string) -> int)
    requires multiset(sorted) == multiset(before) && SortedByKey(sorted, cmp)
    requires PrefixResorted(sorted, r, cmp) && |r| == |sorted|
    ensures DeepSorted(r, cmp)
    ensures Resorted(before, r, cmp)
  {
    forall k | 0 <= k < |sorted|
      ensures sorted[k] in before
    {
      assert sorted[k] in multiset(sorted);
    }
    assert RearrangedVia(before, sorted, r, cmp);
  }

  /** The keys of an array, in order. */
  function Keys(s: seq<Entry>): (ks: seq<string>)
    ensures |ks| == |s| && forall i :: 0 <= i < |s| ==> ks[i] == s[i].key
  {
    seq(|s|, i requires 0 <= i < |s| => s[i].key)
  }

  /** Taking the same element out of two rearrangements of each other leaves rearrangements. */
  lemma RemoveMatching<T>(s: seq<T>, t: seq<T>, k: nat)
    requires multiset(s) == multiset(t) && |s| > 0 && k < |t| && t[k] == s[0]
    ensures multiset(s[1..]) == multiset(t[..k] + t[k + 1..])
  {
    var rest := t[..k] + t[k + 1..];
    assert s == [s[0]] + s[1..];
    assert multiset(s) == multiset{s[0]} + multiset(s[1..]);
    assert t == t[..k] + [t[k]] + t[k + 1..];
    assert multiset(t) == multiset(t[..k]) + multiset{t[k]} + multiset(t[k + 1..]);
    assert multiset(rest) == multiset(t[..k]) + multiset(t[k + 1..]);
    assert multiset(s[1..]) == multiset(s) - multiset{s[0]};
    assert multiset(rest) == multiset(t) - multiset{t[k]};
  }

  lemma KeysAppend(a: seq<Entry>, b: seq<Entry>)
    ensures Keys(a + b) == Keys(a) + Keys(b)
  {
    assert forall i :: 0 <= i < |a + b| ==> Keys(a + b)[i] == (Keys(a) + Keys(b))[i];
  }

  lemma RemoveHead<T>(s: seq<T>, t: seq<T>)
    requires multiset(s) == multiset(t) && |s| > 0 && |t| > 0 && t[0] == s[0]
    ensures multiset(s[1..]) == multiset(t[1..])
  {
    RemoveMatching(s, t, 0);
    assert t[..0] + t[1..] == t[1..];
  }

  /** How often each key occurs in an array. */
  function KeyCount(s: seq<Entry>): multiset<string> {
    multiset(Keys(s))
  }

  lemma KeyCountAppend(a: seq<Entry>, b: seq<Entry>)
    ensures KeyCount(a + b) == KeyCount(a) + KeyCount(b)
  {
    KeysAppend(a, b);
  }

  /** Rearranging entries rearranges their keys. */
  lemma {:induction false} KeysOfRearrangement(s: seq<Entry>, t: seq<Entry>)
    requires multiset(s) == multiset(t)
    ensures KeyCount(s) == KeyCount(t)
    decreases |s|
  {
    if s != [] {
      var x := s[0];
      assert x in multiset(t);
      var k :| 0 <= k < |t| && t[k] == x;
      var front, back := t[..k], t[k + 1..];
      RemoveMatching(s, t, k);
      KeysOfRearrangement(s[1..], front + back);
      assert t == front + ([x] + back);
      assert s == [x] + s[1..];
      KeyCountAppend(front, [x] + back);
      KeyCountAppend([x], back);
      KeyCountAppend(front, back);
      KeyCountAppend([x], s[1..]);
    }
  }

  /** The pass keeps the array's keys, each as often as before. */
  lemma ResortedKeepsKeys(t: seq<Entry>, r: seq<Entry>, cmp: (string, string) -> int)
    requires Resorted(t, r, cmp)
    ensures multiset(Keys(r)) == multiset(Keys(t))
  {
    var s: seq<Entry> :| RearrangedVia(t, s, r, cmp);
    assert Keys(r) == Keys(s);
    KeysOfRearrangement(s, t);
  }

  /** No two entries share a key, as in every PHP array. */
  predicate DistinctKeys(s: seq<Entry>) {
    forall i, j :: 0 <= i < j < |s| ==> s[i].key != s[j].key
  }

  /** The comparator ties no two distinct keys. */
  ghost predicate Antisymmetric(cmp: (string, string) -> int) {
    forall x, y :: Le(cmp, x, y) && Le(cmp, y, x) ==> x == y
  }

  lemma TailKeepsOrder(s: seq<Entry>, cmp: (string, string) -> int)
    requires |s| > 0 && SortedByKey(s, cmp) && DistinctKeys(s)
    ensures SortedByKey(s[1..], cmp) && DistinctKeys(s[1..])
  {
  }

  lemma SameHeadSameTail<T>(s: seq<T>, t: seq<T>)
    requires |s| > 0 && |t| > 0 && s[0] == t[0] && s[1..] == t[1..]
    ensures s == t
  {
    assert s == [s[0]] + s[1..] && t == [t[0]] + t[1..];
  }

  /**
   * With distinct keys and a comparator that ties no two of them, there is
   * only one sorted order: the result of `uksort` is determined.
   */
  lemma {:induction false} SortedRearrangementUnique(s: seq<Entry>, t: seq<Entry>, cmp: (string, string) -> int)
    requires Antisymmetric(cmp)
    requires multiset(s) == multiset(t)
    requires SortedByKey(s, cmp) && SortedByKey(t, cmp)
    requires DistinctKeys(s)
    ensures s == t
    decreases |s|
  {
    if s == [] {
      assert |multiset(t)| == 0;
    } else {
      assert s[0] in multiset(t);
      var k :| 0 <= k < |t| && t[k] == s[0];
      assert t[0] in multiset(s);
      var m :| 0 <= m < |s| && s[m] == t[0];
      assert m == 0 by {
        if m != 0 {
          assert false;
        }
      }
      RemoveHead(s, t);
      TailKeepsOrder(s, cmp);
      assert SortedByKey(t[1..], cmp);
      SortedRearrangementUnique(s[1..], t[1..], cmp);
      SameHeadSameTail(s, t);
    }
  }

  /**
   * `uksort_recursive`: sorts the array, then every nested array through
   * a reference to it; the array ends up sorted at every level and holds
   * what it held before.
   */
  method UksortRecursive(a: array<Entry>, cmp: (string, string) -> int) returns (ret: bool)
    requires TotalPreorder(cmp)
    modifies a
    decreases a[..], 1
    ensures ret
    ensures DeepSorted(a[..], cmp)
    ensures Resorted(old(a[..]), a[..], cmp)
  {
    ghost var before := a[..];
    ret := UkSort(a, cmp);
    ghost var sorted := a[..];
    assert multiset(sorted) == multiset(before);
    for i := 0 to a.Length
      invariant a.Length == |sorted|
      invariant PrefixResorted(sorted, a[..i], cmp)
      invariant a[i..] == sorted[i..]
    {
      ghost var done := a[..i];
      assert a[i] == sorted[i];
      if a[i].item.Nested? {
        assert sorted[i] in multiset(sorted);
        a[i] := ResortNested(a[i], cmp);
      } else {
        ScalarResorted(a[i], cmp);
      }
      PrefixResortedExtend(sorted, done, a[i], cmp);
      assert a[..i + 1] == done + [a[i]];
      assert a[i + 1..] == sorted[i + 1..];
    }
    assert a[..a.Length] == a[..];
    PassDone(before, sorted, a[..], cmp);
  }

  /** The recursive call on one nested array, which PHP makes on the element through its reference. */
  method ResortNested(e: Entry, cmp: (string, string) -> int) returns (r: Entry)
    requires TotalPreorder(cmp)
    requires e.item.Nested?
    decreases e.item.entries, 2
    ensures EntryResorted(e, r, cmp)
  {
    var entries := e.item.entries;
    var inner := new Entry[|entries|](k requires 0 <= k < |entries| => entries[k]);
    assert inner[..] == entries;
    var _ := UksortRecursive(inner, cmp);
    r := Entry(e.key, Nested(inner[..]));
  }
}
