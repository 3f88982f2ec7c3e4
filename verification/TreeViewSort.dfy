// The heap sort of the tree view (WTView.c).  It works on the entries 1 .. Count and moves
// only their Ord fields: entry i of the sorted order is the record a[a[i].Ord].

module TreeViewSort {
  import opened HeapOrder

  // What children are compared by: their texts, or their lParams when the client compares.
  datatype SortKey = SortKey(szText: string, lParam: int)

  datatype SortItem = SortItem(key: SortKey, hItem: int, Ord: int)

  function Ords(s: seq<SortItem>): (o: seq<int>)
    ensures |o| == |s| && forall i :: 0 <= i < |s| ==> o[i] == s[i].Ord
  {
    seq(|s|, i requires 0 <= i < |s| => s[i].Ord)
  }

  function KeyAt(s: seq<SortItem>, x: int): SortKey
  {
    if 0 <= x < |s| then s[x].key else SortKey("", 0)
  }

  // Comparing two Ord values compares the keys of their records.
  function ByKey(s: seq<SortItem>, compare: (SortKey, SortKey) -> int): (int, int) -> int
  {
    (x: int, y: int) => compare(KeyAt(s, x), KeyAt(s, y))
  }

  // The records themselves are the same; only Ord may differ.
  ghost predicate SameRecords(s: seq<SortItem>, u: seq<SortItem>)
  {
    |s| == |u| && forall i :: 0 <= i < |s| ==> u[i].key == s[i].key && u[i].hItem == s[i].hItem
  }

  // The Ord fields of the entries 1 .. count point to entries 1 .. count.
  ghost predicate InRange(s: seq<SortItem>, count: int)
  {
    0 <= count < |s| && forall i :: 1 <= i <= count ==> 1 <= s[i].Ord <= count
  }

  lemma OrdersByKey(s: seq<SortItem>, compare: (SortKey, SortKey) -> int)
    requires Orders(compare)
    ensures Orders(ByKey(s, compare))
  {
    var cmp := ByKey(s, compare);
    forall x, y ensures cmp(x, y) >= 0 || cmp(y, x) >= 0 {
      assert cmp(x, y) == compare(KeyAt(s, x), KeyAt(s, y));
    }
    forall x, y, z | cmp(x, y) >= 0 && cmp(y, z) >= 0 ensures cmp(x, z) >= 0 {
      assert compare(KeyAt(s, x), KeyAt(s, y)) >= 0 && compare(KeyAt(s, y), KeyAt(s, z)) >= 0;
    }
  }

  lemma CompareRecords(recs: seq<SortItem>, s: seq<SortItem>, compare: (SortKey, SortKey) -> int, x: int, y: int)
    requires SameRecords(recs, s) && 0 <= x < |s| && 0 <= y < |s|
    ensures ByKey(recs, compare)(x, y) == compare(s[x].key, s[y].key)
  {
    assert KeyAt(recs, x) == s[x].key && KeyAt(recs, y) == s[y].key;
  }

  // The state of a sift: entry k is the hole for v, and o is the order with the hole filled.
  ghost predicate Sifting(recs: seq<SortItem>, s: seq<SortItem>, count: int, k: int, v: SortItem, o: seq<int>)
  {
    SameRecords(recs, s) && InRange(s, count) && 1 <= k <= count &&
    1 <= v.Ord <= count && v.key == s[v.Ord].key && Ords(s)[k := v.Ord] == o
  }

  lemma SiftStart(recs: seq<SortItem>, s: seq<SortItem>, count: int, k: int, v: SortItem, o: seq<int>)
    requires SameRecords(recs, s) && InRange(s, count) && 1 <= k <= count
    requires v == s[s[k].Ord].(Ord := s[k].Ord) && o == Ords(s)
    ensures Sifting(recs, s, count, k, v, o)
  {
  }

  lemma SiftAt(recs: seq<SortItem>, s: seq<SortItem>, count: int, k: int, v: SortItem, o: seq<int>, i: int,
               compare: (SortKey, SortKey) -> int)
    requires Sifting(recs, s, count, k, v, o) && 1 <= i <= count && i != k
    ensures count < |s| == |o| && 1 <= s[i].Ord <= count && o[i] == s[i].Ord && o[k] == v.Ord
    ensures ByKey(recs, compare)(o[k], o[i]) == compare(v.key, s[s[i].Ord].key)
    ensures i < count && i + 1 != k ==> 1 <= s[i + 1].Ord <= count && o[i + 1] == s[i + 1].Ord
    ensures i < count && i + 1 != k ==>
      ByKey(recs, compare)(o[i], o[i + 1]) == compare(s[s[i].Ord].key, s[s[i + 1].Ord].key)
  {
    CompareRecords(recs, s, compare, v.Ord, s[i].Ord);
    if i < count {
      CompareRecords(recs, s, compare, s[i].Ord, s[i + 1].Ord);
    }
  }

  lemma SiftMove(recs: seq<SortItem>, s: seq<SortItem>, count: int, k: int, v: SortItem, o: seq<int>, j: int)
    requires Sifting(recs, s, count, k, v, o) && 1 <= j <= count && j != k
    ensures count < |s| == |o|
    ensures Sifting(recs, s[k := s[k].(Ord := s[j].Ord)], count, j, v, Swap(o, k, j))
  {
  }

  lemma SiftEnd(recs: seq<SortItem>, s: seq<SortItem>, count: int, k: int, v: SortItem, o: seq<int>)
    requires Sifting(recs, s, count, k, v, o)
    ensures count < |s|
    ensures var u := s[k := s[k].(Ord := v.Ord)];
            SameRecords(recs, u) && InRange(u, count) && Ords(u) == o
  {
  }

  // The choice of the sift: the larger child of entry k, and whether v stays above it.
  method LargerChild(a: array<SortItem>, n: int, k: int, v: SortItem, ghost recs: seq<SortItem>, ghost count: int,
                     ghost o: seq<int>, compare: (SortKey, SortKey) -> int) returns (j: int, stop: bool)
    requires Orders(ByKey(recs, compare)) && 1 <= k <= n / 2 && n <= count
    requires Sifting(recs, a[..], count, k, v, o)
    ensures |o| == a.Length && k < j <= n && n < |o| && j / 2 == k
    ensures forall i | k < i <= n && i / 2 == k :: ByKey(recs, compare)(o[j], o[i]) >= 0
    ensures stop <==> ByKey(recs, compare)(o[k], o[j]) >= 0
  {
    hide Orders, ByKey, SameRecords;
    j := k + k;
    SiftAt(recs, a[..], count, k, v, o, j, compare);
    if j < n && compare(a[a[j].Ord].key, a[a[j + 1].Ord].key) < 0 {
      j := j + 1;
      SiftAt(recs, a[..], count, k, v, o, j, compare);
    }
    Child(o, ByKey(recs, compare), n, k, j);
    stop := compare(v.key, a[a[j].Ord].key) >= 0;
  }

  // TView_IDownHeapCB and TView_IDownHeap: sifts entry k down in the heap 1 .. n.
  method DownHeap(a: array<SortItem>, n: int, k0: int, ghost recs: seq<SortItem>, ghost count: int,
                  compare: (SortKey, SortKey) -> int)
    requires Orders(ByKey(recs, compare)) && 1 <= k0 <= n <= count < a.Length
    requires SameRecords(recs, a[..]) && InRange(a[..], count)
    requires HeapBut(Ords(a[..]), ByKey(recs, compare), k0, n, k0)
    requires Bridge(Ords(a[..]), ByKey(recs, compare), k0, n, k0)
    modifies a
    ensures SameRecords(recs, a[..]) && InRange(a[..], count)
    ensures Heap(Ords(a[..]), ByKey(recs, compare), k0, n)
    ensures multiset(Ords(a[..])) == old(multiset(Ords(a[..])))
    ensures forall i :: 0 <= i < a.Length && (i < k0 || n < i) ==> a[i] == old(a[i])
  {
    hide Orders, HeapBut, Bridge, Heap, SameRecords, ByKey, Sifting;
    var k := k0;
    var v := a[a[k].Ord].(Ord := a[k].Ord);
    ghost var cmp := ByKey(recs, compare);
    ghost var o := Ords(a[..]);
    SiftStart(recs, a[..], count, k, v, o);
    while k <= n / 2
      invariant k0 <= k <= n && |o| == a.Length
      invariant Sifting(recs, a[..], count, k, v, o)
      invariant HeapBut(o, cmp, k0, n, k) && Bridge(o, cmp, k0, n, k)
      invariant multiset(o) == old(multiset(Ords(a[..])))
      invariant forall i :: 0 <= i < a.Length && (i < k0 || n < i) ==> a[i] == old(a[i])
      decreases n - k
    {
      ghost var s := a[..];
      var j, stop := LargerChild(a, n, k, v, recs, count, o, compare);
      if stop {
        NotLess(o, cmp, n, k, j);
        break;
      }
      MoveDown(o, cmp, k0, n, k, j);
      SwapPermutes(o, k, j);
      SiftMove(recs, s, count, k, v, o, j);
      a[k] := a[k].(Ord := a[j].Ord);
      assert a[..] == s[k := s[k].(Ord := s[j].Ord)];
      o := Swap(o, k, j);
      k := j;
    }
    FillHole(o, cmp, k0, n, k);
    ghost var s := a[..];
    SiftEnd(recs, s, count, k, v, o);
    a[k] := a[k].(Ord := v.Ord);
    assert a[..] == s[k := s[k].(Ord := v.Ord)];
  }

  // The first loop of TView_IDoHeapSort.
  method BuildHeap(a: array<SortItem>, count: int, ghost recs: seq<SortItem>, compare: (SortKey, SortKey) -> int)
    requires Orders(ByKey(recs, compare)) && 1 <= count < a.Length
    requires SameRecords(recs, a[..]) && InRange(a[..], count)
    modifies a
    ensures SameRecords(recs, a[..]) && InRange(a[..], count)
    ensures Heap(Ords(a[..]), ByKey(recs, compare), 1, count)
    ensures multiset(Ords(a[..])) == old(multiset(Ords(a[..])))
    ensures forall i :: 0 <= i < a.Length && (i < 1 || count < i) ==> a[i] == old(a[i])
  {
    hide Orders, HeapBut, Bridge, Heap, ByKey, SameRecords;
    ghost var cmp := ByKey(recs, compare);
    var k := count / 2;
    NoEdges(Ords(a[..]), cmp, k + 1, count);
    while k >= 1
      invariant 0 <= k <= count / 2
      invariant SameRecords(recs, a[..]) && InRange(a[..], count)
      invariant Heap(Ords(a[..]), cmp, k + 1, count)
      invariant multiset(Ords(a[..])) == old(multiset(Ords(a[..])))
      invariant forall i :: 0 <= i < a.Length && (i < 1 || count < i) ==> a[i] == old(a[i])
    {
      OneParentMore(Ords(a[..]), cmp, k, count);
      DownHeap(a, count, k, recs, count, compare);
      k := k - 1;
    }
  }

  // One round of the second loop: the greatest entry of the heap moves behind it.
  method MoveGreatest(a: array<SortItem>, n: int, count: int, ghost recs: seq<SortItem>,
                      compare: (SortKey, SortKey) -> int)
    requires Orders(ByKey(recs, compare)) && 1 < n <= count < a.Length
    requires SameRecords(recs, a[..]) && InRange(a[..], count)
    requires Heap(Ords(a[..]), ByKey(recs, compare), 1, n)
    requires TailSorted(Ords(a[..]), ByKey(recs, compare), 1, n + 1, count)
    modifies a
    ensures SameRecords(recs, a[..]) && InRange(a[..], count)
    ensures Heap(Ords(a[..]), ByKey(recs, compare), 1, n - 1)
    ensures TailSorted(Ords(a[..]), ByKey(recs, compare), 1, n, count)
    ensures multiset(Ords(a[..])) == old(multiset(Ords(a[..])))
    ensures forall i :: 0 <= i < a.Length && (i < 1 || count < i) ==> a[i] == old(a[i])
  {
    hide Orders, HeapBut, Bridge, Heap, TailSorted, ByKey;
    ghost var cmp, s := ByKey(recs, compare), a[..];
    Extract(Ords(s), cmp, 1, n, count);
    Exchange(a, n, count, recs);
    ghost var u := a[..];
    DownHeap(a, n - 1, 1, recs, count, compare);
    TailAfterSift(Ords(u), Ords(a[..]), cmp, 1, n - 1, count);
  }

  method Exchange(a: array<SortItem>, n: int, count: int, ghost recs: seq<SortItem>)
    requires 1 < n <= count < a.Length && SameRecords(recs, a[..]) && InRange(a[..], count)
    modifies a
    ensures SameRecords(recs, a[..]) && InRange(a[..], count)
    ensures Ords(a[..]) == Swap(old(Ords(a[..])), 1, n)
    ensures multiset(Ords(a[..])) == old(multiset(Ords(a[..])))
    ensures forall i :: 0 <= i < a.Length && i != 1 && i != n ==> a[i] == old(a[i])
  {
    ghost var s := a[..];
    SwapPermutes(Ords(s), 1, n);
    var k := a[1].Ord;
    a[1] := a[1].(Ord := a[n].Ord);
    a[n] := a[n].(Ord := k);
    assert a[..] == s[1 := s[1].(Ord := s[n].Ord)][n := s[n].(Ord := s[1].Ord)];
  }

  // TView_IDoHeapSort: orders the entries 1 .. count.
  method DoHeapSort(a: array<SortItem>, count: int, compare: (SortKey, SortKey) -> int)
    requires Orders(compare) && 1 <= count < a.Length && InRange(a[..], count)
    modifies a
    ensures SameRecords(old(a[..]), a[..]) && InRange(a[..], count)
    ensures forall i, j :: 1 <= i < j <= count ==> compare(a[a[j].Ord].key, a[a[i].Ord].key) >= 0
    ensures multiset(Ords(a[..])) == old(multiset(Ords(a[..])))
    ensures forall i :: 0 <= i < a.Length && (i < 1 || count < i) ==> a[i] == old(a[i])
  {
    hide Orders, Heap, TailSorted, ByKey, SameRecords;
    ghost var recs := a[..];
    ghost var cmp := ByKey(recs, compare);
    OrdersByKey(recs, compare);
    SameAsItself(recs);
    BuildHeap(a, count, recs, compare);
    var n := count;
    NoTail(Ords(a[..]), cmp, 1, count);
    while n > 1
      invariant 1 <= n <= count
      invariant SameRecords(recs, a[..]) && InRange(a[..], count)
      invariant Heap(Ords(a[..]), cmp, 1, n) && TailSorted(Ords(a[..]), cmp, 1, n + 1, count)
      invariant multiset(Ords(a[..])) == old(multiset(Ords(a[..])))
      invariant forall i :: 0 <= i < a.Length && (i < 1 || count < i) ==> a[i] == old(a[i])
    {
      MoveGreatest(a, n, count, recs, compare);
      n := n - 1;
    }
    AllTail(Ords(a[..]), cmp, 1, count);
    SortedRecords(recs, a[..], count, compare);
  }

  lemma SameAsItself(s: seq<SortItem>)
    ensures SameRecords(s, s)
  {
  }

  lemma SortedRecords(recs: seq<SortItem>, s: seq<SortItem>, count: int, compare: (SortKey, SortKey) -> int)
    requires SameRecords(recs, s) && InRange(s, count)
    requires forall i, j | 1 <= i < j <= count :: ByKey(recs, compare)(Ords(s)[j], Ords(s)[i]) >= 0
    ensures forall i, j :: 1 <= i < j <= count ==> compare(s[s[j].Ord].key, s[s[i].Ord].key) >= 0
  {
    forall i, j | 1 <= i < j <= count ensures compare(s[s[j].Ord].key, s[s[i].Ord].key) >= 0 {
      CompareRecords(recs, s, compare, s[j].Ord, s[i].Ord);
      assert ByKey(recs, compare)(Ords(s)[j], Ords(s)[i]) >= 0;
    }
  }
}
