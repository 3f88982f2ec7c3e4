// The heap sort of the list view (WLView.c), which works on the entries 0 .. Count in place.

module ListViewSort {
  import opened HeapOrder

  datatype SortItem = SortItem(lParam: int, hItm: int)

  // The client's comparison of the lParams of two entries.
  function By(compare: (int, int) -> int): (SortItem, SortItem) -> int
  {
    (x: SortItem, y: SortItem) => compare(x.lParam, y.lParam)
  }

  // C division by two, which rounds towards zero.
  function Half(n: int): int
  {
    if n < 0 then -((-n) / 2) else n / 2
  }

  // LView_IDownHeapCB: sifts entry k down in the heap 0 .. n.  The sift begins by reading that
  // entry; if the block does not have it, nothing is known about what follows, and `inside` is false.
  method DownHeap(a: array<SortItem>, n: int, k0: int, compare: (int, int) -> int) returns (inside: bool)
    requires Orders(By(compare)) && -1 <= n < a.Length && 0 <= k0 && (k0 <= n || n == -1)
    requires n >= 0 ==> HeapBut(a[..], By(compare), k0, n, k0) && Bridge(a[..], By(compare), k0, n, k0)
    modifies a
    ensures inside <==> k0 < a.Length
    ensures n >= 0 ==> Heap(a[..], By(compare), k0, n)
    ensures multiset(a[..]) == old(multiset(a[..]))
    ensures forall i :: 0 <= i < a.Length && (i < k0 || n < i) ==> a[i] == old(a[i])
  {
    hide Orders, HeapBut, Bridge, Heap;
    inside := k0 < a.Length;
    if !inside {
      return;
    }
    var k := k0;
    var v := a[k];
    ghost var cmp := By(compare);
    ghost var s := a[..];
    while k <= Half(n)
      invariant k0 <= k < a.Length && (k <= n || n == -1) && (n == -1 ==> k == k0)
      invariant a[..][k := v] == s
      invariant k == k0 ==> a[k] == v
      invariant n >= 0 ==> HeapBut(s, cmp, k0, n, k) && Bridge(s, cmp, k0, n, k)
      invariant multiset(s) == old(multiset(a[..]))
      invariant forall i :: 0 <= i < a.Length && (i < k0 || n < i) ==> s[i] == old(a[i])
      decreases n - k
    {
      var j := k + k;
      assert forall i :: 0 <= i < a.Length && i != k ==> a[i] == s[i];
      if j < n && compare(a[j].lParam, a[j + 1].lParam) < 0 {
        j := j + 1;
      }
      Reflexive(cmp, v);
      if n >= 0 {
        Child(s, cmp, n, k, j);
      }
      if compare(v.lParam, a[j].lParam) >= 0 {
        if n >= 0 {
          NotLess(s, cmp, n, k, j);
        }
        break;
      }
      MoveDown(s, cmp, k0, n, k, j);
      SwapPermutes(s, k, j);
      a[k] := a[j];
      s := Swap(s, k, j);
      k := j;
    }
    if n >= 0 {
      FillHole(s, cmp, k0, n, k);
    }
    a[k] := v;
    assert a[..] == s;
  }

  // The first loop of LView_IDoHeapSort.
  method BuildHeap(a: array<SortItem>, count: int, compare: (int, int) -> int) returns (inside: bool)
    requires Orders(By(compare)) && -1 <= count < a.Length
    modifies a
    ensures inside <==> a.Length > 0
    ensures count >= 0 ==> Heap(a[..], By(compare), 0, count)
    ensures multiset(a[..]) == old(multiset(a[..]))
    ensures forall i :: count < i < a.Length ==> a[i] == old(a[i])
  {
    hide Orders, HeapBut, Bridge, Heap;
    ghost var cmp := By(compare);
    SiftsEntryZero(count + 1);
    var k := Half(count);
    inside := true;
    if count >= 0 {
      NoEdges(a[..], cmp, k + 1, count);
    }
    while k >= 0
      invariant -1 <= k <= Half(count) && inside && (k < Half(count) ==> a.Length > 0)
      invariant count >= 0 ==> Heap(a[..], cmp, k + 1, count)
      invariant multiset(a[..]) == old(multiset(a[..]))
      invariant forall i :: count < i < a.Length ==> a[i] == old(a[i])
    {
      if count >= 0 {
        OneParentMore(a[..], cmp, k, count);
      }
      inside := DownHeap(a, count, k, compare);
      if !inside {
        return;
      }
      k := k - 1;
    }
  }

  // One round of the second loop: the greatest entry of the heap moves behind it.
  method MoveGreatest(a: array<SortItem>, n: int, count: int, compare: (int, int) -> int)
    requires Orders(By(compare)) && 0 < n <= count < a.Length
    requires Heap(a[..], By(compare), 0, n) && TailSorted(a[..], By(compare), 0, n + 1, count)
    modifies a
    ensures Heap(a[..], By(compare), 0, n - 1) && TailSorted(a[..], By(compare), 0, n, count)
    ensures multiset(a[..]) == old(multiset(a[..]))
    ensures forall i :: n < i < a.Length ==> a[i] == old(a[i])
  {
    hide Orders, HeapBut, Bridge, Heap, TailSorted;
    ghost var cmp, s := By(compare), a[..];
    Extract(s, cmp, 0, n, count);
    SwapPermutes(s, 0, n);
    var v := a[0];
    a[0] := a[n];
    a[n] := v;
    ghost var u := a[..];
    assert u == Swap(s, 0, n);
    var _ := DownHeap(a, n - 1, 0, compare);
    TailAfterSift(u, a[..], cmp, 0, n - 1, count);
  }

  // LView_IDoHeapSort on the entries 0 .. count.  It stays inside the block if and only if the
  // block has an entry.
  method DoHeapSort(a: array<SortItem>, count: int, compare: (int, int) -> int) returns (inside: bool)
    requires Orders(By(compare)) && -1 <= count < a.Length
    modifies a
    ensures inside <==> a.Length > 0
    ensures forall i, j :: 0 <= i < j <= count ==> compare(a[j].lParam, a[i].lParam) >= 0
    ensures multiset(a[..]) == old(multiset(a[..]))
    ensures forall i :: count < i < a.Length ==> a[i] == old(a[i])
  {
    hide Orders, Heap, TailSorted;
    ghost var cmp := By(compare);
    inside := BuildHeap(a, count, compare);
    if !inside {
      return;
    }
    var n := count;
    if count >= 0 {
      NoTail(a[..], cmp, 0, count);
    }
    while n > 0
      invariant -1 <= n <= count && (count >= 0 ==> n >= 0)
      invariant n >= 0 ==> Heap(a[..], cmp, 0, n) && TailSorted(a[..], cmp, 0, n + 1, count)
      invariant multiset(a[..]) == old(multiset(a[..]))
      invariant forall i :: count < i < a.Length ==> a[i] == old(a[i])
    {
      MoveGreatest(a, n, count, compare);
      n := n - 1;
    }
    if count >= 0 {
      AllTail(a[..], cmp, 0, count);
      assert forall i, j :: 0 <= i < j <= count ==> cmp(a[..][j], a[..][i]) >= 0;
    }
  }

  // LView_OnSortItems: sorts all entries of a list view with `items` items.  It leaves the block
  // of entries if and only if that is empty, as it is while the list view has had no item yet.
  method OnSortItems(sorted: array<SortItem>, items: nat, compare: (int, int) -> int) returns (inside: bool)
    requires Orders(By(compare)) && items <= sorted.Length
    modifies sorted
    ensures inside <==> sorted.Length > 0
    ensures forall i, j :: 0 <= i < j < items ==> compare(sorted[j].lParam, sorted[i].lParam) >= 0
    ensures multiset(sorted[..items]) == old(multiset(sorted[..items]))
    ensures sorted[items..] == old(sorted[items..])
  {
    ghost var s := sorted[..];
    inside := DoHeapSort(sorted, items - 1, compare);
    SlicePermutes(s, sorted[..], 0, items - 1);
    assert sorted[..items] == sorted[..][0..items];
    assert s[..items] == s[0..items];
  }

  // The first loop always sifts entry 0, also when there is no item.
  lemma SiftsEntryZero(items: nat)
    ensures Half(items - 1) >= 0
    ensures items <= 1 ==> Half(items - 1) == 0
  {
  }

  function Difference(x: int, y: int): int
  {
    x - y
  }

  lemma DifferenceOrders()
    ensures Orders(By(Difference))
  {
    var cmp := By(Difference);
    assert forall x: SortItem, y: SortItem :: cmp(x, y) == x.lParam - y.lParam;
  }

  // A new list view: no items, and no entry to sift.
  method SortNothing() returns (sorted: array<SortItem>, inside: bool)
    ensures fresh(sorted) && sorted.Length == 0 && !inside
  {
    sorted := new SortItem[0];
    DifferenceOrders();
    inside := OnSortItems(sorted, 0, Difference);
  }
}
