// Facts about the heaps of WLView.c and WTView.c.
//
// Both sorts take j/2 as the parent of j.  In WTView.c the heap starts at 1, as usual.  In
// WLView.c it starts at 0: entry 0 is then the parent of entry 1 only, and its own "child".

module HeapOrder {
  // A comparison function as a sort needs it: it orders any two elements, and transitively.
  ghost predicate Orders<T(!new)>(cmp: (T, T) -> int)
  {
    (forall x, y {:trigger cmp(x, y)} :: cmp(x, y) >= 0 || cmp(y, x) >= 0) &&
    (forall x, y, z {:trigger cmp(x, y), cmp(y, z)} :: cmp(x, y) >= 0 && cmp(y, z) >= 0 ==> cmp(x, z) >= 0)
  }

  // The parent of entry j is not less than entry j.
  ghost predicate Edge<T>(s: seq<T>, cmp: (T, T) -> int, j: int)
    requires 0 <= j < |s|
  {
    cmp(s[j / 2], s[j]) >= 0
  }

  // All edges below the parents top, top + 1, ... within the entries up to last hold, except
  // those of the parent hole.
  ghost predicate HeapBut<T>(s: seq<T>, cmp: (T, T) -> int, top: int, last: int, hole: int)
    requires 0 <= top && last < |s|
  {
    forall j {:trigger Edge(s, cmp, j)} | top < j <= last && top <= j / 2 && j / 2 != hole :: Edge(s, cmp, j)
  }

  ghost predicate Heap<T>(s: seq<T>, cmp: (T, T) -> int, top: int, last: int)
    requires 0 <= top && last < |s|
  {
    forall j {:trigger Edge(s, cmp, j)} | top < j <= last && top <= j / 2 :: Edge(s, cmp, j)
  }

  // The parent of the hole is not less than the children of the hole.
  ghost predicate Bridge<T>(s: seq<T>, cmp: (T, T) -> int, top: int, last: int, hole: int)
    requires 0 <= top && last < |s|
  {
    forall j | top < hole < j <= last && j / 2 == hole && top <= hole / 2 :: cmp(s[hole / 2], s[j]) >= 0
  }

  function Swap<T>(s: seq<T>, i: int, j: int): (r: seq<T>)
    requires 0 <= i < |s| && 0 <= j < |s|
    ensures |r| == |s|
  {
    s[i := s[j]][j := s[i]]
  }

  lemma SwapPermutes<T>(s: seq<T>, i: int, j: int)
    requires 0 <= i < |s| && 0 <= j < |s|
    ensures multiset(Swap(s, i, j)) == multiset(s)
  {
  }

  // One step of the sift: the hole moves down to its larger child.
  lemma MoveDown<T(!new)>(s: seq<T>, cmp: (T, T) -> int, top: int, last: int, hole: int, j: int)
    requires Orders(cmp) && 0 <= top <= hole < j <= last < |s|
    requires HeapBut(s, cmp, top, last, hole) && Bridge(s, cmp, top, last, hole)
    requires j / 2 == hole && cmp(s[hole], s[j]) < 0
    requires forall i | hole < i <= last && i / 2 == hole :: cmp(s[j], s[i]) >= 0
    ensures HeapBut(Swap(s, hole, j), cmp, top, last, j)
    ensures Bridge(Swap(s, hole, j), cmp, top, last, j)
  {
    var u := Swap(s, hole, j);
    forall i | top < i <= last && top <= i / 2 && i / 2 != j ensures Edge(u, cmp, i) {
      if i / 2 != hole {
        assert Edge(s, cmp, i);
      }
    }
    forall i | top < j < i <= last && i / 2 == j && top <= j / 2 ensures cmp(u[j / 2], u[i]) >= 0 {
      assert Edge(s, cmp, i);
    }
  }

  // The hole is filled when its value is not less than its children.
  lemma FillHole<T>(s: seq<T>, cmp: (T, T) -> int, top: int, last: int, hole: int)
    requires 0 <= top <= hole && last < |s| && HeapBut(s, cmp, top, last, hole)
    requires forall i | hole < i <= last && i / 2 == hole :: cmp(s[hole], s[i]) >= 0
    ensures Heap(s, cmp, top, last)
  {
    forall j | top < j <= last && top <= j / 2 ensures Edge(s, cmp, j) {
      if j / 2 != hole {
        assert Edge(s, cmp, j);
      }
    }
  }

  // The first entry of a heap is the greatest.
  lemma {:induction false} TopIsGreatest<T(!new)>(s: seq<T>, cmp: (T, T) -> int, top: int, last: int, j: int)
    requires Orders(cmp) && 0 <= top <= 1 && top <= j <= last < |s| && Heap(s, cmp, top, last)
    ensures cmp(s[top], s[j]) >= 0
    decreases j
  {
    if j > top {
      assert Edge(s, cmp, j);
      TopIsGreatest(s, cmp, top, last, j / 2);
    }
  }

  // Entries from first on are in ascending order, and no earlier entry is greater than them.
  ghost predicate TailSorted<T>(s: seq<T>, cmp: (T, T) -> int, top: int, first: int, end: int)
    requires 0 <= top && end < |s|
  {
    forall i, j | top <= i < j <= end && first <= j :: cmp(s[j], s[i]) >= 0
  }

  // Putting the greatest entry of the heap behind the others.
  lemma Extract<T(!new)>(s: seq<T>, cmp: (T, T) -> int, top: int, last: int, end: int)
    requires Orders(cmp) && 0 <= top <= 1 && top < last <= end < |s|
    requires Heap(s, cmp, top, last) && TailSorted(s, cmp, top, last + 1, end)
    ensures TailSorted(Swap(s, top, last), cmp, top, last, end)
    ensures HeapBut(Swap(s, top, last), cmp, top, last - 1, top)
    ensures Bridge(Swap(s, top, last), cmp, top, last - 1, top)
  {
    var u := Swap(s, top, last);
    forall i, j | top <= i < j <= end && last <= j ensures cmp(u[j], u[i]) >= 0 {
      if j == last {
        TopIsGreatest(s, cmp, top, last, if i == top then last else i);
      }
    }
    forall j | top < j <= last - 1 && top <= j / 2 && j / 2 != top ensures Edge(u, cmp, j) {
      assert Edge(s, cmp, j);
    }
  }

  // Permuting the entries up to last leaves the sorted tail in order.
  lemma TailStays<T(!new)>(s: seq<T>, u: seq<T>, cmp: (T, T) -> int, top: int, last: int, end: int)
    requires 0 <= top <= last <= end < |s| == |u| && TailSorted(s, cmp, top, last + 1, end)
    requires multiset(u[top..last + 1]) == multiset(s[top..last + 1]) && u[last + 1..] == s[last + 1..]
    ensures TailSorted(u, cmp, top, last + 1, end)
  {
    forall i, j | top <= i < j <= end && last + 1 <= j ensures cmp(u[j], u[i]) >= 0 {
      assert u[j] == u[last + 1..][j - last - 1] == s[last + 1..][j - last - 1] == s[j];
      if i <= last {
        var v := u[top..last + 1];
        assert v[i - top] == u[i] && v[i - top] in multiset(v);
        assert u[i] in multiset(s[top..last + 1]);
        var k :| 0 <= k < |s[top..last + 1]| && s[top..last + 1][k] == u[i];
        assert cmp(s[j], s[top + k]) >= 0;
      } else {
        assert u[i] == u[last + 1..][i - last - 1] == s[last + 1..][i - last - 1] == s[i];
      }
    }
  }

  lemma Reflexive<T(!new)>(cmp: (T, T) -> int, x: T)
    requires Orders(cmp)
    ensures cmp(x, x) >= 0
  {
  }

  // The child the sift chooses is not less than any child, and there is none beyond n / 2.
  lemma Child<T(!new)>(s: seq<T>, cmp: (T, T) -> int, n: int, k: int, j: int)
    requires Orders(cmp) && 0 <= k <= n < |s| && k <= n / 2
    requires j == if 2 * k < n && cmp(s[2 * k], s[2 * k + 1]) < 0 then 2 * k + 1 else 2 * k
    ensures forall i | k < i <= n && i / 2 == k :: cmp(s[j], s[i]) >= 0
    ensures j <= n && j / 2 == k && (j == k ==> k == 0)
  {
    forall i | k < i <= n && i / 2 == k ensures cmp(s[j], s[i]) >= 0 {
      assert i == 2 * k || i == 2 * k + 1;
      Reflexive(cmp, s[i]);
    }
  }

  lemma NotLess<T(!new)>(s: seq<T>, cmp: (T, T) -> int, n: int, k: int, j: int)
    requires Orders(cmp) && 0 <= k <= n < |s| && 0 <= j < |s| && cmp(s[k], s[j]) >= 0
    requires forall i | k < i <= n && i / 2 == k :: cmp(s[j], s[i]) >= 0
    ensures forall i | k < i <= n && i / 2 == k :: cmp(s[k], s[i]) >= 0
  {
  }

  // A permutation that moves only entries top .. last permutes these.
  lemma SlicePermutes<T>(s: seq<T>, u: seq<T>, top: int, last: int)
    requires 0 <= top <= last + 1 <= |s| == |u| && multiset(s) == multiset(u)
    requires u[..top] == s[..top] && u[last + 1..] == s[last + 1..]
    ensures multiset(u[top..last + 1]) == multiset(s[top..last + 1])
  {
    assert s == (s[..top] + s[top..last + 1]) + s[last + 1..];
    assert u == (u[..top] + u[top..last + 1]) + u[last + 1..];
    assert multiset(s[top..last + 1]) == multiset(s) - multiset(s[..top]) - multiset(s[last + 1..]);
    assert multiset(u[top..last + 1]) == multiset(u) - multiset(u[..top]) - multiset(u[last + 1..]);
  }

  // The sift keeps the sorted tail.
  lemma TailAfterSift<T(!new)>(s: seq<T>, u: seq<T>, cmp: (T, T) -> int, top: int, last: int, end: int)
    requires 0 <= top <= last <= end < |s| == |u| && TailSorted(s, cmp, top, last + 1, end)
    requires multiset(s) == multiset(u)
    requires forall i :: 0 <= i < |s| && (i < top || last < i) ==> u[i] == s[i]
    ensures TailSorted(u, cmp, top, last + 1, end)
  {
    assert u[..top] == s[..top] && u[last + 1..] == s[last + 1..];
    SlicePermutes(s, u, top, last);
    TailStays(s, u, cmp, top, last, end);
  }

  // Building the heap: nothing is claimed below the last parent, and then one parent more.
  lemma NoEdges<T>(s: seq<T>, cmp: (T, T) -> int, top: int, last: int)
    requires 0 <= top && last < |s| && last < 2 * top
    ensures Heap(s, cmp, top, last)
  {
  }

  lemma OneParentMore<T>(s: seq<T>, cmp: (T, T) -> int, top: int, last: int)
    requires 0 <= top && last < |s| && Heap(s, cmp, top + 1, last)
    ensures HeapBut(s, cmp, top, last, top) && Bridge(s, cmp, top, last, top)
  {
    forall j | top < j <= last && top <= j / 2 && j / 2 != top ensures Edge(s, cmp, j) {
      assert top + 1 < j && top + 1 <= j / 2;
    }
  }

  lemma NoTail<T>(s: seq<T>, cmp: (T, T) -> int, top: int, last: int)
    requires 0 <= top && last < |s|
    ensures TailSorted(s, cmp, top, last + 1, last)
  {
  }

  lemma AllTail<T>(s: seq<T>, cmp: (T, T) -> int, top: int, last: int)
    requires 0 <= top && last < |s| && TailSorted(s, cmp, top, top + 1, last)
    ensures forall i, j | top <= i < j <= last :: cmp(s[j], s[i]) >= 0
  {
  }
}
