// The growable list of WLists.c: elements of one size, side by side in a block of bytes.

module WLists {
  import opened Bytes

  const WLERR_NULLELEMENTSIZE: int := -2002
  const WLERR_LOCKED: int := -2004
  const WLERR_OUTOFBOUNDS: int := -2005
  const WL_MINSIZE: int := 1

  // A signed number compared with an unsigned one: 32 bits read without sign.
  function Unsigned(i: int): int
  {
    if i < 0 then i + 0x1_0000_0000 else i
  }

  // --- Elements and bytes --------------------------------------------------------------------

  lemma Next(i: int, size: int)
    ensures (i + 1) * size == i * size + size
  {
  }

  lemma Monotone(i: int, n: int, size: int)
    requires 0 <= i <= n && 1 <= size
    ensures 0 <= i * size <= n * size
  {
    assert 0 <= i * size && 0 <= (n - i) * size;
    assert (n - i) * size == n * size - i * size;
  }

  lemma Offsets(i: int, n: int, size: int)
    requires 0 <= i <= n && 1 <= size
    ensures 0 <= i * size <= n * size && (n - i) * size == n * size - i * size
    ensures (i + 1) * size == i * size + size && (n + 1) * size == n * size + size
    ensures i < n ==> i * size + size <= n * size
  {
    Next(i, size);
    Next(n, size);
    Monotone(i, n, size);
    if i < n {
      Monotone(i + 1, n, size);
    }
  }

  lemma Slice(b: seq<byte>, lo: int, hi: int, from: int, size: int)
    requires 0 <= lo <= hi <= |b| && 0 <= from && 0 <= size && from + size <= hi - lo
    ensures b[lo..hi][from..from + size] == b[lo + from..lo + from + size]
  {
    var l, r := b[lo..hi][from..from + size], b[lo + from..lo + from + size];
    forall j | 0 <= j < |l| ensures l[j] == r[j] {
      assert b[lo..hi][from + j] == b[lo + from + j];
    }
  }

  // Element k of a block.
  ghost function ElementAt(b: seq<byte>, size: int, k: int): (e: seq<byte>)
    requires 1 <= size && 0 <= k && (k + 1) * size <= |b|
    ensures |e| == size
  {
    Offsets(k, k, size);
    b[k * size..k * size + size]
  }

  // The first n elements of a block.
  ghost function Elements(b: seq<byte>, size: int, n: int): (r: seq<seq<byte>>)
    requires 1 <= size && 0 <= n && n * size <= |b|
    ensures |r| == n
  {
    seq(n, k requires 0 <= k < n => Inside(b, size, n, k); ElementAt(b, size, k))
  }

  lemma Inside(b: seq<byte>, size: int, n: int, k: int)
    requires 1 <= size && 0 <= k < n && n * size <= |b|
    ensures (k + 1) * size <= |b|
  {
    Offsets(k + 1, n, size);
  }

  // Blocks that agree on the bytes of the first n elements hold the same elements.
  lemma SameElements(b: seq<byte>, c: seq<byte>, size: int, n: int)
    requires 1 <= size && 0 <= n && n * size <= |b| && n * size <= |c| && b[..n * size] == c[..n * size]
    ensures Elements(b, size, n) == Elements(c, size, n)
  {
    forall k | 0 <= k < n ensures Elements(b, size, n)[k] == Elements(c, size, n)[k] {
      Offsets(k, n, size);
      Slice(b, 0, n * size, k * size, size);
      Slice(c, 0, n * size, k * size, size);
    }
  }

  // A gap of one element, filled with e.
  lemma InsertElement(b: seq<byte>, c: seq<byte>, size: int, n: int, i: int, e: seq<byte>)
    requires 1 <= size && 0 <= i <= n && |e| == size && n * size <= |b| && (n + 1) * size <= |c|
    requires 0 <= i * size <= n * size
    requires c[..i * size] == b[..i * size] && c[i * size..i * size + size] == e
    requires c[i * size + size..n * size + size] == b[i * size..n * size]
    ensures Elements(c, size, n + 1) == Elements(b, size, n)[..i] + [e] + Elements(b, size, n)[i..]
  {
    forall k | 0 <= k < n + 1
      ensures Elements(c, size, n + 1)[k] == (Elements(b, size, n)[..i] + [e] + Elements(b, size, n)[i..])[k]
    {
      Offsets(k, n + 1, size);
      if k < i {
        BeforeGap(b, c, size, i, k);
      } else if k > i {
        BehindGap(b, c, size, n, i, k);
      }
    }
  }

  lemma BeforeGap(b: seq<byte>, c: seq<byte>, size: int, i: int, k: int)
    requires 1 <= size && 0 <= k < i && 0 <= i * size <= |b| && i * size <= |c| && c[..i * size] == b[..i * size]
    ensures (k + 1) * size <= |b| && (k + 1) * size <= |c| && ElementAt(c, size, k) == ElementAt(b, size, k)
  {
    Offsets(k, i, size);
    Slice(b, 0, i * size, k * size, size);
    Slice(c, 0, i * size, k * size, size);
  }

  lemma BehindGap(b: seq<byte>, c: seq<byte>, size: int, n: int, i: int, k: int)
    requires 1 <= size && 0 <= i < k <= n && n * size <= |b| && n * size + size <= |c| && 0 <= i * size <= n * size
    requires c[i * size + size..n * size + size] == b[i * size..n * size]
    ensures k * size <= |b| && (k + 1) * size <= |c| && ElementAt(c, size, k) == ElementAt(b, size, k - 1)
  {
    Offsets(k, n, size);
    Offsets(k - 1, n, size);
    Offsets(i, k - 1, size);
    ShiftedElement(b, c, size, i * size, n * size, k * size);
  }

  lemma ShiftedElement(b: seq<byte>, c: seq<byte>, size: int, lo: int, hi: int, at: int)
    requires 1 <= size && 0 <= lo && lo + size <= at <= hi <= |b| && hi + size <= |c|
    requires c[lo + size..hi + size] == b[lo..hi]
    ensures c[at..at + size] == b[at - size..at]
  {
    var from := at - size - lo;
    Slice(b, lo, hi, from, size);
    Slice(c, lo + size, hi + size, from, size);
  }

  // The element at i is gone, and the gap closed.
  lemma RemoveElement(b: seq<byte>, c: seq<byte>, size: int, n: int, i: int)
    requires 1 <= size && 0 <= i < n && |b| == |c| && n * size <= |b|
    requires 0 <= i * size && i * size + size <= n * size && (n - 1) * size == n * size - size
    requires c[..i * size] == b[..i * size]
    requires c[i * size..n * size - size] == b[i * size + size..n * size]
    ensures Elements(c, size, n - 1) == Elements(b, size, n)[..i] + Elements(b, size, n)[i + 1..]
  {
    var was, now := Elements(b, size, n), Elements(c, size, n - 1);
    forall k | 0 <= k < |now| ensures now[k] == (was[..i] + was[i + 1..])[k] {
      Offsets(k, n - 1, size);
      if k < i {
        BeforeGap(b, c, size, i, k);
      } else {
        Offsets(n - 1, n, size);
        BehindGap(c, b, size, n - 1, i, k + 1);
      }
    }
  }

  // The elements, put side by side again, are the bytes of the block.
  ghost function Joined(r: seq<seq<byte>>): seq<byte>
  {
    if r == [] then [] else Joined(r[..|r| - 1]) + r[|r| - 1]
  }

  lemma {:induction false} ElementsJoined(b: seq<byte>, size: int, n: int)
    requires 1 <= size && 0 <= n && n * size <= |b|
    ensures Joined(Elements(b, size, n)) == b[..n * size]
    decreases n
  {
    if n > 0 {
      Offsets(n - 1, n, size);
      ElementsJoined(b, size, n - 1);
      var r := Elements(b, size, n);
      assert r[..n - 1] == Elements(b, size, n - 1);
      assert r[n - 1] == ElementAt(b, size, n - 1);
      assert b[..n * size] == b[..(n - 1) * size] + b[(n - 1) * size..n * size];
    }
  }

  // --- How the space grows -------------------------------------------------------------------

  // The number of elements, the number there is room for, and by how many that grows next.
  datatype Space = Space(count: int, room: int, step: int)

  function Created(): Space
  {
    Space(0, 0, 1)
  }

  function Inserted(s: Space): Space
  {
    if s.count == s.room then
      var step := if s.count >= s.step then s.step * 2 else s.step;
      Space(s.count + 1, s.room + step, step)
    else s.(count := s.count + 1)
  }

  function Deleted(s: Space): Space
  {
    s.(count := s.count - 1)
  }

  // A run of insertions, deletions and requests for room; deleting behind the last element and
  // asking for less room than there is are errors and do nothing.
  datatype Op = Insert(index: nat, element: seq<byte>) | Delete(index: nat) | SetSize(elements: nat)

  datatype Cost = Cost(space: Space, peak: int, reallocs: nat, moved: int)

  // The space after a run, the greatest number of elements there were, how often insertions
  // reallocated the block, and how many elements there were in the block then, in total.
  function After(ops: seq<Op>): Cost
  {
    if ops == [] then Cost(Created(), 0, 0, 0)
    else
      var c := After(ops[..|ops| - 1]);
      match ops[|ops| - 1]
      case Delete(i) => if i >= c.space.count then c else c.(space := Deleted(c.space))
      case SetSize(n) => if n <= c.space.room then c else c.(space := c.space.(room := n))
      case Insert(_, _) =>
        var s := Inserted(c.space);
        var grows := c.space.count == c.space.room;
        Cost(s, if s.count > c.peak then s.count else c.peak,
             if grows then c.reallocs + 1 else c.reallocs,
             if grows then c.moved + c.space.count else c.moved)
  }

  // The elements after a run.
  function Listed(ops: seq<Op>): seq<seq<byte>>
  {
    if ops == [] then []
    else
      var s := Listed(ops[..|ops| - 1]);
      match ops[|ops| - 1]
      case Delete(i) => if i >= |s| then s else s[..i] + s[i + 1..]
      case SetSize(_) => s
      case Insert(i, e) => if i > |s| then s + [e] else s[..i] + [e] + s[i..]
  }

  ghost predicate Bounded(c: Cost)
  {
    0 <= c.space.count <= c.space.room && c.space.count <= c.peak &&
    c.space.room + 1 == Pow2(c.reallocs) && c.moved + c.reallocs + 1 == Pow2(c.reallocs) &&
    (c.reallocs == 0 ==> c.space == Created() && c.peak == 0) &&
    (c.reallocs > 0 ==> c.space.step == Pow2(c.reallocs - 1) && c.peak >= Pow2(c.reallocs - 1))
  }

  predicate NoSetSize(ops: seq<Op>)
  {
    forall k :: 0 <= k < |ops| ==> !ops[k].SetSize?
  }

  lemma {:induction false} RunBounded(ops: seq<Op>)
    requires NoSetSize(ops)
    ensures Bounded(After(ops))
    decreases |ops|
  {
    if ops != [] {
      RunBounded(ops[..|ops| - 1]);
    }
  }

  // With m elements at most, there are at most log2(m) + 1 reallocations, and they move fewer
  // than 2m elements in all.
  lemma GrowthIsAmortised(ops: seq<Op>)
    requires NoSetSize(ops)
    ensures var c := After(ops);
            if c.peak == 0 then c == Cost(Created(), 0, 0, 0)
            else
              c.space.room + 1 == 2 * c.space.step &&
              c.reallocs >= 1 && Pow2(c.reallocs - 1) <= c.peak && c.moved < 2 * c.peak
  {
    RunBounded(ops);
  }

  // With requests for room in between: the step doubles with every reallocation but the first,
  // and stays below twice the number of elements.
  ghost predicate Stepped(c: Cost)
  {
    0 <= c.space.count <= c.space.room && c.space.count <= c.peak &&
    (c.space.step == 1 || c.space.step < 2 * c.peak) &&
    if c.reallocs == 0 then c.space.step == 1
    else 1 <= c.peak && Pow2(c.reallocs - 1) <= c.space.step <= c.space.room
  }

  lemma {:induction false} RunStepped(ops: seq<Op>)
    ensures Stepped(After(ops))
    decreases |ops|
  {
    if ops != [] {
      RunStepped(ops[..|ops| - 1]);
    }
  }

  // Even then, insertions reallocate the block at most log2(m) + 2 times.
  lemma FewReallocations(ops: seq<Op>)
    ensures var c := After(ops);
            c.reallocs > 0 ==> Pow2(c.reallocs - 1) < 2 * c.peak
  {
    RunStepped(ops);
  }

  // --- The list ----------------------------------------------------------------------------

  class WList {
    var data: array<byte>
    var ElementSize: int
    var ElementCount: int
    var AllocatedElements: int
    var AllocationSize: int
    var LockCount: int

    ghost predicate Valid()
      reads this, data
    {
      1 <= ElementSize && 0 <= ElementCount <= AllocatedElements && 1 <= AllocationSize &&
      0 <= ElementCount * ElementSize <= AllocatedElements * ElementSize <= data.Length
    }

    ghost function Contents(): (r: seq<seq<byte>>)
      reads this, data
      requires Valid()
      ensures |r| == ElementCount
    {
      Elements(data[..], ElementSize, ElementCount)
    }

    ghost function Shape(): Space
      reads this
    {
      Space(ElementCount, AllocatedElements, AllocationSize)
    }

    constructor (size: int)
      requires 1 <= size
      ensures Valid() && fresh(data) && Contents() == [] && Shape() == Created()
      ensures ElementSize == size && LockCount == 0
    {
      data := new byte[WL_MINSIZE](_ => 0);
      ElementSize, AllocationSize := size, 1;
      ElementCount, AllocatedElements, LockCount := 0, 0, 0;
    }

    // GlobalReAlloc to more room: the bytes are kept, and the new ones are 0.
    method ReAlloc(bytes: int)
      requires bytes >= 0
      modifies this`data
      ensures fresh(data) && data.Length == bytes
      ensures forall k :: 0 <= k < bytes && k < old(data.Length) ==> data[k] == old(data[k])
    {
      var was := data;
      data := new byte[bytes](_ => 0);
      forall k | 0 <= k < bytes && k < was.Length {
        data[k] := was[k];
      }
    }

    // memmove
    method MoveBytes(target: int, source: int, count: int)
      requires 0 <= count && 0 <= target && 0 <= source
      requires target + count <= data.Length && source + count <= data.Length
      modifies data
      ensures data[..target] == old(data[..target]) && data[target + count..] == old(data[target + count..])
      ensures data[target..target + count] == old(data[source..source + count])
    {
      forall k | 0 <= k < count {
        data[target + k] := data[source + k];
      }
      ghost var now, was := data[target..target + count], old(data[source..source + count]);
      assert forall k :: 0 <= k < count ==> now[k] == was[k];
    }

    // WLSetSize
    method WLSetSize(iElements: int) returns (ErrorCode: int)
      requires Valid() && -0x8000_0000 <= iElements < 0x8000_0000
      modifies this`data, this`AllocatedElements
      ensures Valid() && Contents() == old(Contents())
      ensures iElements >= 0 ==> (ErrorCode == 0 <==> iElements > old(AllocatedElements))
      ensures iElements >= 0 && ErrorCode == 0 ==>
                AllocatedElements == iElements && data.Length == iElements * ElementSize
      ensures iElements < 0 ==> (ErrorCode == 0 <==> iElements + 0x1_0000_0000 > old(AllocatedElements))
      ensures iElements < 0 && ErrorCode == 0 ==>
                AllocatedElements == iElements + 0x1_0000_0000 &&
                data.Length == (iElements + 0x1_0000_0000) * ElementSize
      ensures ErrorCode == 0 ==> fresh(data)
      ensures ErrorCode != 0 ==>
                ErrorCode == -2002 && data == old(data) && AllocatedElements == old(AllocatedElements)
    {
      var n := Unsigned(iElements);
      if n <= AllocatedElements {
        return WLERR_NULLELEMENTSIZE;
      }
      Offsets(AllocatedElements, n, ElementSize);
      ghost var was := data[..];
      ReAlloc(n * ElementSize);
      AllocatedElements := n;
      assert data[..][..ElementCount * ElementSize] == was[..ElementCount * ElementSize];
      SameElements(was, data[..], ElementSize, ElementCount);
      ErrorCode := 0;
    }

    // WLInsert
    method WLInsert(IndexBefore: int, element: seq<byte>) returns (ErrorCode: int)
      requires Valid() && 0 <= IndexBefore && |element| == ElementSize
      modifies this`data, this`ElementCount, this`AllocatedElements, this`AllocationSize, data
      ensures Valid() && ErrorCode == 0
      ensures var i := if IndexBefore > old(ElementCount) then old(ElementCount) else IndexBefore;
              Contents() == old(Contents())[..i] + [element] + old(Contents())[i..]
      ensures var i := if IndexBefore > old(ElementCount) then old(ElementCount) else IndexBefore;
              0 <= i * ElementSize && i * ElementSize + ElementSize <= data.Length &&
              data[i * ElementSize..i * ElementSize + ElementSize] == element
      ensures Shape() == Inserted(old(Shape())) && ElementCount == old(ElementCount) + 1
      ensures old(ElementCount == AllocatedElements) ==>
                fresh(data) &&
                AllocationSize == old(if ElementCount >= AllocationSize then 2 * AllocationSize else AllocationSize) &&
                AllocatedElements == old(AllocatedElements) + AllocationSize &&
                data.Length == AllocatedElements * ElementSize
      ensures old(ElementCount < AllocatedElements) ==>
                data == old(data) && AllocationSize == old(AllocationSize) &&
                AllocatedElements == old(AllocatedElements)
    {
      var i := if IndexBefore > ElementCount then ElementCount else IndexBefore;
      MakeRoom();
      Place(i, element);
      ErrorCode := 0;
    }

    // The first part of WLInsert: more memory if all of it is in use.
    method MakeRoom()
      requires Valid()
      modifies this`data, this`AllocatedElements, this`AllocationSize
      ensures Valid() && Contents() == old(Contents()) && ElementCount < AllocatedElements
      ensures Shape() == Inserted(old(Shape())).(count := ElementCount)
      ensures old(ElementCount == AllocatedElements) ==> fresh(data) && data.Length == AllocatedElements * ElementSize
      ensures old(ElementCount < AllocatedElements) ==> data == old(data)
    {
      if ElementCount == AllocatedElements {
        if ElementCount >= AllocationSize {
          AllocationSize := AllocationSize * 2;
        }
        Offsets(ElementCount, ElementCount + AllocationSize, ElementSize);
        ghost var was := data[..];
        ReAlloc((ElementCount + AllocationSize) * ElementSize);
        AllocatedElements := AllocatedElements + AllocationSize;
        assert data[..][..ElementCount * ElementSize] == was[..ElementCount * ElementSize];
        SameElements(was, data[..], ElementSize, ElementCount);
      } else {
        Offsets(ElementCount, AllocatedElements, ElementSize);
      }
    }

    // The second part: the elements from number i on move up by one element.
    method OpenGap(i: int)
      requires Valid() && 0 <= i <= ElementCount < AllocatedElements
      modifies data
      ensures Valid() && 0 <= i * ElementSize <= ElementCount * ElementSize
      ensures ElementCount * ElementSize + ElementSize <= data.Length
      ensures data[..i * ElementSize] == old(data[..i * ElementSize])
      ensures data[i * ElementSize + ElementSize..ElementCount * ElementSize + ElementSize] ==
              old(data[i * ElementSize..ElementCount * ElementSize])
    {
      Offsets(i, ElementCount, ElementSize);
      Offsets(ElementCount, AllocatedElements, ElementSize);
      var source := i * ElementSize;
      if ElementCount >= i + 1 {
        var target := source + ElementSize;
        if i != 0 {
          MoveBytes(target, source, (ElementCount - i) * ElementSize);
        } else {
          MoveBytes(target, source, ElementCount * ElementSize);
        }
      }
    }

    // The rest: the new element comes into the gap.
    method Place(i: int, element: seq<byte>)
      requires Valid() && 0 <= i <= ElementCount < AllocatedElements && |element| == ElementSize
      modifies this`ElementCount, data
      ensures Valid() && ElementCount == old(ElementCount) + 1
      ensures Contents() == old(Contents())[..i] + [element] + old(Contents())[i..]
      ensures 0 <= i * ElementSize && i * ElementSize + ElementSize <= data.Length
      ensures data[i * ElementSize..i * ElementSize + ElementSize] == element
    {
      hide Elements;
      ghost var was := data[..];
      OpenGap(i);
      ghost var gap := data[..];
      Offsets(i, ElementCount, ElementSize);
      Offsets(ElementCount + 1, AllocatedElements, ElementSize);
      Next(ElementCount, ElementSize);
      CopyBytes(i * ElementSize, element);
      Placed(was, gap, data[..], ElementSize, ElementCount, i, element);
      ElementCount := ElementCount + 1;
    }

    // memcpy
    method CopyBytes(target: int, bytes: seq<byte>)
      requires 0 <= target && target + |bytes| <= data.Length
      modifies data
      ensures data[target..target + |bytes|] == bytes
      ensures data[..target] == old(data[..target]) && data[target + |bytes|..] == old(data[target + |bytes|..])
    {
      forall k | 0 <= k < |bytes| {
        data[target + k] := bytes[k];
      }
    }

    // WLDelete
    method WLDelete(Index: int) returns (ErrorCode: int)
      requires Valid() && 0 <= Index
      modifies this`ElementCount, data
      ensures Valid()
      ensures ErrorCode == if old(LockCount) != 0 then -2004 else if Index >= old(ElementCount) then -2005 else 0
      ensures ErrorCode != 0 ==> Contents() == old(Contents()) && Shape() == old(Shape())
      ensures ErrorCode == 0 ==> Contents() == old(Contents())[..Index] + old(Contents())[Index + 1..]
      ensures ErrorCode == 0 ==> Shape() == Deleted(old(Shape()))
    {
      if LockCount != 0 {
        return WLERR_LOCKED;
      }
      if Index >= ElementCount {
        return WLERR_OUTOFBOUNDS;
      }
      Offsets(Index, ElementCount, ElementSize);
      Offsets(Index + 1, ElementCount, ElementSize);
      Offsets(ElementCount - 1, ElementCount, ElementSize);
      ghost var was := data[..];
      CloseGap(Index);
      RemoveElement(was, data[..], ElementSize, ElementCount, Index);
      ElementCount := ElementCount - 1;
      ErrorCode := 0;
    }

    // The elements behind number i move down by one element.
    method CloseGap(i: int)
      requires Valid() && 0 <= i < ElementCount
      modifies data
      ensures 0 <= i * ElementSize && i * ElementSize + ElementSize <= ElementCount * ElementSize <= data.Length
      ensures data[..i * ElementSize] == old(data[..i * ElementSize])
      ensures data[i * ElementSize..ElementCount * ElementSize - ElementSize] ==
              old(data[i * ElementSize + ElementSize..ElementCount * ElementSize])
    {
      Offsets(i, ElementCount, ElementSize);
      Offsets(i + 1, ElementCount, ElementSize);
      MoveBytes(i * ElementSize, (i + 1) * ElementSize, (ElementCount - i - 1) * ElementSize);
    }

    // WLInsertEx
    method WLInsertEx(IndexBefore: int, element: seq<byte>) returns (index: int)
      requires Valid() && 0 <= IndexBefore && |element| == ElementSize
      modifies this`data, this`ElementCount, this`AllocatedElements, this`AllocationSize, data
      ensures Valid() && index == if IndexBefore > old(ElementCount) then old(ElementCount) else IndexBefore
      ensures Contents() == old(Contents())[..index] + [element] + old(Contents())[index..]
      ensures Contents()[index] == element && Shape() == Inserted(old(Shape()))
    {
      var i := if IndexBefore > ElementCount then ElementCount else IndexBefore;
      var error := WLInsert(i, element);
      index := if error == 0 then i else -1;
    }
  }

  // One step of a run.  `moves` counts the elements in the block if it is reallocated.
  method Step(list: WList, op: Op, ghost done: seq<Op>) returns (ghost moves: int)
    requires list.Valid() && list.LockCount == 0
    requires (op.Insert? ==> |op.element| == list.ElementSize) && (op.SetSize? ==> op.elements < 0x8000_0000)
    requires list.Contents() == Listed(done) && list.Shape() == After(done).space
    modifies list, list.data
    ensures list.Valid() && list.LockCount == 0 && list.ElementSize == old(list.ElementSize)
    ensures list.data == old(list.data) || fresh(list.data)
    ensures list.Contents() == Listed(done + [op]) && list.Shape() == After(done + [op]).space
    ensures var grown := op.Insert? && list.data != old(list.data);
            After(done + [op]).reallocs == After(done).reallocs + (if grown then 1 else 0) &&
            After(done + [op]).moved == After(done).moved + moves &&
            moves == if grown then old(list.ElementCount) else 0
  {
    assert (done + [op])[..|done|] == done;
    ghost var was, count := list.data, list.ElementCount;
    match op {
      case Insert(i, e) =>
        var _ := list.WLInsert(i, e);
      case Delete(i) =>
        var _ := list.WLDelete(i);
      case SetSize(n) =>
        var _ := list.WLSetSize(n);
    }
    moves := if op.Insert? && list.data != was then count else 0;
  }

  // Every run on a new list: the elements are those of the sequence operations, and the counted
  // reallocations by insertions and the elements they move are as few as FewReallocations says,
  // and GrowthIsAmortised when there is no request for room.
  method Run(size: int, ops: seq<Op>) returns (list: WList, ghost reallocs: nat, ghost moved: int)
    requires 1 <= size && forall k :: 0 <= k < |ops| && ops[k].Insert? ==> |ops[k].element| == size
    requires forall k :: 0 <= k < |ops| && ops[k].SetSize? ==> ops[k].elements < 0x8000_0000
    ensures fresh(list) && list.Valid() && list.Contents() == Listed(ops) && list.Shape() == After(ops).space
    ensures reallocs > 0 ==> Pow2(reallocs - 1) < 2 * After(ops).peak
    ensures var peak := After(ops).peak;
            NoSetSize(ops) ==>
            if peak == 0 then reallocs == moved == 0
            else
              list.AllocatedElements + 1 == 2 * list.AllocationSize &&
              1 <= reallocs && Pow2(reallocs - 1) <= peak && moved < 2 * peak
  {
    NothingDone(ops);
    FewReallocations(ops);
    if NoSetSize(ops) {
      GrowthIsAmortised(ops);
    }
    hide After, Listed, Pow2, Elements, NoSetSize;
    list := new WList(size);
    reallocs, moved := 0, 0;
    var i := 0;
    while i < |ops|
      invariant 0 <= i <= |ops| && fresh(list) && fresh(list.data)
      invariant list.Valid() && list.LockCount == 0 && list.ElementSize == size
      invariant list.Contents() == Listed(ops[..i]) && list.Shape() == After(ops[..i]).space
      invariant reallocs == After(ops[..i]).reallocs && moved == After(ops[..i]).moved
    {
      ghost var was := list.data;
      ghost var moves := Step(list, ops[i], ops[..i]);
      assert ops[..i] + [ops[i]] == ops[..i + 1];
      reallocs := reallocs + if ops[i].Insert? && list.data != was then 1 else 0;
      moved := moved + moves;
      i := i + 1;
    }
    assert ops[..i] == ops;
  }

  lemma NothingDone(ops: seq<Op>)
    ensures After(ops[..0]) == Cost(Created(), 0, 0, 0) && Listed(ops[..0]) == []
  {
  }

  lemma Placed(was: seq<byte>, gap: seq<byte>, now: seq<byte>, size: int, n: int, i: int, e: seq<byte>)
    requires 1 <= size == |e| && 0 <= i <= n && |was| == |gap| == |now| && (n + 1) * size == n * size + size <= |was|
    requires var at := i * size;
             0 <= at <= n * size && gap[..at] == was[..at] && gap[at + size..n * size + size] == was[at..n * size] &&
             now[..at] == gap[..at] && now[at..at + size] == e && now[at + size..] == gap[at + size..]
    ensures Elements(now, size, n + 1) == Elements(was, size, n)[..i] + [e] + Elements(was, size, n)[i..]
  {
    Filled(was, gap, now, i * size, n * size, size, e);
    InsertElement(was, now, size, n, i, e);
  }

  // WLCreate
  method WLCreate(ElementSize: int) returns (ErrorCode: int, lpList: WList?)
    requires 0 <= ElementSize
    ensures ErrorCode == if ElementSize == 0 then -2002 else 0
    ensures ErrorCode == 0 <==> lpList != null
    ensures lpList != null ==>
              fresh(lpList) && lpList.Valid() && lpList.ElementSize == ElementSize && lpList.LockCount == 0 &&
              lpList.Contents() == [] && lpList.Shape() == Created()
  {
    if ElementSize == 0 {
      return WLERR_NULLELEMENTSIZE, null;
    }
    ErrorCode := 0;
    lpList := new WList(ElementSize);
  }

  lemma Filled(was: seq<byte>, gap: seq<byte>, now: seq<byte>, at: int, end: int, size: int, e: seq<byte>)
    requires 0 <= at <= end && 1 <= size == |e| && end + size <= |was| == |gap| == |now|
    requires gap[..at] == was[..at] && gap[at + size..end + size] == was[at..end]
    requires now[..at] == gap[..at] && now[at..at + size] == e && now[at + size..] == gap[at + size..]
    ensures now[..at] == was[..at] && now[at..at + size] == e && now[at + size..end + size] == was[at..end]
  {
    assert now[at + size..end + size] == now[at + size..][..end - at] == gap[at + size..][..end - at];
  }
}
