// Inserting an item: how the links and the rows of a tree view change.

module TreeInsert {
  import opened TreeRows
  import opened TreeItems
  import opened TreeChanges

  // A new item as it arrives: not linked to anything yet.
  ghost predicate Unlinked(n: Item)
  {
    !n.bOpened && n.FChild == n.LChild == n.NSibling == n.PSibling == 0
  }

  function Insert(s: seq<int>, i: int, x: int): (r: seq<int>)
    requires 0 <= i <= |s|
    ensures |r| == |s| + 1
  {
    s[..i] + [x] + s[i..]
  }

  // The items after n has become child number i of p.
  ghost function Link(items: seq<Item>, ks: seq<int>, p: int, i: int, n: Item): (r: seq<Item>)
    requires 0 <= p < |items| && 0 <= i <= |ks|
    ensures |r| == |items| + 1
  {
    var item := |items|;
    var ks' := Insert(ks, i, item);
    seq(|items| + 1, x requires 0 <= x <= |items| =>
      if x == item then
        n.(hItem := item, Parent := p, nLevel := items[p].nLevel + 1, NSibling := At(ks, i), PSibling := At(ks, i - 1))
      else if x == p then
        items[p].(FChild := First(ks'), LChild := Last(ks'), cChildren := if p == 0 then items[p].cChildren else 1)
      else if i > 0 && x == ks[i - 1] then items[x].(NSibling := item)
      else if i < |ks| && x == ks[i] then items[x].(PSibling := item)
      else items[x])
  }

  ghost function Grow(kids: seq<seq<int>>, p: int, i: int): (r: seq<seq<int>>)
    requires 0 <= p < |kids| && 0 <= i <= |kids[p]|
    ensures |r| == |kids| + 1 && r[|kids|] == [] && r[p] == Insert(kids[p], i, |kids|)
    ensures forall h :: 0 <= h < |kids| && h != p ==> r[h] == kids[h]
  {
    kids[p := Insert(kids[p], i, |kids|)] + [[]]
  }

  lemma InsertDistinct(s: seq<int>, i: int, x: int)
    requires 0 <= i <= |s| && Distinct(s) && x !in s
    ensures Distinct(Insert(s, i, x))
    ensures forall y :: y in Insert(s, i, x) <==> y in s || y == x
    ensures forall j :: 0 <= j <= |s| ==>
              Insert(s, i, x)[j] == if j < i then s[j] else if j == i then x else s[j - 1]
  {
    var r := Insert(s, i, x);
    assert s == s[..i] + s[i..];
    assert r[i] == x;
    assert forall j :: 0 <= j < |s| ==> r[if j < i then j else j + 1] == s[j];
  }

  lemma NewItemUnknown(items: seq<Item>, kids: seq<seq<int>>, h: int)
    requires Linked(items, kids) && 0 <= h < |items|
    ensures |items| !in kids[h] && Distinct(kids[h])
    ensures forall c | c in kids[h] :: h < c < |items|
  {
    assert ItemOk(items, kids, h);
    forall c | c in kids[h] ensures h < c < |items| {
      var i :| 0 <= i < |kids[h]| && kids[h][i] == c;
      assert ChildOk(items, kids, h, i);
    }
  }

  // A child has one place.
  lemma ChildPlace(items: seq<Item>, kids: seq<seq<int>>, h: int, j: int, p: int, i: int)
    requires Linked(items, kids) && 0 <= h < |items| && 0 <= j < |kids[h]|
    requires 0 <= p < |items| && 0 <= i < |kids[p]| && kids[h][j] == kids[p][i]
    ensures h == p && j == i
  {
    assert ChildOk(items, kids, h, j) && ChildOk(items, kids, p, i) && ItemOk(items, kids, p);
  }

  lemma LinkChild(items: seq<Item>, kids: seq<seq<int>>, p: int, i: int, n: Item, h: int, j: int)
    requires Linked(items, kids) && 0 <= p < |items| && 0 <= i <= |kids[p]| && Unlinked(n)
    requires var kids' := Grow(kids, p, i); 0 <= h <= |items| && 0 <= j < |kids'[h]|
    ensures ChildOk(Link(items, kids[p], p, i, n), Grow(kids, p, i), h, j)
  {
    NewItemUnknown(items, kids, p);
    InsertDistinct(kids[p], i, |items|);
    var ks := kids[p];
    if h == p {
      if j < i {
        assert ChildOk(items, kids, p, j);
      } else if j > i {
        LinkMoved(items, kids, p, i, n, j);
      } else {
        assert At(Grow(kids, p, i)[p], i + 1) == At(ks, i) && At(Grow(kids, p, i)[p], i - 1) == At(ks, i - 1);
      }
    } else {
      assert ChildOk(items, kids, h, j);
      if i > 0 && kids[h][j] == ks[i - 1] {
        ChildPlace(items, kids, h, j, p, i - 1);
      }
      if i < |ks| && kids[h][j] == ks[i] {
        ChildPlace(items, kids, h, j, p, i);
      }
    }
  }

  // The children behind the new one.
  lemma LinkMoved(items: seq<Item>, kids: seq<seq<int>>, p: int, i: int, n: Item, j: int)
    requires Linked(items, kids) && 0 <= p < |items| && 0 <= i < j <= |kids[p]| && Unlinked(n)
    ensures j < |Grow(kids, p, i)[p]| && ChildOk(Link(items, kids[p], p, i, n), Grow(kids, p, i), p, j)
  {
    var ks, ks', c := kids[p], Grow(kids, p, i)[p], kids[p][j - 1];
    NewItemUnknown(items, kids, p);
    InsertDistinct(ks, i, |items|);
    assert ks'[j] == c && At(ks', j + 1) == At(ks, j);
    assert At(ks', j - 1) == if j - 1 == i then |items| else At(ks, j - 2);
    assert ChildOk(items, kids, p, j - 1);
    assert i > 0 ==> c != ks[i - 1];
    assert j - 1 != i ==> c != ks[i];
  }

  lemma LinkItem(items: seq<Item>, kids: seq<seq<int>>, p: int, i: int, n: Item, h: int)
    requires Linked(items, kids) && 0 <= p < |items| && 0 <= i <= |kids[p]| && Unlinked(n) && 0 <= h <= |items|
    ensures ItemOk(Link(items, kids[p], p, i, n), Grow(kids, p, i), h)
  {
    NewItemUnknown(items, kids, p);
    InsertDistinct(kids[p], i, |items|);
    if h < |items| {
      assert ItemOk(items, kids, h);
      if h == 0 {
        assert i > 0 ==> kids[p][i - 1] in kids[p];
        assert i < |kids[p]| ==> kids[p][i] in kids[p];
      }
    }
  }

  lemma LinkLinked(items: seq<Item>, kids: seq<seq<int>>, p: int, i: int, n: Item)
    requires Linked(items, kids) && 0 <= p < |items| && 0 <= i <= |kids[p]| && Unlinked(n)
    ensures Linked(Link(items, kids[p], p, i, n), Grow(kids, p, i))
  {
    var items', kids' := Link(items, kids[p], p, i, n), Grow(kids, p, i);
    forall h | 0 <= h < |items'| ensures ItemOk(items', kids', h) {
      LinkItem(items, kids, p, i, n, h);
    }
    forall h, j | 0 <= h < |items'| && 0 <= j < |kids'[h]| ensures ChildOk(items', kids', h, j) {
      LinkChild(items, kids, p, i, n, h, j);
    }
  }

  // --- The rows -----------------------------------------------------------------------------

  // w is v with a new closed item as child number i of p.
  ghost predicate OneMore(v: View, w: View, p: int, i: int)
  {
    Ordered(v) && Ordered(w) && 0 <= p < |v.kids| && 0 <= i <= |v.kids[p]| &&
    w.kids == Grow(v.kids, p, i) && |w.open| == |v.open| + 1 && !w.open[|v.open|] &&
    forall x :: 0 <= x < |v.open| ==> w.open[x] == v.open[x]
  }

  lemma OneMoreSame(v: View, w: View, p: int, i: int, x: int)
    requires OneMore(v, w, p, i) && 0 <= x < |v.kids|
    ensures x != p || !v.open[p] ==> Same(v, w, x)
    ensures Between(v.kids[p], p, |v.kids|)
  {
  }

  // Children of p after p itself: their rows do not change.
  lemma RowsBesides(v: View, w: View, p: int, i: int, cs: seq<int>)
    requires OneMore(v, w, p, i) && Between(cs, p, |v.kids|)
    ensures Rows(w, p, cs) == Rows(v, p, cs)
  {
    forall x | x in Rows(v, p, cs) ensures Same(v, w, x) {
      OneMoreSame(v, w, p, i, x);
    }
    RowsFrame(v, w, p, cs);
  }

  // The rows below p with the new item.
  lemma FlatWithItem(v: View, w: View, p: int, i: int)
    requires OneMore(v, w, p, i) && v.open[p]
    ensures Between(v.kids[p][..i], p, |v.kids|) && Between(v.kids[p][i..], p, |v.kids|)
    ensures var l, r := Rows(v, p, v.kids[p][..i]), Rows(v, p, v.kids[p][i..]);
            Flat(v, p) == l + r && Flat(w, p) == l + [|v.kids|] + r
  {
    var ks, item := v.kids[p], |v.kids|;
    OneMoreSame(v, w, p, i, p);
    assert ks == ks[..i] + ks[i..] && Between(ks[..i], p, item) && Between(ks[i..], p, item);
    RowsAppend(v, p, ks[..i], ks[i..]);
    RowsBesides(v, w, p, i, ks[..i]);
    RowsBesides(v, w, p, i, ks[i..]);
    assert w.kids[p] == (ks[..i] + [item]) + ks[i..];
    assert Between([item], p, |w.kids|) && Between(ks[..i] + [item], p, |w.kids|);
    RowsAppend(w, p, ks[..i], [item]);
    RowsAppend(w, p, ks[..i] + [item], ks[i..]);
    ClosedRows(w, p, [item]);
  }

  lemma LinkedOneMore(items: seq<Item>, kids: seq<seq<int>>, p: int, i: int, n: Item)
    requires Linked(items, kids) && Ordered(ViewOf(items, kids))
    requires 0 <= p < |items| && 0 <= i <= |kids[p]| && Unlinked(n)
    ensures var items', kids' := Link(items, kids[p], p, i, n), Grow(kids, p, i);
            Linked(items', kids') && OneMore(ViewOf(items, kids), ViewOf(items', kids'), p, i)
  {
    LinkLinked(items, kids, p, i, n);
    LinkedView(Link(items, kids[p], p, i, n), Grow(kids, p, i));
  }

  // A list with the new row, and what it takes to show the grown tree.
  lemma ShowsGrown(items: seq<Item>, kids: seq<seq<int>>, rows: seq<int>, p: int, i: int, n: Item, rows': seq<int>)
    requires Shows(items, kids, rows) && 0 <= p < |items| && 0 <= i <= |kids[p]| && Unlinked(n)
    requires var items', kids' := Link(items, kids[p], p, i, n), Grow(kids, p, i);
             Linked(items', kids') && Ordered(ViewOf(items', kids')) && rows' == Flat(ViewOf(items', kids'), 0)
    requires rows' == rows || exists e :: 0 <= e <= |rows| && rows' == Insert(rows, e, |items|)
    ensures Shows(Link(items, kids[p], p, i, n), Grow(kids, p, i), rows')
  {
    var items' := Link(items, kids[p], p, i, n);
    Shown(items, kids, rows);
    if rows' != rows {
      var e :| 0 <= e <= |rows| && rows' == Insert(rows, e, |items|);
      InsertDistinct(rows, e, |items|);
    }
    forall h | 0 < h < |items'| && items'[h].bOpened ensures h in rows' {
      assert items[h].bOpened;
    }
  }

  // The rows around the place of the new item: head, the rows of the children before it, the
  // rows of those behind it, and the rest of the list.
  ghost predicate Place(items: seq<Item>, kids: seq<seq<int>>, rows: seq<int>, p: int, i: int,
                        head: seq<int>, rest: seq<int>)
    requires Ordered(ViewOf(items, kids)) && 0 <= p < |items| == |kids| && 0 <= i <= |kids[p]|
  {
    var v, ks := ViewOf(items, kids), kids[p];
    Between(ks[..i], p, |kids|) && Between(ks[i..], p, |kids|) &&
    rows == head + Rows(v, p, ks[..i]) + (Rows(v, p, ks[i..]) + rest) &&
    (p == 0 ==> head == [] && rest == []) &&
    (p != 0 ==> head != [] && head[|head| - 1] == p) &&
    (rest != [] ==> 0 <= rest[0] < |items| && items[rest[0]].nLevel <= items[p].nLevel)
  }

  // Under an open item the new item is listed behind the rows of the children before it.
  lemma InsertRow(items: seq<Item>, kids: seq<seq<int>>, rows: seq<int>, p: int, i: int, n: Item)
      returns (head: seq<int>, rest: seq<int>)
    requires Shows(items, kids, rows) && 0 <= p < |items| && 0 <= i <= |kids[p]| && Unlinked(n) && items[p].bOpened
    ensures Place(items, kids, rows, p, i, head, rest)
    ensures var v, ks := ViewOf(items, kids), kids[p];
            Shows(Link(items, ks, p, i, n), Grow(kids, p, i),
                  head + Rows(v, p, ks[..i]) + [|items|] + (Rows(v, p, ks[i..]) + rest))
  {
    var items', kids' := Link(items, kids[p], p, i, n), Grow(kids, p, i);
    var v, w := ViewOf(items, kids), ViewOf(items', kids');
    Shown(items, kids, rows);
    LinkedOneMore(items, kids, p, i, n);
    FlatWithItem(v, w, p, i);
    var l, r := Rows(v, p, kids[p][..i]), Rows(v, p, kids[p][i..]);
    if p == 0 {
      head, rest := [], [];
      PlaceAtRoot(l, r, |items|);
    } else {
      var before, after, tail := AroundGrown(items, kids, rows, p, i, n);
      head, rest := before + [p], after;
      PlaceBelow(before, p, l, r, after, |items|);
      FirstLevel(v, items, tail, after, items[p].nLevel);
    }
    var rows' := head + l + [|items|] + (r + rest);
    assert rows' == Insert(rows, |head + l|, |items|) by {
      PlaceInserts(head + l, r + rest, |items|);
    }
    ShowsGrown(items, kids, rows, p, i, n, rows');
  }

  lemma PlaceAtRoot(l: seq<int>, r: seq<int>, item: int)
    ensures l + r == [] + l + (r + []) && l + [item] + r == [] + l + [item] + (r + [])
  {
  }

  lemma PlaceBelow(before: seq<int>, p: int, l: seq<int>, r: seq<int>, after: seq<int>, item: int)
    ensures before + [p] + (l + r) + after == (before + [p]) + l + (r + after)
    ensures before + [p] + (l + [item] + r) + after == (before + [p]) + l + [item] + (r + after)
  {
  }

  lemma PlaceInserts(a: seq<int>, b: seq<int>, item: int)
    ensures a + [item] + b == Insert(a + b, |a|, item)
  {
  }

  lemma FirstLevel(v: View, items: seq<Item>, tail: seq<int>, after: seq<int>, l: int)
    requires Ordered(v) && Between(tail, 0, |v.kids|) && after == Rows(v, 0, tail)
    requires UpToLevel(LevelsOf(items), tail, l)
    ensures after != [] ==> 0 <= after[0] < |items| && items[after[0]].nLevel <= l
  {
    if tail != [] {
      RowsCons(v, 0, tail);
      assert after[0] == tail[0];
    }
  }

  lemma AroundGrown(items: seq<Item>, kids: seq<seq<int>>, rows: seq<int>, p: int, i: int, n: Item)
      returns (before: seq<int>, after: seq<int>, tail: seq<int>)
    requires Shows(items, kids, rows) && 0 < p < |items| && p in rows && 0 <= i <= |kids[p]| && Unlinked(n)
    ensures var v, w := ViewOf(items, kids), ViewOf(Link(items, kids[p], p, i, n), Grow(kids, p, i));
            Ordered(w) && rows == before + [p] + Flat(v, p) + after &&
            Flat(w, 0) == before + [p] + Flat(w, p) + after &&
            Between(tail, 0, |kids|) && after == Rows(v, 0, tail)
    ensures UpToLevel(LevelsOf(items), tail, items[p].nLevel)
  {
    var v, w := ViewOf(items, kids), ViewOf(Link(items, kids[p], p, i, n), Grow(kids, p, i));
    Shown(items, kids, rows);
    LinkedOneMore(items, kids, p, i, n);
    forall x | x in rows && x != p && x !in Flat(v, p) ensures Same(v, w, x) {
      OneMoreSame(v, w, p, i, x);
    }
    assert SameElsewhere(v, w, 0, kids[0], p);
    before, after, tail := Split(v, w, LevelsOf(items), 0, 0, kids[0], p);
    assert w.open[0] && w.kids[0] == kids[0];
  }

  // Under a closed item nothing is listed.
  lemma InsertHidden(items: seq<Item>, kids: seq<seq<int>>, rows: seq<int>, p: int, i: int, n: Item)
    requires Shows(items, kids, rows) && 0 < p < |items| && 0 <= i <= |kids[p]| && Unlinked(n) && !items[p].bOpened
    ensures Shows(Link(items, kids[p], p, i, n), Grow(kids, p, i), rows)
  {
    var items', kids' := Link(items, kids[p], p, i, n), Grow(kids, p, i);
    var v, w := ViewOf(items, kids), ViewOf(items', kids');
    Shown(items, kids, rows);
    LinkedOneMore(items, kids, p, i, n);
    forall x | x in rows ensures Same(v, w, x) {
      OneMoreSame(v, w, p, i, x);
    }
    RowsFrame(v, w, 0, kids[0]);
    ShowsGrown(items, kids, rows, p, i, n, rows);
  }

  // --- Steps of the insertion ---------------------------------------------------------------

  // Where a new item goes among the children of its parent.
  datatype Position = TVI_FIRST | TVI_SORT | TVI_LAST | TVI_ROOT | After(hItem: int)

  // Child number i is what the position asks for.  Nothing is sorted for TVI_SORT, because
  // TView_ISortChildren is empty: the item becomes the first child.
  ghost predicate Fits(where: Position, ks: seq<int>, i: int)
  {
    0 <= i <= |ks| &&
    match where
    case TVI_FIRST | TVI_SORT => i == 0
    case TVI_LAST | TVI_ROOT => i == |ks|
    case After(s) => 1 <= i && ks[i - 1] == s
  }

  // The new item is in the list of items and knows its parent.
  ghost function Arrived(items: seq<Item>, p: int, n: Item): (r: seq<Item>)
    requires 0 <= p < |items|
    ensures |r| == |items| + 1
  {
    items[p := items[p].(cChildren := if p == 0 then items[p].cChildren else 1)] +
    [n.(hItem := |items|, Parent := p, nLevel := items[p].nLevel + 1)]
  }

  // The links of the items that the insertion changes.
  lemma LinksChanged(items: seq<Item>, kids: seq<seq<int>>, p: int, i: int, n: Item, items': seq<Item>)
    requires Linked(items, kids) && 0 <= p < |items| && 0 <= i <= |kids[p]| && Unlinked(n)
    requires |items'| == |items| + 1
    requires var a, ks := Arrived(items, p, n), kids[p];
             forall x :: 0 <= x < |items'| ==>
               items'[x] ==
                 if x == |items| then a[x].(NSibling := At(ks, i), PSibling := At(ks, i - 1))
                 else if x == p then a[x].(FChild := if i == 0 then |items| else items[p].FChild,
                                           LChild := if i == |ks| then |items| else items[p].LChild)
                 else if i > 0 && x == ks[i - 1] then a[x].(NSibling := |items|)
                 else if i < |ks| && x == ks[i] then a[x].(PSibling := |items|)
                 else a[x]
    ensures items' == Link(items, kids[p], p, i, n)
  {
    assert ItemOk(items, kids, p);
    NewItemUnknown(items, kids, p);
    InsertDistinct(kids[p], i, |items|);
  }

  // The neighbours of the new item, as the items before the insertion know them.
  lemma Neighbours(items: seq<Item>, kids: seq<seq<int>>, p: int, i: int)
    requires Linked(items, kids) && 0 <= p < |items| && 0 <= i <= |kids[p]|
    ensures var ks := kids[p];
            items[p].FChild == First(ks) && items[p].LChild == Last(ks) &&
            (i > 0 ==> p < ks[i - 1] < |items| && items[ks[i - 1]].NSibling == At(ks, i) &&
                       items[ks[i - 1]].hItem == ks[i - 1] && items[ks[i - 1]].Parent == p) &&
            (i < |ks| ==> p < ks[i] < |items| && items[ks[i]].hItem == ks[i]) &&
            (0 < i < |ks| ==> ks[i - 1] != ks[i])
    ensures items[p].hItem == p
  {
    var ks := kids[p];
    assert ItemOk(items, kids, p);
    if i > 0 {
      assert ChildOk(items, kids, p, i - 1) && ItemOk(items, kids, ks[i - 1]);
    }
    if i < |ks| {
      assert ChildOk(items, kids, p, i) && ItemOk(items, kids, ks[i]);
    }
  }

  // The item in front of the new one, among the rows.  The rows below it are those the new row
  // has to skip: they are on deeper levels, and the next row is not.
  ghost predicate Skips(items: seq<Item>, rows: seq<int>, h: int, head: seq<int>, below: seq<int>, rest: seq<int>)
  {
    rows == head + ([h] + (below + rest)) && 0 <= h < |items| &&
    (forall x | x in below :: 0 <= x < |items| && items[x].nLevel > items[h].nLevel) &&
    (below != [] ==> items[h].cChildren == 1 && items[h].bOpened) &&
    (rest != [] ==> 0 <= rest[0] < |items| && items[rest[0]].nLevel <= items[h].nLevel)
  }

  // Child number i - 1 and the rows below it.
  lemma SkipsBefore(items: seq<Item>, kids: seq<seq<int>>, rows: seq<int>, p: int, i: int,
                    head: seq<int>, rest: seq<int>)
    requires Shows(items, kids, rows) && 0 <= p < |items| && 0 < i <= |kids[p]|
    requires Place(items, kids, rows, p, i, head, rest)
    ensures 0 <= kids[p][i - 1] < |items|
    ensures var v, ks := ViewOf(items, kids), kids[p];
            Between(ks[..i - 1], p, |kids|) &&
            head + Rows(v, p, ks[..i]) == head + Rows(v, p, ks[..i - 1]) + ([ks[i - 1]] + Flat(v, ks[i - 1])) &&
            Skips(items, rows, ks[i - 1], head + Rows(v, p, ks[..i - 1]), Flat(v, ks[i - 1]),
                  Rows(v, p, ks[i..]) + rest)
  {
    var v, ks, c := ViewOf(items, kids), kids[p], kids[p][i - 1];
    Neighbours(items, kids, p, i);
    RowsBefore(v, p, ks, i);
    RegroupRows(head, Rows(v, p, ks[..i - 1]), c, Flat(v, c), Rows(v, p, ks[i..]) + rest);
    DeeperBelow(items, kids, rows, c);
    NextLevel(items, kids, rows, p, i, rest);
  }

  lemma RowsBefore(v: View, p: int, ks: seq<int>, i: int)
    requires Ordered(v) && 0 <= p && 0 < i <= |ks| && Between(ks[..i], p, |v.kids|)
    ensures Between(ks[..i - 1], p, |v.kids|) && p < ks[i - 1] < |v.kids|
    ensures Rows(v, p, ks[..i]) == Rows(v, p, ks[..i - 1]) + ([ks[i - 1]] + Flat(v, ks[i - 1]))
  {
    assert ks[..i] == ks[..i - 1] + [ks[i - 1]] && ks[..i][i - 1] == ks[i - 1];
    assert forall j :: 0 <= j < i - 1 ==> ks[..i][j] == ks[..i - 1][j];
    RowsAppend(v, p, ks[..i - 1], [ks[i - 1]]);
    RowsCons(v, p, [ks[i - 1]]);
  }

  lemma RegroupRows(head: seq<int>, l: seq<int>, c: int, f: seq<int>, more: seq<int>)
    ensures head + (l + ([c] + f)) + more == (head + l) + ([c] + (f + more))
    ensures head + (l + ([c] + f)) == head + l + ([c] + f)
  {
  }

  lemma DeeperBelow(items: seq<Item>, kids: seq<seq<int>>, rows: seq<int>, c: int)
    requires Shows(items, kids, rows) && 0 < c < |items|
    ensures var f := Flat(ViewOf(items, kids), c);
            (forall x | x in f :: 0 <= x < |items| && items[x].nLevel > items[c].nLevel) &&
            (f != [] ==> items[c].cChildren == 1 && items[c].bOpened)
  {
    Shown(items, kids, rows);
    OpenHasKids(items, kids, c);
    var v := ViewOf(items, kids);
    forall x | x in Flat(v, c) ensures 0 <= x < |items| && items[x].nLevel > items[c].nLevel {
      FlatDeeper(v, LevelsOf(items), c, x);
    }
  }

  lemma NextLevel(items: seq<Item>, kids: seq<seq<int>>, rows: seq<int>, p: int, i: int, rest: seq<int>)
    requires Shows(items, kids, rows) && 0 <= p < |items| && 0 < i <= |kids[p]|
    requires Between(kids[p][i..], p, |kids|) && 0 <= kids[p][i - 1] < |items|
    requires rest != [] ==> 0 <= rest[0] < |items| && items[rest[0]].nLevel <= items[p].nLevel
    ensures var next := Rows(ViewOf(items, kids), p, kids[p][i..]) + rest;
            next != [] ==> 0 <= next[0] < |items| && items[next[0]].nLevel <= items[kids[p][i - 1]].nLevel
  {
    var v, ks := ViewOf(items, kids), kids[p];
    assert ChildOk(items, kids, p, i - 1);
    if i < |ks| {
      assert ChildOk(items, kids, p, i);
      RowsCons(v, p, ks[i..]);
      assert ks[i..][0] == ks[i];
    }
  }

  // The parent and the rows below it.
  lemma SkipsParent(items: seq<Item>, kids: seq<seq<int>>, rows: seq<int>, p: int, head: seq<int>, rest: seq<int>)
    requires Shows(items, kids, rows) && 0 < p < |items| && items[p].bOpened
    requires Place(items, kids, rows, p, 0, head, rest)
    ensures head != [] && Skips(items, rows, p, head[..|head| - 1], Rows(ViewOf(items, kids), p, kids[p][0..]), rest)
    ensures head == head[..|head| - 1] + [p] && Rows(ViewOf(items, kids), p, kids[p][..0]) == []
  {
    var v, ks := ViewOf(items, kids), kids[p];
    assert ks[0..] == ks && ks[..0] == [];
    DeeperBelow(items, kids, rows, p);
    RegroupHead(head, p, Rows(v, p, ks), rest);
  }

  lemma RegroupHead(head: seq<int>, p: int, f: seq<int>, rest: seq<int>)
    requires head != [] && head[|head| - 1] == p
    ensures head == head[..|head| - 1] + [p] && head + [] + (f + rest) == head[..|head| - 1] + ([p] + (f + rest))
  {
  }

  // The same rows are to be skipped once the new item is linked.
  lemma SkipsLinked(items: seq<Item>, ks: seq<int>, p: int, i: int, n: Item, rows: seq<int>, h: int,
                    head: seq<int>, below: seq<int>, rest: seq<int>)
    requires 0 <= p < |items| && 0 <= i <= |ks| && Skips(items, rows, h, head, below, rest)
    ensures Skips(Link(items, ks, p, i, n), rows, h, head, below, rest)
  {
  }

  // The fields of the new item and the place it has got.
  lemma LinkFields(items: seq<Item>, ks: seq<int>, p: int, i: int, n: Item)
    requires 0 <= p < |items| && 0 <= i <= |ks|
    ensures var items', item := Link(items, ks, p, i, n), |items|;
            items'[item].text == n.text && items'[item].lParam == n.lParam && items'[item].cChildren == n.cChildren &&
            items'[item].Parent == p && items'[item].nLevel == items[p].nLevel + 1 &&
            items'[item].bOpened == n.bOpened && (p != 0 ==> items'[p].cChildren == 1)
    ensures forall x {:trigger items[x]} :: 0 <= x < |items| ==>
              var y := Link(items, ks, p, i, n)[x];
              y.text == items[x].text && y.lParam == items[x].lParam && y.bOpened == items[x].bOpened &&
              y.nLevel == items[x].nLevel && y.Parent == items[x].Parent
  {
  }

  lemma PlaceAmong(where: Position, ks: seq<int>, i: int, x: int)
    requires Fits(where, ks, i)
    ensures match where
            case TVI_FIRST | TVI_SORT => Insert(ks, i, x) == [x] + ks
            case TVI_LAST | TVI_ROOT => Insert(ks, i, x) == ks + [x]
            case After(s) => exists l, r :: ks == l + [s] + r && Insert(ks, i, x) == l + [s] + [x] + r
  {
    if where.After? {
      var s, l, r := where.hItem, ks[..i - 1], ks[i..];
      assert ks[..i] == l + [s];
      assert ks == l + [s] + r && Insert(ks, i, x) == l + [s] + [x] + r;
    }
  }
}
