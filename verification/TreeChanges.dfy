// Opening and closing an item, and what that does to the rows shown.

module TreeChanges {
  import opened TreeRows
  import opened TreeItems

  // Facts about a tree view that shows its tree.
  lemma Shown(items: seq<Item>, kids: seq<seq<int>>, rows: seq<int>)
    requires Shows(items, kids, rows)
    ensures var v := ViewOf(items, kids);
            Levels(v, LevelsOf(items)) && Parents(v, ParentsOf(items)) &&
            Between(kids[0], 0, |kids|) && rows == Rows(v, 0, kids[0]) && OnLevel(LevelsOf(items), kids[0], 0) &&
            items[0].bOpened && Between(rows, 0, |kids|)
    ensures forall h | 0 <= h < |kids| :: Between(kids[h], h, |kids|)
  {
    LinkedView(items, kids);
    assert ItemOk(items, kids, 0);
    KidsLevel(ViewOf(items, kids), LevelsOf(items), 0);
  }

  // The children of a closed item are neither listed nor open.
  lemma ChildrenHidden(items: seq<Item>, kids: seq<seq<int>>, rows: seq<int>, h: int, c: int)
    requires Shows(items, kids, rows) && 0 < h < |items| && !items[h].bOpened && c in kids[h]
    ensures c !in rows && 0 < c < |items| && !items[c].bOpened
  {
    Shown(items, kids, rows);
    var i :| 0 <= i < |kids[h]| && kids[h][i] == c;
    assert ChildOk(items, kids, h, i);
    if c in rows {
      var k :| 0 <= k < |rows| && rows[k] == c;
      ParentBefore(ViewOf(items, kids), ParentsOf(items), 0, kids[0], k);
    }
  }

  lemma Around0(items: seq<Item>, kids: seq<seq<int>>, rows: seq<int>, h: int, items': seq<Item>)
      returns (before: seq<int>, after: seq<int>, tail: seq<int>)
    requires Shows(items, kids, rows) && h in rows && Linked(items', kids) && Ordered(ViewOf(items', kids))
    requires items'[0].bOpened && 0 <= h < |items|
    requires forall x | 0 <= x < |items| && x != h && x !in Flat(ViewOf(items, kids), h) :: items'[x] == items[x]
    ensures rows == before + [h] + Flat(ViewOf(items, kids), h) + after
    ensures Flat(ViewOf(items', kids), 0) == before + [h] + Flat(ViewOf(items', kids), h) + after
    ensures Between(tail, 0, |kids|) && after == Rows(ViewOf(items, kids), 0, tail)
    ensures UpToLevel(LevelsOf(items), tail, items[h].nLevel)
  {
    Shown(items, kids, rows);
    var v, w := ViewOf(items, kids), ViewOf(items', kids);
    forall x | x in rows && x != h && x !in Flat(v, h) ensures Same(v, w, x) {
      assert items'[x] == items[x];
    }
    assert SameElsewhere(v, w, 0, kids[0], h);
    before, after, tail := Split(v, w, LevelsOf(items), 0, 0, kids[0], h);
  }

  // A row of a list without repetitions stands at one place.
  lemma OnePlace(rows: seq<int>, before: seq<int>, h: int, rest: seq<int>, index: int)
    requires Distinct(rows) && rows == before + ([h] + rest) && 0 <= index < |rows| && rows[index] == h
    ensures index == |before| && rows[..index] == before
    ensures rows[..index + 1] == before + [h] && rows[index + 1..] == rest
  {
    assert rows[|before|] == h;
  }

  lemma WithoutBlock(rows: seq<int>, before: seq<int>, h: int, f: seq<int>, after: seq<int>)
    requires Distinct(rows) && rows == before + [h] + f + after
    ensures rows == before + ([h] + (f + after))
    ensures Distinct(before + [h] + after)
    ensures forall x | x in rows && x != h && x !in f :: x in before + [h] + after
    ensures forall x | x in f :: x !in before + [h] + after
  {
    assert rows == (before + [h]) + (f + after);
    assert rows[|before| + 1..] == f + after && rows[..|before| + 1] == before + [h];
    Cut(rows, |before| + 1, f, after);
    DistinctParts(before + [h], f + after);
    DistinctParts(f, after);
    assert forall x | x in f :: x in f + after;
    assert forall x | x in before + [h] + after :: x in before + [h] || x in after;
    assert forall x | x in rows :: x in before + [h] || x in f || x in after;
  }

  lemma ClosedItemsLinked(items: seq<Item>, kids: seq<seq<int>>, gone: set<int>)
    requires Linked(items, kids) && 0 !in gone
    ensures Linked(Close(items, gone), kids) && Ordered(ViewOf(Close(items, gone), kids))
  {
    CloseLinked(items, kids, gone);
    LinkedView(Close(items, gone), kids);
  }

  lemma FlatOfClosed(items: seq<Item>, kids: seq<seq<int>>, h: int)
    requires Linked(items, kids) && Ordered(ViewOf(items, kids)) && 0 <= h < |items| && !items[h].bOpened
    ensures Flat(ViewOf(items, kids), h) == []
  {
  }

  lemma OpenAreListed(items: seq<Item>, kids: seq<seq<int>>, rows: seq<int>, h: int, f: seq<int>, left: seq<int>)
    requires Shows(items, kids, rows)
    requires forall x | x in rows && x != h && x !in f :: x in left
    ensures var items' := Close(items, {h} + Members(f));
            forall x {:trigger items'[x].bOpened} | 0 < x < |items'| && items'[x].bOpened :: x in left
  {
    var items' := Close(items, {h} + Members(f));
    forall x | 0 < x < |items'| && items'[x].bOpened ensures x in left {
      assert items[x].bOpened;
    }
  }

  // Closing a listed item: the rows below it go, and everything is closed there.
  lemma Closing(items: seq<Item>, kids: seq<seq<int>>, rows: seq<int>, h: int)
      returns (before: seq<int>, after: seq<int>)
    requires Shows(items, kids, rows) && 0 < h < |items| && h in rows
    ensures var f := Flat(ViewOf(items, kids), h);
            rows == before + ([h] + (f + after)) &&
            Shows(Close(items, {h} + Members(f)), kids, before + [h] + after)
  {
    Shown(items, kids, rows);
    var f := Flat(ViewOf(items, kids), h);
    var gone := {h} + Members(f);
    var items' := Close(items, gone);
    assert forall x | 0 <= x < |items| && x != h && x !in f :: items'[x] == items[x];
    hide Rows, Flat, Linked, Ordered, Distinct, Members, Close;
    ClosedItemsLinked(items, kids, gone);
    var tail;
    before, after, tail := Around0(items, kids, rows, h, items');
    WithoutBlock(rows, before, h, f, after);
    FlatOfClosed(items', kids, h);
    assert before + [h] + [] == before + [h];
    OpenAreListed(items, kids, rows, h, f, before + [h] + after);
  }

  // --- Opening ------------------------------------------------------------------------------

  ghost function Open(items: seq<Item>, h: int): (r: seq<Item>)
    requires 0 <= h < |items|
    ensures |r| == |items|
  {
    items[h := items[h].(bOpened := true)]
  }

  lemma OpenLinked(items: seq<Item>, kids: seq<seq<int>>, h: int)
    requires Linked(items, kids) && 0 < h < |items| && kids[h] != []
    ensures Linked(Open(items, h), kids) && Ordered(ViewOf(Open(items, h), kids))
  {
    var u := Open(items, h);
    forall x | 0 <= x < |u| ensures ItemOk(u, kids, x) {
      assert ItemOk(items, kids, x);
    }
    forall x, i | 0 <= x < |u| && 0 <= i < |kids[x]| ensures ChildOk(u, kids, x, i) {
      assert ChildOk(items, kids, x, i);
    }
    LinkedView(u, kids);
  }

  // The rows below an item that has just been opened are its children.
  lemma FlatOfOpened(items: seq<Item>, kids: seq<seq<int>>, rows: seq<int>, h: int)
    requires Shows(items, kids, rows) && 0 < h < |items| && !items[h].bOpened && kids[h] != []
    requires Ordered(ViewOf(Open(items, h), kids))
    ensures Flat(ViewOf(Open(items, h), kids), h) == kids[h]
    ensures Distinct(kids[h]) && forall c | c in kids[h] :: c !in rows
  {
    var u := Open(items, h);
    LinkedView(items, kids);
    assert ItemOk(items, kids, h);
    forall c | c in kids[h] ensures 0 <= c < |u| && !u[c].bOpened && c !in rows {
      ChildrenHidden(items, kids, rows, h, c);
      var i :| 0 <= i < |kids[h]| && kids[h][i] == c;
      assert ChildOk(items, kids, h, i);
    }
    ClosedRows(ViewOf(u, kids), h, kids[h]);
  }

  lemma WithBlock(rows: seq<int>, head: seq<int>, ks: seq<int>, after: seq<int>)
    requires Distinct(rows) && rows == head + after && Distinct(ks) && forall c | c in ks :: c !in rows
    ensures Distinct(head + ks + after)
    ensures forall x | x in rows :: x in head + ks + after
  {
    DistinctParts(head, after);
    assert forall c | c in ks :: c !in head && c !in after;
    JoinDistinct(head, ks);
    JoinDistinct(head + ks, after);
  }

  lemma StillListed(items: seq<Item>, kids: seq<seq<int>>, rows: seq<int>, h: int, rows': seq<int>)
    requires Shows(items, kids, rows) && 0 < h < |items| && h in rows
    requires forall x | x in rows :: x in rows'
    ensures var items' := Open(items, h);
            forall x {:trigger items'[x].bOpened} | 0 < x < |items'| && items'[x].bOpened :: x in rows'
  {
    var items' := Open(items, h);
    forall x | 0 < x < |items'| && items'[x].bOpened ensures x in rows' {
      assert x != h ==> items[x].bOpened;
    }
  }

  // Opening a listed closed item: its children appear behind it.
  lemma Opening(items: seq<Item>, kids: seq<seq<int>>, rows: seq<int>, h: int)
      returns (before: seq<int>, after: seq<int>)
    requires Shows(items, kids, rows) && 0 < h < |items| && h in rows && !items[h].bOpened && kids[h] != []
    ensures rows == before + ([h] + after)
    ensures Shows(Open(items, h), kids, before + [h] + kids[h] + after)
  {
    Shown(items, kids, rows);
    var items' := Open(items, h);
    assert forall x | 0 <= x < |items| && x != h :: items'[x] == items[x];
    hide Rows, Flat, Linked, Ordered, Distinct, Members, Open;
    OpenLinked(items, kids, h);
    FlatOfOpened(items, kids, rows, h);
    FlatOfClosed(items, kids, h);
    var tail;
    before, after, tail := Around0(items, kids, rows, h, items');
    NoneBelow(before, h, kids[h], after);
    WithBlock(rows, before + [h], kids[h], after);
    StillListed(items, kids, rows, h, before + [h] + kids[h] + after);
  }

  lemma NoneBelow(before: seq<int>, h: int, ks: seq<int>, after: seq<int>)
    ensures before + [h] + [] + after == before + ([h] + after) == (before + [h]) + after
  {
  }

  // --- Redundant requests -------------------------------------------------------------------

  // The state in which a closed item is marked as open: the rows behind it, to the end of the
  // list, are taken for the rows below it.
  lemma FalselyOpen(items: seq<Item>, kids: seq<seq<int>>, rows: seq<int>, h: int)
      returns (before: seq<int>, after: seq<int>, tail: seq<int>)
    requires Shows(items, kids, rows) && 0 < h < |items| && h in rows && !items[h].bOpened && kids[h] != []
    ensures rows == before + ([h] + after)
    ensures Linked(Open(items, h), kids) && Ordered(ViewOf(Open(items, h), kids)) && Between(tail, 0, |kids|)
    ensures after == Rows(ViewOf(Open(items, h), kids), 0, tail)
    ensures Stops(tail, items[h].LChild, [])
  {
    Shown(items, kids, rows);
    var items' := Open(items, h);
    assert forall x | 0 <= x < |items| && x != h :: items'[x] == items[x];
    hide Rows, Flat, Linked, Ordered, Distinct, Open;
    OpenLinked(items, kids, h);
    FlatOfClosed(items, kids, h);
    before, after, tail := Around0(items, kids, rows, h, items');
    RowsAfter(rows, before, h, after);
    SameRows(items, kids, h, items', tail);
    LastNotBehind(items, kids, rows, h, tail);
  }

  lemma RowsAfter(rows: seq<int>, before: seq<int>, h: int, after: seq<int>)
    requires Distinct(rows) && rows == before + [h] + [] + after
    ensures rows == before + ([h] + after) && h !in after && forall x | x in after :: x in rows
  {
    assert rows == (before + [h]) + after;
    DistinctParts(before + [h], after);
    assert h in before + [h];
  }

  lemma SameRows(items: seq<Item>, kids: seq<seq<int>>, h: int, items': seq<Item>, tail: seq<int>)
    requires Linked(items, kids) && Linked(items', kids) && 0 <= h < |items|
    requires Ordered(ViewOf(items, kids)) && Ordered(ViewOf(items', kids)) && Between(tail, 0, |kids|)
    requires forall x | 0 <= x < |items| && x != h :: items'[x] == items[x]
    requires h !in Rows(ViewOf(items, kids), 0, tail)
    ensures Rows(ViewOf(items', kids), 0, tail) == Rows(ViewOf(items, kids), 0, tail)
  {
    var v, w := ViewOf(items, kids), ViewOf(items', kids);
    forall x | x in Rows(v, 0, tail) ensures Same(v, w, x) {
    }
    RowsFrame(v, w, 0, tail);
  }

  lemma LastNotBehind(items: seq<Item>, kids: seq<seq<int>>, rows: seq<int>, h: int, tail: seq<int>)
    requires Shows(items, kids, rows) && 0 < h < |items| && !items[h].bOpened && kids[h] != []
    requires Between(tail, 0, |kids|) && forall x | x in Rows(ViewOf(items, kids), 0, tail) :: x in rows
    ensures Stops(tail, items[h].LChild, [])
  {
    assert ItemOk(items, kids, h);
    var last := items[h].LChild;
    assert last in kids[h];
    ChildrenHidden(items, kids, rows, h, last);
    if last in tail {
      HeadsListed(ViewOf(items, kids), 0, tail, last);
    }
  }

  // Then every row behind h is gone.  That is right only if there was none: otherwise the
  // first of them is a child of an item that is still open and listed.
  lemma AllGone(items: seq<Item>, kids: seq<seq<int>>, rows: seq<int>, h: int, before: seq<int>, after: seq<int>)
    requires Shows(items, kids, rows) && 0 < h < |items| && !items[h].bOpened
    requires rows == before + ([h] + after)
    ensures Shows(Close(Open(items, h), {h} + Members(after)), kids, before + [h]) <==> after == []
  {
    var items' := Close(Open(items, h), {h} + Members(after));
    if after == [] {
      assert items' == items && before + [h] == rows;
    } else {
      NextIsOwed(items, kids, rows, h, before, after);
    }
  }

  // A row is a top-level item, or its parent is an open item listed before it.
  lemma ParentOfRow(items: seq<Item>, kids: seq<seq<int>>, rows: seq<int>, k: int)
    requires Shows(items, kids, rows) && 0 <= k < |rows|
    ensures 0 < rows[k] < |items|
    ensures rows[k] in kids[0] ||
            (var y := items[rows[k]].Parent;
             0 < y < |items| && items[y].bOpened && y in rows[..k] && rows[k] in kids[y])
  {
    Shown(items, kids, rows);
    assert ItemOk(items, kids, rows[k]);
    ParentBefore(ViewOf(items, kids), ParentsOf(items), 0, kids[0], k);
  }

  // A tree view that shows its tree lists the top-level items and the children of listed open items.
  lemma ChildrenListed(items: seq<Item>, kids: seq<seq<int>>, rows: seq<int>, y: int, x: int)
    requires Shows(items, kids, rows) && 0 <= y < |items| && x in kids[y]
    requires y == 0 || (y in rows && items[y].bOpened)
    ensures x in rows
  {
    Shown(items, kids, rows);
    if y == 0 {
      HeadsListed(ViewOf(items, kids), 0, kids[0], x);
    } else {
      KidsListed(ViewOf(items, kids), 0, kids[0], y, x);
    }
  }

  lemma NextIsOwed(items: seq<Item>, kids: seq<seq<int>>, rows: seq<int>, h: int, before: seq<int>, after: seq<int>)
    requires Shows(items, kids, rows) && 0 < h < |items| && !items[h].bOpened
    requires rows == before + ([h] + after) && after != []
    ensures !Shows(Close(Open(items, h), {h} + Members(after)), kids, before + [h])
  {
    assert Distinct(rows);
    var items' := Close(Open(items, h), {h} + Members(after));
    assert |items'| == |items| == |kids|;
    hide Shows, Linked, Ordered, Rows, Flat;
    var head, x := before + [h], after[0];
    assert rows == head + after && rows[|head|] == x && rows[..|head|] == head;
    DistinctParts(head, after);
    assert x in after && h in head;
    assert forall y | 0 <= y < |items| && y != h && y !in after :: items'[y] == items[y];
    ParentOfRow(items, kids, rows, |head|);
    var y := if x in kids[0] then 0 else items[x].Parent;
    assert y != 0 ==> y in head && y !in after && y != h;
    hide Shows, Close, Open, Members;
    if Shows(items', kids, head) {
      ChildrenListed(items', kids, head, y, x);
    }
  }

  // Opening an open item again lists its children twice.
  lemma ListedTwice(items: seq<Item>, kids: seq<seq<int>>, rows: seq<int>, before: seq<int>, ks: seq<int>,
                    after: seq<int>)
    requires Shows(items, kids, rows) && rows == before + after && ks != []
    ensures !Shows(items, kids, before + ks + after)
  {
    assert |before + ks + after| > |rows|;
  }

  // --- Requests to expand -------------------------------------------------------------------

  // The flags of TVM_EXPAND, as TView_OnExpand tests them: TVE_COLLAPSE is 1, TVE_EXPAND 2,
  // TVE_COLLAPSERESET 0x8000.  TVE_TOGGLE is 3 and thus a request to collapse.
  predicate Collapses(uAct: nat)
  {
    uAct % 2 == 1 || uAct / 0x8000 % 2 == 1
  }

  predicate Expands(uAct: nat)
  {
    !Collapses(uAct) && uAct / 2 % 2 == 1
  }

  // Requests that the flat list does not survive: opening an open item, and closing a closed
  // one unless it is in the last row.
  predicate Redundant(uAct: nat, open: bool, last: bool)
  {
    (Expands(uAct) && open) || (Collapses(uAct) && !open && !last)
  }

  // The branch of TView_OnExpand that toggles the mark needs one of the two lowest bits set, and
  // none of the flags tested before it: there is no such request.
  lemma NeverToggles(uAct: nat)
    requires !Collapses(uAct) && !Expands(uAct)
    ensures uAct % 4 == 0
  {
    assert uAct == 2 * (uAct / 2) && uAct / 2 == 2 * (uAct / 2 / 2);
  }

  // The tests in terms of the bits: TVE_COLLAPSE is bit 0, TVE_EXPAND bit 1, TVE_COLLAPSERESET bit 15.
  lemma FlagBits(uAct: nat, bit0: nat, bit1: nat, between: nat, bit15: nat, above: nat)
    requires bit0 <= 1 && bit1 <= 1 && between < 0x2000 && bit15 <= 1
    requires uAct == bit0 + 2 * bit1 + 4 * between + 0x8000 * bit15 + 0x1_0000 * above
    ensures Collapses(uAct) <==> bit0 == 1 || bit15 == 1
    ensures Expands(uAct) <==> bit0 == 0 && bit15 == 0 && bit1 == 1
  {
    Split2(bit0, bit1 + 2 * between + 0x4000 * bit15 + 0x8000 * above);
    Split2(bit1, between + 0x2000 * bit15 + 0x4000 * above);
    HighBits(bit0 + 2 * bit1 + 4 * between, bit15 + 2 * above);
    Split2(bit15, above);
  }

  lemma Split2(bit: nat, rest: nat)
    requires bit <= 1
    ensures (bit + 2 * rest) % 2 == bit && (bit + 2 * rest) / 2 == rest
  {
  }

  lemma HighBits(low: nat, high: nat)
    requires low < 0x8000
    ensures (low + 0x8000 * high) / 0x8000 == high
  {
  }

  // The mark TView_OnExpand sets before it calls TView_IShowSubItems.
  ghost function Marked(uAct: nat, items: seq<Item>, h: int): (r: seq<Item>)
    requires 0 <= h < |items|
    ensures |r| == |items|
  {
    if Collapses(uAct) then items[h := items[h].(bOpened := true)]
    else if Expands(uAct) then items[h := items[h].(bOpened := false)]
    else items
  }

  // The rows below h are gone, and everything there is closed.
  ghost predicate Closed(items: seq<Item>, kids: seq<seq<int>>, rows: seq<int>, h: int,
                         items': seq<Item>, rows': seq<int>)
    requires 0 <= h < |items| == |kids|
  {
    Ordered(ViewOf(items, kids)) &&
    items' == Close(items, {h} + Members(Flat(ViewOf(items, kids), h))) &&
    exists before, after ::
      rows == before + ([h] + (Flat(ViewOf(items, kids), h) + after)) && rows' == before + [h] + after
  }

  // The children of h are listed behind it.
  ghost predicate Opened(items: seq<Item>, kids: seq<seq<int>>, rows: seq<int>, h: int,
                         items': seq<Item>, rows': seq<int>)
    requires 0 <= h < |items| == |kids|
  {
    items' == Open(items, h) &&
    exists before, after :: rows == before + ([h] + after) && rows' == before + [h] + kids[h] + after
  }

  // Every row behind h is gone, and the items there are closed.
  ghost predicate Lost(items: seq<Item>, rows: seq<int>, h: int, items': seq<Item>, rows': seq<int>)
    requires 0 <= h < |items|
  {
    exists before, after ::
      rows == before + ([h] + after) && rows' == before + [h] && items' == Close(items, {h} + Members(after))
  }

  // The children of h are listed behind it, whether they are listed already or not.
  ghost predicate Doubled(items: seq<Item>, kids: seq<seq<int>>, rows: seq<int>, h: int,
                          items': seq<Item>, rows': seq<int>)
    requires 0 <= h < |items| == |kids|
  {
    items' == items &&
    exists before, after :: rows == before + ([h] + after) && rows' == before + [h] + kids[h] + after
  }

  lemma HasChild(items: seq<Item>, kids: seq<seq<int>>, rows: seq<int>, h: int)
    requires Shows(items, kids, rows) && 0 <= h < |items|
    ensures |kids| == |items| && Linked(items, kids) && Ordered(ViewOf(items, kids))
    ensures (items[h].FChild != 0 ==> kids[h] != []) && (h in rows ==> 0 < h && rows != [])
  {
    Shown(items, kids, rows);
    assert ItemOk(items, kids, h);
  }

  // What has to be known about the rows before a request is carried out.
  lemma Prepare(uAct: nat, items: seq<Item>, kids: seq<seq<int>>, rows: seq<int>, h: int, index: int)
      returns (before: seq<int>, after: seq<int>, cs: seq<int>, tail: seq<int>)
    requires Shows(items, kids, rows) && 0 < h < |items| && kids[h] != []
    requires 0 <= index < |rows| && rows[index] == h
    ensures var m := Marked(uAct, items, h);
            Linked(m, kids) && Ordered(ViewOf(m, kids)) &&
            (m[h].bOpened ==> Below(m, kids, rows, index, h, cs, tail))
    ensures Prepared(uAct, items, kids, rows, h, index, before, after, cs, tail)
  {
    MarkedIs(uAct, items, kids, h);
    hide Shows, Prepared, Below, Linked, Ordered, Marked, Open;
    if items[h].bOpened {
      before, after := PrepareOpen(uAct, items, kids, rows, h, index);
      cs, tail := kids[h], after;
    } else if Collapses(uAct) {
      before, after, cs := PrepareAgain(uAct, items, kids, rows, h, index);
      tail := [];
    } else {
      before, after := PrepareClosed(uAct, items, kids, rows, h, index);
      cs, tail := [], [];
    }
  }

  lemma MarkedIs(uAct: nat, items: seq<Item>, kids: seq<seq<int>>, h: int)
    requires Linked(items, kids) && Ordered(ViewOf(items, kids)) && 0 < h < |items| && kids[h] != []
    ensures var m := Marked(uAct, items, h);
            Linked(m, kids) && Ordered(ViewOf(m, kids)) &&
            (items[h].bOpened && !Expands(uAct) ==> m == items) &&
            (items[h].bOpened && Expands(uAct) ==> !m[h].bOpened) &&
            (!items[h].bOpened && Collapses(uAct) ==> m == Open(items, h) && m[h].bOpened) &&
            (!items[h].bOpened && !Collapses(uAct) ==> m == items)
  {
    assert items[h := items[h].(bOpened := false)] == Close(items, {h});
    ClosedItemsLinked(items, kids, {h});
    OpenLinked(items, kids, h);
  }

  lemma PrepareOpen(uAct: nat, items: seq<Item>, kids: seq<seq<int>>, rows: seq<int>, h: int, index: int)
      returns (before: seq<int>, after: seq<int>)
    requires Shows(items, kids, rows) && 0 < h < |items| && kids[h] != [] && items[h].bOpened
    requires 0 <= index < |rows| && rows[index] == h
    ensures Below(items, kids, rows, index, h, kids[h], after)
    ensures Prepared(uAct, items, kids, rows, h, index, before, after, kids[h], after)
  {
    assert Distinct(rows) && Linked(items, kids) && Ordered(ViewOf(items, kids)) && |kids| == |items|;
    OpenHasKids(items, kids, h);
    hide Shows, Linked, Ordered, Rows, Flat, Stops, Distinct, Close, Members;
    before, after := Closing(items, kids, rows, h);
    OnePlace(rows, before, h, Flat(ViewOf(items, kids), h) + after, index);
  }

  lemma PrepareAgain(uAct: nat, items: seq<Item>, kids: seq<seq<int>>, rows: seq<int>, h: int, index: int)
      returns (before: seq<int>, after: seq<int>, cs: seq<int>)
    requires Shows(items, kids, rows) && 0 < h < |items| && kids[h] != [] && !items[h].bOpened && Collapses(uAct)
    requires 0 <= index < |rows| && rows[index] == h
    ensures Below(Open(items, h), kids, rows, index, h, cs, [])
    ensures Prepared(uAct, items, kids, rows, h, index, before, after, cs, [])
  {
    hide Linked, Ordered, Rows, Flat, Stops, Distinct;
    before, after, cs := FalselyOpen(items, kids, rows, h);
    OnePlace(rows, before, h, after, index);
    assert after == after + [];
  }

  lemma PrepareClosed(uAct: nat, items: seq<Item>, kids: seq<seq<int>>, rows: seq<int>, h: int, index: int)
      returns (before: seq<int>, after: seq<int>)
    requires Shows(items, kids, rows) && 0 < h < |items| && kids[h] != [] && !items[h].bOpened && !Collapses(uAct)
    requires 0 <= index < |rows| && rows[index] == h
    ensures Prepared(uAct, items, kids, rows, h, index, before, after, [], [])
  {
    hide Linked, Ordered, Rows, Flat, Distinct;
    before, after := Opening(items, kids, rows, h);
    OnePlace(rows, before, h, after, index);
  }

  ghost predicate Prepared(uAct: nat, items: seq<Item>, kids: seq<seq<int>>, rows: seq<int>, h: int, index: int,
                           before: seq<int>, after: seq<int>, cs: seq<int>, tail: seq<int>)
    requires Shows(items, kids, rows) && 0 < h < |items| && 0 <= index < |rows|
  {
    rows[..index + 1] == before + [h] &&
    if items[h].bOpened then
      cs == kids[h] && tail == after && rows[index + 1..] == Flat(ViewOf(items, kids), h) + after &&
      Between(cs, 0, |kids|) && Rows(ViewOf(items, kids), 0, cs) == Flat(ViewOf(items, kids), h) &&
      Shows(Close(items, {h} + Members(Flat(ViewOf(items, kids), h))), kids, before + [h] + after)
    else if Collapses(uAct) then
      tail == [] && rows[index + 1..] == after && Between(cs, 0, |kids|) &&
      Ordered(ViewOf(Open(items, h), kids)) && after == Rows(ViewOf(Open(items, h), kids), 0, cs)
    else
      rows[index + 1..] == after && Shows(Open(items, h), kids, before + [h] + kids[h] + after)
  }

  // The outcome of a request: it is carried out, and the rows still show the tree unless it
  // was redundant.
  lemma Outcome(uAct: nat, items: seq<Item>, kids: seq<seq<int>>, rows: seq<int>, h: int, index: int,
                before: seq<int>, after: seq<int>, cs: seq<int>, tail: seq<int>,
                items': seq<Item>, rows': seq<int>)
    requires Shows(items, kids, rows) && 0 < h < |items| && kids[h] != []
    requires 0 <= index < |rows| && rows[index] == h
    requires Prepared(uAct, items, kids, rows, h, index, before, after, cs, tail)
    requires var m := Marked(uAct, items, h);
             if m[h].bOpened then
               Ordered(ViewOf(m, kids)) && Between(cs, 0, |kids|) && rows' == rows[..index + 1] + tail &&
               items' == Close(m, {h} + Members(Rows(ViewOf(m, kids), 0, cs)))
             else
               rows' == rows[..index + 1] + kids[h] + rows[index + 1..] &&
               items' == m[h := m[h].(bOpened := true)]
    ensures Shows(items', kids, rows') <==> !Redundant(uAct, items[h].bOpened, rows[|rows| - 1] == h)
    ensures !Expands(uAct) && items[h].bOpened ==> Closed(items, kids, rows, h, items', rows')
    ensures !Collapses(uAct) && !items[h].bOpened ==> Opened(items, kids, rows, h, items', rows')
    ensures Expands(uAct) && items[h].bOpened ==> Doubled(items, kids, rows, h, items', rows')
    ensures Collapses(uAct) && !items[h].bOpened ==> Lost(items, rows, h, items', rows')
  {
    assert rows == rows[..index + 1] + rows[index + 1..];
    MarkedIs(uAct, items, kids, h);
    hide Marked, Linked, Ordered, Rows, Flat, Distinct, Closed, Opened, Doubled, Lost;
    if items[h].bOpened && !Expands(uAct) {
      OutcomeClosed(uAct, items, kids, rows, h, index, before, after, cs, tail, items', rows');
    } else if items[h].bOpened {
      OutcomeTwice(items, kids, rows, h, index, items', rows');
    } else if Collapses(uAct) {
      OutcomeAgain(uAct, items, kids, rows, h, index, before, after, cs, tail, items', rows');
    } else {
      OutcomeOpened(uAct, items, kids, rows, h, index, before, after, cs, tail, items', rows');
    }
  }

  lemma OutcomeClosed(uAct: nat, items: seq<Item>, kids: seq<seq<int>>, rows: seq<int>, h: int, index: int,
                      before: seq<int>, after: seq<int>, cs: seq<int>, tail: seq<int>,
                      items': seq<Item>, rows': seq<int>)
    requires Shows(items, kids, rows) && 0 < h < |items| && kids[h] != [] && items[h].bOpened
    requires 0 <= index < |rows| && rows[index] == h
    requires Prepared(uAct, items, kids, rows, h, index, before, after, cs, tail)
    requires Between(cs, 0, |kids|) && rows' == rows[..index + 1] + tail
    requires items' == Close(items, {h} + Members(Rows(ViewOf(items, kids), 0, cs)))
    ensures Shows(items', kids, rows') && Closed(items, kids, rows, h, items', rows')
  {
    HasChild(items, kids, rows, h);
    hide Linked, Ordered, Rows, Flat, Distinct, Shows, Close;
    var f := Flat(ViewOf(items, kids), h);
    TwoParts(rows, index, before, h, f + after);
  }

  lemma OutcomeTwice(items: seq<Item>, kids: seq<seq<int>>, rows: seq<int>, h: int, index: int,
                     items': seq<Item>, rows': seq<int>)
    requires Shows(items, kids, rows) && 0 < h < |items| && kids[h] != []
    requires 0 <= index < |rows| && rows[index] == h && items' == items
    requires rows' == rows[..index + 1] + kids[h] + rows[index + 1..]
    ensures !Shows(items', kids, rows') && Doubled(items, kids, rows, h, items', rows')
  {
    assert rows == rows[..index + 1] + rows[index + 1..];
    ListedTwice(items, kids, rows, rows[..index + 1], kids[h], rows[index + 1..]);
    hide Shows, Linked;
    assert rows[..index + 1] == rows[..index] + [h];
    TwoParts(rows, index, rows[..index], h, rows[index + 1..]);
  }

  lemma OutcomeAgain(uAct: nat, items: seq<Item>, kids: seq<seq<int>>, rows: seq<int>, h: int, index: int,
                     before: seq<int>, after: seq<int>, cs: seq<int>, tail: seq<int>,
                     items': seq<Item>, rows': seq<int>)
    requires Shows(items, kids, rows) && 0 < h < |items| && kids[h] != [] && !items[h].bOpened && Collapses(uAct)
    requires 0 <= index < |rows| && rows[index] == h
    requires Prepared(uAct, items, kids, rows, h, index, before, after, cs, tail)
    requires Ordered(ViewOf(Open(items, h), kids)) && Between(cs, 0, |kids|) && rows' == rows[..index + 1] + tail
    requires items' == Close(Open(items, h), {h} + Members(Rows(ViewOf(Open(items, h), kids), 0, cs)))
    ensures Shows(items', kids, rows') <==> rows[|rows| - 1] == h
    ensures Lost(items, rows, h, items', rows')
  {
    HasChild(items, kids, rows, h);
    assert Distinct(rows);
    CloseOpened(items, h, after);
    hide Linked, Ordered, Rows, Flat, Distinct, Shows, Open, Close, Members;
    TwoParts(rows, index, before, h, after);
    NoMore(before + [h]);
    AllGone(items, kids, rows, h, before, after);
    LastRow(rows, before, h, after);
  }

  lemma CloseOpened(items: seq<Item>, h: int, after: seq<int>)
    requires 0 <= h < |items|
    ensures Close(Open(items, h), {h} + Members(after)) == Close(items, {h} + Members(after))
  {
  }

  lemma TwoParts(rows: seq<int>, index: int, before: seq<int>, h: int, rest: seq<int>)
    requires 0 <= index < |rows| && rows[..index + 1] == before + [h] && rows[index + 1..] == rest
    ensures rows == before + ([h] + rest)
  {
    assert rows == rows[..index + 1] + rows[index + 1..];
  }

  lemma NoMore(s: seq<int>)
    ensures s + [] == s
  {
  }

  lemma LastRow(rows: seq<int>, before: seq<int>, h: int, after: seq<int>)
    requires Distinct(rows) && rows == before + ([h] + after)
    ensures after == [] <==> rows[|rows| - 1] == h
  {
    if rows[|rows| - 1] == h {
      OnePlace(rows, before, h, after, |rows| - 1);
    }
  }

  lemma OutcomeOpened(uAct: nat, items: seq<Item>, kids: seq<seq<int>>, rows: seq<int>, h: int, index: int,
                      before: seq<int>, after: seq<int>, cs: seq<int>, tail: seq<int>,
                      items': seq<Item>, rows': seq<int>)
    requires Shows(items, kids, rows) && 0 < h < |items| && kids[h] != [] && !items[h].bOpened && !Collapses(uAct)
    requires 0 <= index < |rows| && rows[index] == h
    requires Prepared(uAct, items, kids, rows, h, index, before, after, cs, tail)
    requires rows' == rows[..index + 1] + kids[h] + rows[index + 1..] && items' == Open(items, h)
    ensures Shows(items', kids, rows') && Opened(items, kids, rows, h, items', rows')
  {
    HasChild(items, kids, rows, h);
    hide Linked, Ordered, Rows, Flat, Distinct, Shows, Open;
    TwoParts(rows, index, before, h, after);
  }

  // --- What the list means -------------------------------------------------------------------

  // All ancestors of item x are open.
  ghost predicate AncestorsOpen(items: seq<Item>, x: int)
    decreases x
  {
    0 < x < |items| &&
    (items[x].Parent == 0 ||
     (0 < items[x].Parent < x && items[items[x].Parent].bOpened && AncestorsOpen(items, items[x].Parent)))
  }

  lemma {:induction false} ListedIffAncestorsOpen(items: seq<Item>, kids: seq<seq<int>>, rows: seq<int>, x: int)
    requires Shows(items, kids, rows) && 0 < x < |items|
    ensures x in rows <==> AncestorsOpen(items, x)
    decreases x
  {
    assert ItemOk(items, kids, x);
    var y := items[x].Parent;
    if x in rows {
      var k :| 0 <= k < |rows| && rows[k] == x;
      ParentOfRow(items, kids, rows, k);
      if x in kids[0] {
        var i :| 0 <= i < |kids[0]| && kids[0][i] == x;
        assert ChildOk(items, kids, 0, i);
      } else {
        ListedIffAncestorsOpen(items, kids, rows, y);
      }
    } else if AncestorsOpen(items, x) {
      if y != 0 {
        ListedIffAncestorsOpen(items, kids, rows, y);
      }
      ChildrenListed(items, kids, rows, y, x);
    }
  }

  // Expanding a closed item and collapsing it again changes nothing.
  lemma OpenedThenClosed(items: seq<Item>, kids: seq<seq<int>>, rows: seq<int>, h: int,
                         items1: seq<Item>, rows1: seq<int>, items2: seq<Item>, rows2: seq<int>)
    requires Shows(items, kids, rows) && 0 < h < |items| && !items[h].bOpened && kids[h] != []
    requires Opened(items, kids, rows, h, items1, rows1) && Shows(items1, kids, rows1)
    requires Closed(items1, kids, rows1, h, items2, rows2)
    ensures items2 == items && rows2 == rows
  {
    assert Distinct(rows1);
    FlatOfOpened(items, kids, rows, h);
    RestoreItems(items, kids, rows, h);
    hide Shows, Distinct, Flat, Close, Open;
    RestoreRows(rows, rows1, rows2, h, kids[h]);
  }

  lemma RestoreItems(items: seq<Item>, kids: seq<seq<int>>, rows: seq<int>, h: int)
    requires Shows(items, kids, rows) && 0 < h < |items| && !items[h].bOpened
    ensures Close(Open(items, h), {h} + Members(kids[h])) == items
  {
    forall c | c in kids[h] ensures 0 < c < |items| && !items[c].bOpened {
      ChildrenHidden(items, kids, rows, h, c);
    }
  }

  lemma RestoreRows(rows: seq<int>, rows1: seq<int>, rows2: seq<int>, h: int, ks: seq<int>)
    requires Distinct(rows1)
    requires exists before, after :: rows == before + ([h] + after) && rows1 == before + [h] + ks + after
    requires exists before, after :: rows1 == before + ([h] + (ks + after)) && rows2 == before + [h] + after
    ensures rows2 == rows
  {
    var b, a :| rows == b + ([h] + a) && rows1 == b + [h] + ks + a;
    var c, d :| rows1 == c + ([h] + (ks + d)) && rows2 == c + [h] + d;
    assert rows1 == b + ([h] + (ks + a));
    SamePlace(rows1, b, c, h, ks, a, d);
    assert b + [h] + a == b + ([h] + a);
  }

  lemma SamePlace(rows: seq<int>, b: seq<int>, c: seq<int>, h: int, ks: seq<int>, a: seq<int>, d: seq<int>)
    requires Distinct(rows) && rows == b + ([h] + (ks + a)) && rows == c + ([h] + (ks + d))
    ensures b == c && a == d
  {
    OnePlace(rows, b, h, ks + a, |c|);
    assert a == (ks + a)[|ks|..] && d == (ks + d)[|ks|..];
  }

  // --- The order of the list ------------------------------------------------------------------

  // h is an ancestor of x.
  ghost predicate Descends(items: seq<Item>, x: int, h: int)
    decreases x
  {
    0 < x < |items| && (items[x].Parent == h || (0 < items[x].Parent < x && Descends(items, items[x].Parent, h)))
  }

  lemma {:induction false} BelowDescends(items: seq<Item>, kids: seq<seq<int>>, rows: seq<int>, h: int, i: int)
    requires Shows(items, kids, rows) && 0 <= h < |items| && 0 <= i < |Flat(ViewOf(items, kids), h)|
    ensures Descends(items, Flat(ViewOf(items, kids), h)[i], h)
    decreases i
  {
    Shown(items, kids, rows);
    var v := ViewOf(items, kids);
    var f := Flat(v, h);
    var x := f[i];
    ParentBefore(v, ParentsOf(items), h, kids[h], i);
    if x in kids[h] {
      var j :| 0 <= j < |kids[h]| && kids[h][j] == x;
      assert ChildOk(items, kids, h, j);
    } else {
      var j :| 0 <= j < i && f[j] == items[x].Parent;
      BelowDescends(items, kids, rows, h, j);
      assert ItemOk(items, kids, x);
    }
  }

  lemma {:induction false} DescendantBelow(items: seq<Item>, kids: seq<seq<int>>, rows: seq<int>, h: int, x: int)
    requires Shows(items, kids, rows) && 0 < h < |items| && x in rows && Descends(items, x, h)
    ensures x in Flat(ViewOf(items, kids), h)
    decreases x
  {
    Shown(items, kids, rows);
    var v := ViewOf(items, kids);
    var k :| 0 <= k < |rows| && rows[k] == x;
    ParentOfRow(items, kids, rows, k);
    ParentIs(items, kids, x);
    var y := items[x].Parent;
    if y == h {
      HeadsListed(v, h, kids[h], x);
    } else {
      DescendantBelow(items, kids, rows, h, y);
      KidsListed(v, h, kids[h], y, x);
    }
  }

  lemma ParentIs(items: seq<Item>, kids: seq<seq<int>>, x: int)
    requires Linked(items, kids) && 0 < x < |items|
    ensures 0 <= items[x].Parent < x && x in kids[items[x].Parent]
    ensures x in kids[0] ==> items[x].Parent == 0
  {
    assert ItemOk(items, kids, x);
    if x in kids[0] {
      var i :| 0 <= i < |kids[0]| && kids[0][i] == x;
      assert ChildOk(items, kids, 0, i);
    }
  }

  // The listed descendants of a listed item are the rows that follow it, without a gap.
  lemma DescendantsFollow(items: seq<Item>, kids: seq<seq<int>>, rows: seq<int>, k: int) returns (m: nat)
    requires Shows(items, kids, rows) && 0 <= k < |rows|
    ensures k + m < |rows|
    ensures forall i {:trigger rows[i]} :: 0 <= i < |rows| ==>
              (k < i <= k + m <==> Descends(items, rows[i], rows[k]))
  {
    var h := rows[k];
    ParentOfRow(items, kids, rows, k);
    HasChild(items, kids, rows, h);
    Shown(items, kids, rows);
    assert Distinct(rows);
    var f := Flat(ViewOf(items, kids), h);
    m := |f|;
    hide Rows, Flat, Shows, Linked, Descends, Distinct;
    var before, after, tail := Around0(items, kids, rows, h, items);
    WithoutBlock(rows, before, h, f, after);
    OnePlace(rows, before, h, f + after, k);
    forall i | 0 <= i < |rows| ensures k < i <= k + m <==> Descends(items, rows[i], h) {
      RowOfBlock(items, kids, rows, k, after, i);
    }
  }

  lemma RowOfBlock(items: seq<Item>, kids: seq<seq<int>>, rows: seq<int>, k: int, after: seq<int>, i: int)
    requires Shows(items, kids, rows) && 0 <= k < |rows| && 0 <= i < |rows| && 0 < rows[k] < |items|
    requires rows[k + 1..] == Flat(ViewOf(items, kids), rows[k]) + after
    ensures k < i <= k + |Flat(ViewOf(items, kids), rows[k])| <==> Descends(items, rows[i], rows[k])
  {
    var h := rows[k];
    var f := Flat(ViewOf(items, kids), h);
    assert Distinct(rows);
    hide Rows, Flat, Descends;
    InBlock(rows, k, f, after, i);
    if rows[i] in f {
      var j :| 0 <= j < |f| && f[j] == rows[i];
      BelowDescends(items, kids, rows, h, j);
    }
    if Descends(items, rows[i], h) {
      DescendantBelow(items, kids, rows, h, rows[i]);
    }
  }

  lemma InBlock(rows: seq<int>, k: int, f: seq<int>, after: seq<int>, i: int)
    requires Distinct(rows) && 0 <= k < |rows| && 0 <= i < |rows| && rows[k + 1..] == f + after
    ensures rows[i] in f <==> k < i <= k + |f|
  {
    if k < i <= k + |f| {
      assert rows[i] == rows[k + 1..][i - k - 1] == f[i - k - 1];
    }
    if rows[i] in f {
      var j :| 0 <= j < |f| && f[j] == rows[i];
      assert rows[k + 1 + j] == rows[k + 1..][j] == f[j];
    }
  }

  // Siblings are listed in their order.
  lemma SiblingsFollow(items: seq<Item>, kids: seq<seq<int>>, rows: seq<int>, p: int, i: int, j: int)
    requires Shows(items, kids, rows) && 0 <= p < |items| == |kids| && 0 <= i < j < |kids[p]|
    requires p == 0 || (p in rows && items[p].bOpened)
    ensures exists a, b :: 0 <= a < b < |rows| && rows[a] == kids[p][i] && rows[b] == kids[p][j]
  {
    Shown(items, kids, rows);
    var v := ViewOf(items, kids);
    assert v.open[p] && Flat(v, p) == Rows(v, p, kids[p]);
    var a, b := SiblingRows(v, p, kids[p], i, j);
    if p > 0 {
      hide Rows, Flat, Shows, Linked, Distinct;
      var before, after, tail := Around0(items, kids, rows, p, items);
      Shifted(rows, before, p, Flat(v, p), after, a, b);
    }
  }

  lemma Shifted(rows: seq<int>, before: seq<int>, h: int, f: seq<int>, after: seq<int>, a: int, b: int)
    requires rows == before + [h] + f + after && 0 <= a < b < |f|
    ensures exists c, d :: 0 <= c < d < |rows| && rows[c] == f[a] && rows[d] == f[b]
  {
    var n := |before| + 1;
    assert rows[n + a] == f[a] && rows[n + b] == f[b];
  }

  lemma SiblingRows(v: View, lo: int, cs: seq<int>, i: int, j: int) returns (a: int, b: int)
    requires Ordered(v) && 0 <= lo && Between(cs, lo, |v.kids|) && 0 <= i < j < |cs|
    ensures 0 <= a < b < |Rows(v, lo, cs)| && Rows(v, lo, cs)[a] == cs[i] && Rows(v, lo, cs)[b] == cs[j]
  {
    assert cs == cs[..j] + cs[j..] && cs[..j][i] == cs[i];
    RowsAppend(v, lo, cs[..j], cs[j..]);
    RowsCons(v, lo, cs[j..]);
    HeadsListed(v, lo, cs[..j], cs[i]);
    hide Rows, Flat;
    var front := Rows(v, lo, cs[..j]);
    a :| 0 <= a < |front| && front[a] == cs[i];
    b := |front|;
  }
}
