// The tree view of WTView.c and the flat list of visible items it keeps (WTVLBox.c).

module TreeViewControl {
  import opened TreeRows
  import opened TreeItems
  import opened TreeChanges
  import opened TreeInsert
  import opened TreeSort
  import opened TreeViewSort
  import opened HeapOrder

  const LB_ERR: int := -1
  const TVE_COLLAPSE: nat := 1
  const TVE_EXPAND: nat := 2
  const TVE_TOGGLE: nat := 3

  class TreeView {
    var items: seq<Item>         // the items, by handle
    var rows: seq<int>           // the flat list: the handles of the visible items
    ghost var kids: seq<seq<int>>  // the tree the items form

    // The flat list is the preorder walk of the items whose ancestors are all open.
    ghost predicate Valid()
      reads this
    {
      Shows(items, kids, rows)
    }

    constructor ()
      ensures Valid() && items == [DUMMY] && kids == [[]] && rows == []
      ensures items[0].nLevel == -1 && items[0].bOpened && items[0].cChildren == items[0].FChild == 0
    {
      items, rows, kids := [DUMMY], [], [[]];
    }

    // --- The flat list ---------------------------------------------------------------------

    // TVLBox_InsertStringLP
    method InsertString(index: int, h: int) returns (row: int)
      requires 0 <= index
      modifies this`rows
      ensures row == if index > old(|rows|) then old(|rows|) else index
      ensures rows == old(rows)[..row] + [h] + old(rows)[row..] && rows[row] == h
    {
      row := if index > |rows| then |rows| else index;
      rows := rows[..row] + [h] + rows[row..];
    }

    // TVLBox_DeleteStringLP
    method DeleteString(index: int) returns (remains: int)
      requires 0 <= index
      modifies this`rows
      ensures index < old(|rows|) ==> rows == old(rows)[..index] + old(rows)[index + 1..] && remains == |rows|
      ensures index >= old(|rows|) ==> rows == old(rows) && remains == -1
    {
      if index >= |rows| {
        return -1;
      }
      rows := rows[..index] + rows[index + 1..];
      remains := |rows|;
    }

    // TVLBox_GetItemData
    function GetItemData(index: int): int
      requires 0 <= index
      reads this`rows
    {
      if index < |rows| then rows[index] else LB_ERR
    }

    // A row holds an item whose ancestors are all open, and no other row holds it; LB_ERR is
    // met exactly behind the last row.
    lemma ItemOfRow(index: int)
      requires Valid() && 0 <= index
      ensures GetItemData(index) == LB_ERR <==> index >= |rows|
      ensures GetItemData(index) != LB_ERR ==> AncestorsOpen(items, GetItemData(index))
      ensures forall k :: 0 <= k && GetItemData(k) == GetItemData(index) != LB_ERR ==> k == index
    {
      if index < |rows| {
        ParentOfRow(items, kids, rows, index);
        ListedIffAncestorsOpen(items, kids, rows, rows[index]);
      }
    }

    // Every item whose ancestors are all open is met in some row, and no other item is.
    lemma RowOfItem(h: int)
      requires Valid() && 0 < h < |items|
      ensures AncestorsOpen(items, h) <==> exists index :: 0 <= index && GetItemData(index) == h
    {
      ListedIffAncestorsOpen(items, kids, rows, h);
      if h in rows {
        var index :| 0 <= index < |rows| && rows[index] == h;
        assert GetItemData(index) == h;
      }
    }

    // TVLBox_FindStringLP: searches from start to the end and on from the beginning.
    method FindString(start: int, h: int) returns (index: int)
      requires -1 <= start
      ensures index == LB_ERR <==> h !in rows
      ensures index != LB_ERR ==> 0 <= index < |rows| && rows[index] == h
      ensures index != LB_ERR ==>
                var first := if start == -1 || start >= |rows| then 0 else start;
                forall k :: 0 <= k < |rows| ==>
                  (if index >= first then first <= k < index else k < index || first <= k) ==> rows[k] != h
    {
      var count := |rows|;
      if count <= 0 {
        return LB_ERR;
      }
      var first := if start == -1 || start >= count then 0 else start;
      var i, check := first, first + 1;
      while true
        invariant first < check <= first + count
        invariant i == if check <= count then check - 1 else check - 1 - count
        invariant forall k :: first <= k < count && k < check - 1 ==> rows[k] != h
        invariant forall k :: 0 <= k < check - 1 - count ==> rows[k] != h
        decreases first + count - check
      {
        if h == rows[i] {
          return i;
        }
        RemainderOnce(check, count);
        i := check % count;
        if i == first {
          return LB_ERR;
        }
        check := check + 1;
      }
    }

    // --- Inserting ---------------------------------------------------------------------------

    // TView_IInsertLBItem: lists item hItem behind item hAfterMe if it is its child, and behind
    // the rows below hAfterMe if not.
    method InsertLBItem(hAfterMe: int, hItem: int, ghost head: seq<int>, ghost below: seq<int>, ghost rest: seq<int>)
      requires 0 <= hItem < |items| && Distinct(rows)
      requires hAfterMe in rows ==> Skips(items, rows, hAfterMe, head, below, rest)
      modifies this`rows
      ensures hAfterMe !in old(rows) ==> rows == old(rows)
      ensures hAfterMe in old(rows) && items[hItem].Parent == hAfterMe ==>
                rows == head + [hAfterMe] + [hItem] + (below + rest)
      ensures hAfterMe in old(rows) && items[hItem].Parent != hAfterMe ==>
                rows == head + ([hAfterMe] + below) + [hItem] + rest
    {
      var nIndx := FindString(0, hAfterMe);
      if nIndx == LB_ERR {
        return;
      }
      OnePlace(rows, head, hAfterMe, below + rest, nIndx);
      nIndx := nIndx + 1;
      if items[hItem].Parent != hAfterMe {
        if items[hAfterMe].cChildren == 1 && items[hAfterMe].bOpened {
          var nCount := |rows|;
          while nIndx < nCount
            invariant |head| + 1 <= nIndx <= |head| + 1 + |below|
          {
            assert rows[nIndx] == if nIndx <= |head| + |below| then below[nIndx - |head| - 1] else rest[0];
            assert nIndx <= |head| + |below| ==> rows[nIndx] in below;
            var hChild := GetItemData(nIndx);
            if items[hChild].nLevel <= items[hAfterMe].nLevel {
              break;
            }
            nIndx := nIndx + 1;
          }
        }
        CutBehind(rows, head, hAfterMe, below, rest, nIndx);
      }
      var _ := InsertString(nIndx, hItem);
    }

    // Links the new item as the first child of its parent.
    method LinkFirst(p: int, h: int, ghost orig: seq<Item>, ghost n: Item) returns (hAfterMe: int)
      requires Linked(orig, kids) && 0 <= p < |orig| == h && Unlinked(n) && items == Arrived(orig, p, n)
      modifies this`items
      ensures items == Link(orig, kids[p], p, 0, n)
      ensures hAfterMe == if orig[p].bOpened then p else -1
    {
      Neighbours(orig, kids, p, 0);
      hAfterMe := -1;
      if items[p].FChild != 0 {
        var item := items[p].FChild;
        items := items[h := items[h].(NSibling := items[item].hItem, PSibling := 0)];
        items := items[item := items[item].(PSibling := items[h].hItem)];
        items := items[p := items[p].(FChild := items[h].hItem)];
      } else {
        items := items[p := items[p].(FChild := items[h].hItem, LChild := items[h].hItem)];
      }
      if items[p].bOpened {
        hAfterMe := items[p].hItem;
      }
      LinksChanged(orig, kids, p, 0, n, items);
    }

    // Links the new item as the last child of its parent.
    method LinkLast(p: int, h: int, ghost orig: seq<Item>, ghost n: Item) returns (hAfterMe: int)
      requires Linked(orig, kids) && 0 <= p < |orig| == h && Unlinked(n) && items == Arrived(orig, p, n)
      modifies this`items
      ensures items == Link(orig, kids[p], p, |kids[p]|, n)
      ensures hAfterMe == if !orig[p].bOpened then -1 else if kids[p] == [] then p else kids[p][|kids[p]| - 1]
    {
      Neighbours(orig, kids, p, |kids[p]|);
      hAfterMe := -1;
      if items[p].LChild != 0 {
        var item := items[p].LChild;
        items := items[item := items[item].(NSibling := items[h].hItem)];
        items := items[h := items[h].(PSibling := items[item].hItem)];
        items := items[p := items[p].(LChild := items[h].hItem)];
        if items[p].bOpened {
          hAfterMe := items[item].hItem;
        }
      } else {
        items := items[p := items[p].(FChild := items[h].hItem, LChild := items[h].hItem)];
        if items[p].bOpened {
          hAfterMe := items[p].hItem;
        }
      }
      LinksChanged(orig, kids, p, |kids[p]|, n, items);
    }

    // Links the new item behind its sibling s, child number i - 1.
    method LinkAfter(p: int, h: int, s: int, ghost i: int, ghost orig: seq<Item>, ghost n: Item)
        returns (hAfterMe: int)
      requires Linked(orig, kids) && 0 <= p < |orig| == h && Unlinked(n) && items == Arrived(orig, p, n)
      requires orig[p].bOpened && 1 <= i <= |kids[p]| && kids[p][i - 1] == s
      modifies this`items
      ensures items == Link(orig, kids[p], p, i, n) && hAfterMe == s
    {
      Neighbours(orig, kids, p, i);
      hAfterMe := -1;
      if items[p].bOpened {
        hAfterMe := s;
      }
      var item := hAfterMe;
      if items[item].NSibling == 0 {
        var parent := items[item].Parent;
        items := items[parent := items[parent].(LChild := items[h].hItem)];
        items := items[item := items[item].(NSibling := items[h].hItem)];
      } else {
        items := items[h := items[h].(NSibling := items[item].NSibling)];
        var next := items[item].NSibling;
        items := items[item := items[item].(NSibling := items[h].hItem)];
        items := items[next := items[next].(PSibling := items[item].NSibling)];
      }
      items := items[h := items[h].(PSibling := items[item].hItem)];
      LinksChanged(orig, kids, p, i, n, items);
    }

    // TView_OnInsertItem
    method OnInsertItem(hParent: int, hInsertAfter: Position, text: string, lParam: int, cChildren: int)
        returns (hItm: int)
      requires Valid() && 0 <= hParent < |items|
      requires hInsertAfter.After? ==> items[hParent].bOpened && hInsertAfter.hItem in kids[hParent]
      modifies this
      ensures Valid() && hItm == old(|items|)
      ensures exists i ::
                Fits(hInsertAfter, old(kids[hParent]), i) && kids == Grow(old(kids), hParent, i) &&
                items == Link(old(items), old(kids[hParent]), hParent, i,
                              Item(hItm, text, lParam, cChildren, 0, false, 0, 0, 0, 0, 0))
      ensures items[hItm].text == text && items[hItm].lParam == lParam && items[hItm].cChildren == cChildren
      ensures items[hItm].Parent == hParent && items[hItm].nLevel == old(items[hParent].nLevel) + 1
      ensures !items[hItm].bOpened && hParent != 0 ==> items[hParent].cChildren == 1
      ensures match hInsertAfter
              case TVI_FIRST | TVI_SORT => kids[hParent] == [hItm] + old(kids[hParent])
              case TVI_LAST | TVI_ROOT => kids[hParent] == old(kids[hParent]) + [hItm]
              case After(s) =>
                exists l, r :: old(kids[hParent]) == l + [s] + r && kids[hParent] == l + [s] + [hItm] + r
      ensures hInsertAfter.TVI_SORT? ==>
                forall sort {:trigger OrdersBy(sort)} | OrdersBy(sort) ::
                  InOrder(items, kids[hParent], sort) <==>
                  old(InOrder(items, kids[hParent], sort)) &&
                  MayComeFirst(old(items), old(kids[hParent]), items[hItm], sort)
    {
      ghost var orig := items;
      ghost var i := Slot(items, kids, hParent, hInsertAfter);
      var n := Item(|items|, text, lParam, cChildren, 0, false, 0, 0, 0, 0, 0);
      hItm := Arrive(hParent, n);
      hide Shows, Linked, Link, Arrived;
      var hAfterMe := WireUp(hParent, hInsertAfter, hItm, i, orig, n);
      ListItem(hAfterMe, hItm, hParent, i, orig, n);
      ghost var was := kids;
      kids := Grow(kids, hParent, i);
      LinkFields(orig, was[hParent], hParent, i, n);
      PlaceAmong(hInsertAfter, was[hParent], i, hItm);
      if hInsertAfter.TVI_SORT? {
        forall sort | OrdersBy(sort)
          ensures InOrder(items, kids[hParent], sort) <==>
                  InOrder(orig, was[hParent], sort) && MayComeFirst(orig, was[hParent], items[hItm], sort)
        {
          SortedInFront(orig, was, hParent, n, sort);
        }
      }
    }

    // The first part of TView_OnInsertItem: the item itself.
    method Arrive(hParent: int, n: Item) returns (hItm: int)
      requires Linked(items, kids) && 0 <= hParent < |items|
      modifies this`items
      ensures hItm == old(|items|) && items == Arrived(old(items), hParent, n)
    {
      assert ItemOk(items, kids, hParent);
      hItm := |items|;
      items := items + [n.(hItem := hItm)];
      if hParent != 0 {
        items := items[hParent := items[hParent].(cChildren := 1)];
      }
      items := items[hItm := items[hItm].(Parent := items[hParent].hItem, nLevel := items[hParent].nLevel + 1)];
    }

    // The second part: the links, and the item to list the new one behind.
    method WireUp(hParent: int, hInsertAfter: Position, hItm: int, ghost i: int, ghost orig: seq<Item>, ghost n: Item)
        returns (hAfterMe: int)
      requires Linked(orig, kids) && 0 <= hParent < |orig| == hItm && Unlinked(n)
      requires items == Arrived(orig, hParent, n) && Fits(hInsertAfter, kids[hParent], i)
      requires hInsertAfter.After? ==> orig[hParent].bOpened
      modifies this`items
      ensures items == Link(orig, kids[hParent], hParent, i, n)
      ensures hAfterMe == if !orig[hParent].bOpened then -1 else if i == 0 then hParent else kids[hParent][i - 1]
    {
      hide Linked, Link, Arrived;
      match hInsertAfter {
        case TVI_FIRST | TVI_SORT => hAfterMe := LinkFirst(hParent, hItm, orig, n);
        case TVI_LAST | TVI_ROOT => hAfterMe := LinkLast(hParent, hItm, orig, n);
        case After(s) => hAfterMe := LinkAfter(hParent, hItm, s, i, orig, n);
      }
    }

    // The last part: the new row.
    method ListItem(hAfterMe: int, hItm: int, ghost p: int, ghost i: int, ghost orig: seq<Item>, ghost n: Item)
      requires Shows(orig, kids, rows) && 0 <= p < |orig| == hItm && 0 <= i <= |kids[p]| && Unlinked(n)
      requires items == Link(orig, kids[p], p, i, n)
      requires hAfterMe == if !orig[p].bOpened then -1 else if i == 0 then p else kids[p][i - 1]
      modifies this`rows
      ensures Shows(items, Grow(kids, p, i), rows)
    {
      hide Shows, Place, Rows, Flat, Skips, Distinct;
      ghost var head, below, rest, rows' := NewRow(orig, kids, rows, p, i, n, hAfterMe);
      if hAfterMe == 0 {
        var _ := InsertString(0, hItm);
      } else if hAfterMe != -1 {
        InsertLBItem(hAfterMe, hItm, head, below, rest);
      }
      assert rows == rows';
    }

    // --- Opening and closing -----------------------------------------------------------------

    // TView_IShowSubItems: opens or closes item h, which is shown in row sel.
    method ShowSubItems(sel: int, h: int, ghost cs: seq<int>, ghost tail: seq<int>)
      requires Linked(items, kids) && Ordered(ViewOf(items, kids)) && 0 < h < |items| && kids[h] != []
      requires 0 <= sel < |rows| && rows[sel] == h
      requires items[h].bOpened ==> Below(items, kids, rows, sel, h, cs, tail)
      modifies this`items, this`rows
      ensures old(items[h].bOpened) ==>
                rows == old(rows)[..sel + 1] + tail &&
                items == Close(old(items), {h} + Members(Rows(ViewOf(old(items), kids), 0, cs)))
      ensures !old(items[h].bOpened) ==>
                rows == old(rows)[..sel + 1] + kids[h] + old(rows)[sel + 1..] &&
                items == old(items)[h := old(items)[h].(bOpened := true)]
      decreases |rows| - sel, 1
    {
      if items[h].bOpened {
        HideSubItems(sel, h, cs, tail);
      } else {
        OpenSubItems(sel, h);
      }
    }

    // The branch of TView_IShowSubItems for an open item.
    method HideSubItems(sel: int, h: int, ghost cs: seq<int>, ghost tail: seq<int>)
      requires Below(items, kids, rows, sel, h, cs, tail) && rows[sel] == h && items[h].bOpened
      modifies this`items, this`rows
      ensures rows == old(rows)[..sel + 1] + tail
      ensures items == Close(old(items), {h} + Members(Rows(ViewOf(old(items), kids), 0, cs)))
      decreases |rows| - sel, 0
    {
      hide Rows, Flat, Linked, Ordered, Close, Members, Removed;
      ghost var orig, head, v := items, rows[..sel + 1], ViewOf(items, kids);
      RowsBelow(rows, sel, Rows(v, 0, cs), tail);
      NothingRemoved(orig, kids, h, cs);
      items := items[h := items[h].(bOpened := false)];
      ghost var i := 0;
      assert cs[0..] == cs;
      var hDelete := GetItemData(sel + 1);
      while hDelete != LB_ERR
        invariant 0 <= i <= |cs| && Removed(orig, kids, h, cs, i, items)
        invariant |items| == |orig| && items[h].LChild == orig[h].LChild
        invariant rows == head + (Rows(v, 0, cs[i..]) + tail)
        invariant hDelete == GetItemData(sel + 1)
        invariant orig[h].LChild !in cs[..i] && Distinct(rows)
        decreases |rows|
      {
        NextRow(v, cs, i, tail, orig[h].LChild, sel, rows, head);
        ghost var more := Rows(v, 0, cs[i + 1..]) + tail;
        RemovedLinked(orig, kids, h, cs, i, items);
        RowsStay(orig, kids, h, cs, i, items);
        RemoveNext(orig, kids, h, cs, i, items);
        Cut(rows, sel + 1, [cs[i]] + Flat(v, cs[i]), more);
        assert hDelete == cs[i];
        HideRow(sel + 1, more);
        i := i + 1;
        if hDelete == items[h].LChild {
          break;
        }
        hDelete := GetItemData(sel + 1);
      }
      AllRemoved(v, cs, i, tail, orig[h].LChild, sel, rows, head);
      AllClosed(orig, kids, h, cs, i, items);
    }

    // One round of that loop: the rows below the item in row index, and then the row itself.
    method HideRow(index: int, ghost more: seq<int>)
      requires Linked(items, kids) && Ordered(ViewOf(items, kids)) && Distinct(rows)
      requires 0 <= index < |rows| && 0 < rows[index] < |items|
      requires rows[index + 1..] == Flat(ViewOf(items, kids), rows[index]) + more
      modifies this`items, this`rows
      ensures rows == old(rows)[..index] + more
      ensures items == Close(old(items), {old(rows)[index]} + Members(Flat(ViewOf(old(items), kids), old(rows)[index])))
      decreases |rows| - index, 3
    {
      hide Rows, Flat, Linked, Distinct, Close, Members;
      CloseRow(index, more);
      CutRow(old(rows), rows, index, more);
      var _ := DeleteString(index);
    }

    method CloseRow(index: int, ghost more: seq<int>)
      requires Linked(items, kids) && Ordered(ViewOf(items, kids)) && Distinct(rows)
      requires 0 <= index < |rows| && 0 < rows[index] < |items|
      requires rows[index + 1..] == Flat(ViewOf(items, kids), rows[index]) + more
      modifies this`items, this`rows
      ensures rows == old(rows)[..index + 1] + more
      ensures items == Close(old(items), {old(rows)[index]} + Members(Flat(ViewOf(old(items), kids), old(rows)[index])))
      decreases |rows| - index, 2
    {
      var c := rows[index];
      OpenHasKids(items, kids, c);
      NothingClosed(items, c);
      NothingBelow(rows, index, more);
      hide Rows, Linked, Distinct, Close, Members;
      if items[c].cChildren == 1 && items[c].bOpened {
        ShowSubItems(index, c, kids[c], more);
      }
    }

    // TView_OnExpand
    method OnExpand(uAct: nat, h: int, curSel: int) returns (result: bool)
      requires Valid() && 0 <= h < |items| && -1 <= curSel
      modifies this`items, this`rows
      ensures result <==> old(items[h].FChild != 0 && h in rows)
      ensures !result ==> items == old(items) && rows == old(rows)
      ensures result ==> (Valid() <==> !old(Redundant(uAct, items[h].bOpened, rows[|rows| - 1] == h)))
      ensures result && !Expands(uAct) && old(items[h].bOpened) ==>
                Closed(old(items), kids, old(rows), h, items, rows)
      ensures result && !Collapses(uAct) && !old(items[h].bOpened) ==>
                Opened(old(items), kids, old(rows), h, items, rows)
      ensures result && Expands(uAct) && old(items[h].bOpened) ==>
                Doubled(old(items), kids, old(rows), h, items, rows)
      ensures result && Collapses(uAct) && !old(items[h].bOpened) ==> Lost(old(items), old(rows), h, items, rows)
    {
      HasChild(items, kids, rows, h);
      hide Shows, Closed, Opened, Doubled, Lost, Collapses, Expands, Below, Linked;
      if items[h].FChild == 0 {
        return false;
      }
      var index := FindString(curSel, h);
      if index == LB_ERR {
        return false;
      }
      result := true;
      ghost var was, wasRows := items, rows;
      ghost var before, after, cs, tail := Prepare(uAct, items, kids, rows, h, index);
      if Collapses(uAct) {
        items := items[h := items[h].(bOpened := true)];
      } else if Expands(uAct) {
        items := items[h := items[h].(bOpened := false)];
      }
      assert items == Marked(uAct, was, h);
      ShowSubItems(index, h, cs, tail);
      Outcome(uAct, was, kids, wasRows, h, index, before, after, cs, tail, items, rows);
    }

    method OpenSubItems(sel: int, h: int)
      requires Linked(items, kids) && 0 < h < |items| && kids[h] != []
      requires 0 <= sel < |rows| && rows[sel] == h && !items[h].bOpened
      modifies this`items, this`rows
      ensures rows == old(rows)[..sel + 1] + kids[h] + old(rows)[sel + 1..]
      ensures items == old(items)[h := old(items)[h].(bOpened := true)]
    {
      ghost var orig, ks := items, kids[h];
      assert ItemOk(orig, kids, h) && ChildOk(orig, kids, h, 0);
      items := items[h := items[h].(bOpened := true)];
      var row := sel + 1;
      var child := items[h].FChild;
      ghost var i := 0;
      while true
        invariant 0 <= i < |ks| && child == ks[i] && 0 <= child < |items| && child != h && row == sel + 1 + i
        invariant rows == old(rows)[..sel + 1] + ks[..i] + old(rows)[sel + 1..]
        decreases |ks| - i
        modifies this`rows
      {
        assert ChildOk(orig, kids, h, i) && ItemOk(orig, kids, child);
        var _ := InsertString(row, items[child].hItem);
        row := row + 1;
        assert ks[..i + 1] == ks[..i] + [ks[i]];
        if items[child].hItem == items[h].LChild || items[child].NSibling == 0 {
          LastChild(orig, kids, h, i);
          i := i + 1;
          break;
        }
        NotLast(orig, kids, h, i);
        child := items[child].NSibling;
        i := i + 1;
        assert ChildOk(orig, kids, h, i);
      }
      assert ks[..|ks|] == ks;
    }

    // --- Sorting -----------------------------------------------------------------------------

    method CountChildren(h: int, ghost cs: seq<int>) returns (count: int)
      requires Chain(items, h, cs)
      ensures count == |cs|
    {
      var child := items[h].FChild;
      count := 1;
      assert ChainAt(items, cs, 0);
      while items[child].NSibling != 0
        invariant 1 <= count <= |cs| && child == cs[count - 1] && ChainAt(items, cs, count - 1)
        decreases |cs| - count
      {
        count := count + 1;
        child := items[child].NSibling;
        assert ChainAt(items, cs, count - 1);
      }
    }

    // Copies the children into records, in their present order.
    method FillSortItems(h: int, count: int, sort: SortBy, ghost cs: seq<int>) returns (a: array<SortItem>)
      requires Chain(items, h, cs) && count == |cs|
      ensures fresh(a) && a.Length == count + 1 && Filled(a[..], items, cs, count, sort)
    {
      a := new SortItem[count + 1](_ => SortItem(SortKey("", 0), 0, 0));
      var child := items[h].FChild;
      var i := 1;
      while i <= count
        invariant 1 <= i <= count + 1 && Filled(a[..], items, cs, i - 1, sort)
        invariant child == At(cs, i - 1)
      {
        assert ChainAt(items, cs, i - 1);
        a[i] := SortItem(KeyOf(items[child], sort), items[child].hItem, i);
        child := items[child].NSibling;
        i := i + 1;
      }
    }

    // Links the children in the order of the sorted records.
    method Relink(h: int, a: array<SortItem>, count: int, ghost u: seq<int>)
      requires 1 <= count && a.Length == count + 1 && InRange(a[..], count) && u == Sequel(a[..], count)
      requires a[0].Ord == 0 && a[0].hItem == 0
      requires 0 <= h < |items| && h !in u && Distinct(u) && forall c | c in u :: 0 <= c < |items|
      modifies this`items
      ensures Relinked(old(items), h, u, count, items)
    {
      items := items[h := items[h].(FChild := a[a[1].Ord].hItem)];
      items := items[h := items[h].(LChild := a[a[count].Ord].hItem)];
      NoneRelinked(old(items), h, u, items);
      hide Relinked, Sequel, Distinct, First, Last;
      var i := 1;
      while i <= count
        invariant 1 <= i <= count + 1 && |items| == old(|items|) && Relinked(old(items), h, u, i - 1, items)
      {
        SequelAt(a[..], count, u, i);
        RelinkedMore(old(items), h, u, i - 1, items);
        RelinkChild(a[a[i].Ord].hItem, if i == count then 0 else a[a[i + 1].Ord].hItem, a[a[i - 1].Ord].hItem);
        i := i + 1;
      }
    }

    method RelinkChild(child: int, next: int, previous: int)
      requires 0 <= child < |items|
      modifies this`items
      ensures items == old(items)[child := old(items[child]).(NSibling := next, PSibling := previous)]
    {
      items := items[child := items[child].(NSibling := next)];
      items := items[child := items[child].(PSibling := previous)];
    }

    // Sorts the chain of the children of h.
    method SortChain(h: int, count: int, sort: SortBy, ghost cs: seq<int>)
        returns (ghost u: seq<int>)
      requires OrdersBy(sort) && Chain(items, h, cs) && count == |cs|
      modifies this`items
      ensures multiset(u) == multiset(cs) && InOrder(old(items), u, sort)
      ensures Relinked(old(items), h, u, |u|, items)
    {
      var a;
      a, u := SortRecords(h, count, sort, cs);
      StillDistinct(cs, u);
      forall c | c in u ensures 0 <= c < |items| && c != h {
        ChainMember(items, h, cs, u, c);
      }
      Relink(h, a, count, u);
    }

    // The records of the children, sorted.
    method SortRecords(h: int, count: int, sort: SortBy, ghost cs: seq<int>)
        returns (a: array<SortItem>, ghost u: seq<int>)
      requires OrdersBy(sort) && Chain(items, h, cs) && count == |cs|
      ensures fresh(a) && a.Length == count + 1 && InRange(a[..], count) && u == Sequel(a[..], count)
      ensures a[0].Ord == 0 && a[0].hItem == 0
      ensures multiset(u) == multiset(cs) && InOrder(items, u, sort)
    {
      a := FillSortItems(h, count, sort, cs);
      ghost var s := a[..];
      CompareOrders(sort);
      hide Orders, SameRecords, Compare, Filled, InOrder, Chain;
      DoHeapSort(a, count, Compare(sort));
      u := Sequel(a[..], count);
      SequelSorted(items, cs, s, a[..], sort);
    }

    // TView_OnSortChildren.  An item that is open is collapsed before and expanded again after
    // its children are sorted.  The dummy item never says that it has children, so that the
    // top-level items are not sorted.
    method OnSortChildren(h: int, sort: SortBy, curSel: int)
      requires Valid() && 0 <= h < |items| && -1 <= curSel && (h != 0 ==> OrdersBy(sort))
      modifies this
      ensures Valid() && |items| == old(|items|)
      ensures old(items[h].cChildren != 1 || kids[h] == []) ==>
                items == old(items) && rows == old(rows) && kids == old(kids)
      ensures old(items[h].cChildren == 1 && kids[h] != []) ==>
                kids == old(kids)[h := kids[h]] && multiset(kids[h]) == multiset(old(kids[h])) &&
                InOrder(items, kids[h], sort) &&
                Reopened(old(items), h, old(Flat(ViewOf(items, kids), h)), items)
      ensures InOrder(items, kids[h], sort) <==> h != 0 || old(InOrder(items, kids[h], sort))
      ensures forall c | h != 0 && c in kids[h] :: 0 <= c < |items|
      ensures h != 0 && sort.Texts? ==>
                forall i, j :: 0 <= i < j < |kids[h]| ==>
                  sort.lstrcmp(items[kids[h][j]].text, items[kids[h][i]].text) >= 0
      ensures h != 0 && sort.Callback? ==>
                forall i, j :: 0 <= i < j < |kids[h]| ==>
                  sort.lpfnCompare(items[kids[h][j]].lParam, items[kids[h][i]].lParam) >= 0
    {
      NothingToSort(items, kids, rows, h, sort);
      hide Shows, Linked, Rows, Flat, Reopened, InOrder;
      SortLinked(h, sort, curSel);
      if h != 0 {
        FieldsInOrder(items, kids[h], sort);
      }
    }

    // What is done about an item that says it has children.
    method SortLinked(h: int, sort: SortBy, curSel: int)
      requires Valid() && 0 <= h < |items| && -1 <= curSel && (h != 0 ==> OrdersBy(sort))
      modifies this
      ensures Valid() && |items| == old(|items|) == |kids|
      ensures old(items[h].cChildren != 1 || kids[h] == []) ==>
                items == old(items) && rows == old(rows) && kids == old(kids)
      ensures old(items[h].cChildren == 1 && kids[h] != []) ==>
                kids == old(kids)[h := kids[h]] && multiset(kids[h]) == multiset(old(kids[h])) &&
                InOrder(items, kids[h], sort) &&
                Reopened(old(items), h, old(Flat(ViewOf(items, kids), h)), items)
    {
      assert ItemOk(items, kids, h) && ItemOk(items, kids, 0);
      HasChild(items, kids, rows, h);
      if items[h].cChildren == 1 {
        ghost var orig, f, cs := items, Flat(ViewOf(items, kids), h), ChainOf(kids[h]);
        ChainLinked(items, kids, h);
        var count := CountChildren(h, cs);
        var bExpand := items[h].bOpened;
        if bExpand {
          Collapse(h, curSel);
        }
        ghost var mid := items;
        Reorder(h, count, sort);
        ghost var relinked := items;
        if bExpand {
          Expand(h, curSel);
        }
        if kids[h] != [] {
          SortedOpen(orig, h, f, kids[h], sort, mid, relinked, items);
        }
      }
    }

    // The open item h is collapsed.
    method Collapse(h: int, curSel: int)
      requires Valid() && 0 < h < |items| && items[h].bOpened && -1 <= curSel
      modifies this`items, this`rows
      ensures Valid() && h in rows && kids[h] != []
      ensures items == Close(old(items), {h} + Members(old(Flat(ViewOf(items, kids), h))))
    {
      OpenHasKids(items, kids, h);
      HasChild(items, kids, rows, h);
      assert ItemOk(items, kids, h) && items[h].FChild == kids[h][0];
      assert ChildOk(items, kids, h, 0);
      var _ := OnExpand(TVE_COLLAPSE, h, curSel);
    }

    // The closed item h is expanded.
    method Expand(h: int, curSel: int)
      requires Valid() && 0 < h < |items| && !items[h].bOpened && h in rows && kids[h] != [] && -1 <= curSel
      modifies this`items, this`rows
      ensures Valid() && items == Open(old(items), h)
    {
      HasChild(items, kids, rows, h);
      assert ItemOk(items, kids, h) && items[h].FChild == kids[h][0];
      assert ChildOk(items, kids, h, 0);
      assert Expands(TVE_EXPAND);
      hide Shows, Linked, Lost, Doubled, Closed, Flat, Close, Collapses;
      var _ := OnExpand(TVE_EXPAND, h, curSel);
    }

    // The children of the closed item h are sorted.
    method Reorder(h: int, count: int, sort: SortBy)
      requires Valid() && 0 < h < |items| && !items[h].bOpened && OrdersBy(sort)
      requires count == |ChainOf(kids[h])|
      modifies this`items, this`kids
      ensures Valid() && |items| == |kids| == old(|items|)
      ensures old(kids[h]) == [] ==> items == old(items) && kids == old(kids)
      ensures old(kids[h]) != [] ==>
                kids == old(kids)[h := kids[h]] && multiset(kids[h]) == multiset(old(kids[h])) && kids[h] != [] &&
                InOrder(old(items), kids[h], sort) && Relinked(old(items), h, kids[h], |kids[h]|, items)
    {
      ghost var orig := items;
      HasChild(items, kids, rows, h);
      ChainLinked(items, kids, h);
      hide Shows, Linked, Relinked, OrdersBy, Chain;
      ghost var u := SortChain(h, count, sort, ChainOf(kids[h]));
      if kids[h] == [] {
        NothingRelinked(orig, kids, h, u, items);
      } else {
        RelinkedShows(orig, kids, rows, h, u, items);
        kids := kids[h := u];
        assert u != [] by {
          assert kids[h] == u;
        }
      }
    }
  }

  lemma NothingToSort(items: seq<Item>, kids: seq<seq<int>>, rows: seq<int>, h: int, sort: SortBy)
    requires Shows(items, kids, rows) && 0 <= h < |items|
    ensures |kids| == |items| && Ordered(ViewOf(items, kids))
    ensures h == 0 ==> items[h].cChildren != 1
    ensures h != 0 && items[h].cChildren != 1 ==> kids[h] == []
    ensures kids[h] == [] ==> InOrder(items, kids[h], sort)
  {
    assert ItemOk(items, kids, h);
  }

  lemma ChainMember(items: seq<Item>, h: int, cs: seq<int>, u: seq<int>, c: int)
    requires Chain(items, h, cs) && multiset(u) == multiset(cs) && c in u
    ensures 0 <= c < |items| && c != h
  {
    assert c in multiset(cs);
    var i :| 0 <= i < |cs| && cs[i] == c;
    assert ChainAt(items, cs, i);
  }

  lemma RemainderOnce(check: int, count: int)
    requires 0 <= check < 2 * count
    ensures check % count == if check < count then check else check - count
  {
    if check >= count {
      assert check == 1 * count + (check - count);
    }
  }

  // A child without a next sibling, or the last child of its parent, is the last one.
  lemma LastChild(items: seq<Item>, kids: seq<seq<int>>, h: int, i: int)
    requires Linked(items, kids) && 0 <= h < |items| && 0 <= i < |kids[h]|
    requires 0 <= kids[h][i] < |items|
    requires kids[h][i] == items[h].LChild || items[kids[h][i]].NSibling == 0
    ensures i == |kids[h]| - 1
  {
    assert ItemOk(items, kids, h) && ChildOk(items, kids, h, i);
    assert i + 1 < |kids[h]| ==> ChildOk(items, kids, h, i + 1);
  }

  lemma NotLast(items: seq<Item>, kids: seq<seq<int>>, h: int, i: int)
    requires Linked(items, kids) && 0 <= h < |items| && 0 <= i < |kids[h]|
    requires 0 <= kids[h][i] < |items| && items[kids[h][i]].NSibling != 0
    ensures i + 1 < |kids[h]| && items[kids[h][i]].NSibling == kids[h][i + 1]
    ensures h < kids[h][i + 1] < |items|
  {
    assert ChildOk(items, kids, h, i);
    assert i + 1 < |kids[h]| ==> ChildOk(items, kids, h, i + 1);
  }

  // When the loop ends all rows of cs are gone.
  lemma AllRemoved(v: View, cs: seq<int>, i: int, tail: seq<int>, last: int, sel: int, rows: seq<int>, head: seq<int>)
    requires Ordered(v) && Between(cs, 0, |v.kids|) && 0 <= i <= |cs| && |head| == sel + 1
    requires rows == head + (Rows(v, 0, cs[i..]) + tail)
    requires i < |cs| ==> Stops(cs, last, tail) && last !in cs[..i] && (|rows| <= sel + 1 || rows[sel + 1] == LB_ERR)
    ensures rows == head + tail && cs[..i] == cs
  {
    if i < |cs| {
      RowsAtIndex(v, cs, i);
    }
  }

  lemma RowsBelow(rows: seq<int>, sel: int, r: seq<int>, tail: seq<int>)
    requires 0 <= sel < |rows| && Distinct(rows) && rows[sel + 1..] == r + tail
    ensures rows == rows[..sel + 1] + (r + tail)
    ensures Distinct(r) && rows[sel] !in r
  {
    assert rows == rows[..sel + 1] + rows[sel + 1..];
    DistinctParts(rows[..sel + 1], r + tail);
    DistinctParts(r, tail);
    assert rows[sel] == rows[..sel + 1][sel];
    assert forall x | x in r :: x in r + tail;
  }

  // While there is a row to remove it is that of cs[i].
  lemma NextRow(v: View, cs: seq<int>, i: int, tail: seq<int>, last: int, sel: int, rows: seq<int>, head: seq<int>)
    requires Ordered(v) && Between(cs, 0, |v.kids|) && 0 <= i <= |cs| && Stops(cs, last, tail) && last !in cs[..i]
    requires |head| == sel + 1 < |rows| && rows == head + (Rows(v, 0, cs[i..]) + tail)
    ensures i < |cs| && rows[sel + 1] == cs[i]
    ensures rows[sel + 2..] == Flat(v, cs[i]) + (Rows(v, 0, cs[i + 1..]) + tail)
    ensures cs[i] == last ==> i + 1 == |cs|
  {
    assert cs[..|cs|] == cs;
    if i < |cs| {
      RowsAtIndex(v, cs, i);
      hide Rows, Flat;
      NextParts(head, cs[i], Flat(v, cs[i]), Rows(v, 0, cs[i + 1..]), tail);
    }
  }

  lemma NextParts(head: seq<int>, c: int, f: seq<int>, more: seq<int>, tail: seq<int>)
    ensures var rows := head + (([c] + f + more) + tail);
            rows[|head|] == c && rows[|head| + 1..] == f + (more + tail)
  {
  }

  lemma NothingBelow(rows: seq<int>, index: int, more: seq<int>)
    requires 0 <= index < |rows|
    ensures rows[index + 1..] == [] + more ==> rows == rows[..index + 1] + more
  {
  }

  lemma CutRow(was: seq<int>, rows: seq<int>, index: int, more: seq<int>)
    requires 0 <= index < |was| && rows == was[..index + 1] + more
    ensures rows[..index] + rows[index + 1..] == was[..index] + more
  {
  }

  lemma NothingClosed(items: seq<Item>, c: int)
    requires 0 <= c < |items|
    ensures !items[c].bOpened ==> Close(items, {c} + Members([])) == items
  {
  }

  // The row behind those below an item.
  lemma CutBehind(rows: seq<int>, head: seq<int>, h: int, below: seq<int>, rest: seq<int>, index: int)
    requires rows == head + ([h] + (below + rest)) && index == |head| + 1 + |below|
    ensures rows[..index] == head + ([h] + below) && rows[index..] == rest
  {
  }

  lemma SortedInFront(items: seq<Item>, kids: seq<seq<int>>, p: int, n: Item, sort: SortBy)
    requires Linked(items, kids) && 0 <= p < |items| && Unlinked(n) && OrdersBy(sort)
    ensures var items' := Link(items, kids[p], p, 0, n);
            InOrder(items', Grow(kids, p, 0)[p], sort) <==>
            InOrder(items, kids[p], sort) && MayComeFirst(items, kids[p], items'[|items|], sort)
  {
    OrderedInFront(items, kids, p, n, sort);
    KeysKept(items, kids[p], p, n);
  }

  // The number of the new child.
  lemma Slot(items: seq<Item>, kids: seq<seq<int>>, p: int, where: Position) returns (i: int)
    requires Linked(items, kids) && 0 <= p < |items| && (where.After? ==> where.hItem in kids[p])
    ensures Fits(where, kids[p], i)
  {
    match where {
      case TVI_FIRST | TVI_SORT => i := 0;
      case TVI_LAST | TVI_ROOT => i := |kids[p]|;
      case After(s) =>
        var j :| 0 <= j < |kids[p]| && kids[p][j] == s;
        i := j + 1;
    }
  }

  // Where the new row goes: behind its parent, behind the rows of the child before it, or nowhere.
  lemma NewRow(items: seq<Item>, kids: seq<seq<int>>, rows: seq<int>, p: int, i: int, n: Item, hAfterMe: int)
      returns (head: seq<int>, below: seq<int>, rest: seq<int>, rows': seq<int>)
    requires Shows(items, kids, rows) && 0 <= p < |items| && 0 <= i <= |kids[p]| && Unlinked(n)
    requires hAfterMe == if !items[p].bOpened then -1 else if i == 0 then p else kids[p][i - 1]
    ensures var items' := Link(items, kids[p], p, i, n);
            Shows(items', Grow(kids, p, i), rows') && Distinct(rows) && items'[|items|].Parent == p &&
            (hAfterMe == -1 ==> rows' == rows) &&
            (hAfterMe == 0 ==> rows' == rows[..0] + [|items|] + rows[0..]) &&
            (hAfterMe > 0 ==> hAfterMe in rows && Skips(items', rows, hAfterMe, head, below, rest)) &&
            (hAfterMe > 0 && hAfterMe == p ==> rows' == head + [hAfterMe] + [|items|] + (below + rest)) &&
            (hAfterMe > 0 && hAfterMe != p ==> rows' == head + ([hAfterMe] + below) + [|items|] + rest)
    ensures hAfterMe >= -1
  {
    Shown(items, kids, rows);
    hide Shows, Linked, Distinct, Rows, Flat, Skips, Place;
    head, below, rest, rows' := [], [], [], rows;
    if !items[p].bOpened {
      InsertHidden(items, kids, rows, p, i, n);
    } else {
      head, below, rest, rows' := NewRowOpen(items, kids, rows, p, i, n);
    }
  }

  lemma NewRowOpen(items: seq<Item>, kids: seq<seq<int>>, rows: seq<int>, p: int, i: int, n: Item)
      returns (head: seq<int>, below: seq<int>, rest: seq<int>, rows': seq<int>)
    requires Shows(items, kids, rows) && 0 <= p < |items| && 0 <= i <= |kids[p]| && Unlinked(n) && items[p].bOpened
    ensures var items', c := Link(items, kids[p], p, i, n), if i == 0 then p else kids[p][i - 1];
            Shows(items', Grow(kids, p, i), rows') && c >= 0 && (i > 0 ==> c > p) &&
            (c == 0 ==> rows' == rows[..0] + [|items|] + rows[0..]) &&
            (c > 0 ==> c in rows && Skips(items', rows, c, head, below, rest)) &&
            (c > 0 && i == 0 ==> rows' == head + [c] + [|items|] + (below + rest)) &&
            (c > 0 && i > 0 ==> rows' == head + ([c] + below) + [|items|] + rest)
  {
    var v, ks := ViewOf(items, kids), kids[p];
    Shown(items, kids, rows);
    Neighbours(items, kids, p, i);
    hide Shows, Linked, Distinct, Rows, Flat, Skips;
    var front, end := InsertRow(items, kids, rows, p, i, n);
    var l, r := Rows(v, p, ks[..i]), Rows(v, p, ks[i..]);
    rows' := front + l + [|items|] + (r + end);
    head, below, rest := [], [], [];
    if i > 0 {
      hide Place;
      SkipsBefore(items, kids, rows, p, i, front, end);
      head, below, rest := front + Rows(v, p, ks[..i - 1]), Flat(v, ks[i - 1]), r + end;
      SkipsLinked(items, ks, p, i, n, rows, ks[i - 1], head, below, rest);
      SkipsLists(items, rows, ks[i - 1], head, below, rest);
    } else if p > 0 {
      SkipsParent(items, kids, rows, p, front, end);
      head, below, rest := front[..|front| - 1], r, end;
      SkipsLinked(items, ks, p, i, n, rows, p, head, below, rest);
      SkipsLists(items, rows, p, head, below, rest);
      assert front + [] == head + [p];
    } else {
      TopRow(v, ks, r, |items|);
    }
  }

  lemma SkipsLists(items: seq<Item>, rows: seq<int>, h: int, head: seq<int>, below: seq<int>, rest: seq<int>)
    requires Skips(items, rows, h, head, below, rest)
    ensures h in rows
  {
    assert rows[|head|] == h;
  }

  lemma TopRow(v: View, ks: seq<int>, r: seq<int>, item: int)
    requires Ordered(v) && Between(ks[..0], 0, |v.kids|)
    ensures var rows := [] + Rows(v, 0, ks[..0]) + (r + []);
            [] + Rows(v, 0, ks[..0]) + [item] + (r + []) == rows[..0] + [item] + rows[0..]
  {
  }

  // --- A redundant request --------------------------------------------------------------------

  lemma Inserted(items: seq<Item>, ks: seq<int>, p: int, i: int, n: Item)
    requires 0 <= p < |items| && 0 <= i <= |ks|
    ensures var items' := Link(items, ks, p, i, n);
            forall x :: 0 <= x <= |items| ==>
              items'[x].bOpened == (if x < |items| then items[x].bOpened else n.bOpened) &&
              items'[x].lParam == (if x < |items| then items[x].lParam else n.lParam)
  {
  }

  // Two top-level items, the first with a child: collapsing the first one, which is closed
  // already, loses the row of the second.
  method CollapseClosed() returns (tree: TreeView)
    ensures fresh(tree) && !tree.Valid()
  {
    tree := TwoAndAChild();
    ClosedTop(tree.items, tree.kids, tree.rows);
    hide Shows;
    var _ := tree.OnExpand(TVE_COLLAPSE, 1, -1);
  }

  method TwoAndAChild() returns (tree: TreeView)
    ensures fresh(tree) && tree.Valid() && |tree.items| == 4 == |tree.kids|
    ensures tree.kids[0] == [1, 3] && tree.kids[1] == [2]
    ensures forall x :: 1 <= x < 4 ==> !tree.items[x].bOpened
  {
    hide Shows;
    tree := new TreeView();
    var a := AddLast(tree, 0, 0);
    assert tree.kids[0] == [1] && tree.kids[1] == [];
    var b := AddLast(tree, a, 0);
    assert tree.kids[0] == [1] && tree.kids[1] == [2];
    var c := AddLast(tree, 0, 0);
    assert tree.kids[0] == [1, 3];
  }

  lemma ClosedTop(items: seq<Item>, kids: seq<seq<int>>, rows: seq<int>)
    requires Shows(items, kids, rows) && |items| == 4 && kids[0] == [1, 3] && kids[1] == [2]
    requires forall x :: 1 <= x < 4 ==> !items[x].bOpened
    ensures rows == [1, 3] && items[1].FChild == 2
  {
    Shown(items, kids, rows);
    assert ItemOk(items, kids, 1);
    ClosedRows(ViewOf(items, kids), 0, kids[0]);
  }

  // A request to toggle that is carried out always leaves the item closed: it does what its
  // name says if and only if the item was open.  The list stays right if and only if the item
  // was open or in the last row.
  method Toggle(tree: TreeView, h: int, curSel: int) returns (result: bool)
    requires tree.Valid() && 0 <= h < |tree.items| && -1 <= curSel
    modifies tree`items, tree`rows
    ensures result <==> old(tree.items[h].FChild != 0 && h in tree.rows)
    ensures result ==> |tree.items| == |old(tree.items)| && !tree.items[h].bOpened
    ensures result ==> (tree.items[h].bOpened == !old(tree.items[h].bOpened) <==> old(tree.items[h].bOpened))
    ensures result ==> (tree.Valid() <==> old(tree.items[h].bOpened || tree.rows[|tree.rows| - 1] == h))
  {
    hide Shows, Linked, Flat;
    result := tree.OnExpand(TVE_TOGGLE, h, curSel);
  }

  // --- Top-level items ------------------------------------------------------------------------

  function Difference(x: int, y: int): int
  {
    x - y
  }

  // Sorting the top-level items changes nothing, whatever order they are in.
  method SortTop(tree: TreeView, sort: SortBy, curSel: int)
    requires tree.Valid() && -1 <= curSel
    modifies tree
    ensures tree.items == old(tree.items) && tree.rows == old(tree.rows) && tree.kids == old(tree.kids)
  {
    HasChild(tree.items, tree.kids, tree.rows, 0);
    assert ItemOk(tree.items, tree.kids, 0);
    tree.OnSortChildren(0, sort, curSel);
  }

  // Two top-level items that are out of order, and stay so.
  method UnsortedTop() returns (tree: TreeView)
    ensures fresh(tree) && tree.Valid() && |tree.items| == 3 == |tree.kids| && tree.kids[0] == [1, 2]
    ensures tree.items[1].lParam == 1 && tree.items[2].lParam == 0 && !InOrder(tree.items, [1, 2], Callback(Difference))
  {
    hide Shows;
    tree := new TreeView();
    var a := AddLast(tree, 0, 1);
    assert tree.kids[0] == [1];
    var b := AddLast(tree, 0, 0);
    assert tree.kids[0] == [1, 2];
    OutOfOrder(tree.items, tree.kids[0]);
    SortTop(tree, Callback(Difference), -1);
  }

  // A second top-level item, inserted with TVI_SORT, comes first though it is greater.
  method InsertUnsorted() returns (tree: TreeView)
    ensures fresh(tree) && tree.Valid() && |tree.items| == 3 == |tree.kids| && tree.kids[0] == [2, 1]
    ensures tree.items[1].lParam == 0 && tree.items[2].lParam == 1 && !InOrder(tree.items, [2, 1], Callback(Difference))
  {
    hide Shows;
    tree := new TreeView();
    var a := AddLast(tree, 0, 0);
    ghost var items, ks := tree.items, tree.kids[0];
    assert ks == [1];
    var b := tree.OnInsertItem(0, TVI_SORT, "", 1, 0);
    KeysKept(items, ks, 0, Item(b, "", 1, 0, 0, false, 0, 0, 0, 0, 0));
    assert tree.kids[0] == [2, 1];
    assert Compared(Callback(Difference), tree.items[1], tree.items[2]) < 0;
  }

  lemma OutOfOrder(items: seq<Item>, ks: seq<int>)
    requires |items| == 3 && items[1].lParam == 1 && items[2].lParam == 0 && ks == [1, 2]
    ensures OrdersBy(Callback(Difference)) && !InOrder(items, ks, Callback(Difference))
  {
    assert Compared(Callback(Difference), items[ks[1]], items[ks[0]]) < 0;
  }

  method AddLast(tree: TreeView, p: int, lParam: int) returns (h: int)
    requires tree.Valid() && 0 <= p < |tree.items|
    modifies tree
    ensures tree.Valid() && h == old(|tree.items|) && |tree.items| == h + 1
    ensures |old(tree.kids)| == h && tree.kids == old(tree.kids)[p := old(tree.kids)[p] + [h]] + [[]]
    ensures forall x :: 0 <= x <= h ==> tree.items[x].bOpened == (x < h && old(tree.items)[x].bOpened)
    ensures forall x :: 0 <= x <= h ==> tree.items[x].lParam == if x < h then old(tree.items)[x].lParam else lParam
  {
    h := tree.OnInsertItem(p, TVI_LAST, "", lParam, 0);
    ghost var ks := tree.kids[p];
    ghost var i := |old(tree.kids)[p]|;
    assert ks == old(tree.kids)[p] + [h];
    Inserted(old(tree.items), old(tree.kids)[p], p, i, Item(h, "", lParam, 0, 0, false, 0, 0, 0, 0, 0));
  }

  // --- Sorting by text ------------------------------------------------------------------------

  function FirstLetter(s: string): int
  {
    if s == "" then -1 else s[0] as int
  }

  function ByFirstLetter(x: string, y: string): int
  {
    FirstLetter(x) - FirstLetter(y)
  }

  lemma LettersOrder()
    ensures OrdersBy(Texts(ByFirstLetter))
  {
  }

  // Two children that differ in their texts only, inserted as "b" and "a" and sorted.
  method SortTexts() returns (tree: TreeView)
    ensures fresh(tree) && tree.Valid() && |tree.items| == 4 == |tree.kids| && tree.kids[1] == [3, 2]
    ensures tree.items[2].text == "b" && tree.items[3].text == "a"
  {
    hide Shows, Link, Reopened;
    tree := new TreeView();
    var a := AddLast(tree, 0, 0);
    assert tree.kids[1] == [];
    var b := tree.OnInsertItem(a, TVI_LAST, "b", 0, 0);
    assert tree.kids[1] == [2];
    ghost var items := tree.items;
    var c := tree.OnInsertItem(a, TVI_LAST, "a", 0, 0);
    assert tree.kids[1] == [2, 3];
    LinkFields(items, [2], a, 1, Item(c, "a", 0, 0, 0, false, 0, 0, 0, 0, 0));
    assert items[2].text == "b" && tree.items[2].text == "b";
    LettersOrder();
    SortTwo(tree);
  }

  method SortTwo(tree: TreeView)
    requires tree.Valid() && |tree.items| == 4 == |tree.kids| && tree.kids[1] == [2, 3]
    requires tree.items[1].cChildren == 1 && tree.items[2].text == "b" && tree.items[3].text == "a"
    modifies tree
    ensures tree.Valid() && |tree.items| == 4 == |tree.kids| && tree.kids[1] == [3, 2]
    ensures tree.items[2].text == "b" && tree.items[3].text == "a"
  {
    hide Shows, Flat;
    LettersOrder();
    tree.OnSortChildren(1, Texts(ByFirstLetter), -1);
    assert tree.items[2].text == "b" && tree.items[3].text == "a";
    OnlyOrder(tree.items, tree.kids[1]);
  }

  lemma OnlyOrder(items: seq<Item>, ks: seq<int>)
    requires |items| == 4 && items[2].text == "b" && items[3].text == "a" && multiset(ks) == multiset([2, 3])
    requires InOrder(items, ks, Texts(ByFirstLetter))
    ensures ks == [3, 2]
  {
    assert |ks| == |multiset(ks)| == 2;
    assert ks == [ks[0], ks[1]];
    assert ks[0] in multiset(ks) && ks[1] in multiset(ks);
    assert Compared(Texts(ByFirstLetter), items[ks[1]], items[ks[0]]) >= 0;
  }
}
