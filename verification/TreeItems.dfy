// The items of a tree view, linked by handles (TVITEMDATA in WTView.h), and the tree they form.

module TreeItems {
  import opened TreeRows
  import opened TreeViewSort

  // One item.  Handle 0 means "none"; item 0 is the dummy parent of the top-level items.
  datatype Item = Item(hItem: int, text: string, lParam: int, cChildren: int, nLevel: int, bOpened: bool,
                       Parent: int, FChild: int, LChild: int, NSibling: int, PSibling: int)

  // The dummy item a new tree view starts with.
  const DUMMY: Item := Item(0, "", 0, 0, -1, true, 0, 0, 0, 0, 0)

  function At(s: seq<int>, i: int): int
  {
    if 0 <= i < |s| then s[i] else 0
  }

  function First(s: seq<int>): int
  {
    At(s, 0)
  }

  function Last(s: seq<int>): int
  {
    At(s, |s| - 1)
  }

  // Child number i of h is linked to its parent and its neighbours.
  ghost predicate ChildOk(items: seq<Item>, kids: seq<seq<int>>, h: int, i: int)
    requires 0 <= h < |items| == |kids| && 0 <= i < |kids[h]|
  {
    var c := kids[h][i];
    h < c < |items| && items[c].Parent == h && items[c].nLevel == items[h].nLevel + 1 &&
    items[c].NSibling == At(kids[h], i + 1) && items[c].PSibling == At(kids[h], i - 1)
  }

  ghost predicate ItemOk(items: seq<Item>, kids: seq<seq<int>>, h: int)
    requires 0 <= h < |items| == |kids|
  {
    items[h].hItem == h && items[h].FChild == First(kids[h]) && items[h].LChild == Last(kids[h]) &&
    Distinct(kids[h]) &&
    if h == 0 then items[0].(FChild := 0, LChild := 0) == DUMMY
    else
      0 <= items[h].Parent < h && h in kids[items[h].Parent] &&
      (items[h].bOpened ==> kids[h] != []) && (kids[h] != [] ==> items[h].cChildren == 1)
  }

  // The items are linked into the tree kids.
  ghost predicate Linked(items: seq<Item>, kids: seq<seq<int>>)
  {
    0 < |items| == |kids| &&
    (forall h {:trigger ItemOk(items, kids, h)} | 0 <= h < |items| :: ItemOk(items, kids, h)) &&
    (forall h, i {:trigger ChildOk(items, kids, h, i)} | 0 <= h < |items| && 0 <= i < |kids[h]| ::
      ChildOk(items, kids, h, i))
  }

  ghost function Opens(items: seq<Item>): (r: seq<bool>)
    ensures |r| == |items| && forall i :: 0 <= i < |items| ==> r[i] == items[i].bOpened
  {
    seq(|items|, i requires 0 <= i < |items| => items[i].bOpened)
  }

  ghost function ViewOf(items: seq<Item>, kids: seq<seq<int>>): View
  {
    View(kids, Opens(items))
  }

  ghost function LevelsOf(items: seq<Item>): (r: seq<int>)
    ensures |r| == |items| && forall i :: 0 <= i < |items| ==> r[i] == items[i].nLevel
  {
    seq(|items|, i requires 0 <= i < |items| => items[i].nLevel)
  }

  ghost function ParentsOf(items: seq<Item>): (r: seq<int>)
    ensures |r| == |items| && forall i :: 0 <= i < |items| ==> r[i] == items[i].Parent
  {
    seq(|items|, i requires 0 <= i < |items| => items[i].Parent)
  }

  lemma LinkedView(items: seq<Item>, kids: seq<seq<int>>)
    requires Linked(items, kids)
    ensures Ordered(ViewOf(items, kids))
    ensures Levels(ViewOf(items, kids), LevelsOf(items))
    ensures Parents(ViewOf(items, kids), ParentsOf(items))
    ensures forall h | 0 <= h < |kids| :: Between(kids[h], h, |kids|)
  {
    var v := ViewOf(items, kids);
    forall h, i | 0 <= h < |v.kids| && 0 <= i < |v.kids[h]|
      ensures h < v.kids[h][i] < |v.kids| && items[v.kids[h][i]].nLevel == items[h].nLevel + 1
      ensures items[v.kids[h][i]].Parent == h
    {
      assert ChildOk(items, kids, h, i);
    }
  }

  // The flat list shows the tree: it lists the items whose ancestors are all open, in preorder,
  // and every open item is listed.
  ghost predicate Shows(items: seq<Item>, kids: seq<seq<int>>, rows: seq<int>)
  {
    Linked(items, kids) && Ordered(ViewOf(items, kids)) &&
    rows == Flat(ViewOf(items, kids), 0) && Distinct(rows) &&
    forall h {:trigger items[h].bOpened} | 0 < h < |items| && items[h].bOpened :: h in rows
  }

  // --- Closing items -----------------------------------------------------------------------

  // The items of which those in `gone` are closed.
  ghost function Close(items: seq<Item>, gone: set<int>): (r: seq<Item>)
    ensures |r| == |items|
    ensures forall i :: 0 <= i < |items| ==> r[i] == if i in gone then items[i].(bOpened := false) else items[i]
  {
    seq(|items|, i requires 0 <= i < |items| => if i in gone then items[i].(bOpened := false) else items[i])
  }

  ghost function Members(s: seq<int>): set<int>
  {
    set x | x in s
  }

  lemma CloseLinked(items: seq<Item>, kids: seq<seq<int>>, gone: set<int>)
    requires Linked(items, kids) && 0 !in gone
    ensures Linked(Close(items, gone), kids)
  {
    var u := Close(items, gone);
    forall h | 0 <= h < |u| ensures ItemOk(u, kids, h) {
      assert ItemOk(items, kids, h);
    }
    forall h, i | 0 <= h < |u| && 0 <= i < |kids[h]| ensures ChildOk(u, kids, h, i) {
      assert ChildOk(items, kids, h, i);
    }
  }

  lemma CloseTwice(items: seq<Item>, a: set<int>, b: set<int>)
    ensures Close(Close(items, a), b) == Close(items, a + b)
  {
  }

  // Closing items elsewhere leaves the rows below c as they are.
  lemma CloseElsewhere(items: seq<Item>, kids: seq<seq<int>>, gone: set<int>, c: int)
    requires Linked(items, kids) && Ordered(ViewOf(items, kids)) && Ordered(ViewOf(Close(items, gone), kids))
    requires 0 <= c < |items| && c !in gone && forall x | x in Flat(ViewOf(items, kids), c) :: x !in gone
    ensures Flat(ViewOf(Close(items, gone), kids), c) == Flat(ViewOf(items, kids), c)
  {
    FlatFrame(ViewOf(items, kids), ViewOf(Close(items, gone), kids), c);
  }

  lemma OneRow(v: View, c: int)
    requires Ordered(v) && 0 < c < |v.kids|
    ensures Between([c], 0, |v.kids|) && Rows(v, 0, [c]) == [c] + Flat(v, c)
  {
    RowsCons(v, 0, [c]);
  }

  // The rows of cs before and after number i.
  lemma RowsAtIndex(v: View, cs: seq<int>, i: int)
    requires Ordered(v) && Between(cs, 0, |v.kids|) && 0 <= i < |cs|
    ensures Rows(v, 0, cs[i..]) == [cs[i]] + Flat(v, cs[i]) + Rows(v, 0, cs[i + 1..])
    ensures Rows(v, 0, cs[..i + 1]) == Rows(v, 0, cs[..i]) + [cs[i]] + Flat(v, cs[i])
    ensures Rows(v, 0, cs) == Rows(v, 0, cs[..i]) + Rows(v, 0, cs[i..])
  {
    hide Rows, Flat;
    assert cs[i..][1..] == cs[i + 1..] && cs == cs[..i] + cs[i..] && cs[..i + 1] == cs[..i] + [cs[i]];
    OneRow(v, cs[i]);
    RowsCons(v, 0, cs[i..]);
    RowsAppend(v, 0, cs[..i], [cs[i]]);
    RowsAppend(v, 0, cs[..i], cs[i..]);
  }

  // Where the loop that removes rows stops: behind the last child, or at the end of the list.
  ghost predicate Stops(cs: seq<int>, last: int, tail: seq<int>)
  {
    (cs != [] && cs[|cs| - 1] == last && last !in cs[..|cs| - 1]) || (tail == [] && last !in cs)
  }

  // The rows that were below h in items are gone up to number i of cs, and closed.
  ghost predicate Removed(items: seq<Item>, kids: seq<seq<int>>, h: int, cs: seq<int>, i: int, now: seq<Item>)
  {
    Linked(items, kids) && Ordered(ViewOf(items, kids)) && 0 < h < |items| &&
    Between(cs, 0, |kids|) && 0 <= i <= |cs| && h !in Rows(ViewOf(items, kids), 0, cs) &&
    Distinct(Rows(ViewOf(items, kids), 0, cs)) &&
    now == Close(items, {h} + Members(Rows(ViewOf(items, kids), 0, cs[..i])))
  }

  lemma NothingRemoved(items: seq<Item>, kids: seq<seq<int>>, h: int, cs: seq<int>)
    requires Linked(items, kids) && Ordered(ViewOf(items, kids)) && 0 < h < |items| && Between(cs, 0, |kids|)
    requires h !in Rows(ViewOf(items, kids), 0, cs) && Distinct(Rows(ViewOf(items, kids), 0, cs))
    ensures Removed(items, kids, h, cs, 0, items[h := items[h].(bOpened := false)])
  {
    assert cs[..0] == [];
    assert items[h := items[h].(bOpened := false)] == Close(items, {h} + Members([]));
  }

  lemma RemovedLinked(items: seq<Item>, kids: seq<seq<int>>, h: int, cs: seq<int>, i: int, now: seq<Item>)
    requires Removed(items, kids, h, cs, i, now)
    ensures |now| == |items| && Linked(now, kids) && Ordered(ViewOf(now, kids))
  {
    CloseLinked(items, kids, {h} + Members(Rows(ViewOf(items, kids), 0, cs[..i])));
    LinkedView(now, kids);
  }

  lemma ApartRows(a: seq<int>, c: int, f: seq<int>, m: seq<int>, h: int)
    requires Distinct(a + ([c] + f + m)) && h !in a + ([c] + f + m)
    ensures c !in {h} + Members(a) && forall x | x in f :: x !in {h} + Members(a)
  {
    DistinctParts(a, [c] + f + m);
    assert c in [c] + f + m;
    assert forall x | x in f :: x in [c] + f + m;
  }

  // Row c == cs[i] still has the same rows below it.
  lemma RowsStay(items: seq<Item>, kids: seq<seq<int>>, h: int, cs: seq<int>, i: int, now: seq<Item>)
    requires Removed(items, kids, h, cs, i, now) && i < |cs|
    requires Linked(now, kids) && Ordered(ViewOf(now, kids))
    ensures 0 < cs[i] < |now| && Flat(ViewOf(now, kids), cs[i]) == Flat(ViewOf(items, kids), cs[i])
  {
    assert |items| == |kids|;
    hide Rows, Flat, Linked, Distinct, Close;
    var v, c := ViewOf(items, kids), cs[i];
    var a, f, m := Rows(v, 0, cs[..i]), Flat(v, c), Rows(v, 0, cs[i + 1..]);
    RowsAtIndex(v, cs, i);
    ApartRows(a, c, f, m, h);
    CloseElsewhere(items, kids, {h} + Members(a), c);
  }

  lemma MembersAppend(a: seq<int>, c: int, f: seq<int>, h: int)
    ensures ({h} + Members(a)) + ({c} + Members(f)) == {h} + Members(a + [c] + f)
  {
  }

  // Removing row cs[i] and the rows below it is one step more.
  lemma RemoveNext(items: seq<Item>, kids: seq<seq<int>>, h: int, cs: seq<int>, i: int, now: seq<Item>)
    requires Removed(items, kids, h, cs, i, now) && i < |cs|
    ensures var gone := {cs[i]} + Members(Flat(ViewOf(items, kids), cs[i]));
            Removed(items, kids, h, cs, i + 1, Close(now, gone))
  {
    assert |items| == |kids|;
    hide Rows, Flat, Linked, Distinct, Close, Members;
    var v, c := ViewOf(items, kids), cs[i];
    var a, f := Rows(v, 0, cs[..i]), Flat(v, c);
    RowsAtIndex(v, cs, i);
    CloseTwice(items, {h} + Members(a), {c} + Members(f));
    MembersAppend(a, c, f, h);
  }

  lemma AllClosed(items: seq<Item>, kids: seq<seq<int>>, h: int, cs: seq<int>, i: int, now: seq<Item>)
    requires Removed(items, kids, h, cs, i, now) && cs[..i] == cs
    ensures now == Close(items, {h} + Members(Rows(ViewOf(items, kids), 0, cs)))
  {
  }

  lemma OpenHasKids(items: seq<Item>, kids: seq<seq<int>>, c: int)
    requires Linked(items, kids) && Ordered(ViewOf(items, kids)) && 0 < c < |items|
    ensures items[c].bOpened ==> kids[c] != [] && items[c].cChildren == 1
    ensures items[c].bOpened ==>
              Between(kids[c], 0, |kids|) && Flat(ViewOf(items, kids), c) == Rows(ViewOf(items, kids), 0, kids[c])
    ensures items[c].bOpened ==> forall tail :: Stops(kids[c], items[c].LChild, tail)
    ensures !items[c].bOpened ==> Flat(ViewOf(items, kids), c) == []
  {
    assert ItemOk(items, kids, c);
    if items[c].bOpened {
      LinkedView(items, kids);
      RowsLow(ViewOf(items, kids), c, 0, kids[c]);
    }
  }

  // The rows behind row sel are those of the items cs, and then tail; the loop that removes
  // rows stops behind those of cs.
  ghost predicate Below(items: seq<Item>, kids: seq<seq<int>>, rows: seq<int>, sel: int, h: int,
                        cs: seq<int>, tail: seq<int>)
  {
    Linked(items, kids) && Ordered(ViewOf(items, kids)) && 0 < h < |items| && 0 <= sel < |rows| &&
    Distinct(rows) && Between(cs, 0, |kids|) &&
    rows[sel + 1..] == Rows(ViewOf(items, kids), 0, cs) + tail && Stops(cs, items[h].LChild, tail)
  }
}
