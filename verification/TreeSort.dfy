// Sorting the children of an item: what their new order does to the links and to the rows.

module TreeSort {
  import opened TreeRows
  import opened TreeItems
  import opened TreeChanges
  import opened TreeInsert
  import opened TreeViewSort
  import opened HeapOrder

  // How a request to sort compares: the texts, or the lParams when the client compares.
  datatype SortBy =
    | Texts(lstrcmp: (string, string) -> int)
    | Callback(lpfnCompare: (int, int) -> int)

  ghost predicate OrdersBy(sort: SortBy)
  {
    match sort
    case Texts(lstrcmp) => Orders(lstrcmp)
    case Callback(lpfnCompare) => Orders(lpfnCompare)
  }

  function Compared(sort: SortBy, x: Item, y: Item): int
  {
    match sort
    case Texts(lstrcmp) => lstrcmp(x.text, y.text)
    case Callback(lpfnCompare) => lpfnCompare(x.lParam, y.lParam)
  }

  // The field of an item that its record gets, and the comparison of records.
  function KeyOf(item: Item, sort: SortBy): SortKey
  {
    if sort.Callback? then SortKey("", item.lParam) else SortKey(item.text, 0)
  }

  function Compare(sort: SortBy): (SortKey, SortKey) -> int
  {
    match sort
    case Texts(lstrcmp) => (x: SortKey, y: SortKey) => lstrcmp(x.szText, y.szText)
    case Callback(lpfnCompare) => (x: SortKey, y: SortKey) => lpfnCompare(x.lParam, y.lParam)
  }

  lemma ComparesKeys(sort: SortBy, x: Item, y: Item)
    ensures Compare(sort)(KeyOf(x, sort), KeyOf(y, sort)) == Compared(sort, x, y)
  {
  }

  lemma CompareOrders(sort: SortBy)
    requires OrdersBy(sort)
    ensures Orders(Compare(sort))
  {
    var cmp := Compare(sort);
    match sort
    case Texts(lstrcmp) =>
      forall x, y ensures cmp(x, y) >= 0 || cmp(y, x) >= 0 {
        assert cmp(x, y) == lstrcmp(x.szText, y.szText);
      }
      forall x, y, z | cmp(x, y) >= 0 && cmp(y, z) >= 0 ensures cmp(x, z) >= 0 {
        assert lstrcmp(x.szText, y.szText) >= 0 && lstrcmp(y.szText, z.szText) >= 0;
      }
    case Callback(lpfnCompare) =>
      forall x, y ensures cmp(x, y) >= 0 || cmp(y, x) >= 0 {
        assert cmp(x, y) == lpfnCompare(x.lParam, y.lParam);
      }
      forall x, y, z | cmp(x, y) >= 0 && cmp(y, z) >= 0 ensures cmp(x, z) >= 0 {
        assert lpfnCompare(x.lParam, y.lParam) >= 0 && lpfnCompare(y.lParam, z.lParam) >= 0;
      }
  }

  lemma Transitive(sort: SortBy, x: Item, y: Item, z: Item)
    requires OrdersBy(sort) && Compared(sort, x, y) >= 0 && Compared(sort, y, z) >= 0
    ensures Compared(sort, x, z) >= 0
  {
  }

  // No child comes before a greater one.
  ghost predicate InOrder(items: seq<Item>, ks: seq<int>, sort: SortBy)
  {
    (forall i :: 0 <= i < |ks| ==> 0 <= ks[i] < |items|) &&
    forall i, j :: 0 <= i < j < |ks| ==> Compared(sort, items[ks[j]], items[ks[i]]) >= 0
  }

  // In terms of the fields themselves.
  lemma FieldsInOrder(items: seq<Item>, ks: seq<int>, sort: SortBy)
    requires InOrder(items, ks, sort)
    ensures forall i, j :: 0 <= i < j < |ks| ==> 0 <= ks[i] < |items| && 0 <= ks[j] < |items|
    ensures sort.Texts? ==>
              forall i, j :: 0 <= i < j < |ks| ==> sort.lstrcmp(items[ks[j]].text, items[ks[i]].text) >= 0
    ensures sort.Callback? ==>
              forall i, j :: 0 <= i < j < |ks| ==> sort.lpfnCompare(items[ks[j]].lParam, items[ks[i]].lParam) >= 0
  {
    forall i, j | 0 <= i < j < |ks| ensures Compared(sort, items[ks[j]], items[ks[i]]) >= 0 {
    }
  }

  // An item without its links and its mark.
  function Data(item: Item): Item
  {
    item.(FChild := 0, LChild := 0, NSibling := 0, PSibling := 0, bOpened := false)
  }

  // --- The children as records to sort -----------------------------------------------------

  // The items cs follow h in a chain of siblings.
  ghost predicate Chain(items: seq<Item>, h: int, cs: seq<int>)
  {
    0 <= h < |items| && cs != [] && Distinct(cs) && items[h].FChild == cs[0] && h !in cs &&
    forall i {:trigger cs[i]} | 0 <= i < |cs| :: ChainAt(items, cs, i)
  }

  ghost predicate ChainAt(items: seq<Item>, cs: seq<int>, i: int)
    requires 0 <= i < |cs|
  {
    0 <= cs[i] < |items| && items[cs[i]].hItem == cs[i] && items[cs[i]].NSibling == At(cs, i + 1) &&
    (i + 1 < |cs| ==> cs[i + 1] != 0)
  }

  // The children of h, or the dummy item if it has none.
  ghost function ChainOf(ks: seq<int>): (cs: seq<int>)
  {
    if ks == [] then [0] else ks
  }

  lemma ChainLinked(items: seq<Item>, kids: seq<seq<int>>, h: int)
    requires Linked(items, kids) && 0 < h < |items|
    ensures Chain(items, h, ChainOf(kids[h]))
  {
    assert ItemOk(items, kids, h) && ItemOk(items, kids, 0);
    var cs := ChainOf(kids[h]);
    forall i | 0 <= i < |cs| ensures ChainAt(items, cs, i) && cs[i] != h {
      if kids[h] != [] {
        assert ChildOk(items, kids, h, i) && ItemOk(items, kids, cs[i]);
        assert i + 1 < |cs| ==> ChildOk(items, kids, h, i + 1);
      }
    }
  }

  ghost predicate Filled(s: seq<SortItem>, items: seq<Item>, cs: seq<int>, n: int, sort: SortBy)
  {
    0 <= n <= |cs| < |s| && s[0].Ord == 0 && s[0].hItem == 0 &&
    forall x :: 1 <= x <= n ==>
      0 <= cs[x - 1] < |items| && s[x] == SortItem(KeyOf(items[cs[x - 1]], sort), cs[x - 1], x)
  }

  // The items in the order of the records.
  ghost function Sequel(s: seq<SortItem>, n: int): (u: seq<int>)
    requires InRange(s, n)
    ensures |u| == n && forall i :: 0 <= i < n ==> u[i] == s[s[i + 1].Ord].hItem
  {
    seq(n, i requires 0 <= i < n => s[s[i + 1].Ord].hItem)
  }

  lemma SequelAt(s: seq<SortItem>, n: int, u: seq<int>, i: int)
    requires InRange(s, n) && u == Sequel(s, n) && s[0].Ord == 0 && s[0].hItem == 0 && 1 <= i <= n
    ensures u[i - 1] == s[s[i].Ord].hItem && u[i - 1] in u
    ensures (if i == n then 0 else s[s[i + 1].Ord].hItem) == At(u, i)
    ensures s[s[i - 1].Ord].hItem == At(u, i - 2)
  {
  }

  ghost function Picked(cs: seq<int>, o: seq<int>): (r: seq<int>)
    ensures |r| == |o| && forall i :: 0 <= i < |o| ==> r[i] == At(cs, o[i] - 1)
  {
    seq(|o|, i requires 0 <= i < |o| => At(cs, o[i] - 1))
  }

  // Picking in another order gives the same items in another order.
  lemma {:induction false} PickedPermutes(cs: seq<int>, o: seq<int>, p: seq<int>)
    requires multiset(o) == multiset(p)
    ensures multiset(Picked(cs, o)) == multiset(Picked(cs, p))
    decreases |o|
  {
    hide Picked;
    if o == [] {
      assert |p| == |multiset(p)| == 0;
    } else {
      var x, rest := o[0], o[1..];
      Prefixed(o);
      assert x in multiset(o);
      var a, b := Divided(p, x);
      PickedParts(cs, [], x, rest, o);
      PickedParts(cs, a, x, b, p);
      Cancel(multiset([] + rest), multiset(a + b), x);
      PickedPermutes(cs, [] + rest, a + b);
    }
  }

  lemma Prefixed(o: seq<int>)
    requires o != []
    ensures o == [] + [o[0]] + o[1..] && |[] + o[1..]| < |o|
  {
  }

  lemma Divided(p: seq<int>, x: int) returns (a: seq<int>, b: seq<int>)
    requires x in multiset(p)
    ensures p == a + [x] + b
  {
    var k :| 0 <= k < |p| && p[k] == x;
    a, b := p[..k], p[k + 1..];
  }

  lemma Cancel(a: multiset<int>, b: multiset<int>, x: int)
    requires a + multiset{x} == b + multiset{x}
    ensures a == b
  {
    assert a == (a + multiset{x}) - multiset{x};
  }

  lemma Counts(a: seq<int>, x: int, b: seq<int>)
    ensures multiset(a + [x] + b) == multiset(a + b) + multiset{x}
  {
  }

  lemma PickedParts(cs: seq<int>, a: seq<int>, x: int, b: seq<int>, p: seq<int>)
    requires p == a + [x] + b
    ensures multiset(p) == multiset(a + b) + multiset{x}
    ensures multiset(Picked(cs, p)) == multiset(Picked(cs, a + b)) + multiset{At(cs, x - 1)}
  {
    PickedAppend(cs, a, x, b);
    hide Picked;
    Counts(a, x, b);
    Counts(Picked(cs, a), At(cs, x - 1), Picked(cs, b));
  }

  lemma PickedAppend(cs: seq<int>, a: seq<int>, x: int, b: seq<int>)
    ensures Picked(cs, a + [x] + b) == Picked(cs, a) + [At(cs, x - 1)] + Picked(cs, b)
    ensures Picked(cs, a + b) == Picked(cs, a) + Picked(cs, b)
  {
  }

  lemma CountsOne(s: seq<int>, k: int)
    requires Distinct(s) && 0 <= k < |s|
    ensures multiset(s)[s[k]] == 1
  {
    assert s == s[..k] + [s[k]] + s[k + 1..];
    assert s[k] !in s[..k] && s[k] !in s[k + 1..];
  }

  lemma CountsTwo(s: seq<int>, i: int, j: int)
    requires 0 <= i < j < |s| && s[i] == s[j]
    ensures multiset(s)[s[i]] >= 2
  {
    assert s == s[..i + 1] + s[i + 1..];
    assert s[..i + 1][i] == s[i] && s[i + 1..][j - i - 1] == s[i];
  }

  lemma StillDistinct(s: seq<int>, u: seq<int>)
    requires Distinct(s) && multiset(u) == multiset(s)
    ensures Distinct(u)
  {
    forall i, j | 0 <= i < j < |u| ensures u[i] != u[j] {
      if u[i] == u[j] {
        CountsTwo(u, i, j);
        assert u[i] in multiset(s);
        var k :| 0 <= k < |s| && s[k] == u[i];
        CountsOne(s, k);
      }
    }
  }

  lemma WithoutFirst(s: seq<int>, u: seq<int>)
    requires s != [] && u != [] && s[0] == u[0] && multiset(s) == multiset(u)
    ensures multiset(s[1..]) == multiset(u[1..])
  {
    assert s == [s[0]] + s[1..] && u == [u[0]] + u[1..];
    assert multiset(s[1..]) == multiset(s) - multiset([s[0]]);
  }

  // The sorted records hold the items in order.
  lemma SequelSorted(items: seq<Item>, cs: seq<int>, s: seq<SortItem>, t: seq<SortItem>,
                     sort: SortBy)
    requires Filled(s, items, cs, |cs|, sort) && |s| == |cs| + 1
    requires SameRecords(s, t) && InRange(t, |cs|) && multiset(Ords(t)) == multiset(Ords(s)) && t[0] == s[0]
    requires forall i, j :: 1 <= i < j <= |cs| ==> Compare(sort)(t[t[j].Ord].key, t[t[i].Ord].key) >= 0
    ensures multiset(Sequel(t, |cs|)) == multiset(cs) && InOrder(items, Sequel(t, |cs|), sort)
  {
    hide Picked, Filled, SameRecords, Ords, Sequel, InRange;
    WithoutFirst(Ords(s), Ords(t));
    PickedPermutes(cs, Ords(s)[1..], Ords(t)[1..]);
    FilledPicks(items, cs, s, sort);
    SequelPicks(items, cs, s, t, sort);
    KeysOfSequel(items, cs, s, t, sort);
  }

  lemma FilledPicks(items: seq<Item>, cs: seq<int>, s: seq<SortItem>, sort: SortBy)
    requires Filled(s, items, cs, |cs|, sort) && |s| == |cs| + 1
    ensures Picked(cs, Ords(s)[1..]) == cs
  {
  }

  lemma SequelPicks(items: seq<Item>, cs: seq<int>, s: seq<SortItem>, t: seq<SortItem>, sort: SortBy)
    requires Filled(s, items, cs, |cs|, sort) && |s| == |cs| + 1
    requires SameRecords(s, t) && InRange(t, |cs|)
    ensures Picked(cs, Ords(t)[1..]) == Sequel(t, |cs|)
  {
    forall i | 0 <= i < |cs| ensures Sequel(t, |cs|)[i] == cs[t[i + 1].Ord - 1] {
      assert s[t[i + 1].Ord].hItem == cs[t[i + 1].Ord - 1];
    }
  }

  lemma KeysOfSequel(items: seq<Item>, cs: seq<int>, s: seq<SortItem>, t: seq<SortItem>,
                     sort: SortBy)
    requires Filled(s, items, cs, |cs|, sort) && |s| == |cs| + 1
    requires SameRecords(s, t) && InRange(t, |cs|)
    requires forall i, j :: 1 <= i < j <= |cs| ==> Compare(sort)(t[t[j].Ord].key, t[t[i].Ord].key) >= 0
    ensures InOrder(items, Sequel(t, |cs|), sort)
  {
    hide Filled, SameRecords;
    var u := Sequel(t, |cs|);
    forall i | 0 <= i < |u| ensures 0 <= u[i] < |items| {
      KeyOfSequel(items, cs, s, t, i, sort);
    }
    forall i, j | 0 <= i < j < |u| ensures Compared(sort, items[u[j]], items[u[i]]) >= 0 {
      KeyOfSequel(items, cs, s, t, i, sort);
      KeyOfSequel(items, cs, s, t, j, sort);
      ComparesKeys(sort, items[u[j]], items[u[i]]);
      assert Compare(sort)(t[t[j + 1].Ord].key, t[t[i + 1].Ord].key) >= 0;
    }
  }

  lemma KeyOfSequel(items: seq<Item>, cs: seq<int>, s: seq<SortItem>, t: seq<SortItem>, i: int, sort: SortBy)
    requires Filled(s, items, cs, |cs|, sort) && |s| == |cs| + 1
    requires SameRecords(s, t) && InRange(t, |cs|) && 0 <= i < |cs|
    ensures var c := Sequel(t, |cs|)[i];
            0 <= c < |items| && KeyOf(items[c], sort) == t[t[i + 1].Ord].key
  {
    assert t[t[i + 1].Ord].hItem == s[t[i + 1].Ord].hItem == cs[t[i + 1].Ord - 1];
  }

  // --- The links -----------------------------------------------------------------------------

  // The first k items of u have got their new links, and so has h.
  ghost predicate Relinked(items: seq<Item>, h: int, u: seq<int>, k: int, items': seq<Item>)
  {
    |items'| == |items| && 0 <= h < |items| && 0 <= k <= |u| &&
    items'[h] == items[h].(FChild := First(u), LChild := Last(u)) &&
    (forall x :: 0 <= x < |items| && x != h && x !in u[..k] ==> items'[x] == items[x]) &&
    forall i {:trigger RelinkedAt(items, u, i, items')} :: 0 <= i < k ==> RelinkedAt(items, u, i, items')
  }

  ghost predicate RelinkedAt(items: seq<Item>, u: seq<int>, i: int, items': seq<Item>)
    requires 0 <= i < |u| && |items'| == |items|
  {
    0 <= u[i] < |items| && items'[u[i]] == items[u[i]].(NSibling := At(u, i + 1), PSibling := At(u, i - 1))
  }

  lemma NoneRelinked(items: seq<Item>, h: int, u: seq<int>, items': seq<Item>)
    requires 0 <= h < |items| && items' == items[h := items[h].(FChild := First(u), LChild := Last(u))]
    ensures Relinked(items, h, u, 0, items')
  {
  }

  lemma RelinkedMore(items: seq<Item>, h: int, u: seq<int>, k: int, items': seq<Item>)
    requires Relinked(items, h, u, k, items') && k < |u| && Distinct(u) && h !in u && 0 <= u[k] < |items| == |items'|
    ensures Relinked(items, h, u, k + 1,
                     items'[u[k] := items'[u[k]].(NSibling := At(u, k + 1), PSibling := At(u, k - 1))])
  {
    assert u[..k + 1] == u[..k] + [u[k]];
    var now := items'[u[k] := items'[u[k]].(NSibling := At(u, k + 1), PSibling := At(u, k - 1))];
    assert u[k] !in u[..k];
    forall i | 0 <= i < k + 1 ensures RelinkedAt(items, u, i, now) {
      if i < k {
        assert RelinkedAt(items, u, i, items') && u[i] != u[k];
      }
    }
  }

  lemma RelinkedItem(items: seq<Item>, kids: seq<seq<int>>, h: int, u: seq<int>, items': seq<Item>, x: int)
    requires Linked(items, kids) && 0 <= h < |items| && 0 <= x < |items| && Relinked(items, h, u, |u|, items')
    requires kids[h] != [] && multiset(u) == multiset(kids[h])
    ensures ItemOk(items', kids[h := u], x)
  {
    assert ItemOk(items, kids, x) && ItemOk(items, kids, h);
    assert u[..|u|] == u;
    StillDistinct(kids[h], u);
    assert forall c :: c in u <==> c in multiset(kids[h]);
    assert h !in u && 0 !in u by {
      ChildrenAbove(items, kids, h, h);
      ChildrenAbove(items, kids, h, 0);
    }
    if x in u {
      var i :| 0 <= i < |u| && u[i] == x;
      assert RelinkedAt(items, u, i, items');
    }
  }

  lemma ChildrenAbove(items: seq<Item>, kids: seq<seq<int>>, h: int, c: int)
    requires Linked(items, kids) && 0 <= h < |items|
    ensures c in kids[h] ==> h < c < |items| && items[c].Parent == h && items[c].nLevel == items[h].nLevel + 1
  {
    if c in kids[h] {
      var i :| 0 <= i < |kids[h]| && kids[h][i] == c;
      assert ChildOk(items, kids, h, i);
    }
  }

  lemma RelinkedChild(items: seq<Item>, kids: seq<seq<int>>, h: int, u: seq<int>, items': seq<Item>, x: int, i: int)
    requires Linked(items, kids) && 0 <= h < |items| && 0 <= x < |items| && Relinked(items, h, u, |u|, items')
    requires kids[h] != [] && multiset(u) == multiset(kids[h]) && 0 <= i < |kids[h := u][x]|
    ensures ChildOk(items', kids[h := u], x, i)
  {
    var c := kids[h := u][x][i];
    assert u[..|u|] == u;
    if x == h {
      assert c in multiset(u);
      ChildrenAbove(items, kids, h, c);
      ChildrenAbove(items, kids, h, h);
      assert u[i] == c && RelinkedAt(items, u, i, items');
    } else {
      assert ChildOk(items, kids, x, i);
      if c in u {
        assert c in multiset(kids[h]);
        ChildrenAbove(items, kids, h, c);
      }
      RelinkedOther(items, h, u, items', x);
      RelinkedOther(items, h, u, items', c);
    }
  }

  // The level, the parent and the mark of an item are as before.
  lemma RelinkedOther(items: seq<Item>, h: int, u: seq<int>, items': seq<Item>, x: int)
    requires Relinked(items, h, u, |u|, items') && 0 <= x < |items|
    ensures Data(items'[x]) == Data(items[x]) && items'[x].bOpened == items[x].bOpened
    ensures x !in u ==> items'[x].NSibling == items[x].NSibling && items'[x].PSibling == items[x].PSibling
  {
    assert u[..|u|] == u;
    if x in u {
      var i :| 0 <= i < |u| && u[i] == x;
      if x != h {
        assert RelinkedAt(items, u, i, items');
      }
    }
  }

  lemma RelinkedLinked(items: seq<Item>, kids: seq<seq<int>>, h: int, u: seq<int>, items': seq<Item>)
    requires Linked(items, kids) && 0 <= h < |items| && Relinked(items, h, u, |u|, items')
    requires kids[h] != [] && multiset(u) == multiset(kids[h])
    ensures Linked(items', kids[h := u])
  {
    var kids' := kids[h := u];
    forall x | 0 <= x < |items'| ensures ItemOk(items', kids', x) {
      RelinkedItem(items, kids, h, u, items', x);
    }
    forall x, i | 0 <= x < |items'| && 0 <= i < |kids'[x]| ensures ChildOk(items', kids', x, i) {
      RelinkedChild(items, kids, h, u, items', x, i);
    }
  }

  // The order of children that are not shown does not show.
  lemma RelinkedShows(items: seq<Item>, kids: seq<seq<int>>, rows: seq<int>, h: int, u: seq<int>, items': seq<Item>)
    requires Shows(items, kids, rows) && 0 < h < |items| && !items[h].bOpened
    requires Relinked(items, h, u, |u|, items') && kids[h] != [] && multiset(u) == multiset(kids[h])
    ensures Shows(items', kids[h := u], rows)
  {
    var kids' := kids[h := u];
    Shown(items, kids, rows);
    RelinkedLinked(items, kids, h, u, items');
    LinkedView(items', kids');
    var v, w := ViewOf(items, kids), ViewOf(items', kids');
    forall x | 0 <= x < |items| ensures items'[x].bOpened == items[x].bOpened {
      RelinkedOther(items, h, u, items', x);
    }
    forall x | x in rows ensures Same(v, w, x) {
    }
    RowsFrame(v, w, 0, kids[0]);
    forall x | 0 < x < |items'| && items'[x].bOpened ensures x in rows {
      assert items[x].bOpened;
    }
  }

  // Without children, the chain is the dummy item alone and nothing changes.
  lemma NothingRelinked(items: seq<Item>, kids: seq<seq<int>>, h: int, u: seq<int>, items': seq<Item>)
    requires Linked(items, kids) && 0 < h < |items| && kids[h] == []
    requires Relinked(items, h, u, |u|, items') && multiset(u) == multiset([0])
    ensures items' == items
  {
    assert ItemOk(items, kids, h) && ItemOk(items, kids, 0);
    assert |u| == |multiset(u)| == 1 && u[0] in multiset([0]);
    assert u == [0];
    assert u[..1] == [0];
    assert RelinkedAt(items, u, 0, items');
  }

  // The items below h in f are closed; apart from that only links differ.
  ghost predicate Reopened(items: seq<Item>, h: int, f: seq<int>, items': seq<Item>)
  {
    |items'| == |items| &&
    forall x {:trigger items'[x]} :: 0 <= x < |items| ==>
      Data(items'[x]) == Data(items[x]) && (items'[x].bOpened <==> items[x].bOpened && x !in f) &&
      items'[x].hItem == items[x].hItem && items'[x].text == items[x].text && items'[x].lParam == items[x].lParam &&
      items'[x].cChildren == items[x].cChildren && items'[x].nLevel == items[x].nLevel &&
      items'[x].Parent == items[x].Parent
  }

  // An item that is closed and opened again while its children are sorted.
  lemma SortedOpen(items: seq<Item>, h: int, f: seq<int>, u: seq<int>, sort: SortBy,
                   mid: seq<Item>, relinked: seq<Item>, items': seq<Item>)
    requires 0 <= h < |items| && h !in f
    requires mid == if items[h].bOpened then Close(items, {h} + Members(f)) else items
    requires !items[h].bOpened ==> f == []
    requires InOrder(mid, u, sort) && Relinked(mid, h, u, |u|, relinked)
    requires items' == if items[h].bOpened then Open(relinked, h) else relinked
    ensures Reopened(items, h, f, items') && InOrder(items', u, sort)
  {
    forall x | 0 <= x < |items|
      ensures Data(items'[x]) == Data(items[x]) && (items'[x].bOpened <==> items[x].bOpened && x !in f)
    {
      RelinkedOther(mid, h, u, relinked, x);
    }
    SameOrder(mid, items', u, sort);
  }

  lemma SameOrder(items: seq<Item>, items': seq<Item>, u: seq<int>, sort: SortBy)
    requires |items'| == |items| && InOrder(items, u, sort)
    requires forall x {:trigger items'[x]} :: 0 <= x < |items| ==> Data(items'[x]) == Data(items[x])
    ensures InOrder(items', u, sort)
  {
    forall i, j | 0 <= i < j < |u| ensures Compared(sort, items'[u[j]], items'[u[i]]) >= 0 {
      assert Data(items'[u[i]]) == Data(items[u[i]]) && Data(items'[u[j]]) == Data(items[u[j]]);
      assert Compared(sort, items[u[j]], items[u[i]]) >= 0;
    }
  }

  // --- Inserting in front ---------------------------------------------------------------------

  // Whether a new item may come first without disturbing the order.
  predicate MayComeFirst(items: seq<Item>, ks: seq<int>, n: Item, sort: SortBy)
  {
    ks == [] || (0 <= ks[0] < |items| && Compared(sort, items[ks[0]], n) >= 0)
  }

  // TVI_SORT makes the new item the first child and sorts nothing: the children are in order
  // afterwards if and only if they were before and the new item is not greater than the first.
  lemma OrderedInFront(items: seq<Item>, kids: seq<seq<int>>, p: int, n: Item, sort: SortBy)
    requires Linked(items, kids) && 0 <= p < |items| && Unlinked(n) && OrdersBy(sort)
    ensures InOrder(Link(items, kids[p], p, 0, n), Insert(kids[p], 0, |items|), sort) <==>
            InOrder(items, kids[p], sort) && MayComeFirst(items, kids[p], n, sort)
  {
    var items', ks, ks' := Link(items, kids[p], p, 0, n), kids[p], Insert(kids[p], 0, |items|);
    PutInFront(items, kids, p);
    KeysKept(items, ks, p, n);
    hide Linked, Link, Insert, InOrder, Orders, SameKeys, InFront, MayComeFirst;
    if InOrder(items', ks', sort) {
      BehindFirst(items, items', ks, ks', n, sort);
    }
    if InOrder(items, ks, sort) && MayComeFirst(items, ks, n, sort) {
      WithFirst(items, items', ks, ks', n, sort);
    }
  }

  // The keys of the old items, and of the new one.
  ghost predicate SameKeys(items: seq<Item>, items': seq<Item>, n: Item)
  {
    |items'| == |items| + 1 && items'[|items|].text == n.text && items'[|items|].lParam == n.lParam &&
    forall x {:trigger items'[x]} :: 0 <= x < |items| ==>
      items'[x].text == items[x].text && items'[x].lParam == items[x].lParam
  }

  lemma KeysKept(items: seq<Item>, ks: seq<int>, p: int, n: Item)
    requires 0 <= p < |items|
    ensures SameKeys(items, Link(items, ks, p, 0, n), n)
  {
  }

  ghost predicate InFront(items: seq<Item>, ks: seq<int>, ks': seq<int>)
  {
    |ks'| == |ks| + 1 && ks'[0] == |items| &&
    forall j :: 0 <= j < |ks| ==> ks'[j + 1] == ks[j] && 0 <= ks[j] < |items|
  }

  lemma PutInFront(items: seq<Item>, kids: seq<seq<int>>, p: int)
    requires Linked(items, kids) && 0 <= p < |items|
    ensures InFront(items, kids[p], Insert(kids[p], 0, |items|))
  {
    NewItemUnknown(items, kids, p);
    assert forall j :: 0 <= j < |kids[p]| ==> kids[p][j] in kids[p];
  }

  lemma BehindFirst(items: seq<Item>, items': seq<Item>, ks: seq<int>, ks': seq<int>, n: Item,
                    sort: SortBy)
    requires SameKeys(items, items', n) && InFront(items, ks, ks') && InOrder(items', ks', sort)
    ensures InOrder(items, ks, sort) && MayComeFirst(items, ks, n, sort)
  {
    forall i, j | 0 <= i < j < |ks| ensures Compared(sort, items[ks[j]], items[ks[i]]) >= 0 {
      assert Compared(sort, items'[ks'[j + 1]], items'[ks'[i + 1]]) >= 0;
    }
    if ks != [] {
      assert Compared(sort, items'[ks'[1]], items'[ks'[0]]) >= 0 && ks'[0 + 1] == ks[0];
    }
  }

  lemma WithFirst(items: seq<Item>, items': seq<Item>, ks: seq<int>, ks': seq<int>, n: Item,
                  sort: SortBy)
    requires SameKeys(items, items', n) && InFront(items, ks, ks') && OrdersBy(sort)
    requires InOrder(items, ks, sort) && MayComeFirst(items, ks, n, sort)
    ensures InOrder(items', ks', sort)
  {
    forall j | 0 < j < |ks'| ensures ks'[j] == ks[j - 1] && 0 <= ks'[j] < |items| {
      assert ks'[(j - 1) + 1] == ks[j - 1];
    }
    forall i, j | 0 <= i < j < |ks'| ensures Compared(sort, items'[ks'[j]], items'[ks'[i]]) >= 0 {
      if i > 0 {
        assert Compared(sort, items[ks[j - 1]], items[ks[i - 1]]) >= 0;
      } else if j > 1 {
        Transitive(sort, items[ks[j - 1]], items[ks[0]], n);
      }
    }
  }
}
