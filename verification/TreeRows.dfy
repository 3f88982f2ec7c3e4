// The rows a tree view shows: a preorder walk that enters open items only.
//
// Items are numbered by their handles; item 0 is the dummy parent of the top-level items.

module TreeRows {
  // The tree: the children of every item in order, and which items are open.
  datatype View = View(kids: seq<seq<int>>, open: seq<bool>)

  // Children have greater handles than their parents, because handles are never reused.
  ghost predicate Ordered(v: View)
  {
    |v.open| == |v.kids| &&
    forall h, i {:trigger v.kids[h][i]} | 0 <= h < |v.kids| && 0 <= i < |v.kids[h]| ::
      h < v.kids[h][i] < |v.kids|
  }

  ghost predicate Between(cs: seq<int>, lo: int, hi: int)
  {
    forall i {:trigger cs[i]} | 0 <= i < |cs| :: lo < cs[i] < hi
  }

  // The rows of the items cs, each followed by the rows below it.
  ghost function Rows(v: View, lo: int, cs: seq<int>): (r: seq<int>)
    requires Ordered(v) && -1 <= lo && Between(cs, lo, |v.kids|)
    ensures Between(r, lo, |v.kids|)
    decreases |v.kids| - lo, |cs|
  {
    if cs == [] then []
    else
      var c := cs[0];
      [c] + (if v.open[c] then Rows(v, c, v.kids[c]) else []) + Rows(v, lo, cs[1..])
  }

  // The rows below item h.
  ghost function Flat(v: View, h: int): (r: seq<int>)
    requires Ordered(v) && 0 <= h < |v.kids|
    ensures Between(r, h, |v.kids|)
  {
    if v.open[h] then Rows(v, h, v.kids[h]) else []
  }

  ghost predicate Distinct(s: seq<int>)
  {
    forall i, j {:trigger s[i], s[j]} | 0 <= i < j < |s| :: s[i] != s[j]
  }

  // The views agree on item x as far as rows depend on it.
  ghost predicate Same(v: View, w: View, x: int)
  {
    0 <= x < |v.kids| && x < |w.kids| && |v.open| == |v.kids| && |w.open| == |w.kids| &&
    v.open[x] == w.open[x] && (v.open[x] ==> v.kids[x] == w.kids[x])
  }

  lemma RowsCons(v: View, lo: int, cs: seq<int>)
    requires Ordered(v) && -1 <= lo && Between(cs, lo, |v.kids|) && cs != []
    ensures Rows(v, lo, cs) == [cs[0]] + Flat(v, cs[0]) + Rows(v, lo, cs[1..])
  {
  }

  // The bound is only there for the recursion.
  lemma {:induction false} RowsLow(v: View, lo: int, lo': int, cs: seq<int>)
    requires Ordered(v) && -1 <= lo && -1 <= lo' && Between(cs, lo, |v.kids|) && Between(cs, lo', |v.kids|)
    ensures Rows(v, lo, cs) == Rows(v, lo', cs)
    decreases |cs|
  {
    if cs != [] {
      RowsLow(v, lo, lo', cs[1..]);
    }
  }

  lemma {:induction false} RowsAppend(v: View, lo: int, a: seq<int>, b: seq<int>)
    requires Ordered(v) && -1 <= lo && Between(a, lo, |v.kids|) && Between(b, lo, |v.kids|)
    ensures Rows(v, lo, a + b) == Rows(v, lo, a) + Rows(v, lo, b)
    decreases |a|
  {
    NoRows(v, lo);
    hide Rows, Flat;
    if a == [] {
      assert a + b == b;
    } else {
      var c, rest := a[0], a[1..];
      assert (a + b)[0] == c && (a + b)[1..] == rest + b;
      RowsAppend(v, lo, rest, b);
      RowsCons(v, lo, a);
      RowsCons(v, lo, a + b);
      Regrouped([c] + Flat(v, c), Rows(v, lo, rest), Rows(v, lo, b));
    }
  }

  lemma NoRows(v: View, lo: int)
    requires Ordered(v) && -1 <= lo
    ensures Rows(v, lo, []) == []
  {
  }

  lemma Regrouped(p: seq<int>, q: seq<int>, r: seq<int>)
    ensures p + q + r == p + (q + r)
  {
  }

  // Rows are decided by the rows themselves: items that are not listed do not matter.
  lemma {:induction false} RowsFrame(v: View, w: View, lo: int, cs: seq<int>)
    requires Ordered(v) && Ordered(w) && -1 <= lo && Between(cs, lo, |v.kids|) && |v.kids| <= |w.kids|
    requires forall x | x in Rows(v, lo, cs) :: Same(v, w, x)
    ensures Rows(w, lo, cs) == Rows(v, lo, cs)
    decreases |v.kids| - lo, |cs|
  {
    if cs != [] {
      var c := cs[0];
      RowsCons(v, lo, cs);
      assert c in Rows(v, lo, cs);
      assert Same(v, w, c);
      if v.open[c] {
        forall x | x in Rows(v, c, v.kids[c]) ensures Same(v, w, x) {
          assert x in Flat(v, c);
        }
        RowsFrame(v, w, c, v.kids[c]);
      }
      RowsFrame(v, w, lo, cs[1..]);
      RowsCons(w, lo, cs);
    }
  }

  lemma FlatFrame(v: View, w: View, h: int)
    requires Ordered(v) && Ordered(w) && 0 <= h < |v.kids| <= |w.kids|
    requires Same(v, w, h) && forall x | x in Flat(v, h) :: Same(v, w, x)
    ensures Flat(w, h) == Flat(v, h)
  {
    if v.open[h] {
      RowsFrame(v, w, h, v.kids[h]);
    }
  }

  lemma DistinctParts(a: seq<int>, b: seq<int>)
    requires Distinct(a + b)
    ensures Distinct(a) && Distinct(b)
    ensures forall x | x in a :: x !in b
  {
    forall i, j | 0 <= i < j < |a| ensures a[i] != a[j] {
      assert (a + b)[i] != (a + b)[j];
    }
    forall i, j | 0 <= i < j < |b| ensures b[i] != b[j] {
      assert (a + b)[|a| + i] != (a + b)[|a| + j];
    }
    forall i, j | 0 <= i < |a| && 0 <= j < |b| ensures a[i] != b[j] {
      assert (a + b)[i] != (a + b)[|a| + j];
    }
  }

  lemma JoinDistinct(a: seq<int>, b: seq<int>)
    requires Distinct(a) && Distinct(b) && forall x | x in b :: x !in a
    ensures Distinct(a + b)
  {
    var s := a + b;
    forall i, j | 0 <= i < j < |s| ensures s[i] != s[j] {
      assert s[i] == if i < |a| then a[i] else b[i - |a|];
      assert s[j] == if j < |a| then a[j] else b[j - |a|];
      assert i < |a| <= j ==> b[j - |a|] in b && a[i] in a;
    }
  }

  // Cutting rows out of a list leaves the others distinct.
  lemma Cut(rows: seq<int>, index: int, gone: seq<int>, more: seq<int>)
    requires 0 <= index <= |rows| && Distinct(rows) && rows[index..] == gone + more
    ensures Distinct(rows[..index] + more)
  {
    assert rows == rows[..index] + (gone + more);
    DistinctParts(rows[..index], gone + more);
    DistinctParts(gone, more);
    assert forall x | x in more :: x in gone + more;
    JoinDistinct(rows[..index], more);
  }

  // The two lists around a listed item h, and the items that head the rows after it.
  ghost predicate Around(v: View, w: View, lo: int, cs: seq<int>, h: int,
                         before: seq<int>, after: seq<int>, tail: seq<int>)
    requires Ordered(v) && Ordered(w) && -1 <= lo && Between(cs, lo, |v.kids|) && |v.kids| <= |w.kids|
  {
    0 <= h < |v.kids| &&
    Rows(v, lo, cs) == before + [h] + Flat(v, h) + after &&
    Rows(w, lo, cs) == before + [h] + Flat(w, h) + after &&
    Between(tail, lo, |v.kids|) && after == Rows(v, lo, tail)
  }

  lemma Regroup(p: seq<int>, b: seq<int>, m: seq<int>, f: seq<int>, a: seq<int>, q: seq<int>)
    ensures p + (b + m + f + a) + q == (p + b) + m + f + (a + q)
  {
  }

  lemma RegroupFront(p: seq<int>, b: seq<int>, m: seq<int>, f: seq<int>, a: seq<int>)
    ensures p + (b + m + f + a) == p + b + m + f + a
  {
  }

  lemma AroundBelow(v: View, w: View, lo: int, cs: seq<int>, h: int,
                    before: seq<int>, after: seq<int>, tail: seq<int>)
    requires Ordered(v) && Ordered(w) && -1 <= lo && Between(cs, lo, |v.kids|) && |v.kids| <= |w.kids|
    requires cs != [] && Same(v, w, cs[0]) && v.open[cs[0]]
    requires Rows(w, lo, cs[1..]) == Rows(v, lo, cs[1..])
    requires Around(v, w, cs[0], v.kids[cs[0]], h, before, after, tail)
    ensures Around(v, w, lo, cs, h, [cs[0]] + before, after + Rows(v, lo, cs[1..]), tail + cs[1..])
  {
    var c, rest := cs[0], cs[1..];
    hide Rows;
    RowsCons(v, lo, cs);
    RowsCons(w, lo, cs);
    RowsLow(v, c, lo, tail);
    RowsAppend(v, lo, tail, rest);
    Regroup([c], before, [h], Flat(v, h), after, Rows(v, lo, rest));
    Regroup([c], before, [h], Flat(w, h), after, Rows(v, lo, rest));
  }

  lemma AroundRest(v: View, w: View, lo: int, cs: seq<int>, h: int,
                   before: seq<int>, after: seq<int>, tail: seq<int>)
    requires Ordered(v) && Ordered(w) && -1 <= lo && Between(cs, lo, |v.kids|) && |v.kids| <= |w.kids|
    requires cs != [] && Flat(w, cs[0]) == Flat(v, cs[0])
    requires Around(v, w, lo, cs[1..], h, before, after, tail)
    ensures Around(v, w, lo, cs, h, [cs[0]] + Flat(v, cs[0]) + before, after, tail)
  {
    var c, below := cs[0], Flat(v, cs[0]);
    hide Rows, Flat;
    RowsCons(v, lo, cs);
    RowsCons(w, lo, cs);
    RegroupFront([c] + below, before, [h], Flat(v, h), after);
    RegroupFront([c] + below, before, [h], Flat(w, h), after);
  }

  // The views agree on every listed item outside the rows of h.
  ghost predicate SameElsewhere(v: View, w: View, lo: int, cs: seq<int>, h: int)
  {
    Ordered(v) && Ordered(w) && -1 <= lo && Between(cs, lo, |v.kids|) && |v.kids| <= |w.kids| &&
    Distinct(Rows(v, lo, cs)) && h in Rows(v, lo, cs) && 0 <= h < |v.kids| &&
    forall x | x in Rows(v, lo, cs) && x != h && x !in Flat(v, h) :: Same(v, w, x)
  }

  lemma HeadRows(v: View, lo: int, cs: seq<int>)
    requires Ordered(v) && -1 <= lo && Between(cs, lo, |v.kids|) && cs != [] && Distinct(Rows(v, lo, cs))
    ensures Distinct(Flat(v, cs[0])) && Distinct(Rows(v, lo, cs[1..]))
    ensures cs[0] !in Flat(v, cs[0]) && cs[0] !in Rows(v, lo, cs[1..])
    ensures forall x | x in Flat(v, cs[0]) :: x !in Rows(v, lo, cs[1..])
    ensures forall x :: x in Rows(v, lo, cs) <==> x == cs[0] || x in Flat(v, cs[0]) || x in Rows(v, lo, cs[1..])
  {
    RowsCons(v, lo, cs);
    ThreeParts(cs[0], Flat(v, cs[0]), Rows(v, lo, cs[1..]), Rows(v, lo, cs));
  }

  lemma ThreeParts(c: int, b: seq<int>, m: seq<int>, s: seq<int>)
    requires s == [c] + b + m && Distinct(s)
    ensures Distinct(b) && Distinct(m) && c !in b && c !in m && forall x | x in b :: x !in m
    ensures forall x :: x in s <==> x == c || x in b || x in m
  {
    assert s == [c] + (b + m);
    DistinctParts([c], b + m);
    DistinctParts(b, m);
    assert c in [c];
    assert forall x :: x in b + m <==> x in b || x in m;
  }

  lemma SameBelow(v: View, w: View, lo: int, cs: seq<int>, h: int)
    requires cs != [] && SameElsewhere(v, w, lo, cs, h)
    ensures h in Flat(v, cs[0]) ==> v.open[cs[0]] && SameElsewhere(v, w, cs[0], v.kids[cs[0]], h)
    ensures h in Rows(v, lo, cs[1..]) ==> SameElsewhere(v, w, lo, cs[1..], h)
    ensures h == cs[0] || h in Flat(v, cs[0]) || h in Rows(v, lo, cs[1..])
  {
    hide Rows, Distinct, Same;
    HeadRows(v, lo, cs);
  }

  lemma SplitHead(v: View, w: View, lo: int, cs: seq<int>)
    requires cs != [] && SameElsewhere(v, w, lo, cs, cs[0])
    ensures Around(v, w, lo, cs, cs[0], [], Rows(v, lo, cs[1..]), cs[1..])
  {
    HeadRows(v, lo, cs);
    RowsFrame(v, w, lo, cs[1..]);
    AroundHead(v, w, lo, cs);
  }

  lemma SplitBelow(v: View, w: View, lo: int, cs: seq<int>, h: int, b: seq<int>, a: seq<int>, t: seq<int>)
    requires cs != [] && SameElsewhere(v, w, lo, cs, h) && h in Flat(v, cs[0]) && v.open[cs[0]]
    requires Around(v, w, cs[0], v.kids[cs[0]], h, b, a, t)
    ensures Around(v, w, lo, cs, h, [cs[0]] + b, a + Rows(v, lo, cs[1..]), t + cs[1..])
  {
    hide Rows, Distinct, Around, Same;
    var c := cs[0];
    HeadRows(v, lo, cs);
    AroundMembers(v, w, c, v.kids[c], h, b, a, t);
    assert Same(v, w, c);
    RowsFrame(v, w, lo, cs[1..]);
    AroundBelow(v, w, lo, cs, h, b, a, t);
  }

  lemma SplitRest(v: View, w: View, lo: int, cs: seq<int>, h: int, b: seq<int>, a: seq<int>, t: seq<int>)
    requires cs != [] && SameElsewhere(v, w, lo, cs, h) && h in Rows(v, lo, cs[1..])
    requires Around(v, w, lo, cs[1..], h, b, a, t)
    ensures Around(v, w, lo, cs, h, [cs[0]] + Flat(v, cs[0]) + b, a, t)
  {
    hide Rows, Distinct, Around, Same, Flat;
    HeadRows(v, lo, cs);
    AroundMembers(v, w, lo, cs[1..], h, b, a, t);
    assert Same(v, w, cs[0]);
    FlatFrame(v, w, cs[0]);
    AroundRest(v, w, lo, cs, h, b, a, t);
  }

  // Children are one level deeper than their parents.
  ghost predicate Levels(v: View, level: seq<int>)
    requires Ordered(v)
  {
    |level| == |v.kids| &&
    forall h, i {:trigger v.kids[h][i]} | 0 <= h < |v.kids| && 0 <= i < |v.kids[h]| ::
      level[v.kids[h][i]] == level[h] + 1
  }

  // The items cs are all on level l, or at most on level l.
  ghost predicate OnLevel(level: seq<int>, cs: seq<int>, l: int)
  {
    forall i {:trigger cs[i]} | 0 <= i < |cs| :: 0 <= cs[i] < |level| && level[cs[i]] == l
  }

  ghost predicate UpToLevel(level: seq<int>, cs: seq<int>, l: int)
  {
    forall i {:trigger cs[i]} | 0 <= i < |cs| :: 0 <= cs[i] < |level| && level[cs[i]] <= l
  }

  lemma {:induction false} RowsDeeper(v: View, level: seq<int>, lo: int, cs: seq<int>, l: int, x: int)
    requires Ordered(v) && Levels(v, level) && -1 <= lo && Between(cs, lo, |v.kids|)
    requires OnLevel(level, cs, l) && x in Rows(v, lo, cs)
    ensures 0 <= x < |level| && level[x] >= l
    decreases |v.kids| - lo, |cs|
  {
    var c := cs[0];
    RowsCons(v, lo, cs);
    if x in Flat(v, c) {
      RowsDeeper(v, level, c, v.kids[c], l + 1, x);
    } else if x != c {
      RowsDeeper(v, level, lo, cs[1..], l, x);
    }
  }

  // The rows below an item are deeper than the item.
  lemma FlatDeeper(v: View, level: seq<int>, h: int, x: int)
    requires Ordered(v) && Levels(v, level) && 0 <= h < |v.kids| && x in Flat(v, h)
    ensures 0 <= x < |level| && level[x] > level[h]
  {
    RowsDeeper(v, level, h, v.kids[h], level[h] + 1, x);
  }

  lemma KidsLevel(v: View, level: seq<int>, c: int)
    requires Ordered(v) && Levels(v, level) && 0 <= c < |v.kids|
    ensures |level| == |v.kids| && OnLevel(level, v.kids[c], level[c] + 1)
  {
  }

  lemma UpTo(level: seq<int>, t: seq<int>, rest: seq<int>, l: int, m: int)
    requires UpToLevel(level, t, m) && OnLevel(level, rest, l) && l <= m
    ensures UpToLevel(level, t + rest, m)
  {
  }

  // How the rows around a listed item h change when the tree changes only at h and below; the
  // rows behind those of h start on the level of h or above it.
  lemma {:induction false} Split(v: View, w: View, level: seq<int>, l: int, lo: int, cs: seq<int>, h: int)
      returns (before: seq<int>, after: seq<int>, tail: seq<int>)
    requires SameElsewhere(v, w, lo, cs, h) && Levels(v, level) && OnLevel(level, cs, l)
    ensures Around(v, w, lo, cs, h, before, after, tail)
    ensures UpToLevel(level, tail, level[h])
    decreases |v.kids| - lo, |cs|
  {
    NotEmpty(v, w, lo, cs, h);
    hide Rows, Around, SameElsewhere, Levels, UpToLevel;
    SameBelow(v, w, lo, cs, h);
    var c, rest := cs[0], cs[1..];
    if h == c {
      SplitHead(v, w, lo, cs);
      UpTo(level, [], rest, l, level[h]);
      assert [] + rest == rest;
      before, after, tail := [], Rows(v, lo, rest), rest;
    } else if h in Flat(v, c) {
      KidsLevel(v, level, c);
      var b, a, t := Split(v, w, level, l + 1, c, v.kids[c], h);
      FlatDeeper(v, level, c, h);
      UpTo(level, t, rest, l, level[h]);
      SplitBelow(v, w, lo, cs, h, b, a, t);
      before, after, tail := [c] + b, a + Rows(v, lo, rest), t + rest;
    } else {
      var b, a, t := Split(v, w, level, l, lo, rest, h);
      SplitRest(v, w, lo, cs, h, b, a, t);
      before, after, tail := [c] + Flat(v, c) + b, a, t;
    }
  }

  lemma NotEmpty(v: View, w: View, lo: int, cs: seq<int>, h: int)
    requires SameElsewhere(v, w, lo, cs, h)
    ensures Ordered(v) && Ordered(w) && -1 <= lo && Between(cs, lo, |v.kids|) && |v.kids| <= |w.kids|
    ensures cs != []
  {
  }

  lemma AroundHead(v: View, w: View, lo: int, cs: seq<int>)
    requires Ordered(v) && Ordered(w) && -1 <= lo && Between(cs, lo, |v.kids|) && |v.kids| <= |w.kids|
    requires cs != [] && Rows(w, lo, cs[1..]) == Rows(v, lo, cs[1..])
    ensures Around(v, w, lo, cs, cs[0], [], Rows(v, lo, cs[1..]), cs[1..])
  {
    hide Rows, Flat;
    RowsCons(v, lo, cs);
    RowsCons(w, lo, cs);
    RegroupFront([], [], [cs[0]], Flat(v, cs[0]), Rows(v, lo, cs[1..]));
    RegroupFront([], [], [cs[0]], Flat(w, cs[0]), Rows(v, lo, cs[1..]));
  }

  lemma AroundMembers(v: View, w: View, lo: int, cs: seq<int>, h: int,
                      before: seq<int>, after: seq<int>, tail: seq<int>)
    requires Ordered(v) && Ordered(w) && -1 <= lo && Between(cs, lo, |v.kids|) && |v.kids| <= |w.kids|
    requires Around(v, w, lo, cs, h, before, after, tail)
    ensures 0 <= h < |v.kids| && h in Rows(v, lo, cs) && forall x | x in Flat(v, h) :: x in Rows(v, lo, cs)
  {
  }

  // --- Parents and children among the rows -----------------------------------------------

  ghost predicate Parents(v: View, par: seq<int>)
    requires Ordered(v)
  {
    |par| == |v.kids| &&
    forall h, i {:trigger v.kids[h][i]} | 0 <= h < |v.kids| && 0 <= i < |v.kids[h]| :: par[v.kids[h][i]] == h
  }

  // A row that is not one of cs stands behind the row of its parent, which is open.
  ghost predicate BehindParent(v: View, par: seq<int>, r: seq<int>, cs: seq<int>, i: int)
    requires 0 <= i < |r|
  {
    r[i] in cs ||
    (0 <= r[i] < |par| && 0 <= par[r[i]] < |v.open| && v.open[par[r[i]]] && par[r[i]] in r[..i])
  }

  lemma {:induction false} ParentBefore(v: View, par: seq<int>, lo: int, cs: seq<int>, i: int)
    requires Ordered(v) && Parents(v, par) && -1 <= lo && Between(cs, lo, |v.kids|)
    requires 0 <= i < |Rows(v, lo, cs)|
    ensures BehindParent(v, par, Rows(v, lo, cs), cs, i)
    decreases |v.kids| - lo, |cs|
  {
    NoRows(v, lo);
    hide Rows, Flat;
    var c := cs[0];
    var below, more := Flat(v, c), Rows(v, lo, cs[1..]);
    RowsCons(v, lo, cs);
    if 1 <= i <= |below| {
      assert v.open[c] && below == Rows(v, c, v.kids[c]) by {
        FlatIs(v, c);
      }
      ParentBefore(v, par, c, v.kids[c], i - 1);
      BehindBelow(v, par, cs, below, more, i);
    } else if i > |below| {
      ParentBefore(v, par, lo, cs[1..], i - 1 - |below|);
      BehindMore(v, par, cs, below, more, i);
    }
  }

  lemma FlatIs(v: View, c: int)
    requires Ordered(v) && 0 <= c < |v.kids|
    ensures Flat(v, c) != [] ==> v.open[c] && Flat(v, c) == Rows(v, c, v.kids[c])
  {
  }

  lemma BehindBelow(v: View, par: seq<int>, cs: seq<int>, below: seq<int>, more: seq<int>, i: int)
    requires Ordered(v) && Parents(v, par) && cs != [] && 0 <= cs[0] < |v.kids| && v.open[cs[0]]
    requires 1 <= i <= |below| && BehindParent(v, par, below, v.kids[cs[0]], i - 1)
    ensures BehindParent(v, par, [cs[0]] + below + more, cs, i)
  {
    var r := [cs[0]] + below + more;
    assert r[i] == below[i - 1] && r[..i] == [cs[0]] + below[..i - 1];
  }

  lemma BehindMore(v: View, par: seq<int>, cs: seq<int>, below: seq<int>, more: seq<int>, i: int)
    requires cs != [] && |below| < i < 1 + |below| + |more|
    requires BehindParent(v, par, more, cs[1..], i - 1 - |below|)
    ensures BehindParent(v, par, [cs[0]] + below + more, cs, i)
  {
    var r, k := [cs[0]] + below + more, i - 1 - |below|;
    assert r[i] == more[k] && r[..i] == [cs[0]] + below + more[..k];
  }

  // The children of a listed open item are listed.
  lemma {:induction false} KidsListed(v: View, lo: int, cs: seq<int>, y: int, z: int)
    requires Ordered(v) && -1 <= lo && Between(cs, lo, |v.kids|)
    requires y in Rows(v, lo, cs) && 0 <= y < |v.kids| && v.open[y] && z in v.kids[y]
    ensures z in Rows(v, lo, cs)
    decreases |v.kids| - lo, |cs|
  {
    var c := cs[0];
    RowsCons(v, lo, cs);
    if y == c {
      HeadsListed(v, c, v.kids[c], z);
    } else if y in Flat(v, c) {
      KidsListed(v, c, v.kids[c], y, z);
    } else {
      KidsListed(v, lo, cs[1..], y, z);
    }
  }

  lemma {:induction false} HeadsListed(v: View, lo: int, cs: seq<int>, z: int)
    requires Ordered(v) && -1 <= lo && Between(cs, lo, |v.kids|) && z in cs
    ensures z in Rows(v, lo, cs)
    decreases |cs|
  {
    RowsCons(v, lo, cs);
    if z != cs[0] {
      HeadsListed(v, lo, cs[1..], z);
    }
  }

  // Closed items have no rows below them.
  lemma {:induction false} ClosedRows(v: View, lo: int, cs: seq<int>)
    requires Ordered(v) && -1 <= lo && Between(cs, lo, |v.kids|)
    requires forall x | x in cs :: 0 <= x < |v.open| && !v.open[x]
    ensures Rows(v, lo, cs) == cs
    decreases |cs|
  {
    if cs != [] {
      assert cs[0] in cs;
      ClosedRows(v, lo, cs[1..]);
    }
  }
}
