// The 256 search trees of lzc.c, threaded through lson/rson/dad.
//
// The arrays are described without recursion.  Every node p owns an open interval
// (lo[p], hi[p]) of ranks, its left son owns (lo[p], rank[p]) and its right son owns
// (rank[p], hi[p]); an absent son means that no string of the forest lies in that interval.
// The 256 entries of rson behind N act as parents of the roots: entry N + 1 + c owns the
// ranks of all strings that start with byte c.

module LzForest {
  import opened Bytes
  import opened LzOrder

  datatype Forest = Forest(lson: seq<int>, rson: seq<int>, dad: seq<int>,
                           rank: seq<int>, lo: seq<int>, hi: seq<int>)

  ghost predicate Sized(f: Forest)
  {
    |f.lson| == N + 1 && |f.rson| == N + 257 && |f.dad| == N + 1 &&
    |f.rank| == N + 257 && |f.lo| == N + 257 && |f.hi| == N + 257
  }

  // Node p is in one of the trees.
  ghost predicate In(f: Forest, p: int)
    requires Sized(f)
  {
    0 <= p < N && f.dad[p] != NIL
  }

  // The positions that are registered in a tree.
  ghost function Registered(dad: seq<int>): set<int>
    requires |dad| == N + 1
  {
    set p | 0 <= p < N && dad[p] != NIL
  }

  ghost predicate IsRoot(p: int)
  {
    N < p <= N + 256
  }

  ghost predicate Live(f: Forest, p: int)
    requires Sized(f)
  {
    In(f, p) || IsRoot(p)
  }

  ghost predicate LeftOk(f: Forest, p: int)
    requires Sized(f) && In(f, p)
  {
    var c := f.lson[p];
    c != NIL ==> In(f, c) && f.dad[c] == p && f.lo[c] == f.lo[p] && f.hi[c] == f.rank[p]
  }

  ghost predicate RightOk(f: Forest, p: int)
    requires Sized(f) && Live(f, p)
  {
    var c := f.rson[p];
    c != NIL ==> In(f, c) && f.dad[c] == p && f.lo[c] == f.rank[p] && f.hi[c] == f.hi[p]
  }

  ghost predicate DadOk(f: Forest, p: int)
    requires Sized(f) && In(f, p)
  {
    Live(f, f.dad[p]) &&
    (f.rson[f.dad[p]] == p || (In(f, f.dad[p]) && f.lson[f.dad[p]] == p))
  }

  ghost predicate RootOk(f: Forest, p: int)
    requires Sized(f) && IsRoot(p)
  {
    f.lo[p] == f.rank[p] < f.hi[p]
  }

  ghost predicate NodeOk(f: Forest, p: int)
    requires Sized(f) && Live(f, p)
  {
    RightOk(f, p) &&
    if IsRoot(p) then RootOk(f, p)
    else f.lo[p] < f.rank[p] < f.hi[p] && LeftOk(f, p) && DadOk(f, p)
  }

  // The rank of y does not lie where node x has no son.
  ghost predicate Gap(f: Forest, x: int, y: int)
    requires Sized(f) && Live(f, x) && In(f, y)
  {
    (f.rson[x] == NIL ==> f.rank[y] <= f.rank[x] || f.hi[x] <= f.rank[y]) &&
    (In(f, x) && f.lson[x] == NIL ==> f.rank[y] <= f.lo[x] || f.rank[x] <= f.rank[y])
  }

  // Node b lies below a: on one side of its rank.
  ghost predicate Below(f: Forest, a: int, b: int)
    requires Sized(f) && Live(f, a) && Live(f, b)
  {
    In(f, b) && f.lo[a] <= f.lo[b] && f.hi[b] <= f.hi[a] &&
    (f.hi[b] <= f.rank[a] || f.rank[a] <= f.lo[b])
  }

  // Two nodes have disjoint intervals, or one lies below the other.
  ghost predicate Apart(f: Forest, a: int, b: int)
    requires Sized(f) && Live(f, a) && Live(f, b)
  {
    f.hi[a] <= f.lo[b] || f.hi[b] <= f.lo[a] || Below(f, a, b) || Below(f, b, a)
  }

  ghost predicate Valid(f: Forest)
  {
    Sized(f) &&
    (forall p {:trigger NodeOk(f, p)} | Live(f, p) :: NodeOk(f, p)) &&
    (forall x, y {:trigger Gap(f, x, y)} | Live(f, x) && In(f, y) :: Gap(f, x, y)) &&
    (forall a, b {:trigger Apart(f, a, b)} | Live(f, a) && Live(f, b) && a != b :: Apart(f, a, b))
  }

  // The ranks and the upper bounds of the roots never change.
  ghost predicate SameRoots(f: Forest, g: Forest)
    requires Sized(f) && Sized(g)
  {
    g.rank == f.rank && forall x {:trigger g.hi[x]} | IsRoot(x) :: g.hi[x] == f.hi[x]
  }

  // Two different gaps never share a rank.
  lemma GapsAreDisjoint(f: Forest, p: int, x: int, k: int)
    requires Valid(f) && Live(f, p) && Live(f, x) && p != x
    requires
      (f.rson[p] == NIL && f.rank[p] < k < f.hi[p]) ||
      (In(f, p) && f.lson[p] == NIL && f.lo[p] < k < f.rank[p])
    ensures f.rson[x] == NIL ==> k <= f.rank[x] || f.hi[x] <= k
    ensures In(f, x) && f.lson[x] == NIL ==> k <= f.lo[x] || f.rank[x] <= k
  {
    assert NodeOk(f, p) && NodeOk(f, x) && Apart(f, p, x);
    assert In(f, x) ==> Gap(f, p, x);
    assert In(f, p) ==> Gap(f, x, p);
  }

  // g is f with the new leaf r on the right (or left) of p.
  ghost predicate LeafAdded(f: Forest, g: Forest, p: int, r: int, right: bool)
    requires Valid(f)
  {
    Live(f, p) && 0 <= r < N && !In(f, r) &&
    if right then
      f.rson[p] == NIL && f.rank[p] < f.rank[r] < f.hi[p] &&
      g == Forest(f.lson[r := NIL], f.rson[r := NIL][p := r], f.dad[r := p],
                  f.rank, f.lo[r := f.rank[p]], f.hi[r := f.hi[p]])
    else
      In(f, p) && f.lson[p] == NIL && f.lo[p] < f.rank[r] < f.rank[p] &&
      g == Forest(f.lson[r := NIL][p := r], f.rson[r := NIL], f.dad[r := p],
                  f.rank, f.lo[r := f.lo[p]], f.hi[r := f.rank[p]])
  }

  lemma LeafNode(f: Forest, g: Forest, p: int, r: int, right: bool, x: int)
    requires Valid(f) && LeafAdded(f, g, p, r, right) && Live(g, x)
    ensures NodeOk(g, x)
  {
    assert forall y :: In(g, y) <==> In(f, y) || y == r;
    assert NodeOk(f, p);
    if x != r {
      assert NodeOk(f, x);
    }
  }

  lemma LeafGap(f: Forest, g: Forest, p: int, r: int, right: bool, x: int, y: int)
    requires Valid(f) && LeafAdded(f, g, p, r, right) && Live(g, x) && In(g, y)
    ensures Gap(g, x, y)
  {
    assert NodeOk(f, p);
    if y != r {
      assert NodeOk(f, y) && Gap(f, p, y);
    }
    if x != r {
      assert NodeOk(f, x);
      if y != r {
        assert Gap(f, x, y);
      } else if x != p {
        GapsAreDisjoint(f, p, x, f.rank[r]);
      }
    }
  }

  lemma LeafApart(f: Forest, g: Forest, p: int, r: int, right: bool, a: int, b: int)
    requires Valid(f) && LeafAdded(f, g, p, r, right) && Live(g, a) && Live(g, b) && a != b
    ensures Apart(g, a, b)
  {
    assert NodeOk(f, p);
    if a == r && b != p {
      assert Apart(f, p, b) && NodeOk(f, b) && (In(f, b) ==> Gap(f, p, b));
    } else if b == r && a != p {
      assert Apart(f, a, p) && NodeOk(f, a) && (In(f, a) ==> Gap(f, p, a));
    } else if a != r && b != r {
      assert Apart(f, a, b);
    }
  }

  lemma AddLeaf(f: Forest, g: Forest, p: int, r: int, right: bool)
    requires Valid(f) && LeafAdded(f, g, p, r, right)
    ensures Valid(g) && SameRoots(f, g)
    ensures Registered(g.dad) == Registered(f.dad) + {r}
  {
    assert forall x :: In(g, x) <==> In(f, x) || x == r;
    SameRegistered(f, g, {}, {r});
    forall x | Live(g, x) ensures NodeOk(g, x) {
      LeafNode(f, g, p, r, right, x);
    }
    forall x, y | Live(g, x) && In(g, y) ensures Gap(g, x, y) {
      LeafGap(f, g, p, r, right, x, y);
    }
    forall a, b | Live(g, a) && Live(g, b) && a != b ensures Apart(g, a, b) {
      LeafApart(f, g, p, r, right, a, b);
    }
  }

  // Every bound that is `from` becomes `to`.
  ghost function Rebind(bounds: seq<int>, from: int, to: int): (r: seq<int>)
    ensures |r| == |bounds|
    ensures forall i :: 0 <= i < |bounds| ==> r[i] == if bounds[i] == from then to else bounds[i]
  {
    seq(|bounds|, i requires 0 <= i < |bounds| => if bounds[i] == from then to else bounds[i])
  }

  // The place of child p below its parent is given to c (a node or NIL).
  ghost predicate ParentPointsTo(f: Forest, g: Forest, lson: seq<int>, rson: seq<int>, p: int, c: int)
    requires Sized(f) && In(f, p) && Live(f, f.dad[p]) && |lson| == N + 1 && |rson| == N + 257
  {
    if f.rson[f.dad[p]] == p then g.lson == lson && g.rson == rson[f.dad[p] := c]
    else In(f, f.dad[p]) && g.lson == lson[f.dad[p] := c] && g.rson == rson
  }

  // g is f without node q, which has at most a left son (right == false) or at most a right
  // son; that son takes the place of q.
  ghost predicate Spliced(f: Forest, g: Forest, q: int, right: bool)
    requires Valid(f)
  {
    assert In(f, q) ==> NodeOk(f, q);
    In(f, q) && Sized(g) && g.rank == f.rank &&
    var c := if right then f.rson[q] else f.lson[q];
    (if right then f.lson[q] == NIL else f.rson[q] == NIL) &&
    ParentPointsTo(f, g, f.lson, f.rson, q, c) &&
    (forall x {:trigger g.dad[x]} | 0 <= x < N ::
      g.dad[x] == if x == q then NIL else if x == c then f.dad[q] else f.dad[x]) &&
    g.lo == (if right then Rebind(f.lo, f.rank[q], f.lo[q]) else f.lo) &&
    g.hi == (if right then f.hi else Rebind(f.hi, f.rank[q], f.hi[q]))
  }

  lemma SpliceIn(f: Forest, g: Forest, q: int, right: bool, x: int)
    requires Valid(f) && Spliced(f, g, q, right)
    ensures In(g, x) <==> In(f, x) && x != q
  {
    assert NodeOk(f, q);
    if 0 <= x < N {
      assert g.dad[x] == g.dad[x];
    }
  }

  lemma SpliceNode(f: Forest, g: Forest, q: int, right: bool, x: int)
    requires Valid(f) && Spliced(f, g, q, right) && Live(g, x)
    requires forall y :: In(g, y) <==> In(f, y) && y != q
    ensures NodeOk(g, x)
  {
    assert NodeOk(f, q) && NodeOk(f, x) && Apart(f, x, q);
  }

  lemma SpliceGap(f: Forest, g: Forest, q: int, right: bool, x: int, y: int)
    requires Valid(f) && Spliced(f, g, q, right) && Live(g, x) && In(g, y)
    requires forall z :: In(g, z) <==> In(f, z) && z != q
    ensures Gap(g, x, y)
  {
    assert NodeOk(f, q) && NodeOk(f, x) && NodeOk(f, y);
    assert Apart(f, x, q) && Apart(f, y, q) && Gap(f, x, y) && Gap(f, q, y);
  }

  lemma SpliceApart(f: Forest, g: Forest, q: int, right: bool, a: int, b: int)
    requires Valid(f) && Spliced(f, g, q, right) && Live(g, a) && Live(g, b) && a != b
    requires forall y :: In(g, y) <==> In(f, y) && y != q
    ensures Apart(g, a, b)
  {
    assert NodeOk(f, q) && NodeOk(f, a) && NodeOk(f, b);
    assert Apart(f, a, b) && Apart(f, a, q) && Apart(f, b, q);
    assert (In(f, a) ==> Gap(f, q, a)) && (In(f, b) ==> Gap(f, q, b));
  }

  lemma Splice(f: Forest, g: Forest, q: int, right: bool)
    requires Valid(f) && Spliced(f, g, q, right)
    ensures Valid(g) && SameRoots(f, g)
    ensures forall x :: In(g, x) <==> In(f, x) && x != q
  {
    forall x | IsRoot(x) ensures g.hi[x] == f.hi[x] {
      assert NodeOk(f, q) && NodeOk(f, x) && Apart(f, x, q);
    }
    forall x ensures In(g, x) <==> In(f, x) && x != q {
      SpliceIn(f, g, q, right, x);
    }
    forall x | Live(g, x) ensures NodeOk(g, x) {
      SpliceNode(f, g, q, right, x);
    }
    forall x, y | Live(g, x) && In(g, y) ensures Gap(g, x, y) {
      SpliceGap(f, g, q, right, x, y);
    }
    forall a, b | Live(g, a) && Live(g, b) && a != b ensures Apart(g, a, b) {
      SpliceApart(f, g, q, right, a, b);
    }
  }

  // v lies on the same side of `from` and of `to`.
  ghost predicate SameSide(v: int, from: int, to: int)
  {
    (v < from ==> v < to) && (v > from ==> v > to)
  }

  ghost predicate SameSides(f: Forest, x: int, from: int, to: int)
    requires Sized(f) && Live(f, x)
  {
    SameSide(f.lo[x], from, to) && SameSide(f.rank[x], from, to) && SameSide(f.hi[x], from, to)
  }

  // g is f with node r in the place of node p.
  ghost predicate Replaced(f: Forest, g: Forest, p: int, r: int)
    requires Valid(f)
  {
    assert In(f, p) ==> NodeOk(f, p);
    In(f, p) && 0 <= r < N && !In(f, r) && Sized(g) && g.rank == f.rank &&
    f.lo[p] < f.rank[r] < f.hi[p] &&
    (forall x {:trigger SameSides(f, x, f.rank[p], f.rank[r])} | Live(f, x) && x != p ::
      SameSides(f, x, f.rank[p], f.rank[r])) &&
    ParentPointsTo(f, g, f.lson[r := f.lson[p]], f.rson[r := f.rson[p]], p, r) &&
    (forall x {:trigger g.dad[x]} | 0 <= x < N ::
      g.dad[x] == if x == p then NIL else if x == r then f.dad[p]
                  else if x == f.lson[p] || x == f.rson[p] then r else f.dad[x]) &&
    g.lo == Rebind(f.lo, f.rank[p], f.rank[r])[r := f.lo[p]] &&
    g.hi == Rebind(f.hi, f.rank[p], f.rank[r])[r := f.hi[p]]
  }

  lemma ReplaceIn(f: Forest, g: Forest, p: int, r: int, x: int)
    requires Valid(f) && Replaced(f, g, p, r)
    ensures In(g, x) <==> (In(f, x) && x != p) || x == r
  {
    assert NodeOk(f, p);
    if 0 <= x < N {
      assert g.dad[x] == g.dad[x];
    }
  }

  lemma ReplaceRight(f: Forest, g: Forest, p: int, r: int, x: int)
    requires Valid(f) && Replaced(f, g, p, r) && Live(g, x)
    requires forall y :: In(g, y) <==> (In(f, y) && y != p) || y == r
    ensures RightOk(g, x)
  {
    assert NodeOk(f, p);
    if x != r {
      assert NodeOk(f, x) && Apart(f, x, p) && SameSides(f, x, f.rank[p], f.rank[r]);
    }
  }

  lemma ReplaceLeft(f: Forest, g: Forest, p: int, r: int, x: int)
    requires Valid(f) && Replaced(f, g, p, r) && In(g, x)
    requires forall y :: In(g, y) <==> (In(f, y) && y != p) || y == r
    ensures LeftOk(g, x)
  {
    assert NodeOk(f, p);
    if x != r {
      assert NodeOk(f, x) && Apart(f, x, p) && SameSides(f, x, f.rank[p], f.rank[r]);
    }
  }

  lemma ReplaceNode(f: Forest, g: Forest, p: int, r: int, x: int)
    requires Valid(f) && Replaced(f, g, p, r) && Live(g, x)
    requires forall y :: In(g, y) <==> (In(f, y) && y != p) || y == r
    ensures NodeOk(g, x)
  {
    ReplaceRight(f, g, p, r, x);
    if In(g, x) {
      ReplaceLeft(f, g, p, r, x);
    }
    assert NodeOk(f, p);
    if x != r {
      assert NodeOk(f, x) && Apart(f, x, p) && SameSides(f, x, f.rank[p], f.rank[r]);
    }
  }

  lemma ReplaceGap(f: Forest, g: Forest, p: int, r: int, x: int, y: int)
    requires Valid(f) && Replaced(f, g, p, r) && Live(g, x) && In(g, y)
    requires forall z :: In(g, z) <==> (In(f, z) && z != p) || z == r
    ensures Gap(g, x, y)
  {
    assert NodeOk(f, p);
    if x != r {
      assert NodeOk(f, x) && Apart(f, x, p) && Gap(f, x, p) && SameSides(f, x, f.rank[p], f.rank[r]);
    }
    if y != r {
      assert NodeOk(f, y) && Apart(f, y, p) && Gap(f, p, y) && SameSides(f, y, f.rank[p], f.rank[r]);
    }
    if x != r && y != r {
      assert Gap(f, x, y);
    }
  }

  lemma ReplaceApart(f: Forest, g: Forest, p: int, r: int, a: int, b: int)
    requires Valid(f) && Replaced(f, g, p, r) && Live(g, a) && Live(g, b) && a != b
    requires forall y :: In(g, y) <==> (In(f, y) && y != p) || y == r
    ensures Apart(g, a, b)
  {
    assert NodeOk(f, p);
    if a != r {
      assert NodeOk(f, a) && Apart(f, a, p) && SameSides(f, a, f.rank[p], f.rank[r]);
    }
    if b != r {
      assert NodeOk(f, b) && Apart(f, b, p) && SameSides(f, b, f.rank[p], f.rank[r]);
    }
    if a != r && b != r {
      assert Apart(f, a, b);
    }
  }

  lemma Replace(f: Forest, g: Forest, p: int, r: int)
    requires Valid(f) && Replaced(f, g, p, r)
    ensures Valid(g) && SameRoots(f, g)
    ensures forall x :: In(g, x) <==> (In(f, x) && x != p) || x == r
  {
    forall x | IsRoot(x) ensures g.hi[x] == f.hi[x] {
      assert NodeOk(f, p) && NodeOk(f, x) && Apart(f, x, p);
    }
    forall x ensures In(g, x) <==> (In(f, x) && x != p) || x == r {
      ReplaceIn(f, g, p, r, x);
    }
    forall x | Live(g, x) ensures NodeOk(g, x) {
      ReplaceNode(f, g, p, r, x);
    }
    forall x, y | Live(g, x) && In(g, y) ensures Gap(g, x, y) {
      ReplaceGap(f, g, p, r, x, y);
    }
    forall a, b | Live(g, a) && Live(g, b) && a != b ensures Apart(g, a, b) {
      ReplaceApart(f, g, p, r, a, b);
    }
  }

  lemma SameRegistered(f: Forest, g: Forest, gone: set<int>, come: set<int>)
    requires Sized(f) && Sized(g)
    requires forall x :: In(g, x) <==> (In(f, x) && x !in gone) || x in come
    ensures Registered(g.dad) == Registered(f.dad) - gone + come
  {
    forall x ensures x in Registered(g.dad) <==> x in Registered(f.dad) - gone + come {
      assert In(g, x) <==> x in Registered(g.dad);
      assert In(f, x) <==> x in Registered(f.dad);
    }
  }

  // Only the entries of live nodes matter; in particular dad[NIL] may hold anything.
  ghost predicate Agree(f: Forest, g: Forest)
    requires Sized(f) && Sized(g)
  {
    (forall x {:trigger g.dad[x]} | 0 <= x < N :: g.dad[x] == f.dad[x]) &&
    (forall x {:trigger g.lson[x]} | In(f, x) :: g.lson[x] == f.lson[x]) &&
    (forall x {:trigger g.rson[x]} | Live(f, x) :: g.rson[x] == f.rson[x]) &&
    (forall x {:trigger g.rank[x]} | Live(f, x) :: g.rank[x] == f.rank[x]) &&
    (forall x {:trigger g.lo[x]} | Live(f, x) :: g.lo[x] == f.lo[x]) &&
    (forall x {:trigger g.hi[x]} | Live(f, x) :: g.hi[x] == f.hi[x])
  }

  lemma Frame(f: Forest, g: Forest)
    requires Valid(f) && Sized(g) && Agree(f, g)
    ensures Valid(g)
    ensures g.rank == f.rank ==> SameRoots(f, g)
    ensures Registered(g.dad) == Registered(f.dad)
    ensures forall x :: In(g, x) <==> In(f, x)
  {
    assert forall x :: In(g, x) <==> In(f, x);
    SameRegistered(f, g, {}, {});
    forall x | Live(g, x) ensures NodeOk(g, x) {
      assert NodeOk(f, x);
    }
    forall x, y | Live(g, x) && In(g, y) ensures Gap(g, x, y) {
      assert Gap(f, x, y);
    }
    forall a, b | Live(g, a) && Live(g, b) && a != b ensures Apart(g, a, b) {
      assert Apart(f, a, b);
    }
  }

  // The forest without q, whose only son (if any) moves up.
  ghost function SpliceAt(f: Forest, q: int, right: bool): (g: Forest)
    requires Valid(f) && In(f, q) && (if right then f.lson[q] == NIL else f.rson[q] == NIL)
    ensures Spliced(f, g, q, right)
  {
    assert NodeOk(f, q);
    var c := if right then f.rson[q] else f.lson[q];
    var dad := f.dad[c := f.dad[q]][q := NIL];
    var lo := if right then Rebind(f.lo, f.rank[q], f.lo[q]) else f.lo;
    var hi := if right then f.hi else Rebind(f.hi, f.rank[q], f.hi[q]);
    if f.rson[f.dad[q]] == q then Forest(f.lson, f.rson[f.dad[q] := c], dad, f.rank, lo, hi)
    else Forest(f.lson[f.dad[q] := c], f.rson, dad, f.rank, lo, hi)
  }

  ghost function ReplaceAt(f: Forest, p: int, r: int): (g: Forest)
    requires Valid(f) && In(f, p) && 0 <= r < N && !In(f, r)
    requires f.lo[p] < f.rank[r] < f.hi[p]
    requires forall x {:trigger SameSides(f, x, f.rank[p], f.rank[r])} | Live(f, x) && x != p ::
               SameSides(f, x, f.rank[p], f.rank[r])
    ensures Replaced(f, g, p, r)
  {
    assert NodeOk(f, p);
    var lson := f.lson[r := f.lson[p]];
    var rson := f.rson[r := f.rson[p]];
    var dad := f.dad[r := f.dad[p]][f.lson[p] := r][f.rson[p] := r][p := NIL];
    var lo := Rebind(f.lo, f.rank[p], f.rank[r])[r := f.lo[p]];
    var hi := Rebind(f.hi, f.rank[p], f.rank[r])[r := f.hi[p]];
    if f.rson[f.dad[p]] == p then Forest(lson, rson[f.dad[p] := r], dad, f.rank, lo, hi)
    else Forest(lson[f.dad[p] := r], rson, dad, f.rank, lo, hi)
  }

  // q is the predecessor of p: the last node of the left subtree of p.
  ghost predicate Predecessor(f: Forest, p: int, q: int)
    requires Sized(f)
  {
    In(f, p) && In(f, q) && q != p && f.rson[q] == NIL &&
    f.lo[p] <= f.lo[q] && f.hi[q] == f.rank[p]
  }

  lemma NothingBetween(f: Forest, p: int, q: int, x: int)
    requires Valid(f) && Predecessor(f, p, q)
    requires Live(SpliceAt(f, q, false), x) && x != p
    ensures SameSides(SpliceAt(f, q, false), x, f.rank[p], f.rank[q])
  {
    SpliceIn(f, SpliceAt(f, q, false), q, false, x);
    assert NodeOk(f, q) && NodeOk(f, p) && NodeOk(f, x);
    assert Apart(f, x, q) && (In(f, x) ==> Gap(f, q, x)) && Apart(f, x, p);
  }

  lemma MoveUpReady(f: Forest, p: int, q: int)
    requires Valid(f) && Predecessor(f, p, q)
    ensures var m := SpliceAt(f, q, false);
            Valid(m) && SameRoots(f, m) && (forall x :: In(m, x) <==> In(f, x) && x != q) &&
            m.lo[p] < m.rank[q] < m.hi[p] &&
            forall x {:trigger SameSides(m, x, m.rank[p], m.rank[q])} | Live(m, x) && x != p ::
              SameSides(m, x, m.rank[p], m.rank[q])
  {
    var m := SpliceAt(f, q, false);
    Splice(f, m, q, false);
    assert NodeOk(f, q) && NodeOk(f, p);
    forall x | Live(m, x) && x != p ensures SameSides(m, x, m.rank[p], m.rank[q]) {
      NothingBetween(f, p, q, x);
    }
  }

  // The forest without p, whose predecessor q takes its place.
  ghost function MoveUp(f: Forest, p: int, q: int): (g: Forest)
    requires Valid(f) && Predecessor(f, p, q)
    ensures Valid(g) && SameRoots(f, g)
    ensures Registered(g.dad) == Registered(f.dad) - {p}
  {
    MoveUpReady(f, p, q);
    var m := SpliceAt(f, q, false);
    var g := ReplaceAt(m, p, q);
    Replace(m, g, p, q);
    SameRegistered(f, g, {p}, {});
    g
  }

  // --- The link assignments of the source, as updates of the three arrays ---------------

  ghost predicate Indices(f: Forest, p: int)
  {
    Sized(f) && 0 <= p < N && 0 <= f.lson[p] <= N && 0 <= f.rson[p] <= N &&
    0 <= f.dad[p] < N + 257 && (f.rson[f.dad[p]] != p ==> f.dad[p] <= N)
  }

  // q becomes the son of dad[p] in the place of p; p leaves the tree.
  ghost function InParent(f: Forest, p: int, q: int): (g: Forest)
    requires Indices(f, p)
    ensures Sized(g)
  {
    if f.rson[f.dad[p]] == p then f.(rson := f.rson[f.dad[p] := q], dad := f.dad[p := NIL])
    else f.(lson := f.lson[f.dad[p] := q], dad := f.dad[p := NIL])
  }

  // The parent of p becomes the parent of q.
  ghost function WithDadOf(f: Forest, p: int, q: int): (g: Forest)
    requires Indices(f, p) && 0 <= q <= N && q != p
    ensures Indices(g, p)
  {
    f.(dad := f.dad[q := f.dad[p]])
  }

  // r takes over the parent and both sons of p.
  ghost function WithLinksOf(f: Forest, p: int, r: int): (g: Forest)
    requires Indices(f, p) && 0 <= r < N
    ensures Sized(g)
  {
    f.(lson := f.lson[r := f.lson[p]], rson := f.rson[r := f.rson[p]],
       dad := f.dad[r := f.dad[p]][f.lson[p] := r][f.rson[p] := r])
  }

  // q takes over both sons of p; unless it is a son of p it first leaves its own place.
  ghost function WithSonsOf(f: Forest, p: int, q: int): (g: Forest)
    requires Indices(f, p) && Indices(f, q)
    ensures Sized(g)
  {
    if f.lson[p] == q then
      f.(rson := f.rson[q := f.rson[p]], dad := f.dad[f.rson[p] := q])
    else
      f.(lson := f.lson[q := f.lson[p]],
         rson := f.rson[f.dad[q] := f.lson[q]][q := f.rson[p]],
         dad := f.dad[f.lson[q] := f.dad[q]][f.lson[p] := q][f.rson[p] := q])
  }

  lemma IndicesOk(f: Forest, p: int)
    requires Valid(f) && In(f, p)
    ensures Indices(f, p) && f.lson[p] != p && f.rson[p] != p
  {
    assert NodeOk(f, p);
  }

  lemma SpliceLinks(f: Forest, p: int, right: bool)
    requires Valid(f) && In(f, p) && (if right then f.lson[p] == NIL else f.rson[p] == NIL)
    ensures Indices(f, p)
    ensures var g := SpliceAt(f, p, right);
            Valid(g) && SameRoots(f, g) && Registered(g.dad) == Registered(f.dad) - {p} &&
            var q := if right then f.rson[p] else f.lson[p];
            q != p && Agree(g, InParent(WithDadOf(f, p, q), p, q).(lo := g.lo, hi := g.hi))
  {
    IndicesOk(f, p);
    Splice(f, SpliceAt(f, p, right), p, right);
    SameRegistered(f, SpliceAt(f, p, right), {p}, {});
  }

  // Unless q is the left son of p, it is the right son of another node.
  lemma WhereIsPredecessor(f: Forest, p: int, q: int)
    requires Valid(f) && Predecessor(f, p, q)
    ensures f.rson[p] != q && f.lson[p] != p && f.rson[p] != p && f.lson[q] != p && f.lson[q] != q
    ensures f.lson[p] == q ==> f.dad[q] == p
    ensures f.lson[p] != q ==> Live(f, f.dad[q]) && f.dad[q] != p && f.rson[f.dad[q]] == q && f.dad[q] != q
  {
    assert NodeOk(f, p) && NodeOk(f, q) && Apart(f, p, q);
    var d := f.dad[q];
    assert NodeOk(f, d) && (d != p ==> Apart(f, d, p));
  }

  lemma MoveUpSon(f: Forest, p: int, q: int)
    requires Valid(f) && Predecessor(f, p, q) && f.lson[p] == q
    ensures Indices(f, p) && Indices(f, q) && Indices(WithSonsOf(f, p, q), p)
    ensures var g := MoveUp(f, p, q);
            Agree(g, InParent(WithDadOf(WithSonsOf(f, p, q), p, q), p, q).(lo := g.lo, hi := g.hi))
  {
    IndicesOk(f, p);
    IndicesOk(f, q);
    WhereIsPredecessor(f, p, q);
    MoveUpReady(f, p, q);
    var m := SpliceAt(f, q, false);
    var g := ReplaceAt(m, p, q);
    var h := InParent(WithDadOf(WithSonsOf(f, p, q), p, q), p, q);
    assert NodeOk(f, p) && NodeOk(f, q);
    assert m.lson == f.lson[p := f.lson[q]] && m.rson == f.rson;
    assert forall x :: 0 <= x < N ==> g.dad[x] == h.dad[x];
  }

  lemma MoveUpDeep(f: Forest, p: int, q: int)
    requires Valid(f) && Predecessor(f, p, q) && f.lson[p] != q
    ensures Indices(f, p) && Indices(f, q) && Indices(WithSonsOf(f, p, q), p)
    ensures var g := MoveUp(f, p, q);
            Agree(g, InParent(WithDadOf(WithSonsOf(f, p, q), p, q), p, q).(lo := g.lo, hi := g.hi))
  {
    IndicesOk(f, p);
    IndicesOk(f, q);
    WhereIsPredecessor(f, p, q);
    MoveUpReady(f, p, q);
    var m := SpliceAt(f, q, false);
    var g := ReplaceAt(m, p, q);
    var h := InParent(WithDadOf(WithSonsOf(f, p, q), p, q), p, q);
    assert NodeOk(f, p);
    assert m.lson == f.lson && m.rson == f.rson[f.dad[q] := f.lson[q]];
    assert m.rson[p] == f.rson[p] && m.dad[p] == f.dad[p];
    assert WithSonsOf(f, p, q).dad[p] == f.dad[p];
    forall x | 0 <= x < N ensures g.dad[x] == h.dad[x] {
      assert m.dad[x] == if x == q then NIL else if x == f.lson[q] then f.dad[q] else f.dad[x];
    }
  }

  lemma ReplaceLinks(f: Forest, p: int, r: int)
    requires Valid(f) && In(f, p) && 0 <= r < N && !In(f, r) && f.rank[r] == f.rank[p]
    requires f.lo[p] < f.rank[p] < f.hi[p]
    ensures Indices(f, p) && Indices(WithLinksOf(f, p, r), p) && f.lson[p] != p && f.rson[p] != p
    ensures var g := ReplaceAt(f, p, r);
            Valid(g) && SameRoots(f, g) && Registered(g.dad) == Registered(f.dad) - {p} + {r} &&
            Agree(g, InParent(WithLinksOf(f, p, r), p, r).(lo := g.lo, hi := g.hi))
  {
    IndicesOk(f, p);
    assert NodeOk(f, p);
    Replace(f, ReplaceAt(f, p, r), p, r);
    SameRegistered(f, ReplaceAt(f, p, r), {p}, {r});
  }

  // The node that takes the place of p when p is deleted.
  ghost predicate Heir(f: Forest, p: int, q: int)
    requires Sized(f) && In(f, p)
  {
    if f.rson[p] == NIL then q == f.lson[p]
    else if f.lson[p] == NIL then q == f.rson[p]
    else Predecessor(f, p, q)
  }

  ghost function Without(f: Forest, p: int, q: int): (g: Forest)
    requires Valid(f) && In(f, p) && Heir(f, p, q)
  {
    if f.rson[p] == NIL then SpliceAt(f, p, false)
    else if f.lson[p] == NIL then SpliceAt(f, p, true)
    else MoveUp(f, p, q)
  }

  lemma HeirIndices(f: Forest, p: int, q: int)
    requires Valid(f) && In(f, p) && Heir(f, p, q)
    ensures Indices(f, p) && 0 <= q <= N && q != p
    ensures f.lson[p] != NIL && f.rson[p] != NIL ==>
              Indices(f, q) && Indices(WithSonsOf(f, p, q), p) &&
              (f.lson[p] != q ==> f.lson[q] != p && f.dad[q] != p)
  {
    IndicesOk(f, p);
    if f.lson[p] != NIL && f.rson[p] != NIL {
      IndicesOk(f, q);
      WhereIsPredecessor(f, p, q);
    }
  }

  // The assignments of the source remove p and keep the forest in order.
  lemma Deleted(f: Forest, g: Forest, p: int, q: int)
    requires Valid(f) && In(f, p) && Heir(f, p, q)
    requires Indices(f, p) && 0 <= q <= N && q != p
    requires f.lson[p] != NIL && f.rson[p] != NIL ==> Indices(f, q) && Indices(WithSonsOf(f, p, q), p)
    requires var h := if f.lson[p] == NIL || f.rson[p] == NIL then f else WithSonsOf(f, p, q);
             var w := Without(f, p, q);
             g == InParent(WithDadOf(h, p, q), p, q).(lo := w.lo, hi := w.hi)
    ensures Valid(g) && SameRoots(f, g)
    ensures Registered(g.dad) == Registered(f.dad) - {p}
  {
    if f.rson[p] == NIL {
      SpliceLinks(f, p, false);
    } else if f.lson[p] == NIL {
      SpliceLinks(f, p, true);
    } else if q == f.lson[p] {
      MoveUpSon(f, p, q);
    } else {
      MoveUpDeep(f, p, q);
    }
    Frame(Without(f, p, q), g);
  }
}
