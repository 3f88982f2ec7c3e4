// Searching the trees: one path from a root is enough to find the longest match.

module LzSearch {
  import opened Bytes
  import opened LzOrder
  import opened LzForest

  // The F-byte string that starts at position p of the buffer, read linearly.
  function Str(text: seq<byte>, p: int): (s: seq<byte>)
    requires |text| == N + F - 1 && 0 <= p < N
    ensures |s| == F
  {
    text[p..p + F]
  }

  // The rank of a node is the rank of its string; root N + 1 + c lies between the borders of c.
  ghost predicate Ranked(f: Forest, text: seq<byte>, x: int)
    requires Sized(f) && |text| == N + F - 1 && 0 <= x < N + 257
  {
    (x < N ==> f.rank[x] == Rank(Str(text, x))) &&
    (IsRoot(x) ==> f.rank[x] == Border(x - N - 1) && f.hi[x] == Border(x - N))
  }

  // The forest speaks about the strings of this buffer.
  ghost predicate TreesOf(f: Forest, text: seq<byte>)
  {
    |text| == N + F - 1 && Valid(f) &&
    forall x {:trigger Ranked(f, text, x)} | 0 <= x < N + 257 :: Ranked(f, text, x)
  }

  lemma StillTreesOf(f: Forest, g: Forest, text: seq<byte>)
    requires TreesOf(f, text) && Valid(g) && SameRoots(f, g)
    ensures TreesOf(g, text)
  {
    forall x | 0 <= x < N + 257 ensures Ranked(g, text, x) {
      assert Ranked(f, text, x);
    }
  }

  // The ranks of all strings of the buffer, followed by the lower borders of the 256 trees.
  ghost function Ranks(text: seq<byte>): (r: seq<int>)
    requires |text| == N + F - 1
    ensures |r| == N + 257
  {
    seq(N + 257, i requires 0 <= i < N + 257 =>
      if i < N then Rank(Str(text, i)) else Border(i - N - 1))
  }

  // All trees empty.
  lemma EmptyTrees(f: Forest, text: seq<byte>)
    requires |text| == N + F - 1 && Sized(f) && f.rank == f.lo == Ranks(text)
    requires f.hi == seq(N + 257, i => Border(i - N))
    requires forall x | 0 <= x < N :: f.dad[x] == NIL
    requires forall x | N < x <= N + 256 :: f.rson[x] == NIL
    ensures TreesOf(f, text)
  {
    forall x | Live(f, x) ensures NodeOk(f, x) {
      BordersIncrease(x - N - 1, x - N);
    }
    forall a, b | Live(f, a) && Live(f, b) && a != b ensures Apart(f, a, b) {
      if a + 1 < b {
        BordersIncrease(a - N, b - N - 1);
      } else if b + 1 < a {
        BordersIncrease(b - N, a - N - 1);
      }
    }
  }

  // The text may change where no node of the forest looks.
  lemma Retext(f: Forest, text: seq<byte>, text': seq<byte>)
    requires TreesOf(f, text) && |text'| == N + F - 1
    requires forall x | In(f, x) :: Str(text', x) == Str(text, x)
    ensures TreesOf(f.(rank := Ranks(text')), text')
  {
    var g := f.(rank := Ranks(text'));
    forall x | Live(f, x) ensures g.rank[x] == f.rank[x] {
      assert Ranked(f, text, x);
    }
    Frame(f, g);
    forall x | 0 <= x < N + 257 ensures Ranked(g, text', x) {
      assert Ranked(f, text, x);
    }
  }

  // r takes the search path from p to its right (or left) son.
  ghost predicate OnPath(f: Forest, p: int, right: bool, r: int)
    requires Valid(f) && 0 <= r < N
  {
    Live(f, p) &&
    if right then f.rank[p] < f.rank[r] < f.hi[p]
    else In(f, p) && f.lo[p] < f.rank[r] < f.rank[p]
  }

  ghost predicate InSlot(f: Forest, p: int, right: bool, x: int)
    requires Sized(f) && Live(f, p) && 0 <= x < N
  {
    if right then f.rank[p] < f.rank[x] < f.hi[p] else f.lo[p] < f.rank[x] < f.rank[p]
  }

  // No string outside the part of the tree still to be searched matches r in more than len bytes.
  ghost predicate Seen(f: Forest, text: seq<byte>, p: int, right: bool, r: int, len: int)
    requires TreesOf(f, text) && Live(f, p) && 0 <= r < N
  {
    forall x | In(f, x) && !InSlot(f, p, right, x) :: Lcp(Str(text, x), Str(text, r)) <= len
  }

  // p belongs to the tree of byte c.
  ghost predicate InTree(f: Forest, p: int, c: int)
    requires Valid(f) && Live(f, p)
  {
    Border(c) <= f.lo[p] && f.hi[p] <= Border(c + 1)
  }

  // len is the length of the longest match of r among the nodes, and pos attains it.
  ghost predicate LongestMatch(nodes: set<int>, text: seq<byte>, r: int, pos: int, len: int)
    requires |text| == N + F - 1 && 0 <= r < N
  {
    0 <= len <= F &&
    (forall x | x in nodes && 0 <= x < N :: Lcp(Str(text, x), Str(text, r)) <= len) &&
    (len > 0 ==> pos in nodes && 0 <= pos < N && Lcp(Str(text, pos), Str(text, r)) == len)
  }

  lemma RankOf(f: Forest, text: seq<byte>, x: int)
    requires TreesOf(f, text)
    requires 0 <= x < N
    ensures f.rank[x] == Rank(Str(text, x))
  {
    assert Ranked(f, text, x);
  }

  lemma StartOfPath(f: Forest, text: seq<byte>, r: int)
    requires TreesOf(f, text) && 0 <= r < N
    ensures Live(f, N + 1 + text[r])
    ensures InTree(f, N + 1 + text[r], text[r])
    ensures OnPath(f, N + 1 + text[r], true, r)
    ensures Seen(f, text, N + 1 + text[r], true, r, 0)
  {
    var c: int := text[r];
    var p := N + 1 + c;
    assert Ranked(f, text, p);
    assert NodeOk(f, p);
    RankOf(f, text, r);
    Borders(Str(text, r), c);
    hide NodeOk, TreesOf, Rank, Border, Lcp;
    forall x | In(f, x) && !InSlot(f, p, true, x)
      ensures Lcp(Str(text, x), Str(text, r)) <= 0
    {
      OtherTree(f, text, r, x);
    }
  }

  // A string outside the tree of r has another first byte.
  lemma OtherTree(f: Forest, text: seq<byte>, r: int, x: int)
    requires TreesOf(f, text) && 0 <= r < N && 0 <= x < N && Live(f, N + 1 + text[r])
    requires !InSlot(f, N + 1 + text[r], true, x)
    ensures Lcp(Str(text, x), Str(text, r)) == 0
  {
    var c: int := text[r];
    assert Ranked(f, text, N + 1 + c);
    RankOf(f, text, x);
    Borders(Str(text, x), c);
    assert Str(text, r)[0] == c;
  }

  // Strings of one tree share their first byte.
  lemma SameFirstByte(f: Forest, text: seq<byte>, p: int, c: int)
    requires TreesOf(f, text) && In(f, p) && InTree(f, p, c)
    ensures text[p] == c
  {
    assert NodeOk(f, p);
    RankOf(f, text, p);
    Borders(Str(text, p), c);
  }

  lemma SonOnPath(f: Forest, p: int, right: bool, r: int, q: int, c: int)
    requires Valid(f) && 0 <= r < N && OnPath(f, p, right, r) && InTree(f, p, c)
    requires q == (if right then f.rson[p] else f.lson[p]) && q != NIL
    ensures In(f, q) && InTree(f, q, c)
    ensures f.lo[q] < f.rank[r] < f.hi[q]
    ensures f.hi[q] - f.lo[q] < f.hi[p] - f.lo[p] || !In(f, p)
    ensures forall x :: 0 <= x < N ==> (InSlot(f, p, right, x) <==> f.lo[q] < f.rank[x] < f.hi[q])
  {
    assert NodeOk(f, p);
  }

  // Comparing r with q tells where the search goes on, and what was left aside matches r
  // in no more bytes than q does.
  lemma StepDown(f: Forest, text: seq<byte>, p: int, right: bool, r: int, q: int, len: int)
    requires TreesOf(f, text) && 0 <= r < N && OnPath(f, p, right, r) && In(f, q)
    requires forall x :: 0 <= x < N ==> (InSlot(f, p, right, x) <==> f.lo[q] < f.rank[x] < f.hi[q])
    requires Seen(f, text, p, right, r, len)
    requires f.lo[q] < f.rank[r] < f.hi[q] && f.rank[q] != f.rank[r]
    ensures OnPath(f, q, f.rank[q] < f.rank[r], r)
    ensures Seen(f, text, q, f.rank[q] < f.rank[r], r,
                 Max(len, Lcp(Str(text, q), Str(text, r))))
  {
    var right' := f.rank[q] < f.rank[r];
    var l := Max(len, Lcp(Str(text, q), Str(text, r)));
    RankOf(f, text, r);
    RankOf(f, text, q);
    forall x | In(f, x) && !InSlot(f, q, right', x)
      ensures Lcp(Str(text, x), Str(text, r)) <= l
    {
      RankOf(f, text, x);
      if InSlot(f, p, right, x) {
        if right' {
          BetweenSharesMore(Str(text, x), Str(text, q), Str(text, r));
        } else {
          BetweenSharesMore(Str(text, r), Str(text, q), Str(text, x));
          LcpCommutes(Str(text, r), Str(text, q));
          LcpCommutes(Str(text, r), Str(text, x));
        }
      }
    }
  }

  function Max(a: int, b: int): int
  {
    if a < b then b else a
  }

  // The state of the search for the longest match of r: p is the last node visited.
  ghost predicate Searching(f: Forest, text: seq<byte>, p: int, right: bool, r: int, pos: int, len: int)
  {
    TreesOf(f, text) && 0 <= r < N && !In(f, r) &&
    Live(f, p) && InTree(f, p, text[r]) && OnPath(f, p, right, r) &&
    Seen(f, text, p, right, r, len) && 0 <= len < F &&
    (len > 0 ==> In(f, pos) && Lcp(Str(text, pos), Str(text, r)) == len)
  }

  ghost function Son(f: Forest, p: int, right: bool): int
    requires Sized(f) && Live(f, p) && (right || In(f, p))
  {
    if right then f.rson[p] else f.lson[p]
  }

  ghost function Width(f: Forest, p: int): int
    requires Sized(f) && Live(f, p)
  {
    2 * (f.hi[p] - f.lo[p]) + if In(f, p) then 0 else 1
  }

  lemma VisitSon(f: Forest, text: seq<byte>, p: int, right: bool, r: int, pos: int, len: int)
    requires Searching(f, text, p, right, r, pos, len) && Son(f, p, right) != NIL
    ensures var q := Son(f, p, right);
            In(f, q) && text[q] == text[r] && 0 <= Width(f, q) < Width(f, p)
  {
    var q := Son(f, p, right);
    SonOnPath(f, p, right, r, q, text[r]);
    SameFirstByte(f, text, q, text[r]);
    assert NodeOk(f, p);
  }

  lemma PassSon(f: Forest, text: seq<byte>, p: int, right: bool, r: int, pos: int, len: int, i: int)
    requires Searching(f, text, p, right, r, pos, len) && Son(f, p, right) != NIL
    requires In(f, Son(f, p, right))
    requires var q := Son(f, p, right);
             i == Lcp(Str(text, q), Str(text, r)) < F
    ensures var q := Son(f, p, right);
            Searching(f, text, q, Rank(Str(text, q)) < Rank(Str(text, r)), r,
                      if i > len then q else pos, Max(len, i))
  {
    var q := Son(f, p, right);
    SonOnPath(f, p, right, r, q, text[r]);
    RankOf(f, text, q);
    RankOf(f, text, r);
    FirstDifferenceDecides(Str(text, q), Str(text, r));
    StepDown(f, text, p, right, r, q, len);
  }

  // A full match cannot be beaten.
  lemma FullMatch(f: Forest, text: seq<byte>, r: int, q: int)
    requires TreesOf(f, text) && 0 <= r < N && In(f, q)
    requires Lcp(Str(text, q), Str(text, r)) == F
    ensures LongestMatch(Registered(f.dad), text, r, q, F)
    ensures Str(text, q) == Str(text, r)
  {
    FirstDifferenceDecides(Str(text, q), Str(text, r));
  }

  // At a missing son everything has been seen.
  lemma AllSeen(f: Forest, text: seq<byte>, p: int, right: bool, r: int, pos: int, len: int)
    requires Searching(f, text, p, right, r, pos, len) && Son(f, p, right) == NIL
    ensures LongestMatch(Registered(f.dad), text, r, pos, len)
  {
    forall x | In(f, x) ensures Lcp(Str(text, x), Str(text, r)) <= len {
      assert Gap(f, p, x);
    }
  }

  // Equal strings can take each other's place.
  lemma SamePlace(f: Forest, text: seq<byte>, p: int, r: int)
    requires TreesOf(f, text) && In(f, p) && 0 <= r < N && Str(text, p) == Str(text, r)
    ensures f.rank[r] == f.rank[p] && f.lo[p] < f.rank[p] < f.hi[p]
  {
    assert NodeOk(f, p);
    RankOf(f, text, p);
    RankOf(f, text, r);
  }

  // --- What the trees are for: looking up a rank ---------------------------------------

  // Follow the sons from p.
  ghost function Lookup(f: Forest, p: int, k: int): (x: int)
    requires Valid(f) && Live(f, p) && f.lo[p] < k < f.hi[p]
    ensures x != NIL ==> In(f, x) && f.rank[x] == k
    ensures x == NIL ==> forall y | In(f, y) :: f.rank[y] != k
    decreases f.hi[p] - f.lo[p], if In(f, p) then 0 else 1
  {
    assert NodeOk(f, p);
    if k == f.rank[p] then p
    else
      var q := if k < f.rank[p] then f.lson[p] else f.rson[p];
      if q == NIL then
        assert forall y | In(f, y) :: f.rank[y] != k by {
          forall y | In(f, y) ensures f.rank[y] != k {
            assert Gap(f, p, y);
          }
        }
        NIL
      else Lookup(f, q, k)
  }

  // No string is in the forest twice.
  lemma RanksDiffer(f: Forest, x: int, y: int)
    requires Valid(f) && In(f, x) && In(f, y)
    ensures x != y ==> f.rank[x] != f.rank[y]
  {
    assert NodeOk(f, x) && NodeOk(f, y) && (x != y ==> Apart(f, x, y));
  }

  // Looking up the string of a node from the root of its first byte finds that node.
  lemma LookupFinds(f: Forest, text: seq<byte>, x: int)
    requires TreesOf(f, text) && In(f, x)
    ensures var root := N + 1 + text[x];
            f.lo[root] < f.rank[x] < f.hi[root] && Lookup(f, root, f.rank[x]) == x
  {
    StartOfPath(f, text, x);
    var root := N + 1 + text[x];
    assert NodeOk(f, root);
    var y := Lookup(f, root, f.rank[x]);
    RanksDiffer(f, x, y);
  }
}
