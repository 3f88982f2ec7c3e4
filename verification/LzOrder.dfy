// The order lzc.c puts on the F-byte strings of its ring buffer.
//
// A string is compared byte by byte from the front; the comparison stops at the first
// difference.  Here the same order is also given as an order on integers (the rank of a
// string), so that the search trees can be described by integer intervals.

module LzOrder {
  import opened Bytes

  const N: int := 4096        // size of the ring buffer
  const F: int := 16          // upper limit for a match length
  const THRESHOLD: int := 2   // a match must be longer than this
  const NIL: int := N         // "no node"

  function Pow256(n: nat): (r: nat)
    ensures r > 0
  {
    if n == 0 then 1 else 256 * Pow256(n - 1)
  }

  lemma NextMultiple(x: int, y: int, p: int)
    requires x < y && p >= 0
    ensures x * p + p <= y * p
  {
    assert y * p == (y - x - 1) * p + x * p + p;
  }

  // The big-endian value of a byte string.
  function Value(s: seq<byte>): (r: nat)
    ensures r < Pow256(|s|)
  {
    if s == [] then 0
    else
      NextMultiple(s[0], 256, Pow256(|s| - 1));
      s[0] * Pow256(|s| - 1) + Value(s[1..])
  }

  // Odd numbers are reserved for strings, even numbers for the borders between trees.
  function Rank(s: seq<byte>): int
  {
    2 * Value(s) + 1
  }

  // The border below all strings of length F that start with byte c.
  function Border(c: int): int
  {
    if c <= 0 then 0 else Border(c - 1) + 2 * Pow256(F - 1)
  }

  lemma {:induction false} BorderIsMultiple(c: nat)
    ensures Border(c) == 2 * (c * Pow256(F - 1))
  {
    if c > 0 {
      BorderIsMultiple(c - 1);
    }
  }

  // Length of the longest common prefix.
  function Lcp(a: seq<byte>, b: seq<byte>): (r: nat)
    ensures r <= |a| && r <= |b|
    ensures a[..r] == b[..r]
    ensures r < |a| && r < |b| ==> a[r] != b[r]
  {
    if a == [] || b == [] || a[0] != b[0] then 0
    else
      var k := Lcp(a[1..], b[1..]);
      assert a[..k + 1] == [a[0]] + a[1..][..k];
      assert b[..k + 1] == [b[0]] + b[1..][..k];
      k + 1
  }

  lemma CommonByte(a: seq<byte>, b: seq<byte>, k: int)
    requires |a| == |b| && 0 <= k < Lcp(a, b)
    ensures a[k] == b[k]
  {
    assert a[..Lcp(a, b)][k] == b[..Lcp(a, b)][k];
  }

  lemma LcpIs(a: seq<byte>, b: seq<byte>, k: nat)
    requires k <= |a| && k <= |b|
    requires a[..k] == b[..k]
    ensures k <= Lcp(a, b)
    ensures (k < |a| && k < |b| ==> a[k] != b[k]) ==> k == Lcp(a, b)
  {
    var r := Lcp(a, b);
    assert forall j :: 0 <= j < k ==> a[..k][j] == b[..k][j];
    assert forall j :: 0 <= j < r ==> a[..r][j] == b[..r][j];
  }

  // A string that starts with a larger byte has a larger value.
  lemma FirstByteDecides(a: seq<byte>, b: seq<byte>)
    requires |a| == |b| > 0 && a[0] < b[0]
    ensures Value(a) < Value(b)
  {
    NextMultiple(a[0], b[0], Pow256(|a| - 1));
  }

  // The first difference decides the order of the values: the byte comparison in the
  // source is the comparison of ranks.
  lemma {:induction false} FirstDifferenceDecides(a: seq<byte>, b: seq<byte>)
    requires |a| == |b|
    ensures a == b <==> Rank(a) == Rank(b)
    ensures a == b <==> Lcp(a, b) == |a|
    ensures var i := Lcp(a, b); i < |a| ==> (a[i] < b[i] <==> Rank(a) < Rank(b))
  {
    if a == [] {
    } else if a[0] < b[0] {
      FirstByteDecides(a, b);
    } else if b[0] < a[0] {
      FirstByteDecides(b, a);
    } else {
      FirstDifferenceDecides(a[1..], b[1..]);
      assert a == [a[0]] + a[1..] && b == [b[0]] + b[1..];
    }
  }

  // A string between two others shares at least as long a prefix with either of them as
  // these two share with each other.
  lemma {:induction false} BetweenSharesMore(a: seq<byte>, b: seq<byte>, c: seq<byte>)
    requires |a| == |b| == |c|
    requires Rank(a) <= Rank(b) <= Rank(c)
    ensures Lcp(a, c) <= Lcp(b, c)
    ensures Lcp(a, c) <= Lcp(a, b)
  {
    if a != [] && a[0] == c[0] {
      if b[0] < a[0] {
        FirstByteDecides(b, a);
      } else if c[0] < b[0] {
        FirstByteDecides(c, b);
      } else {
        BetweenSharesMore(a[1..], b[1..], c[1..]);
      }
    }
  }

  lemma {:induction false} LcpCommutes(a: seq<byte>, b: seq<byte>)
    ensures Lcp(a, b) == Lcp(b, a)
  {
    if a != [] && b != [] && a[0] == b[0] {
      LcpCommutes(a[1..], b[1..]);
    }
  }

  // The strings that start with byte c lie strictly between two borders.
  lemma Borders(s: seq<byte>, c: nat)
    requires |s| == F
    ensures s[0] == c ==> Border(c) < Rank(s) < Border(c + 1)
    ensures Border(c) <= Rank(s) <= Border(c + 1) ==> s[0] == c
  {
    var first: int := s[0];
    BorderIsMultiple(c);
    BorderIsMultiple(c + 1);
    if first < c {
      NextMultiple(first, c, Pow256(F - 1));
    } else if first > c {
      NextMultiple(c, first, Pow256(F - 1));
    }
  }

  lemma {:induction false} BordersIncrease(c: nat, d: nat)
    requires c < d
    ensures Border(c) < Border(d)
  {
    if c + 1 < d {
      BordersIncrease(c, d - 1);
    }
  }
}
