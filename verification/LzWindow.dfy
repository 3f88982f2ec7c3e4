// The sliding window of Encode: how the ring buffer, the registered nodes and the tape
// belong together while the window moves.

module LzWindow {
  import opened Bytes
  import opened LzOrder
  import opened LzFormat
  import opened LzHistory
  import opened LzParse
  import opened LzForest
  import opened LzSearch

  // How many positions node p lies behind tape position R.
  function Age(R: int, p: int): (a: int)
    ensures 0 <= a < N
  {
    (R - p) % N
  }

  ghost predicate OnRing(text: seq<byte>, T: seq<byte>, x: int)
    requires |text| == N + F - 1 && 0 <= x < |T|
  {
    text[x % N] == T[x]
  }

  ghost predicate Mirrored(text: seq<byte>, j: int)
    requires |text| == N + F - 1 && 0 <= j < F - 1
  {
    text[N + j] == text[j]
  }

  // The ring holds the tape from R - (N - F) up to the end of the lookahead, and the bytes
  // behind the ring repeat its beginning as far as the text reached.
  ghost predicate Window(text: seq<byte>, T: seq<byte>, R: int, len: int)
  {
    |text| == N + F - 1 && TEXT <= R && 0 <= len <= F && R + len <= |T| &&
    (len < F ==> R + len == |T|) &&
    (forall x {:trigger OnRing(text, T, x)} | R - (N - F) <= x < R + len :: OnRing(text, T, x)) &&
    (forall j {:trigger Mirrored(text, j)} | 0 <= j < F - 1 && N + j < R + len :: Mirrored(text, j))
  }

  // The nodes lie at most max positions behind R.
  ghost predicate Recent(nodes: set<int>, R: int, max: int)
  {
    forall p | p in nodes :: 0 <= p < N && Age(R, p) <= max
  }

  // How long ago the node for the string of Q may have been registered: F blanks before the text
  // may be represented by any of the strings registered before it.
  function Since(text: seq<byte>, Q: int): int
    requires |text| == N + F - 1
  {
    if Q < TEXT && Str(text, Q % N) == Repeat(SPACE, F) then BLANKS else Q
  }

  // Some node at least as recent as Q, or as the blanks Q stands for, holds the string of Q.
  ghost predicate Known(nodes: set<int>, text: seq<byte>, R: int, Q: int)
    requires |text| == N + F - 1
  {
    exists p | p in nodes :: 0 <= p < N && Age(R, p) <= R - Since(text, Q) && Str(text, p) == Str(text, Q % N)
  }

  // Every position from BLANKS on that is to be known from `from` on and up to `to` is known.
  ghost predicate AllKnown(nodes: set<int>, text: seq<byte>, R: int, from: int, to: int)
    requires |text| == N + F - 1
  {
    forall Q {:trigger Known(nodes, text, R, Q)} | BLANKS <= Q <= to && from <= Since(text, Q) ::
      Known(nodes, text, R, Q)
  }

  // (pos, len) is a longest match of the string at R among the earlier positions of the window
  // whose strings have been registered.
  ghost predicate Best(text: seq<byte>, R: int, pos: int, len: int)
    requires |text| == N + F - 1
  {
    0 <= len <= F &&
    (len > 0 ==> 0 <= pos < N && 0 < Age(R, pos) <= N - F && Lcp(Str(text, pos), Str(text, R % N)) == len) &&
    forall Q {:trigger Q % N} | BLANKS <= Q < R && R - (N - F) <= Since(text, Q) ::
      Lcp(Str(text, Q % N), Str(text, R % N)) <= len
  }

  // --- Strings of the buffer and runs of the tape ----------------------------------------

  // A string of the buffer shows the tape as far as the lookahead goes, also where it is
  // read from the bytes behind the ring.
  lemma ByteOnTape(text: seq<byte>, T: seq<byte>, R: int, len: int, p: int, k: int)
    requires Window(text, T, R, len) && 0 <= p < N && Age(R, p) <= N - F && 0 <= k < F
    requires k < Age(R, p) + len
    ensures text[p + k] == T[R - Age(R, p) + k]
  {
    var x := R - Age(R, p) + k;
    assert OnRing(text, T, x);
    if p + k < N {
      assert x % N == p + k;
    } else {
      assert x % N == p + k - N;
      assert Mirrored(text, p + k - N);
    }
  }

  lemma AgeOfPlace(R: int, Q: int)
    requires 0 <= R - Q < N
    ensures Age(R, Q % N) == R - Q
  {
  }

  // A match of strings is a run of the tape.
  lemma MatchIsRun(text: seq<byte>, T: seq<byte>, R: int, len: int, p: int, n: int)
    requires Window(text, T, R, len) && 0 <= p < N && 0 < Age(R, p) <= N - F
    requires 0 <= n <= len && n <= Lcp(Str(text, p), Str(text, R % N))
    ensures SameRun(T, R - Age(R, p), R, n)
  {
    AgeOfPlace(R, R);
    var P := R - Age(R, p);
    var u, v := T[P..P + n], T[R..R + n];
    forall k | 0 <= k < n ensures u[k] == v[k] {
      MatchedByte(text, T, R, len, p, R % N, k);
    }
  }

  lemma MatchedByte(text: seq<byte>, T: seq<byte>, R: int, len: int, p: int, r: int, k: int)
    requires Window(text, T, R, len) && 0 <= p < N && 0 < Age(R, p) <= N - F && 0 <= r < N && Age(R, r) == 0
    requires 0 <= k < len && k < Lcp(Str(text, p), Str(text, r))
    ensures T[R - Age(R, p) + k] == T[R + k]
  {
    hide Age, Lcp;
    ByteOnTape(text, T, R, len, p, k);
    ByteOnTape(text, T, R, len, r, k);
    CommonByte(Str(text, p), Str(text, r), k);
    assert Str(text, p)[k] == text[p + k] && Str(text, r)[k] == text[r + k];
  }

  // A run of the tape is a match of strings.
  lemma RunIsMatch(text: seq<byte>, T: seq<byte>, R: int, len: int, Q: int, n: int)
    requires Window(text, T, R, len) && R - (N - F) <= Q < R
    requires 0 <= n <= len && SameRun(T, Q, R, n)
    ensures n <= Lcp(Str(text, Q % N), Str(text, R % N))
  {
    var a, b := Str(text, Q % N), Str(text, R % N);
    AgeOfPlace(R, Q);
    AgeOfPlace(R, R);
    forall k | 0 <= k < n ensures a[..n][k] == b[..n][k] {
      ByteOnTape(text, T, R, len, Q % N, k);
      ByteOnTape(text, T, R, len, R % N, k);
      assert T[Q..Q + n][k] == T[R..R + n][k];
    }
    LcpIs(a, b, n);
  }

  // --- What Encode sends -----------------------------------------------------------------

  // The unit chosen for a longest match (pos, len).
  function Unit(c: byte, pos: int, len: int): Token
  {
    if len <= THRESHOLD then Literal(c) else Match(pos, len)
  }

  function Min(a: int, b: int): int
  {
    if a < b then a else b
  }

  lemma BestInRange(text: seq<byte>, R: int, pos: int, len: int)
    requires |text| == N + F - 1 && Best(text, R, pos, len)
    ensures 0 <= len <= F && (len > 0 ==> 0 <= pos < N)
  {
  }

  lemma UnitIsLongest(text: seq<byte>, T: seq<byte>, R: int, len: int, pos: int, best: int, t: Token)
    requires Window(text, T, R, len) && len > 0 && Best(text, R, pos, best) && Repeat(SPACE, TEXT) <= T
    requires t == Unit(text[R % N], pos, Min(best, len))
    ensures Longest(t, T, R)
  {
    var m := Reach(t) + 1;
    if m <= F {
      forall Q | R - (N - F) <= Q < R && (TEXT <= Q || !Blank(T, Q) || R <= BLANKS + (N - F))
        ensures !SameRun(T, Q, R, m)
      {
        if SameRun(T, Q, R, m) {
          if Q < BLANKS {
            BlankRun(T, Q, R, m);
            BestOf(text, T, R, len, pos, best, BLANKS, m);
          } else {
            if R > BLANKS + (N - F) && Q < TEXT {
              BlankOnTape(text, T, R, len, Q);
            }
            BestOf(text, T, R, len, pos, best, Q, m);
          }
        }
      }
    }
  }

  lemma BestOf(text: seq<byte>, T: seq<byte>, R: int, len: int, pos: int, best: int, Q: int, m: int)
    requires Window(text, T, R, len) && Best(text, R, pos, best)
    requires BLANKS <= Q < R && R - (N - F) <= Since(text, Q) && 0 <= m <= F && SameRun(T, Q, R, m)
    ensures m <= best && m <= len
  {
    RunIsMatch(text, T, R, len, Q, m);
  }

  // A string of the buffer is blank only where the tape is.
  lemma BlankOnTape(text: seq<byte>, T: seq<byte>, R: int, len: int, Q: int)
    requires Window(text, T, R, len) && BLANKS + (N - F) < R && R - (N - F) <= Q < TEXT
    ensures Str(text, Q % N) == Repeat(SPACE, F) ==> Blank(T, Q)
  {
    var s, run := Str(text, Q), T[Q..Q + F];
    AgeOfPlace(R, Q);
    forall k | 0 <= k < F ensures run[k] == s[k] {
      ByteOnTape(text, T, R, len, Q, k);
    }
  }

  // A match further back in the blanks is also one at BLANKS.
  lemma BlankRun(T: seq<byte>, Q: int, R: int, m: int)
    requires Repeat(SPACE, TEXT) <= T && Q < BLANKS && m <= F && SameRun(T, Q, R, m)
    ensures SameRun(T, BLANKS, R, m)
  {
    var b := Repeat(SPACE, TEXT);
    assert forall k :: 0 <= k < TEXT ==> T[k] == b[k];
    assert T[Q..Q + m] == T[BLANKS..BLANKS + m];
  }

  lemma UnitDescribes(text: seq<byte>, T: seq<byte>, R: int, len: int, pos: int, best: int, t: Token)
    requires Window(text, T, R, len) && len > 0 && Best(text, R, pos, best)
    requires t == Unit(text[R % N], pos, Min(best, len))
    ensures Describes(t, T, R)
  {
    if t.Literal? {
      assert OnRing(text, T, R);
    } else {
      assert t.pos == pos && t.len == Min(best, len) && R + len <= |T|;
      assert t.len <= Lcp(Str(text, pos), Str(text, R % N));
      SourceOfAge(R, pos);
      hide Window, Best, Age, Source;
      MatchIsRun(text, T, R, len, pos, t.len);
    }
  }

  lemma SourceOfAge(R: int, pos: int)
    requires TEXT <= R && 0 <= pos < N && 0 < Age(R, pos) <= N - F
    ensures Source(R - Age(R, pos), R, pos)
  {
  }

  // --- Moving the window -----------------------------------------------------------------

  // The place the next byte goes to; the oldest position of the window.
  function Oldest(R: int): int
  {
    (R + F) % N
  }

  lemma NextPlaces(R: int)
    ensures (R % N + 1) % N == (R + 1) % N && (Oldest(R) + 1) % N == Oldest(R + 1)
    ensures 0 <= R % N < N && 0 <= Oldest(R) < N
  {
    NextPlace(R);
    NextPlace(R + F);
  }

  lemma NextPlace(x: int)
    ensures (x % N + 1) % N == (x + 1) % N
  {
  }

  lemma AgeOfOldest(R: int, p: int)
    requires 0 <= p < N
    ensures Age(R, p) == N - F <==> p == Oldest(R)
  {
  }

  lemma DropOldest(nodes: set<int>, text: seq<byte>, R: int)
    requires |text| == N + F - 1
    requires Recent(nodes, R, N - F) && AllKnown(nodes, text, R, R - (N - F), R)
    ensures Recent(nodes - {Oldest(R)}, R, N - F - 1)
    ensures AllKnown(nodes - {Oldest(R)}, text, R, R - (N - F) + 1, R)
  {
    forall p | p in nodes - {Oldest(R)} ensures 0 <= p < N && Age(R, p) <= N - F - 1 {
      AgeOfOldest(R, p);
    }
    forall Q | BLANKS <= Q <= R && R - (N - F) + 1 <= Since(text, Q)
      ensures Known(nodes - {Oldest(R)}, text, R, Q)
    {
      AgeOfOldest(R, Oldest(R));
      hide Age, Oldest, Str;
      assert Known(nodes, text, R, Q);
      var p :| p in nodes && 0 <= p < N && Age(R, p) <= R - Since(text, Q) && Str(text, p) == Str(text, Q % N);
      assert p in nodes - {Oldest(R)};
    }
  }

  // The buffer after byte c has been read.
  function Put(text: seq<byte>, R: int, c: byte): (r: seq<byte>)
    requires |text| == N + F - 1
    ensures |r| == N + F - 1
  {
    var s := Oldest(R);
    if s < F - 1 then text[s := c][s + N := c] else text[s := c]
  }

  // The byte goes where no string in the window is.
  lemma PutOutside(text: seq<byte>, R: int, c: byte, p: int)
    requires |text| == N + F - 1 && 0 <= p < N && Age(R, p) <= N - F - 1
    ensures Str(Put(text, R, c), p) == Str(text, p)
  {
    var s := Oldest(R);
    assert !(p <= s < p + F) && !(p <= s + N < p + F);
  }

  lemma NextAge(R: int, p: int)
    requires 0 <= p < N
    ensures p == (R + 1) % N <==> Age(R, p) == N - 1
    ensures p != (R + 1) % N ==> Age(R + 1, p) == Age(R, p) + 1
  {
  }

  lemma Advance(nodes: set<int>, text: seq<byte>, text': seq<byte>, R: int)
    requires |text| == |text'| == N + F - 1
    requires Recent(nodes, R, N - F - 1) && AllKnown(nodes, text, R, R - (N - F) + 1, R)
    requires forall p | 0 <= p < N && Age(R, p) <= N - F - 1 :: Str(text', p) == Str(text, p)
    ensures Recent(nodes, R + 1, N - F) && AllKnown(nodes, text', R + 1, R + 1 - (N - F), R)
    ensures (R + 1) % N !in nodes
  {
    forall p | p in nodes ensures 0 <= p < N && p != (R + 1) % N && Age(R + 1, p) <= N - F {
      NextAge(R, p);
    }
    var S := R + 1;
    forall Q | BLANKS <= Q <= R && S - (N - F) <= Since(text', Q) ensures Known(nodes, text', S, Q) {
      AgeOfPlace(R, Q);
      assert Known(nodes, text, R, Q);
      var p :| p in nodes && 0 <= p < N && Age(R, p) <= R - Since(text, Q) && Str(text, p) == Str(text, Q % N);
      NextAge(R, p);
    }
  }

  lemma NewAge(R: int, p: int)
    ensures 0 <= p < N && p != R % N ==> Age(R, p) > 0
  {
  }

  lemma Inserted(nodes: set<int>, nodes': set<int>, text: seq<byte>, R: int, pos: int, len: int)
    requires |text| == N + F - 1
    requires Recent(nodes, R, N - F) && R % N !in nodes
    requires AllKnown(nodes, text, R, R - (N - F), R - 1)
    requires LongestMatch(nodes, text, R % N, pos, len)
    requires nodes' == nodes - (if len == F then {pos} else {}) + {R % N}
    ensures Recent(nodes', R, N - F) && AllKnown(nodes', text, R, R - (N - F), R)
    ensures Best(text, R, pos, len)
  {
    AgeOfPlace(R, R);
    NewAge(R, pos);
    hide Age;
    forall Q | BLANKS <= Q <= R && R - (N - F) <= Since(text, Q) ensures Known(nodes', text, R, Q) {
      if Q == R {
        assert R % N in nodes';
      } else {
        StillKnown(nodes, nodes', text, R, pos, len, Q);
      }
    }
    forall Q | BLANKS <= Q < R && R - (N - F) <= Since(text, Q) ensures Lcp(Str(text, Q % N), Str(text, R % N)) <= len {
      assert Known(nodes, text, R, Q);
    }
  }

  // A position stays known: only a node with the string of R itself was dropped.
  lemma StillKnown(nodes: set<int>, nodes': set<int>, text: seq<byte>, R: int, pos: int, len: int, Q: int)
    requires |text| == N + F - 1 && BLANKS <= Q < R && Known(nodes, text, R, Q)
    requires LongestMatch(nodes, text, R % N, pos, len)
    requires nodes' == nodes - (if len == F then {pos} else {}) + {R % N}
    ensures Known(nodes', text, R, Q)
  {
    var p :| p in nodes && 0 <= p < N && Age(R, p) <= R - Since(text, Q) && Str(text, p) == Str(text, Q % N);
    if p !in nodes' {
      FirstDifferenceDecides(Str(text, p), Str(text, R % N));
      AgeOfPlace(R, R);
      assert R % N in nodes';
    }
  }

  // Some node holds the string of Q.
  ghost predicate Held(nodes: set<int>, text: seq<byte>, Q: int)
    requires |text| == N + F - 1 && 0 <= Q < N
  {
    exists p | p in nodes :: 0 <= p < N && Str(text, p) == Str(text, Q)
  }

  // Registering r drops no string.
  lemma StillHeld(nodes: set<int>, nodes': set<int>, text: seq<byte>, r: int, pos: int, len: int, Q: int)
    requires |text| == N + F - 1 && 0 <= r < N && 0 <= Q < N && (Q == r || Held(nodes, text, Q))
    requires LongestMatch(nodes, text, r, pos, len)
    requires nodes' == nodes - (if len == F then {pos} else {}) + {r}
    ensures Held(nodes', text, Q)
  {
    assert r in nodes';
    if Q != r {
      var p :| p in nodes && 0 <= p < N && Str(text, p) == Str(text, Q);
      if p !in nodes' {
        FirstDifferenceDecides(Str(text, p), Str(text, r));
      }
    }
  }

  // If a string that starts with blanks up to the text is also the string of a later blank, it is
  // blank altogether.
  lemma BlankPeriod(text: seq<byte>, p: int, q: int)
    requires |text| == N + F - 1 && BLANKS <= p < q < TEXT && Str(text, p) == Str(text, q)
    requires forall j | BLANKS <= j < TEXT :: text[j] == SPACE
    ensures Str(text, p) == Repeat(SPACE, F)
  {
    var s, blanks := Str(text, p), Repeat(SPACE, F);
    forall k | 0 <= k < F ensures s[k] == blanks[k] {
      BlankByte(text, p, q, k);
    }
  }

  lemma {:induction false} BlankByte(text: seq<byte>, p: int, q: int, k: int)
    requires |text| == N + F - 1 && BLANKS <= p < q < TEXT && Str(text, p) == Str(text, q) && 0 <= k < F
    requires forall j | BLANKS <= j < TEXT :: text[j] == SPACE
    ensures text[p + k] == SPACE
    decreases k
  {
    if p + k >= TEXT {
      var d := q - p;
      assert Str(text, p)[k - d] == text[p + k - d] && Str(text, q)[k - d] == text[p + k];
      BlankByte(text, p, q, k - d);
    }
  }

  // The strings registered before the text make every position from BLANKS on known.
  lemma BlanksKnown(nodes: set<int>, text: seq<byte>)
    requires |text| == N + F - 1 && forall p | p in nodes :: BLANKS <= p < TEXT
    requires forall Q | BLANKS <= Q < TEXT :: Held(nodes, text, Q)
    requires forall j | BLANKS <= j < TEXT :: text[j] == SPACE
    ensures Recent(nodes, TEXT, N - F) && AllKnown(nodes, text, TEXT, TEXT - (N - F), TEXT - 1)
  {
    forall Q | BLANKS <= Q <= TEXT - 1 ensures Known(nodes, text, TEXT, Q) {
      assert Held(nodes, text, Q);
      var p :| p in nodes && 0 <= p < N && Str(text, p) == Str(text, Q);
      AgeOfPlace(TEXT, p);
      if p < Q {
        BlankPeriod(text, p, Q);
      }
    }
  }

  // The blanks before the text, as the window shows them.
  lemma BlanksShown(text: seq<byte>, T: seq<byte>, len: int)
    requires Window(text, T, TEXT, len) && Repeat(SPACE, TEXT) <= T
    ensures forall j | BLANKS <= j < TEXT :: text[j] == SPACE
  {
    forall j | BLANKS <= j < TEXT ensures text[j] == SPACE {
      assert OnRing(text, T, j) && T[j] == Repeat(SPACE, TEXT)[j];
    }
  }

  lemma WindowIn(text: seq<byte>, T: seq<byte>, R: int)
    requires Window(text, T, R, F) && R + F < |T|
    ensures Window(Put(text, R, T[R + F]), T, R + 1, F)
  {
    var text' := Put(text, R, T[R + F]);
    forall x | R + 1 - (N - F) <= x < R + 1 + F ensures OnRing(text', T, x) {
      if x < R + F {
        assert OnRing(text, T, x);
        assert x % N != Oldest(R);
      }
    }
    forall j | 0 <= j < F - 1 && N + j < R + 1 + F ensures Mirrored(text', j) {
      if N + j < R + F {
        assert Mirrored(text, j);
      }
    }
  }

  lemma WindowOut(text: seq<byte>, T: seq<byte>, R: int, len: int)
    requires Window(text, T, R, len) && R + len == |T| && len > 0
    ensures Window(text, T, R + 1, len - 1)
  {
  }

  // Reading the next byte of the tape keeps the trees in order and moves the window on.
  lemma PutMovesWindow(f: Forest, text: seq<byte>, T: seq<byte>, R: int)
    requires TreesOf(f, text) && Window(text, T, R, F) && R + F < |T|
    requires var nodes := Registered(f.dad);
             Recent(nodes, R, N - F - 1) && AllKnown(nodes, text, R, R - (N - F) + 1, R)
    ensures var text', nodes := Put(text, R, T[R + F]), Registered(f.dad);
            TreesOf(f.(rank := Ranks(text')), text') && Window(text', T, R + 1, F) &&
            Recent(nodes, R + 1, N - F) && AllKnown(nodes, text', R + 1, R + 1 - (N - F), R) &&
            (R + 1) % N !in nodes
  {
    var text', nodes := Put(text, R, T[R + F]), Registered(f.dad);
    forall p | 0 <= p < N && Age(R, p) <= N - F - 1 ensures Str(text', p) == Str(text, p) {
      PutOutside(text, R, T[R + F], p);
    }
    assert forall x :: In(f, x) ==> x in nodes;
    Retext(f, text, text');
    WindowIn(text, T, R);
    Advance(nodes, text, text', R);
  }

  // The window before the first unit.
  lemma StartWindow(text: seq<byte>, x: seq<byte>, len: int)
    requires |text| == N + F - 1 && 0 <= len <= F && len <= |x| && (len < F ==> len == |x|)
    requires forall j :: 0 <= j < TEXT ==> text[j] == SPACE
    requires forall j :: 0 <= j < len ==> text[TEXT + j] == x[j]
    ensures Window(text, Tape(x), TEXT, len)
  {
    var T := Tape(x);
    forall z | TEXT - (N - F) <= z < TEXT + len ensures OnRing(text, T, z) {
      if z >= TEXT {
        assert T[z] == x[z - TEXT] == text[TEXT + (z - TEXT)];
      }
    }
  }
}
