// The compressor and expander of lzc.c.  Its global variables are the fields of class Lzc.

module LzCodec {
  import opened Bytes
  import opened LzOrder
  import opened LzForest
  import opened LzSearch
  import opened LzFormat
  import opened LzHistory
  import opened LzParse
  import opened LzWindow
  import opened LzReference

  class Lzc {
    const text_buf: array<byte>
    const lson: array<int>
    const rson: array<int>
    const dad: array<int>
    var match_position: int
    var match_length: int
    var codesize: int
    var infile: seq<byte>
    var inpos: nat
    var outfile: seq<byte>
    ghost var rank: seq<int>
    ghost var lo: seq<int>
    ghost var hi: seq<int>

    // The globals of the program when it starts on a file: all zero.
    constructor (file: seq<byte>)
      ensures Arrays() && fresh(text_buf) && fresh(lson) && fresh(rson) && fresh(dad)
      ensures infile == file && inpos == 0 && outfile == [] && codesize == 0
      ensures (forall i :: 0 <= i < text_buf.Length ==> text_buf[i] == 0) && match_position == match_length == 0
      ensures (forall i :: 0 <= i < lson.Length ==> lson[i] == 0) && forall i :: 0 <= i < rson.Length ==> rson[i] == 0
      ensures forall i :: 0 <= i < dad.Length ==> dad[i] == 0
    {
      text_buf := new byte[N + F - 1](_ => 0);
      lson := new int[N + 1](_ => 0);
      rson := new int[N + 257](_ => 0);
      dad := new int[N + 1](_ => 0);
      match_position, match_length, codesize := 0, 0, 0;
      infile, inpos, outfile := file, 0, [];
      rank, lo, hi := [], [], [];
    }

    ghost predicate Arrays()
    {
      text_buf.Length == N + F - 1 && lson.Length == N + 1 && rson.Length == N + 257 && dad.Length == N + 1 &&
      lson != rson && lson != dad && rson != dad &&
      (text_buf as object) != lson && (text_buf as object) != rson && (text_buf as object) != dad
    }

    ghost function Trees(): Forest
      requires Arrays()
      reads this`rank, this`lo, this`hi, lson, rson, dad
    {
      Forest(lson[..], rson[..], dad[..], rank, lo, hi)
    }

    ghost function Nodes(): set<int>
      requires Arrays()
      reads dad
    {
      Registered(dad[..])
    }

    ghost predicate Valid()
      reads this`rank, this`lo, this`hi, text_buf, lson, rson, dad
    {
      Arrays() && TreesOf(Trees(), text_buf[..])
    }

    method InitTree()
      requires Arrays()
      modifies this`rank, this`lo, this`hi, rson, dad
      ensures Valid()
      ensures Nodes() == {}
    {
      var i := N + 1;
      while i <= N + 256
        invariant N + 1 <= i <= N + 257
        invariant forall j :: N + 1 <= j < i ==> rson[j] == NIL
      {
        rson[i] := NIL;
        i := i + 1;
      }
      i := 0;
      while i < N
        invariant 0 <= i <= N
        invariant forall j :: N + 1 <= j < N + 257 ==> rson[j] == NIL
        invariant forall j :: 0 <= j < i ==> dad[j] == NIL
      {
        dad[i] := NIL;
        i := i + 1;
      }
      rank := Ranks(text_buf[..]);
      lo := rank;
      hi := seq(N + 257, k => Border(k - N));
      EmptyTrees(Trees(), text_buf[..]);
    }

    // The inner loop of InsertNode: i is the number of leading bytes in which the strings
    // at r and p agree, cmp the difference of the first bytes in which they do not.
    method Compare(r: int, p: int, ghost text: seq<byte>) returns (i: int, cmp: int)
      requires text_buf.Length == N + F - 1 && 0 <= r < N && 0 <= p < N
      requires text == text_buf[..] && text[p] == text[r]
      ensures i == Lcp(Str(text, p), Str(text, r))
      ensures cmp == 0 <==> i == F
      ensures cmp > 0 <==> Rank(Str(text, p)) < Rank(Str(text, r))
    {
      ghost var a, b := Str(text, p), Str(text, r);
      assert a[0] == b[0];
      assert a[..1] == [a[0]] && b[..1] == [b[0]];
      i, cmp := 1, 0;
      while i < F
        invariant 1 <= i <= F
        invariant a[..i] == b[..i]
        invariant cmp == 0
      {
        cmp := (text_buf[r + i] as int) - (text_buf[p + i] as int);
        if cmp != 0 {
          break;
        }
        assert a[..i + 1] == a[..i] + [a[i]] && b[..i + 1] == b[..i] + [b[i]];
        i := i + 1;
      }
      LcpIs(a, b, i);
      FirstDifferenceDecides(a, b);
    }

    // The outer loop of InsertNode: walks down from the root of the tree of r, keeping the
    // longest match met so far, until it finds the same string or a missing son.
    method Search(r: int, ghost f: Forest, ghost text: seq<byte>) returns (p: int, cmp: int)
      requires Valid() && 0 <= r < N && r !in Nodes()
      requires f == Trees() && text == text_buf[..]
      modifies this`match_position, this`match_length
      ensures LongestMatch(Registered(f.dad), text, r, match_position, match_length)
      ensures match_length < F ==> OnPath(f, p, cmp >= 0, r) && Son(f, p, cmp >= 0) == NIL
      ensures match_length == F ==> p == match_position && Str(text, p) == Str(text, r)
    {
      cmp := 1;
      p := N + 1 + text_buf[r];
      match_length := 0;
      StartOfPath(f, text, r);
      while true
        invariant Searching(f, text, p, cmp >= 0, r, match_position, match_length)
        decreases Width(f, p)
      {
        ghost var up, right := p, cmp >= 0;
        if Son(f, p, right) == NIL {
          AllSeen(f, text, p, right, r, match_position, match_length);
        }
        if cmp >= 0 {
          if rson[p] != NIL {
            p := rson[p];
          } else {
            return;
          }
        } else {
          if lson[p] != NIL {
            p := lson[p];
          } else {
            return;
          }
        }
        VisitSon(f, text, up, right, r, match_position, match_length);
        var i;
        i, cmp := Compare(r, p, text);
        if i < F {
          PassSon(f, text, up, right, r, match_position, match_length, i);
        } else {
          FullMatch(f, text, r, p);
        }
        if i > match_length {
          match_position := p;
          match_length := i;
          if match_length >= F {
            return;
          }
        }
      }
    }

    // Inserts the string at r into its tree and finds the longest match of it there.  A node
    // with the same string makes room for r.
    method InsertNode(r: int)
      requires Valid() && 0 <= r < N && r !in Nodes()
      modifies this`match_position, this`match_length, this`lo, this`hi, lson, rson, dad
      ensures Valid()
      ensures LongestMatch(old(Nodes()), text_buf[..], r, match_position, match_length)
      ensures Nodes() == old(Nodes()) - (if match_length == F then {match_position} else {}) + {r}
    {
      ghost var f := Trees();
      rson[r] := NIL;
      lson[r] := NIL;
      Frame(f, Trees());
      StillTreesOf(f, Trees(), text_buf[..]);
      var p, cmp := Search(r, Trees(), text_buf[..]);
      if match_length >= F {
        TakePlace(p, r);
      } else {
        Attach(p, r, cmp >= 0);
      }
    }

    method Attach(p: int, r: int, right: bool)
      requires Valid() && 0 <= r < N && r !in Nodes() && lson[r] == rson[r] == NIL
      requires OnPath(Trees(), p, right, r) && Son(Trees(), p, right) == NIL
      modifies this`lo, this`hi, lson, rson, dad
      ensures Valid()
      ensures Nodes() == old(Nodes()) + {r}
    {
      ghost var f := Trees();
      if right {
        rson[p] := r;
        dad[r] := p;
        lo, hi := lo[r := f.rank[p]], hi[r := f.hi[p]];
      } else {
        lson[p] := r;
        dad[r] := p;
        lo, hi := lo[r := f.lo[p]], hi[r := f.rank[p]];
      }
      assert f.lson == f.lson[r := NIL] && f.rson == f.rson[r := NIL];
      AddLeaf(f, Trees(), p, r, right);
      StillTreesOf(f, Trees(), text_buf[..]);
    }

    // The last part of InsertNode: r takes the place of p, which holds the same string.
    method TakePlace(p: int, r: int)
      requires Valid() && p in Nodes() && 0 <= r < N && r !in Nodes()
      requires Str(text_buf[..], p) == Str(text_buf[..], r)
      modifies this`lo, this`hi, lson, rson, dad
      ensures Valid()
      ensures Nodes() == old(Nodes()) - {p} + {r}
    {
      ghost var f := Trees();
      SamePlace(f, text_buf[..], p, r);
      ReplaceLinks(f, p, r);
      ghost var g := ReplaceAt(f, p, r);
      TakeLinks(p, r);
      ReplaceInParent(p, r);
      lo, hi := g.lo, g.hi;
      Frame(g, Trees());
      StillTreesOf(f, Trees(), text_buf[..]);
    }

    method TakeLinks(p: int, r: int)
      requires Arrays() && Indices(Trees(), p) && 0 <= r < N && p != r && lson[p] != p && rson[p] != p
      modifies lson, rson, dad
      ensures Trees() == WithLinksOf(old(Trees()), p, r)
    {
      dad[r] := dad[p];
      lson[r] := lson[p];
      rson[r] := rson[p];
      dad[lson[p]] := r;
      dad[rson[p]] := r;
    }

    // q becomes the son of the parent of p, and p is removed.
    method ReplaceInParent(p: int, q: int)
      requires Arrays() && Indices(Trees(), p)
      modifies lson, rson, dad
      ensures Trees() == InParent(old(Trees()), p, q)
    {
      if rson[dad[p]] == p {
        rson[dad[p]] := q;
      } else {
        lson[dad[p]] := q;
      }
      dad[p] := NIL;
    }

    // The two-son case of DeleteNode: q takes over the sons of p.
    method TakeSons(p: int, q: int)
      requires Arrays() && Indices(Trees(), p) && Indices(Trees(), q) && p != q
      requires lson[p] != q ==> lson[q] != p && dad[q] != p
      modifies lson, rson, dad
      ensures Trees() == WithSonsOf(old(Trees()), p, q)
    {
      if q != lson[p] {
        rson[dad[q]] := lson[q];
        dad[lson[q]] := dad[q];
        lson[q] := lson[p];
        dad[lson[p]] := q;
      }
      rson[q] := rson[p];
      dad[rson[p]] := q;
    }

    // The choice DeleteNode makes: an only son, or the last node of the left subtree of p.
    method FindHeir(p: int) returns (q: int)
      requires Valid() && p in Nodes()
      ensures Heir(Trees(), p, q)
    {
      ghost var f := Trees();
      assert NodeOk(f, p);
      if rson[p] == NIL {
        q := lson[p];
      } else if lson[p] == NIL {
        q := rson[p];
      } else {
        q := lson[p];
        assert NodeOk(f, q);
        while rson[q] != NIL
          invariant In(f, q) && f.lo[p] <= f.lo[q] && f.hi[q] == f.rank[p]
          decreases f.hi[q] - f.lo[q]
        {
          assert NodeOk(f, q);
          q := rson[q];
          assert NodeOk(f, q);
        }
      }
    }

    // Removes p from its tree, if it is in one.
    method DeleteNode(p: int)
      requires Valid() && 0 <= p < N
      modifies this`lo, this`hi, lson, rson, dad
      ensures Valid()
      ensures Nodes() == old(Nodes()) - {p}
    {
      if dad[p] == NIL {
        return;
      }
      ghost var f := Trees();
      var q := FindHeir(p);
      HeirIndices(f, p, q);
      ghost var w := Without(f, p, q);
      if rson[p] != NIL && lson[p] != NIL {
        TakeSons(p, q);
      }
      ghost var h := if f.lson[p] == NIL || f.rson[p] == NIL then f else WithSonsOf(f, p, q);
      assert Trees() == h && Indices(h, p);
      dad[q] := dad[p];
      assert Trees() == WithDadOf(h, p, q);
      ReplaceInParent(p, q);
      lo, hi := w.lo, w.hi;
      Deleted(f, Trees(), p, q);
      StillTreesOf(f, Trees(), text_buf[..]);
    }

    // --- Encode ----------------------------------------------------------------------------

    // getc: the next byte of the input file, or -1 at its end.
    method Getc() returns (c: int)
      requires inpos <= |infile|
      modifies this`inpos
      ensures c == if old(inpos) < |infile| then infile[old(inpos)] as int else -1
      ensures inpos == old(inpos) + if old(inpos) < |infile| then 1 else 0
    {
      if inpos == |infile| {
        return -1;
      }
      c := infile[inpos];
      inpos := inpos + 1;
    }

    // Clears the buffer and reads up to F bytes into its last F bytes.
    method Fill(r: int) returns (len: int)
      requires Valid() && Nodes() == {} && r == TEXT && inpos == 0
      modifies this`rank, this`inpos, text_buf
      ensures Valid() && Nodes() == {}
      ensures inpos == len && len <= |infile| && (len == 0 ==> infile == [])
      ensures Window(text_buf[..], Tape(infile), TEXT, len)
    {
      ghost var f, text := Trees(), text_buf[..];
      var i := 0;
      while i < r
        invariant 0 <= i <= r && inpos == 0
        invariant forall j :: 0 <= j < i ==> text_buf[j] == SPACE
      {
        text_buf[i] := SPACE;
        i := i + 1;
      }
      len := 0;
      while len < F
        invariant 0 <= len <= F && inpos == len && len <= |infile|
        invariant forall j :: 0 <= j < TEXT ==> text_buf[j] == SPACE
        invariant forall j :: 0 <= j < len ==> text_buf[TEXT + j] == infile[j]
      {
        var c := Getc();
        if c == -1 {
          break;
        }
        text_buf[r + len] := c;
        len := len + 1;
      }
      rank := Ranks(text_buf[..]);
      assert forall x :: In(f, x) ==> x in Registered(f.dad);
      Retext(f, text, text_buf[..]);
      StartWindow(text_buf[..], infile, len);
    }

    // The state of Encode between two steps of the window: r and s are the ring positions of
    // tape position R and of the oldest position in the window.
    ghost predicate InWindow(T: seq<byte>, R: int, len: int, r: int, s: int)
      reads this`rank, this`lo, this`hi, text_buf, lson, rson, dad
    {
      Valid() && r == R % N && s == Oldest(R) && Window(text_buf[..], T, R, len) &&
      Recent(Nodes(), R, N - F) && AllKnown(Nodes(), text_buf[..], R, R - (N - F), R)
    }

    // The same just before the string at R is registered.
    ghost predicate BeforeInsert(T: seq<byte>, R: int, len: int, r: int, s: int)
      reads this`rank, this`lo, this`hi, text_buf, lson, rson, dad
    {
      Valid() && r == R % N && s == Oldest(R) && Window(text_buf[..], T, R, len) && r !in Nodes() &&
      Recent(Nodes(), R, N - F) && AllKnown(Nodes(), text_buf[..], R, R - (N - F), R - 1)
    }

    // The same just after the oldest string has been removed.
    ghost predicate AfterDelete(T: seq<byte>, R: int, len: int, r: int, s: int)
      reads this`rank, this`lo, this`hi, text_buf, lson, rson, dad
    {
      Valid() && r == R % N && s == Oldest(R) && Window(text_buf[..], T, R, len) &&
      Recent(Nodes(), R, N - F - 1) && AllKnown(Nodes(), text_buf[..], R, R - (N - F) + 1, R)
    }

    method Enter(r: int, ghost s: int, ghost T: seq<byte>, ghost R: int, ghost len: int)
      requires BeforeInsert(T, R, len, r, s)
      modifies this`match_position, this`match_length, this`lo, this`hi, lson, rson, dad
      ensures InWindow(T, R, len, r, s) && Best(text_buf[..], R, match_position, match_length)
    {
      ghost var nodes := Nodes();
      InsertNode(r);
      Inserted(nodes, Nodes(), text_buf[..], R, match_position, match_length);
    }

    method Leave(ghost r: int, s: int, ghost T: seq<byte>, ghost R: int, ghost len: int)
      requires InWindow(T, R, len, r, s)
      modifies this`lo, this`hi, lson, rson, dad
      ensures AfterDelete(T, R, len, r, s)
    {
      DropOldest(Nodes(), text_buf[..], R);
      DeleteNode(s);
    }

    // The new byte and, near the beginning of the ring, its copy behind the ring.
    method Write(s: int, c: byte, ghost r: int, ghost T: seq<byte>, ghost R: int)
      requires AfterDelete(T, R, F, r, s) && R + F < |T| && c == T[R + F]
      modifies this`rank, text_buf
      ensures BeforeInsert(T, R + 1, F, (r + 1) % N, (s + 1) % N)
    {
      NextPlaces(R);
      hide Window, Recent, AllKnown, TreesOf, Put, Oldest;
      ghost var text, f := text_buf[..], Trees();
      PutMovesWindow(f, text, T, R);
      PutByte(s, c, R);
      rank := Ranks(text_buf[..]);
      assert Trees() == f.(rank := rank);
    }

    method PutByte(s: int, c: byte, ghost R: int)
      requires text_buf.Length == N + F - 1 && s == Oldest(R)
      modifies text_buf
      ensures text_buf[..] == Put(old(text_buf[..]), R, c)
    {
      text_buf[s] := c;
      if s < F - 1 {
        text_buf[s + N] := c;
      }
    }

    // Registers the F strings before the text and the text itself.
    method Prime(r: int, s: int, ghost T: seq<byte>, ghost len: int)
      requires Valid() && Nodes() == {} && r == TEXT && s == 0
      requires Window(text_buf[..], T, TEXT, len) && Repeat(SPACE, TEXT) <= T
      modifies this`match_position, this`match_length, this`lo, this`hi, lson, rson, dad
      ensures InWindow(T, TEXT, len, r, s)
      ensures Best(text_buf[..], TEXT, match_position, match_length)
    {
      hide Held, LongestMatch, TreesOf, Window, Best;
      var i := 1;
      while i <= F
        invariant 1 <= i <= F + 1
        invariant Valid()
        invariant forall p | p in Nodes() :: r - i < p < r
        invariant forall Q | r - i < Q < r :: Held(Nodes(), text_buf[..], Q)
      {
        ghost var nodes := Nodes();
        InsertNode(r - i);
        forall Q | r - i <= Q < r ensures Held(Nodes(), text_buf[..], Q) {
          StillHeld(nodes, Nodes(), text_buf[..], r - i, match_position, match_length, Q);
        }
        i := i + 1;
      }
      BlanksShown(text_buf[..], T, len);
      BlanksKnown(Nodes(), text_buf[..]);
      Enter(r, s, T, TEXT, len);
    }

    // One step of the first loop of Encode: byte c enters the window.
    method ReadOne(s: int, r: int, c: byte, ghost T: seq<byte>, ghost R: int) returns (s': int, r': int)
      requires InWindow(T, R, F, r, s) && R + F < |T| && c == T[R + F]
      modifies this`match_position, this`match_length, this`rank, this`lo, this`hi, text_buf, lson, rson, dad
      ensures InWindow(T, R + 1, F, r', s')
      ensures Best(text_buf[..], R + 1, match_position, match_length)
    {
      Leave(r, s, T, R, F);
      Write(s, c, r, T, R);
      s', r' := (s + 1) % N, (r + 1) % N;
      Enter(r', s', T, R + 1, F);
    }

    // One step of the second loop of Encode, after the end of the text.
    method SkipOne(s: int, r: int, len: int, ghost T: seq<byte>, ghost R: int)
        returns (s': int, r': int, len': int)
      requires InWindow(T, R, len, r, s) && R + len == |T| && len > 0
      modifies this`match_position, this`match_length, this`lo, this`hi, lson, rson, dad
      ensures len' == len - 1 && Valid()
      ensures len' > 0 ==> InWindow(T, R + 1, len', r', s')
      ensures len' > 0 ==> Best(text_buf[..], R + 1, match_position, match_length)
    {
      NextPlaces(R);
      hide Window, Best, Recent, AllKnown, TreesOf, Oldest;
      Leave(r, s, T, R, len);
      Advance(Nodes(), text_buf[..], text_buf[..], R);
      WindowOut(text_buf[..], T, R, len);
      s', r' := (s + 1) % N, (r + 1) % N;
      len' := len - 1;
      if len' != 0 {
        Enter(r', s', T, R + 1, len');
      }
    }

    method Putc(c: byte)
      modifies this`outfile
      ensures outfile == old(outfile) + [c]
    {
      outfile := outfile + [c];
    }

    method PutCode(code_buf: array<byte>, ptr: int)
      requires 0 <= ptr <= code_buf.Length
      modifies this`outfile, this`codesize
      ensures outfile == old(outfile) + code_buf[..ptr]
      ensures codesize == old(codesize) + ptr
    {
      var i := 0;
      while i < ptr
        invariant 0 <= i <= ptr
        invariant outfile == old(outfile) + code_buf[..i]
        modifies this`outfile
      {
        Putc(code_buf[i]);
        i := i + 1;
      }
      codesize := codesize + ptr;
    }

    // Puts the unit for the current match, cut at the lookahead, into the code buffer.
    method Store(code_buf: array<byte>, ptr: int, mask: int, len: int, r: int, ghost g: seq<Token>)
        returns (ptr': int, mask': int, ghost t: Token)
      requires text_buf.Length == N + F - 1 && code_buf != text_buf && 0 <= r < N && len > 0
      requires Buffered(code_buf[..], ptr, mask, g) && |g| < 8
      requires match_length <= F && (match_length > 0 ==> 0 <= match_position < N)
      modifies this`match_length, code_buf
      ensures t == Unit(text_buf[r], match_position, Min(old(match_length), len))
      ensures match_length == Length(t)
      ensures Buffered(code_buf[..], ptr', mask', g + [t])
      ensures mask' == 0 <==> |g + [t]| == 8
    {
      hide Buffered, Flags, Body, Code;
      ghost var buf := code_buf[..];
      BufferRoom(buf, ptr, mask, g);
      t := Unit(text_buf[r], match_position, Min(match_length, len));
      if match_length > len {
        match_length := len;
      }
      if match_length <= THRESHOLD {
        match_length := 1;
        StoreByte(code_buf, ptr, mask, text_buf[r]);
        ptr' := ptr + 1;
      } else {
        StorePair(code_buf, ptr, match_position, match_length);
        ptr' := ptr + 2;
      }
      mask' := (mask * 2) % 256;
      BufferUnit(buf, ptr, mask, g, t, code_buf[..], ptr');
    }

    method StoreByte(code_buf: array<byte>, ptr: int, mask: int, c: byte)
      requires code_buf.Length == 17 && 1 <= ptr <= 15 && 0 <= mask && code_buf[0] + mask < 256
      modifies code_buf
      ensures code_buf[0] == old(code_buf[0]) + mask && code_buf[1..ptr] == old(code_buf[1..ptr])
      ensures code_buf[ptr..ptr + 1] == Code(Literal(c))
    {
      code_buf[0] := code_buf[0] + mask;
      code_buf[ptr] := c;
    }

    method StorePair(code_buf: array<byte>, ptr: int, pos: int, len: int)
      requires code_buf.Length == 17 && 1 <= ptr <= 15 && 0 <= pos < N && THRESHOLD < len <= F
      modifies code_buf
      ensures code_buf[0] == old(code_buf[0]) && code_buf[1..ptr] == old(code_buf[1..ptr])
      ensures code_buf[ptr..ptr + 2] == Code(Match(pos, len))
      ensures var i: int, j: int := code_buf[ptr], code_buf[ptr + 1];
              pos == i + 256 * (j / 16) && len == j % 16 + 3
    {
      HighBits(pos, len);
      code_buf[ptr] := pos % 256;
      code_buf[ptr + 1] := HighNibble(pos / 16) + (len - (THRESHOLD + 1));
      PairBytes(Match(pos, len));
      hide Code, HighNibble;
      assert code_buf[ptr..ptr + 2] == [code_buf[ptr], code_buf[ptr + 1]] == Code(Match(pos, len));
    }

    // A full code buffer is put out and emptied.
    method Flush(code_buf: array<byte>, ptr: int, mask: int,
                 ghost head: seq<byte>, ghost done: seq<Token>, ghost g: seq<Token>)
        returns (ptr': int, mask': int, ghost done': seq<Token>, ghost g': seq<Token>)
      requires Buffered(code_buf[..], ptr, mask, g) && (mask == 0 <==> |g| == 8)
      requires AllSendable(done) && |done| % 8 == 0 && outfile == head + Pack(done)
      modifies this`outfile, this`codesize, code_buf
      ensures done' + g' == done + g
      ensures Buffered(code_buf[..], ptr', mask', g') && |g'| < 8 && AllSendable(done') && |done'| % 8 == 0
      ensures outfile == head + Pack(done')
      ensures codesize - |outfile| == old(codesize - |outfile|)
    {
      ptr', mask', done', g' := ptr, mask, done, g;
      if mask' == 0 {
        BufferedIsGroup(code_buf[..], ptr', mask', g);
        PackAppend(done, g);
        PutCode(code_buf, ptr');
        done', g' := done + g, [];
        code_buf[0] := 0;
        ptr', mask' := 1, 1;
      }
    }

    // The last units, fewer than eight, are put out.
    method PutRest(code_buf: array<byte>, ptr: int, ghost mask: int,
                   ghost head: seq<byte>, ghost done: seq<Token>, ghost g: seq<Token>)
      requires Buffered(code_buf[..], ptr, mask, g) && |g| < 8
      requires AllSendable(done) && |done| % 8 == 0 && outfile == head + Pack(done)
      modifies this`outfile, this`codesize
      ensures AllSendable(done + g) && outfile == head + Pack(done + g)
      ensures codesize - |outfile| == old(codesize - |outfile|)
    {
      hide Pack, Group, Body, Flags;
      BodySize(g);
      if ptr > 1 {
        BufferedIsGroup(code_buf[..], ptr, mask, g);
        EmptyBody(g);
        PackAppend(done, g);
        PutCode(code_buf, ptr);
        assert outfile == head + (Pack(done) + Group(g));
      } else {
        assert g == [] && done + g == done;
      }
    }

    // The first loop after a unit: as many new bytes as there are, and at most n.
    method ReadIn(n: int, s: int, r: int, ghost len: int, ghost T: seq<byte>, ghost R: int)
        returns (i: int, s': int, r': int)
      requires InWindow(T, R, len, r, s) && 0 < n <= len
      requires T == Tape(infile) && inpos == R + len - TEXT
      modifies this`match_position, this`match_length, this`inpos,
               this`rank, this`lo, this`hi, text_buf, lson, rson, dad
      ensures 0 <= i <= n && InWindow(T, R + i, len, r', s') && inpos == R + i + len - TEXT
      ensures i > 0 ==> Best(text_buf[..], R + i, match_position, match_length)
      ensures i < n ==> R + i + len == |T|
    {
      hide Best;
      s', r' := s, r;
      i := 0;
      while i < n
        invariant 0 <= i <= n && InWindow(T, R + i, len, r', s') && inpos == R + i + len - TEXT
        invariant i > 0 ==> Best(text_buf[..], R + i, match_position, match_length)
      {
        var c := Getc();
        if c == -1 {
          break;
        }
        assert T[TEXT..][R + i + len - TEXT] == c;
        s', r' := ReadOne(s', r', c, T, R + i);
        i := i + 1;
      }
    }

    // The state at the end of a step of the window; nothing is registered any more once the
    // lookahead is empty.
    ghost predicate Moved(T: seq<byte>, R: int, len: int, r: int, s: int)
      reads this`rank, this`lo, this`hi, this`match_position, this`match_length, text_buf, lson, rson, dad
    {
      Valid() && 0 <= len <= F && R + len <= |T| &&
      if len > 0 then InWindow(T, R, len, r, s) && Best(text_buf[..], R, match_position, match_length)
      else R == |T|
    }

    // The second loop after a unit: the window moves on at the end of the text.
    method SkipOut(i0: int, n: int, s: int, r: int, len: int, ghost T: seq<byte>, ghost R: int)
        returns (s': int, r': int, len': int)
      requires 0 <= i0 <= n <= len + i0 && InWindow(T, R, len, r, s)
      requires i0 > 0 ==> Best(text_buf[..], R, match_position, match_length)
      requires i0 < n ==> R + len == |T|
      requires 0 < n && len > 0
      modifies this`match_position, this`match_length, this`lo, this`hi, lson, rson, dad
      ensures Moved(T, R + n - i0, len', r', s') && len' == len - (n - i0)
    {
      hide Best, Recent, AllKnown, TreesOf;
      s', r', len' := s, r, len;
      var i := i0;
      while i < n
        invariant i0 <= i <= n && len' == len - (i - i0)
        invariant if i == 0 then InWindow(T, R + i - i0, len', r', s') else Moved(T, R + i - i0, len', r', s')
      {
        i := i + 1;
        s', r', len' := SkipOne(s', r', len', T, R + i - 1 - i0);
      }
    }

    // Encode's loop after a unit of n bytes.
    method Slide(n: int, s: int, r: int, len: int, ghost T: seq<byte>, ghost R: int)
        returns (s': int, r': int, len': int)
      requires InWindow(T, R, len, r, s) && 0 < n <= len
      requires T == Tape(infile) && inpos == R + len - TEXT
      modifies this`match_position, this`match_length, this`inpos,
               this`rank, this`lo, this`hi, text_buf, lson, rson, dad
      ensures Moved(T, R + n, len', r', s') && inpos == R + n + len' - TEXT
    {
      hide Best, Window, TreesOf, AllKnown, Recent, Tape;
      var i;
      i, s', r' := ReadIn(n, s, r, len, T, R);
      s', r', len' := SkipOut(i, n, s', r', len, T, R + i);
    }

    // The invariant of Encode's loop: the units done and g describe the tape up to R.
    ghost predicate Coding(code_buf: array<byte>, ptr: int, mask: int, len: int, r: int, s: int,
                           T: seq<byte>, R: int, done: seq<Token>, g: seq<Token>)
      reads this, text_buf, lson, rson, dad, code_buf
    {
      Moved(T, R, len, r, s) && T == Tape(infile) && inpos == R + len - TEXT &&
      Buffered(code_buf[..], ptr, mask, g) && |g| < 8 && AllSendable(done) && |done| % 8 == 0 &&
      Parses(done + g, T, R) && outfile == Header(|infile|) + Pack(done)
    }

    // One round of Encode's loop.
    method Round(code_buf: array<byte>, ptr: int, mask: int, len: int, r: int, s: int,
                 ghost T: seq<byte>, ghost R: int, ghost done: seq<Token>, ghost g: seq<Token>)
        returns (ptr': int, mask': int, len': int, r': int, s': int,
                 ghost R': int, ghost done': seq<Token>, ghost g': seq<Token>)
      requires Coding(code_buf, ptr, mask, len, r, s, T, R, done, g) && len > 0 && code_buf != text_buf
      modifies this`match_position, this`match_length, this`codesize, this`inpos, this`outfile,
               this`rank, this`lo, this`hi, text_buf, lson, rson, dad, code_buf
      ensures Coding(code_buf, ptr', mask', len', r', s', T, R', done', g') && R < R'
      ensures codesize - |outfile| == old(codesize - |outfile|)
    {
      hide Best, Window, TreesOf, AllKnown, Recent, Describes, Longest, Parses, Buffered, Header, Pack, Tape;
      BestInRange(text_buf[..], R, match_position, match_length);
      ghost var t := Unit(text_buf[r], match_position, Min(match_length, len));
      UnitDescribes(text_buf[..], T, R, len, match_position, match_length, t);
      UnitIsLongest(text_buf[..], T, R, len, match_position, match_length, t);
      ghost var u;
      ptr', mask', u := Store(code_buf, ptr, mask, len, r, g);
      ptr', mask', done', g' := Flush(code_buf, ptr', mask', Header(|infile|), done, g + [t]);
      ParsesSnoc(done + g, t, T, R, done' + g');
      ghost var buf := code_buf[..];
      var last_match_length := match_length;
      s', r', len' := Slide(last_match_length, s, r, len, T, R);
      assert code_buf[..] == buf;
      R' := R + last_match_length;
    }

    // Encode's loop, and what is left in the code buffer behind it.
    method EncodeText(len0: int, r0: int, s0: int, ghost T: seq<byte>)
      requires Moved(T, TEXT, len0, r0, s0) && T == Tape(infile) && inpos == len0
      requires outfile == Header(|infile|)
      modifies this`match_position, this`match_length, this`codesize, this`inpos, this`outfile,
               this`rank, this`lo, this`hi, text_buf, lson, rson, dad
      ensures exists ts :: Parses(ts, T, TEXT + |infile|) && AllSendable(ts) &&
                           outfile == Header(|infile|) + Pack(ts)
      ensures codesize == old(codesize) + |outfile| - old(|outfile|)
    {
      hide Best, Window, TreesOf, AllKnown, Recent, Header, Tape, Parses, Pack, Buffered;
      var code_buf := new byte[17];
      code_buf[0] := 0;
      var ptr, mask, len, r, s := 1, 1, len0, r0, s0;
      ghost var R, done: seq<Token>, g: seq<Token> := TEXT, [], [];
      NothingSent(code_buf[..], T, Header(|infile|));
      while len > 0
        invariant Coding(code_buf, ptr, mask, len, r, s, T, R, done, g)
        invariant codesize - |outfile| == old(codesize - |outfile|)
        invariant fresh(code_buf)
        decreases |T| - R
      {
        ptr, mask, len, r, s, R, done, g := Round(code_buf, ptr, mask, len, r, s, T, R, done, g);
      }
      PutRest(code_buf, ptr, mask, Header(|infile|), done, g);
    }

    // Compresses infile.
    method Encode()
      requires Arrays() && inpos == 0 && outfile == []
      modifies this`match_position, this`match_length, this`codesize, this`inpos, this`outfile,
               this`rank, this`lo, this`hi, text_buf, lson, rson, dad
      ensures exists ts :: Parses(ts, Tape(infile), TEXT + |infile|) && AllSendable(ts) &&
                           outfile == Header(|infile|) + Pack(ts)
      ensures infile != [] ==> codesize == old(codesize) + |outfile|
    {
      hide Best, Window, TreesOf, AllKnown, Recent, Header, Tape, Parses, Pack, Buffered;
      ghost var T := Tape(infile);
      outfile := Header(|infile|);
      InitTree();
      var s, r := 0, N - F;
      var len := Fill(r);
      if len == 0 {
        NothingCoded(T);
        assert outfile == Header(|infile|) + Pack([]);
        return;
      }
      Prime(r, s, T, len);
      EncodeText(len, r, s, T);
      codesize := codesize + HEADER;
    }

    // --- Decode ----------------------------------------------------------------------------

    // The ring and the output file show the history h.
    ghost predicate Shows(h: seq<byte>, r: int)
      reads this`outfile, text_buf
    {
      text_buf.Length == N + F - 1 && |h| >= N && r == Cell(|h|) && outfile == h[N..] &&
      RingShows(text_buf[..], h)
    }

    // One byte of output, which also goes into the next cell of the ring.
    method Emit(c: byte, r: int, ghost h: seq<byte>) returns (r': int)
      requires Shows(h, r)
      modifies this`outfile, text_buf
      ensures Shows(h + [c], r')
    {
      ghost var text := text_buf[..];
      RingSnoc(text, h, c);
      Putc(c);
      text_buf[r] := c;
      r' := (r + 1) % N;
      assert text_buf[..] == text[r := c];
    }

    // The copy loop of Decode: n bytes from ring position i on.
    method CopyBytes(i: int, n: int, r: int, ghost h: seq<byte>) returns (r': int)
      requires Shows(h, r) && 0 <= i && 0 <= n
      modifies this`outfile, text_buf
      ensures Shows(Copy(h, i, n), r')
    {
      var k := 0;
      r' := r;
      ghost var h' := h;
      while k < n
        invariant 0 <= k <= n && Shows(h', r')
        invariant Copy(h', i + k, n - k) == Copy(h, i, n)
      {
        RingAt(text_buf[..], h', (i + k) % N);
        var c := text_buf[(i + k) % N];
        r' := Emit(c, r', h');
        h' := h' + [c];
        k := k + 1;
      }
    }

    // The next flag bit, from the next flag byte when eight units have been read.
    method NextFlag(flags: int, ghost left: nat, ghost bits: int)
        returns (eof: bool, flags': int, ghost left': nat, ghost bits': int)
      requires inpos <= |infile| && FlagsHold(flags, left, bits)
      modifies this`inpos
      ensures inpos <= |infile| && old(inpos) <= inpos
      ensures eof ==> Unpack(bits, left, old(infile[inpos..])) == []
      ensures !eof ==> left' > 0 && flags' % 2 == bits' % 2 && FlagsHold(flags', left' - 1, bits' / 2)
      ensures !eof ==> Unpack(bits', left', infile[inpos..]) == Unpack(bits, left, old(infile[inpos..]))
    {
      FlagsStep(flags, left, bits);
      eof, flags', left', bits' := false, flags / 2, left, bits;
      if flags' / 0x100 % 2 == 0 {
        var c := Getc();
        if c == -1 {
          eof := true;
          return;
        }
        flags' := c + 0xff00;
        left', bits' := 8, c;
      }
    }

    // Reads a letter or a pair and writes out what it stands for.
    method ReadUnit(flags: int, r: int, ghost left: nat, ghost bits: int, ghost h: seq<byte>)
        returns (eof: bool, r': int, ghost t: Token)
      requires inpos <= |infile| && Shows(h, r) && left > 0 && flags % 2 == bits % 2
      modifies this`inpos, this`outfile, text_buf
      ensures old(inpos) <= inpos <= |infile|
      ensures eof ==> Unpack(bits, left, old(infile[inpos..])) == [] && Shows(h, r')
      ensures !eof ==> old(inpos) < inpos && Shows(Apply(h, t), r')
      ensures !eof ==> Unpack(bits, left, old(infile[inpos..])) == [t] + Unpack(bits / 2, left - 1, infile[inpos..])
    {
      hide Copy, RingShows, Cell;
      eof, r', t := true, r, Literal(0);
      if flags % 2 == 1 {
        var c := Getc();
        if c == -1 {
          return;
        }
        t := Literal(c);
        r' := Emit(c, r, h);
      } else {
        var i := Getc();
        if i == -1 {
          return;
        }
        var j := Getc();
        if j == -1 {
          return;
        }
        t := Pair(i, j);
        i, j := i + j / 16 * 256, j % 16 + THRESHOLD;
        r' := CopyBytes(i, j + 1, r, h);
      }
      eof := false;
    }

    // Decode's loop.
    method DecodeUnits(r0: int)
      requires inpos <= |infile| && Shows(Start(), r0)
      modifies this`inpos, this`outfile, text_buf
      ensures outfile == Replay(Unpack(0, 0, old(infile[inpos..])))[N..]
      ensures HoldsLastBytes(text_buf[..], outfile) && text_buf[..4096] == Ring(outfile)
    {
      hide Unpack, Apply, RingShows, FlagsHold, Start;
      var r, flags := r0, 0;
      ghost var all := Unpack(0, 0, infile[inpos..]);
      ghost var done: seq<Token>, left: nat, bits := [], 0, 0;
      NoFlags();
      while true
        invariant inpos <= |infile| && FlagsHold(flags, left, bits) && Shows(Replay(done), r)
        invariant done + Unpack(bits, left, infile[inpos..]) == all
        decreases |infile| - inpos
      {
        var eof;
        ghost var t;
        eof, flags, left, bits := NextFlag(flags, left, bits);
        if eof {
          break;
        }
        eof, r, t := ReadUnit(flags, r, left, bits, Replay(done));
        if eof {
          break;
        }
        left, bits := left - 1, bits / 2;
        assert (done + [t])[..|done|] == done;
        done := done + [t];
      }
      assert done == all;
      LastBytesHeld(text_buf[..], done);
      RingAfter(text_buf[..], done);
    }

    // Expands infile; text_buf is still zero in its last F ring positions.
    method Decode()
      requires Arrays() && inpos == 0 && outfile == []
      requires forall i :: N - F <= i < N ==> text_buf[i] == 0
      modifies this`inpos, this`outfile, text_buf
      ensures outfile == Decompress(infile) && HoldsLastBytes(text_buf[..], outfile)
      ensures outfile == if |infile| < 14 then [] else Expanded(0, 0, infile[14..], [])
      ensures text_buf[..4096] == Ring(outfile)
    {
      DecompressIs(infile);
      var i := 0;
      while i < HEADER
        invariant 0 <= i <= HEADER && inpos == if i <= |infile| then i else |infile|
        modifies this`inpos
      {
        var _ := Getc();
        i := i + 1;
      }
      i := 0;
      while i < N - F
        invariant 0 <= i <= N - F
        invariant forall j :: 0 <= j < i ==> text_buf[j] == SPACE
        invariant forall j :: N - F <= j < N ==> text_buf[j] == 0
        modifies text_buf
      {
        text_buf[i] := SPACE;
        i := i + 1;
      }
      RingAtStart(text_buf[..]);
      DecodeUnits(N - F);
    }
  }

  // Compressing a file and expanding the result gives the file back, whatever it holds; the
  // compressed file needs at most 14 bytes more, and one for every eight bytes of text.  It means
  // the file in plain numbers, too, and blanks at the beginning are sent as a pair.
  method CompressAndExpand(x: seq<byte>) returns (packed: seq<byte>, y: seq<byte>)
    ensures y == x
    ensures |packed| <= 14 + |x| + (|x| + 7) / 8
    ensures |packed| >= 14 && packed[..10] == [0x53, 0x5A, 0x44, 0x44, 0x88, 0xF0, 0x27, 0x33, 0x41, 0x00]
    ensures Expanded(0, 0, packed[14..], []) == x
    ensures |x| >= 3 && x[0] == x[1] == x[2] == 0x20 ==> |packed| > 14 && packed[14] % 2 == 0
    ensures x == [0x20, 0x20, 0x20] ==> |packed| == 17
  {
    var encoder := new Lzc(x);
    encoder.Encode();
    packed := encoder.outfile;
    ghost var ts :| Parses(ts, Tape(x), TEXT + |x|) && AllSendable(ts) && packed == Header(|x|) + Pack(ts);
    RoundTrip(x, ts, Header(|x|));
    SizeBound(x, ts);
    Begins(x, ts);
    hide Parses, Pack, Header, Expanded, Decompress;
    DecompressIs(packed);
    var decoder := new Lzc(packed);
    decoder.Decode();
    y := decoder.outfile;
  }
}
