// What a token list means: the history of bytes it writes through a ring of N bytes.

module LzHistory {
  import opened Bytes
  import opened LzOrder
  import opened LzFormat

  const SPACE: byte := 32

  function Repeat(c: byte, n: nat): (r: seq<byte>)
    ensures |r| == n && forall i :: 0 <= i < n ==> r[i] == c
  {
    seq(n, _ => c)
  }

  // What a decoder's ring holds before the first byte of output, oldest byte first: F zeros
  // (the part of the buffer that is not cleared) and N - F blanks.
  function Start(): (r: seq<byte>)
    ensures |r| == N
  {
    Repeat(0, F) + Repeat(SPACE, N - F)
  }

  // The ring cell that byte number y of a history is written to.
  function Cell(y: int): int
  {
    (y + N - F) % N
  }

  // How far back the last byte written to cell i lies.
  function Distance(n: int, i: int): (d: int)
    ensures 0 < d <= N
  {
    (n - 1 + N - F - i) % N + 1
  }

  // The byte in ring cell i after history h.
  function Back(h: seq<byte>, i: int): byte
    requires |h| >= N
  {
    h[|h| - Distance(|h|, i)]
  }

  // Copy n bytes, one at a time, from the cells p, p + 1, ...
  function Copy(h: seq<byte>, p: int, n: nat): (r: seq<byte>)
    requires |h| >= N
    ensures |r| == |h| + n
    decreases n
  {
    if n == 0 then h else Copy(h + [Back(h, p % N)], p + 1, n - 1)
  }

  function Apply(h: seq<byte>, t: Token): (r: seq<byte>)
    requires |h| >= N
    ensures |r| >= N
  {
    if t.Literal? then h + [t.b]
    else if t.len <= 0 then h
    else Copy(h, t.pos, t.len)
  }

  function Replay(ts: seq<Token>): (r: seq<byte>)
    ensures |r| >= N
  {
    if ts == [] then Start() else Apply(Replay(ts[..|ts| - 1]), ts[|ts| - 1])
  }

  // What Decode writes for a file.
  function Decompress(file: seq<byte>): seq<byte>
  {
    if |file| < HEADER then [] else Replay(Unpack(0, 0, file[HEADER..]))[N..]
  }

  lemma {:induction false} ReplayLength(ts: seq<Token>)
    requires forall t | t in ts :: Readable(t)
    ensures |Replay(ts)| == N + TotalLength(ts)
  {
    if ts != [] {
      var init, t := ts[..|ts| - 1], ts[|ts| - 1];
      assert t in ts && ts == init + [t];
      ReplayLength(init);
      TotalLengthSplit(init, [t]);
      TotalLengthFirst(t, []);
    }
  }

  // Every file, valid or not, is expanded to as many bytes as its letters and pairs say, at most
  // nine for each of its bytes.
  lemma ExpandedSize(file: seq<byte>)
    requires |file| >= HEADER
    ensures |Decompress(file)| == TotalLength(Unpack(0, 0, file[HEADER..])) <= 9 * (|file| - HEADER)
    ensures forall t | t in Unpack(0, 0, file[HEADER..]) :: Readable(t)
  {
    UnpackReadable(0, 0, file[HEADER..]);
    ReplayLength(Unpack(0, 0, file[HEADER..]));
  }

  // --- The ring --------------------------------------------------------------------------

  lemma CellOfDistance(n: int, i: int)
    requires n >= N && 0 <= i < N
    ensures Cell(n - Distance(n, i)) == i
  {
  }

  lemma DistanceOfCell(n: int, y: int)
    requires n - N <= y < n && n >= N
    ensures Distance(n, Cell(y)) == n - y
  {
  }

  lemma BackSnoc(h: seq<byte>, c: byte, i: int)
    requires |h| >= N && 0 <= i < N
    ensures Back(h + [c], i) == if i == Cell(|h|) then c else Back(h, i)
  {
    DistanceOfCell(|h| + 1, |h|);
    CellOfDistance(|h| + 1, i);
    CellOfDistance(|h|, i);
  }

  // The ring read from the next cell to be written, all the way round, is the last N bytes.
  lemma RingIsLastBytes(h: seq<byte>, j: int)
    requires |h| >= N && 0 <= j < N
    ensures Back(h, (Cell(|h|) + j) % N) == h[|h| - N + j]
  {
    CellAhead(|h|, j);
    DistanceOfCell(|h|, |h| - N + j);
  }

  lemma CellAhead(n: int, j: int)
    ensures (Cell(n) + j) % N == Cell(n - N + j)
  {
  }

  ghost predicate RingShows(ring: seq<byte>, h: seq<byte>)
  {
    |ring| >= N && |h| >= N && forall i {:trigger Back(h, i)} | 0 <= i < N :: ring[i] == Back(h, i)
  }

  // The ring after n bytes of history, read from the next cell to be written all the way round.
  ghost function ReadAround(ring: seq<byte>, n: int): (r: seq<byte>)
    requires |ring| >= N
    ensures |r| == N && forall j :: 0 <= j < N ==> r[j] == ring[(Cell(n) + j) % N]
  {
    seq(N, j requires 0 <= j < N => ring[(Cell(n) + j) % N])
  }

  // The ring holds the last N bytes of F zeros, N - F blanks and the output.
  ghost predicate HoldsLastBytes(ring: seq<byte>, output: seq<byte>)
    requires |ring| >= N
  {
    ReadAround(ring, N + |output|) == (Start() + output)[|output|..]
  }

  lemma LastBytesHeld(ring: seq<byte>, ts: seq<Token>)
    requires RingShows(ring, Replay(ts))
    ensures HoldsLastBytes(ring, Replay(ts)[N..])
  {
    var h := Replay(ts);
    ReplayStarts(ts);
    assert h == Start() + h[N..];
    var around, last := ReadAround(ring, |h|), h[|h| - N..];
    forall j | 0 <= j < N ensures around[j] == last[j] {
      RingIsLastBytes(h, j);
      RingAt(ring, h, (Cell(|h|) + j) % N);
    }
  }

  lemma {:induction false} ReplayStarts(ts: seq<Token>)
    ensures Replay(ts)[..N] == Start()
  {
    if ts != [] {
      var h, t := Replay(ts[..|ts| - 1]), ts[|ts| - 1];
      ReplayStarts(ts[..|ts| - 1]);
      if t.Match? && t.len > 0 {
        CopyAppends(h, t.pos, t.len);
      }
    }
  }

  lemma {:induction false} CopyAppends(h: seq<byte>, p: int, n: nat)
    requires |h| >= N
    ensures Copy(h, p, n)[..|h|] == h
    decreases n
  {
    if n > 0 {
      var g := h + [Back(h, p % N)];
      CopyAppends(g, p + 1, n - 1);
      assert Copy(g, p + 1, n - 1)[..|h|] == Copy(g, p + 1, n - 1)[..|g|][..|h|];
    }
  }

  lemma RingAt(ring: seq<byte>, h: seq<byte>, i: int)
    requires RingShows(ring, h) && 0 <= i < N
    ensures ring[i] == Back(h, i)
  {
  }

  lemma RingSnoc(ring: seq<byte>, h: seq<byte>, c: byte)
    requires RingShows(ring, h)
    ensures RingShows(ring[Cell(|h|) := c], h + [c])
    ensures Cell(|h + [c]|) == (Cell(|h|) + 1) % N
    ensures |h| > N ==> (h + [c])[N..] == h[N..] + [c]
  {
    forall i | 0 <= i < N ensures ring[Cell(|h|) := c][i] == Back(h + [c], i) {
      BackSnoc(h, c, i);
    }
  }

  lemma RingAtStart(ring: seq<byte>)
    requires |ring| >= N
    requires forall j :: 0 <= j < N - F ==> ring[j] == SPACE
    requires forall j :: N - F <= j < N ==> ring[j] == 0
    ensures RingShows(ring, Start()) && Cell(|Start()|) == N - F
  {
    forall i | 0 <= i < N ensures ring[i] == Back(Start(), i) {
      CellOfDistance(N, i);
    }
  }

  // --- The flag register of Decode -------------------------------------------------------

  // flags counts the eight units of a group in its high byte: `left` flag bits are unused,
  // and `bits` holds them.
  ghost predicate FlagsHold(flags: int, left: nat, bits: int)
  {
    left <= 7 && 0 <= bits < Pow2(left) && flags >= 0 &&
    if left == 0 then flags < 512 else flags / 2 == 255 * Pow2(left) + bits
  }

  lemma FlagsStep(flags: int, left: nat, bits: int)
    requires FlagsHold(flags, left, bits)
    ensures (flags / 2) / 0x100 % 2 == 0 <==> left == 0
    ensures left > 0 ==> (flags / 2) % 2 == bits % 2 && FlagsHold(flags / 2, left - 1, bits / 2)
    ensures forall c :: 0 <= c < 256 ==> FlagsHold(c + 0xff00, 7, c / 2) && (c + 0xff00) % 2 == c % 2
  {
    if left > 0 {
      assert Pow2(left) == 2 * Pow2(left - 1);
    }
    assert Pow2(3) == 8 && Pow2(7) == 128;
  }

  lemma NoFlags()
    ensures FlagsHold(0, 0, 0)
  {
  }
}
