// The compressed format in plain numbers, independent of how the programs are modelled.

module LzReference {
  import opened Bytes
  import opened LzOrder
  import opened LzFormat
  import opened LzHistory
  import opened LzParse

  // --- What a compressed file stands for -----------------------------------------------------

  // The ring of 4096 cells after some output: 4080 blanks and 16 zeros at first, and the output
  // from cell 4080 on.
  function Ring(output: seq<byte>): (r: seq<byte>)
    ensures |r| == 4096
  {
    if output == [] then seq(4096, c => if c < 4080 then 0x20 else 0x00)
    else
      var m := |output| - 1;
      Ring(output[..m])[(4080 + m) % 4096 := output[m]]
  }

  // n bytes from ring cell p on, each written before the next one is read.
  function Copied(output: seq<byte>, p: int, n: nat): seq<byte>
    decreases n
  {
    if n == 0 then output else Copied(output + [Ring(output)[p % 4096]], p + 1, n - 1)
  }

  // Eight units to a flag byte, lowest bit first: 1 for a letter, 0 for a pair of bytes with 12
  // bits of position and 4 bits of length, less 3.
  function Expanded(flags: int, left: nat, b: seq<byte>, output: seq<byte>): seq<byte>
    decreases |b|, left
  {
    if left == 0 then
      if b == [] then output else Expanded(b[0], 8, b[1..], output)
    else if flags % 2 == 1 then
      if b == [] then output else Expanded(flags / 2, left - 1, b[1..], output + [b[0]])
    else if |b| < 2 then output
    else
      var i: int, j: int := b[0], b[1];
      Expanded(flags / 2, left - 1, b[2..], Copied(output, i + 256 * (j / 16), 3 + j % 16))
  }

  lemma NextCell(m: int)
    ensures Cell(N + m) == (4080 + m) % 4096
  {
  }

  lemma {:induction false} RingIs(output: seq<byte>)
    ensures forall c | 0 <= c < N :: Ring(output)[c] == Back(Start() + output, c)
    decreases |output|
  {
    if output == [] {
      var ring := Ring([]);
      RingAtStart(ring);
      assert Start() + [] == Start();
      forall c | 0 <= c < N ensures ring[c] == Back(Start(), c) {
        RingAt(ring, Start(), c);
      }
    } else {
      var m := |output| - 1;
      var before := output[..m];
      RingIs(before);
      NextCell(m);
      assert Start() + output == (Start() + before) + [output[m]];
      forall c | 0 <= c < N ensures Ring(output)[c] == Back(Start() + output, c) {
        BackSnoc(Start() + before, output[m], c);
      }
    }
  }

  lemma {:induction false} CopiedIs(output: seq<byte>, p: int, n: nat)
    ensures Copy(Start() + output, p, n) == Start() + Copied(output, p, n)
    decreases n
  {
    if n > 0 {
      RingIs(output);
      var c := Ring(output)[p % 4096];
      assert (Start() + output) + [c] == Start() + (output + [c]);
      CopiedIs(output + [c], p + 1, n - 1);
    }
  }

  // A ring that shows a replay holds what this one does.
  lemma RingAfter(ring: seq<byte>, ts: seq<Token>)
    requires RingShows(ring, Replay(ts))
    ensures ring[..4096] == Ring(Replay(ts)[N..])
  {
    var h := Replay(ts);
    ReplayStarts(ts);
    assert h == Start() + h[N..];
    RingIs(h[N..]);
    forall c | 0 <= c < N ensures ring[..4096][c] == Ring(h[N..])[c] {
      RingAt(ring, h, c);
    }
  }

  // One unit after what has been replayed.
  lemma OneUnit(done: seq<Token>, output: seq<byte>, t: Token)
    requires Replay(done) == Start() + output
    ensures Replay(done + [t]) == Apply(Start() + output, t)
  {
    assert (done + [t])[..|done|] == done;
  }

  lemma LetterIs(output: seq<byte>, c: byte)
    ensures Apply(Start() + output, Literal(c)) == Start() + (output + [c])
  {
  }

  lemma PairIs(output: seq<byte>, i: byte, j: byte)
    ensures var lo: int, hi: int := i, j;
            Apply(Start() + output, Pair(i, j)) == Start() + Copied(output, lo + 256 * (hi / 16), 3 + hi % 16)
  {
    var lo: int, hi: int := i, j;
    CopiedIs(output, lo + 256 * (hi / 16), 3 + hi % 16);
  }

  lemma {:induction false} ExpandedIs(flags: int, left: nat, b: seq<byte>, done: seq<Token>, output: seq<byte>)
    requires Replay(done) == Start() + output
    ensures Replay(done + Unpack(flags, left, b)) == Start() + Expanded(flags, left, b, output)
    decreases |b|, left, 1
  {
    assert done + [] == done;
    hide Replay, Start, Unpack, Expanded;
    UnpackStep(flags, left, b);
    ExpandStep(flags, left, b, output);
    if left == 0 {
      if b != [] {
        ExpandedIs(b[0], 8, b[1..], done, output);
      }
    } else if flags % 2 == 1 && b != [] {
      ExpandedLetter(flags, left, b, done, output);
    } else if flags % 2 != 1 && |b| >= 2 {
      ExpandedPair(flags, left, b, done, output);
    }
  }

  lemma {:induction false} ExpandedLetter(flags: int, left: nat, b: seq<byte>, done: seq<Token>, output: seq<byte>)
    requires Replay(done) == Start() + output && left > 0 && flags % 2 == 1 && b != []
    ensures Replay(done + Unpack(flags, left, b)) == Start() + Expanded(flags, left, b, output)
    decreases |b|, left, 0
  {
    hide Replay, Apply, Start, Unpack, Expanded;
    UnpackStep(flags, left, b);
    ExpandStep(flags, left, b, output);
    LetterIs(output, b[0]);
    UnitAndRest(done, output, Literal(b[0]), flags / 2, left - 1, b[1..], output + [b[0]]);
    ExpandedIs(flags / 2, left - 1, b[1..], done + [Literal(b[0])], output + [b[0]]);
  }

  lemma {:induction false} ExpandedPair(flags: int, left: nat, b: seq<byte>, done: seq<Token>, output: seq<byte>)
    requires Replay(done) == Start() + output && left > 0 && flags % 2 != 1 && |b| >= 2
    ensures Replay(done + Unpack(flags, left, b)) == Start() + Expanded(flags, left, b, output)
    decreases |b|, left, 0
  {
    hide Replay, Apply, Start, Copied, Pair, Unpack, Expanded;
    UnpackStep(flags, left, b);
    ExpandStep(flags, left, b, output);
    var i: int, j: int := b[0], b[1];
    var next := Copied(output, i + 256 * (j / 16), 3 + j % 16);
    PairIs(output, b[0], b[1]);
    UnitAndRest(done, output, Pair(b[0], b[1]), flags / 2, left - 1, b[2..], next);
    ExpandedIs(flags / 2, left - 1, b[2..], done + [Pair(b[0], b[1])], next);
  }

  // Both ways of reading go on in the same way.
  lemma UnpackStep(flags: int, left: nat, b: seq<byte>)
    ensures left == 0 ==> Unpack(flags, left, b) == if b == [] then [] else Unpack(b[0], 8, b[1..])
    ensures left > 0 && flags % 2 == 1 ==>
              Unpack(flags, left, b) ==
              if b == [] then [] else [Literal(b[0])] + Unpack(flags / 2, left - 1, b[1..])
    ensures left > 0 && flags % 2 != 1 ==>
              Unpack(flags, left, b) ==
              if |b| < 2 then [] else [Pair(b[0], b[1])] + Unpack(flags / 2, left - 1, b[2..])
  {
  }

  lemma ExpandStep(flags: int, left: nat, b: seq<byte>, output: seq<byte>)
    ensures left == 0 ==>
              Expanded(flags, left, b, output) == if b == [] then output else Expanded(b[0], 8, b[1..], output)
    ensures left > 0 && flags % 2 == 1 ==>
              Expanded(flags, left, b, output) ==
              if b == [] then output else Expanded(flags / 2, left - 1, b[1..], output + [b[0]])
    ensures left > 0 && flags % 2 != 1 ==>
              Expanded(flags, left, b, output) ==
              if |b| < 2 then output
              else
                var i: int, j: int := b[0], b[1];
                Expanded(flags / 2, left - 1, b[2..], Copied(output, i + 256 * (j / 16), 3 + j % 16))
  {
  }

  lemma UnitAndRest(done: seq<Token>, output: seq<byte>, t: Token, flags: int, left: nat, b: seq<byte>,
                    next: seq<byte>)
    requires Replay(done) == Start() + output && Apply(Start() + output, t) == Start() + next
    ensures Replay(done + [t]) == Start() + next
    ensures done + ([t] + Unpack(flags, left, b)) == (done + [t]) + Unpack(flags, left, b)
  {
    OneUnit(done, output, t);
  }

  // Behind the first 14 bytes, every file means what the format says.
  lemma DecompressIs(file: seq<byte>)
    ensures Decompress(file) == if |file| < 14 then [] else Expanded(0, 0, file[14..], [])
  {
    if |file| >= 14 {
      assert Replay([]) == Start() + [];
      var ts := Unpack(0, 0, file[14..]);
      assert [] + ts == ts;
      ExpandedIs(0, 0, file[14..], [], []);
    }
  }

  // --- One pair --------------------------------------------------------------------------------

  lemma {:induction false} CopiedLength(output: seq<byte>, p: int, n: nat)
    ensures |Copied(output, p, n)| == |output| + n && Copied(output, p, n)[..|output|] == output
    decreases n
  {
    if n > 0 {
      var next := output + [Ring(output)[p % 4096]];
      CopiedLength(next, p + 1, n - 1);
      assert Copied(output, p, n)[..|output|] == Copied(output, p, n)[..|next|][..|output|];
    }
  }

  lemma {:induction false} CopiedByte(output: seq<byte>, p: int, n: nat, k: nat)
    requires k < n
    ensures |Copied(output, p, n)| == |output| + n
    ensures var r := Copied(output, p, n);
            r[|output| + k] == Ring(r[..|output| + k])[(p + k) % 4096]
    decreases n
  {
    CopiedLength(output, p, n);
    var next := output + [Ring(output)[p % 4096]];
    CopiedLength(next, p + 1, n - 1);
    if k > 0 {
      CopiedByte(next, p + 1, n - 1, k - 1);
    } else {
      assert Copied(output, p, n)[|output|] == Copied(output, p, n)[..|next|][|output|];
    }
  }

  lemma OnePairRead(i: byte, j: byte)
    ensures var lo: int, hi: int := i, j;
            Expanded(0, 0, [0, i, j], []) == Copied([], lo + 256 * (hi / 16), 3 + hi % 16)
  {
    assert [0, i, j][1..] == [i, j] && [i, j][2..] == [];
    ExpandStep(0, 0, [0, i, j], []);
    ExpandStep(0, 8, [i, j], []);
  }

  // A file that holds one pair is expanded to 3 .. 18 bytes: byte k is what ring cell
  // position + k holds once the bytes before it are written.
  lemma OnePair(header: seq<byte>, i: byte, j: byte)
    requires |header| == 14
    ensures var y, lo: int, hi: int := Decompress(header + [0, i, j]), i, j;
            |y| == 3 + hi % 16 &&
            forall k {:trigger y[..k]} | 0 <= k < 3 + hi % 16 :: y[k] == Ring(y[..k])[(lo + 256 * (hi / 16) + k) % 4096]
  {
    hide Decompress, Copied, Ring;
    var lo: int, hi: int := i, j;
    DecompressIs(header + [0, i, j]);
    assert (header + [0, i, j])[14..] == [0, i, j];
    OnePairRead(i, j);
    CopiedFromStart(lo + 256 * (hi / 16), 3 + hi % 16);
  }

  lemma CopiedFromStart(p: int, n: nat)
    ensures var y := Copied([], p, n);
            |y| == n && forall k {:trigger y[..k]} | 0 <= k < n :: y[k] == Ring(y[..k])[(p + k) % 4096]
  {
    CopiedLength([], p, n);
    var y := Copied([], p, n);
    forall k | 0 <= k < n ensures y[k] == Ring(y[..k])[(p + k) % 4096] {
      CopiedByte([], p, n, k);
    }
  }

  // --- What the compressor sends -----------------------------------------------------------------

  // The two bytes of a pair that may be sent.
  lemma PairBytes(t: Token)
    requires Sendable(t) && t.Match?
    ensures |Code(t)| == 2
    ensures var i: int, j: int := Code(t)[0], Code(t)[1];
            t.pos == i + 256 * (j / 16) && t.len == j % 16 + 3 && 3 <= t.len <= 16
  {
    PairOfCode(t);
  }

  // Bit k of a number, the lowest bit being bit 0.
  function BitAt(x: nat, k: nat): nat
  {
    if k == 0 then x % 2 else BitAt(x / 2, k - 1)
  }

  // Bit k of a flag byte says whether unit k is a letter.
  lemma {:induction false} FlagBit(g: seq<Token>, k: nat)
    requires k < |g|
    ensures BitAt(Flags(g), k) == 1 <==> g[k].Literal?
  {
    Halves(Bit(g[0]), Flags(g[1..]));
    if k > 0 {
      FlagBit(g[1..], k - 1);
    }
  }

  // The first flag bit of a packed list.
  lemma FirstFlag(ts: seq<Token>)
    requires AllSendable(ts) && ts != []
    ensures Pack(ts) != [] && (Pack(ts)[0] % 2 == 1 <==> ts[0].Literal?)
  {
    FlagBit(if |ts| <= 8 then ts else ts[..8], 0);
  }

  // The header: ten fixed bytes, and the length of the text modulo 2^32, lowest byte first.
  lemma HeaderBytes(size: nat)
    ensures |Header(size)| == 14
    ensures Header(size)[..10] == [0x53, 0x5A, 0x44, 0x44, 0x88, 0xF0, 0x27, 0x33, 0x41, 0x00]
    ensures var a: int, b: int, c: int, d: int :=
              Header(size)[10], Header(size)[11], Header(size)[12], Header(size)[13];
            a + 0x100 * b + 0x1_0000 * c + 0x100_0000 * d == size % 0x1_0000_0000
  {
    var a, b, c, d := size / 0x100, size / 0x1_0000, size / 0x100_0000, size / 0x1_0000_0000;
    assert b == a / 0x100 && c == b / 0x100 && d == c / 0x100;
  }

  lemma {:induction false} FirstUnit(ts: seq<Token>, T: seq<byte>, R: int)
    requires Parses(ts, T, R) && ts != []
    ensures Describes(ts[0], T, 4080) && Longest(ts[0], T, 4080)
  {
    if |ts| == 1 {
      assert ts[..0] == [];
    } else {
      var init := ts[..|ts| - 1];
      FirstUnit(init, T, R - Length(ts[|ts| - 1]));
      assert init[0] == ts[0];
    }
  }

  // The blanks before the text are matched: a text that starts with n blanks, 3 <= n <= 16, starts
  // with a pair of at least n bytes.
  lemma StartsWithBlanks(x: seq<byte>, n: int, ts: seq<Token>)
    requires 3 <= n <= 16 && n <= |x| && forall k :: 0 <= k < n ==> x[k] == 0x20
    requires Parses(ts, Tape(x), 4080 + |x|)
    ensures ts != [] && ts[0].Match? && ts[0].len >= n
  {
    var T := Tape(x);
    FirstUnit(ts, T, 4080 + |x|);
    var m := Reach(ts[0]) + 1;
    if m <= n {
      BlankMatch(x, n, m);
    }
  }

  lemma BlankMatch(x: seq<byte>, n: int, m: int)
    requires 0 <= m <= n <= 16 && n <= |x| && forall k :: 0 <= k < n ==> x[k] == 0x20
    ensures SameRun(Tape(x), 4064, 4080, m)
  {
    var T, blanks := Tape(x), Repeat(SPACE, TEXT);
    assert forall k :: 0 <= k < 4080 ==> T[k] == blanks[k];
    assert forall k :: 0 <= k < n ==> T[4080..][k] == T[4080 + k];
    assert T[4064..4064 + m] == T[4080..4080 + m];
  }

  // Three blanks are sent as one pair.
  lemma ThreeBlanks(ts: seq<Token>)
    requires Parses(ts, Tape([0x20, 0x20, 0x20]), 4083)
    ensures AllSendable(ts) && |Header(3) + Pack(ts)| == 17
  {
    var x := [0x20, 0x20, 0x20];
    ParsesBounds(ts, Tape(x), 4083);
    StartsWithBlanks(x, 3, ts);
    TotalOfRest(ts);
    assert ts == [ts[0]];
    assert Body(ts) == Code(ts[0]) + Body([]);
  }

  lemma TotalOfRest(ts: seq<Token>)
    requires AllSendable(ts) && ts != [] && TotalLength(ts) == 3 && Length(ts[0]) >= 3
    ensures |ts| == 1
  {
    BodyFits(ts[1..]);
  }

  lemma Front(head: seq<byte>, body: seq<byte>)
    requires |head| == 14
    ensures (head + body)[..10] == head[..10] && (body != [] ==> |head + body| > 14 && (head + body)[14] == body[0])
  {
  }

  // What the compressed file begins with.
  lemma Begins(x: seq<byte>, ts: seq<Token>)
    requires Parses(ts, Tape(x), TEXT + |x|) && AllSendable(ts)
    ensures var packed := Header(|x|) + Pack(ts);
            packed[..10] == [0x53, 0x5A, 0x44, 0x44, 0x88, 0xF0, 0x27, 0x33, 0x41, 0x00] &&
            (|x| >= 3 && x[0] == x[1] == x[2] == 0x20 ==> |packed| > 14 && packed[14] % 2 == 0) &&
            (x == [0x20, 0x20, 0x20] ==> |packed| == 17)
  {
    HeaderBytes(|x|);
    hide Parses, Pack, Tape, Header;
    Front(Header(|x|), Pack(ts));
    if |x| >= 3 && x[0] == x[1] == x[2] == 0x20 {
      StartsWithBlanks(x, 3, ts);
      FirstFlag(ts);
    }
    if x == [0x20, 0x20, 0x20] {
      ThreeBlanks(ts);
    }
  }
}
