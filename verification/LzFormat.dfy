// The compressed format of lzc.c: units of code, eight to a flag byte, behind a 14-byte header.

module LzFormat {
  import opened Bytes
  import opened LzOrder

  const HEADER: int := 14

  datatype Token =
    | Literal(b: byte)             // an unencoded letter
    | Match(pos: int, len: int)    // a ring position and a length

  // A pair Encode may send.
  predicate Sendable(t: Token)
  {
    t.Match? ==> 0 <= t.pos < N && THRESHOLD < t.len <= F
  }

  predicate AllSendable(ts: seq<Token>)
  {
    forall t | t in ts :: Sendable(t)
  }

  function Length(t: Token): int
  {
    if t.Literal? then 1 else t.len
  }

  function Bit(t: Token): int
  {
    if t.Literal? then 1 else 0
  }

  // The low byte of a pair, and the high nibble of the position above the length.
  function Code(t: Token): (r: seq<byte>)
    requires Sendable(t)
    ensures |r| == if t.Literal? then 1 else 2
  {
    if t.Literal? then [t.b]
    else [t.pos % 256, (t.pos / 256) * 16 + (t.len - (THRESHOLD + 1))]
  }

  // The bits 0xf0 of a number.
  function HighNibble(b: int): int
  {
    b / 16 % 16 * 16
  }

  // The ten bytes every compressed file starts with, and the length of the text in four
  // bytes, lowest first.
  function Header(size: nat): (r: seq<byte>)
    ensures |r| == HEADER
  {
    [0x53, 0x5A, 0x44, 0x44, 0x88, 0xF0, 0x27, 0x33, 0x41, 0x00,
     size % 256, size / 0x100 % 256, size / 0x1_0000 % 256, size / 0x100_0000 % 256]
  }

  function Pair(i: byte, j: byte): Token
  {
    Match(i + (j / 16) * 256, j % 16 + THRESHOLD + 1)
  }

  // The flag byte: the first unit has the lowest bit.
  function Flags(ts: seq<Token>): (r: nat)
    ensures r < Pow2(|ts|)
  {
    if ts == [] then 0 else Bit(ts[0]) + 2 * Flags(ts[1..])
  }

  function Body(ts: seq<Token>): seq<byte>
    requires AllSendable(ts)
  {
    if ts == [] then [] else Code(ts[0]) + Body(ts[1..])
  }

  function Group(ts: seq<Token>): (r: seq<byte>)
    requires AllSendable(ts) && |ts| <= 8
  {
    Pow2Grows(|ts|, 8);
    [Flags(ts)] + Body(ts)
  }

  lemma Pow2Grows(m: nat, n: nat)
    requires m <= n
    ensures Pow2(m) <= Pow2(n)
  {
    if m < n {
      Pow2Grows(m, n - 1);
    }
  }

  function Pack(ts: seq<Token>): seq<byte>
    requires AllSendable(ts)
  {
    if ts == [] then []
    else if |ts| <= 8 then Group(ts)
    else Group(ts[..8]) + Pack(ts[8..])
  }

  // Reading: `left` flag bits are still unused, flags holds them lowest first.
  function Unpack(flags: int, left: nat, b: seq<byte>): seq<Token>
    decreases |b|, left
  {
    if left == 0 then
      if b == [] then [] else Unpack(b[0], 8, b[1..])
    else if flags % 2 == 1 then
      if b == [] then [] else [Literal(b[0])] + Unpack(flags / 2, left - 1, b[1..])
    else
      if |b| < 2 then [] else [Pair(b[0], b[1])] + Unpack(flags / 2, left - 1, b[2..])
  }

  // The high nibble of a position and a length, as Encode puts them together.
  lemma HighBits(pos: int, len: int)
    requires 0 <= pos < N && THRESHOLD < len <= F
    ensures HighNibble(pos / 16) == pos / 256 * 16 && 0 <= HighNibble(pos / 16) + (len - (THRESHOLD + 1)) < 256
    ensures Code(Match(pos, len)) == [pos % 256, HighNibble(pos / 16) + (len - (THRESHOLD + 1))]
  {
    assert pos / 16 / 16 == pos / 256 < 16;
  }

  // --- Reading recovers what was packed --------------------------------------------------

  lemma PairOfCode(t: Token)
    requires Sendable(t) && t.Match?
    ensures Pair(Code(t)[0], Code(t)[1]) == t
  {
    var j := Code(t)[1];
    assert j / 16 == t.pos / 256 && j % 16 == t.len - (THRESHOLD + 1);
  }

  lemma UnpackOne(t: Token, flags: int, left: nat, rest: seq<byte>)
    requires Sendable(t) && left > 0 && flags % 2 == Bit(t)
    ensures Unpack(flags, left, Code(t) + rest) == [t] + Unpack(flags / 2, left - 1, rest)
  {
    var b := Code(t) + rest;
    if t.Literal? {
      assert b[1..] == rest;
    } else {
      assert b[2..] == rest;
      PairOfCode(t);
    }
  }

  lemma {:induction false} UnpackGroup(g: seq<Token>, left: nat, rest: seq<byte>)
    requires AllSendable(g) && |g| <= left
    requires |g| < left ==> rest == []
    ensures Unpack(Flags(g), left, Body(g) + rest) == g + Unpack(0, left - |g|, rest)
  {
    if g == [] {
      assert Body(g) + rest == rest;
    } else {
      var t, b := g[0], Body(g[1..]) + rest;
      FirstOfGroup(g);
      Halves(Bit(t), Flags(g[1..]));
      hide Flags, Body, Code, Unpack, Bit, Sendable;
      var tail := Unpack(0, left - |g|, rest);
      PackedTogether(Code(t), Body(g[1..]), rest);
      UnpackOne(t, Flags(g), left, b);
      UnpackGroup(g[1..], left - 1, rest);
      assert g + tail == [t] + (g[1..] + tail);
    }
  }

  lemma FirstOfGroup(g: seq<Token>)
    requires AllSendable(g) && g != []
    ensures Sendable(g[0]) && AllSendable(g[1..])
    ensures Flags(g) == Bit(g[0]) + 2 * Flags(g[1..])
    ensures Body(g) == Code(g[0]) + Body(g[1..])
  {
    assert g[0] in g;
  }

  lemma Halves(bit: int, f: int)
    requires 0 <= bit <= 1 && 0 <= f
    ensures (bit + 2 * f) % 2 == bit && (bit + 2 * f) / 2 == f
  {
  }

  // Every token list survives packing, with a last group of any size: its unused flag bits
  // read as pairs, but no bytes are left for them.
  lemma {:induction false} UnpackPack(ts: seq<Token>)
    requires AllSendable(ts)
    ensures Unpack(0, 0, Pack(ts)) == ts
    decreases |ts|
  {
    if ts != [] {
      var g := if |ts| <= 8 then ts else ts[..8];
      var rest := if |ts| <= 8 then [] else Pack(ts[8..]);
      var p := Pack(ts);
      assert p == [Flags(g)] + (Body(g) + rest);
      assert p[1..] == Body(g) + rest;
      UnpackGroup(g, 8, rest);
      if |ts| > 8 {
        UnpackPack(ts[8..]);
        assert ts == ts[..8] + ts[8..];
      }
    }
  }

  // --- Writing, one unit at a time -------------------------------------------------------

  lemma {:induction false} FlagsSnoc(g: seq<Token>, t: Token)
    ensures Flags(g + [t]) == Flags(g) + Bit(t) * Pow2(|g|)
  {
    if g == [] {
      assert g + [t] == [t];
    } else {
      assert (g + [t])[1..] == g[1..] + [t];
      FlagsSnoc(g[1..], t);
    }
  }

  lemma {:induction false} BodySnoc(g: seq<Token>, t: Token)
    requires AllSendable(g) && Sendable(t)
    ensures AllSendable(g + [t])
    ensures Body(g + [t]) == Body(g) + Code(t)
  {
    if g == [] {
      assert g + [t] == [t];
      assert Body([t]) == Code(t) + Body([]);
    } else {
      assert (g + [t])[1..] == g[1..] + [t];
      BodySnoc(g[1..], t);
    }
  }

  lemma {:induction false} BodySize(g: seq<Token>)
    requires AllSendable(g)
    ensures |g| <= |Body(g)| <= 2 * |g|
  {
    if g != [] {
      BodySize(g[1..]);
    }
  }

  lemma EmptyBody(g: seq<Token>)
    requires AllSendable(g)
    ensures Body(g) != [] ==> g != []
  {
  }

  lemma {:induction false} PackAppend(a: seq<Token>, g: seq<Token>)
    requires AllSendable(a) && AllSendable(g) && |a| % 8 == 0 && 0 < |g| <= 8
    ensures AllSendable(a + g)
    ensures Pack(a + g) == Pack(a) + Group(g)
    decreases |a|
  {
    PackFew(g);
    hide Pack, Group, Sendable;
    if a == [] {
      assert a + g == g;
    } else {
      var head, rest := a[..8], a[8..];
      assert a == head + rest && a + g == head + (rest + g);
      PackAppend(rest, g);
      PackFirst(head, rest + g);
      PackFirst(head, rest);
      PackedTogether(Group(head), Pack(rest), Group(g));
    }
  }

  lemma PackFew(g: seq<Token>)
    requires AllSendable(g)
    ensures Pack([]) == [] && (0 < |g| <= 8 ==> Pack(g) == Group(g))
  {
  }

  lemma PackFirst(head: seq<Token>, rest: seq<Token>)
    requires AllSendable(head) && AllSendable(rest) && |head| == 8
    ensures AllSendable(head + rest) && Pack(head + rest) == Group(head) + Pack(rest)
  {
    if rest == [] {
      assert head + rest == head;
    } else {
      assert (head + rest)[..8] == head && (head + rest)[8..] == rest;
    }
  }

  lemma PackedTogether(a: seq<byte>, b: seq<byte>, c: seq<byte>)
    ensures (a + b) + c == a + (b + c)
  {
  }

  // code_buf holds the flag byte and the codes of the units g, mask the flag bit of the next one.
  ghost predicate Buffered(buf: seq<byte>, ptr: int, mask: int, g: seq<Token>)
  {
    |buf| == 17 && |g| <= 8 && AllSendable(g) && ptr == 1 + |Body(g)| && ptr <= 17 &&
    mask == Pow2(|g|) % 256 && buf[0] == Flags(g) && buf[1..ptr] == Body(g)
  }

  lemma BufferedIsGroup(buf: seq<byte>, ptr: int, mask: int, g: seq<Token>)
    requires Buffered(buf, ptr, mask, g)
    ensures buf[..ptr] == Group(g)
  {
    assert buf[..ptr] == [buf[0]] + buf[1..ptr];
  }

  lemma Masks(n: nat)
    requires n <= 8
    ensures Pow2(n) <= 256 && (Pow2(n) == 256 <==> n == 8)
    ensures n < 8 ==> Pow2(n) <= 128
  {
    assert Pow2(8) == 256 by {
      assert Pow2(4) == 16;
    }
    Pow2Grows(n, 8);
    if n < 8 {
      Pow2Grows(n, 7);
    }
  }

  // The buffer after one more unit.
  lemma BufferUnit(buf: seq<byte>, ptr: int, mask: int, g: seq<Token>, t: Token, buf': seq<byte>, ptr': int)
    requires Buffered(buf, ptr, mask, g) && |g| < 8 && Sendable(t)
    requires |buf'| == 17 && ptr' == ptr + |Code(t)| && ptr' <= 17
    requires buf'[0] == buf[0] + (if t.Literal? then mask else 0)
    requires buf'[1..ptr] == buf[1..ptr] && buf'[ptr..ptr'] == Code(t)
    ensures Buffered(buf', ptr', (mask * 2) % 256, g + [t])
    ensures (mask * 2) % 256 == 0 <==> |g + [t]| == 8
  {
    FlagsSnoc(g, t);
    BodySnoc(g, t);
    NextMask(mask, |g|);
    hide Flags, Body, Code, Pow2;
    assert buf'[1..ptr'] == buf'[1..ptr] + buf'[ptr..ptr'];
  }

  lemma NextMask(mask: int, n: nat)
    requires n < 8 && mask == Pow2(n) % 256
    ensures mask == Pow2(n) && mask * 2 % 256 == Pow2(n + 1) % 256
    ensures mask * 2 % 256 == 0 <==> n + 1 == 8
  {
    Masks(n);
    Masks(n + 1);
  }

  // There is room for one more unit.
  lemma BufferRoom(buf: seq<byte>, ptr: int, mask: int, g: seq<Token>)
    requires Buffered(buf, ptr, mask, g) && |g| < 8
    ensures |buf| == 17 && 1 <= ptr <= 15 && 0 < mask <= 128 && buf[0] < mask
  {
    BodySize(g);
    Masks(|g|);
  }

  // --- Size ------------------------------------------------------------------------------

  function TotalLength(ts: seq<Token>): int
  {
    if ts == [] then 0 else Length(ts[0]) + TotalLength(ts[1..])
  }

  lemma {:induction false} BodyFits(ts: seq<Token>)
    requires AllSendable(ts)
    ensures |ts| <= TotalLength(ts)
    ensures |Body(ts)| <= TotalLength(ts)
  {
    if ts != [] {
      assert ts[0] in ts;
      BodyFits(ts[1..]);
    }
  }

  lemma {:induction false} TotalLengthSplit(a: seq<Token>, b: seq<Token>)
    ensures TotalLength(a + b) == TotalLength(a) + TotalLength(b)
  {
    if a == [] {
      assert a + b == b;
    } else {
      assert (a + b)[1..] == a[1..] + b;
      TotalLengthSplit(a[1..], b);
    }
  }

  // Packing never adds more than one byte for every eight bytes of text.
  lemma {:induction false} PackSize(ts: seq<Token>)
    requires AllSendable(ts)
    ensures |Pack(ts)| <= TotalLength(ts) + (TotalLength(ts) + 7) / 8
    decreases |ts|
  {
    if ts == [] {
    } else if |ts| <= 8 {
      BodyFits(ts);
    } else {
      BodyFits(ts[..8]);
      PackSize(ts[8..]);
      BodyFits(ts[8..]);
      assert ts == ts[..8] + ts[8..];
      TotalLengthSplit(ts[..8], ts[8..]);
    }
  }

  // A unit a decoder may meet: a letter, or a pair of 3 to 18 bytes at some ring position.
  predicate Readable(t: Token)
  {
    t.Match? ==> 0 <= t.pos < N && THRESHOLD + 1 <= t.len <= THRESHOLD + 16
  }

  // Any bytes at all are read as such units, and every byte stands for nine bytes at most.
  lemma {:induction false} UnpackReadable(flags: int, left: nat, b: seq<byte>)
    ensures forall t | t in Unpack(flags, left, b) :: Readable(t)
    ensures 0 <= TotalLength(Unpack(flags, left, b)) <= 9 * |b|
    decreases |b|, left
  {
    if left == 0 {
      if b != [] {
        UnpackReadable(b[0], 8, b[1..]);
      }
    } else if flags % 2 == 1 {
      if b != [] {
        UnpackReadable(flags / 2, left - 1, b[1..]);
        TotalLengthFirst(Literal(b[0]), Unpack(flags / 2, left - 1, b[1..]));
      }
    } else if |b| >= 2 {
      UnpackReadable(flags / 2, left - 1, b[2..]);
      TotalLengthFirst(Pair(b[0], b[1]), Unpack(flags / 2, left - 1, b[2..]));
    }
  }

  lemma TotalLengthFirst(t: Token, ts: seq<Token>)
    ensures TotalLength([t] + ts) == Length(t) + TotalLength(ts)
  {
    assert ([t] + ts)[1..] == ts;
  }
}
