// What Encode promises about the units it sends, and why Decode then gives the text back.
//
// Positions are counted on a tape: N - F blanks followed by the text.  Position R of the
// tape is kept in ring cell R mod N.

module LzParse {
  import opened Bytes
  import opened LzOrder
  import opened LzFormat
  import opened LzHistory

  const TEXT: int := N - F       // the tape position of the first byte of text
  const BLANKS: int := TEXT - F  // the first tape position whose string is registered

  function Tape(x: seq<byte>): (t: seq<byte>)
    ensures |t| == TEXT + |x|
    ensures t[TEXT..] == x && Repeat(SPACE, TEXT) <= t
  {
    Repeat(SPACE, TEXT) + x
  }

  // n bytes from P agree with n bytes from R.
  ghost predicate SameRun(T: seq<byte>, P: int, R: int, n: int)
  {
    0 <= P && 0 <= R && 0 <= n && P + n <= |T| && R + n <= |T| && T[P..P + n] == T[R..R + n]
  }

  // P is a place in the window behind R that pos denotes.
  ghost predicate Source(P: int, R: int, pos: int)
  {
    R - (N - F) <= P < R && P % N == pos
  }

  // The unit t describes the tape at R.
  ghost predicate Describes(t: Token, T: seq<byte>, R: int)
  {
    0 <= R && R + Length(t) <= |T| && Sendable(t) &&
    if t.Literal? then T[R] == t.b
    else exists P :: Source(P, R, t.pos) && SameRun(T, P, R, t.len)
  }

  // The number of bytes that no earlier place of the window can be better than.
  function Reach(t: Token): int
  {
    if t.Literal? then THRESHOLD else t.len
  }

  // F blanks from Q on.
  ghost predicate Blank(T: seq<byte>, Q: int)
  {
    0 <= Q && Q + F <= |T| && T[Q..Q + F] == Repeat(SPACE, F)
  }

  // No match within the window is longer than t.  Only places before the text where F blanks
  // stand are left out, and only once the window no longer reaches back to BLANKS.
  ghost predicate Longest(t: Token, T: seq<byte>, R: int)
  {
    Reach(t) == F || forall Q {:trigger SameRun(T, Q, R, Reach(t) + 1)} |
      R - (N - F) <= Q < R && (TEXT <= Q || !Blank(T, Q) || R <= BLANKS + (N - F)) ::
      !SameRun(T, Q, R, Reach(t) + 1)
  }

  // If the text does not start with a blank, no place of the window is left out.
  lemma LongestOfAll(t: Token, T: seq<byte>, R: int, Q: int)
    requires Longest(t, T, R) && Reach(t) < F && R - (N - F) <= Q < R
    requires |T| > TEXT ==> T[TEXT] != SPACE
    ensures !SameRun(T, Q, R, Reach(t) + 1)
  {
    if BLANKS < Q < TEXT {
      NotBlank(T, Q);
    }
  }

  lemma NotBlank(T: seq<byte>, Q: int)
    requires BLANKS < Q < TEXT && (|T| > TEXT ==> T[TEXT] != SPACE)
    ensures !Blank(T, Q)
  {
    if Q + F <= |T| {
      assert T[Q..Q + F][TEXT - Q] == T[TEXT] && Repeat(SPACE, F)[TEXT - Q] == SPACE;
    }
  }

  // ts describes the text up to tape position R, greedily.
  ghost predicate Parses(ts: seq<Token>, T: seq<byte>, R: int)
  {
    if ts == [] then R == TEXT <= |T|
    else
      var t := ts[|ts| - 1];
      var S := R - Length(t);
      Parses(ts[..|ts| - 1], T, S) && Describes(t, T, S) && Longest(t, T, S)
  }

  lemma {:induction false} ParsesBounds(ts: seq<Token>, T: seq<byte>, R: int)
    requires Parses(ts, T, R)
    ensures TEXT <= R <= |T|
    ensures AllSendable(ts)
    ensures TotalLength(ts) == R - TEXT
  {
    if ts != [] {
      var init, t := ts[..|ts| - 1], ts[|ts| - 1];
      ParsesBounds(init, T, R - Length(t));
      assert ts == init + [t];
      TotalLengthSplit(init, [t]);
      assert TotalLength([t]) == Length(t) + TotalLength([]);
    }
  }

  lemma ParsesSnoc(ts: seq<Token>, t: Token, T: seq<byte>, R: int, ts': seq<Token>)
    requires Parses(ts, T, R) && Describes(t, T, R) && Longest(t, T, R) && ts' == ts + [t]
    ensures Parses(ts', T, R + Length(t))
  {
    assert ts'[..|ts'| - 1] == ts;
  }

  lemma NothingCoded(T: seq<byte>)
    requires TEXT <= |T|
    ensures Parses([], T, TEXT) && Pack([]) == []
  {
  }

  lemma NothingSent(buf: seq<byte>, T: seq<byte>, head: seq<byte>)
    requires |buf| == 17 && buf[0] == 0 && TEXT <= |T|
    ensures Parses([] + [], T, TEXT) && Buffered(buf, 1, 1, []) && head == head + Pack([])
  {
    var none: seq<Token> := [];
    assert none + none == none;
  }

  // The history after the tape up to R.
  function Written(T: seq<byte>, R: int): (h: seq<byte>)
    requires TEXT <= R <= |T|
    ensures |h| == F + R
  {
    Repeat(0, F) + T[..R]
  }

  lemma RunStep(T: seq<byte>, P: int, R: int, n: int)
    requires n > 0 && SameRun(T, P, R, n)
    ensures T[P] == T[R] && SameRun(T, P + 1, R + 1, n - 1)
  {
    assert T[P] == T[P..P + n][0] && T[R] == T[R..R + n][0];
    assert T[P + 1..P + n] == T[P..P + n][1..];
    assert T[R + 1..R + n] == T[R..R + n][1..];
  }

  // The ring shows the tape.
  lemma BackOnTape(T: seq<byte>, P: int, R: int)
    requires TEXT <= R <= |T| && 0 <= P < R && R - N <= P
    ensures Back(Written(T, R), P % N) == T[P]
  {
    DistanceOfCell(F + R, F + P);
    assert Cell(F + P) == P % N;
  }

  lemma NextCell(p: int, P: int)
    requires p % N == P % N
    ensures (p + 1) % N == (P + 1) % N
  {
  }

  // A copy reads the run byte by byte, also where source and destination overlap.
  lemma {:induction false} CopyRun(T: seq<byte>, P: int, R: int, n: nat, p: int)
    requires TEXT <= R && 0 <= P < R && R - N <= P
    requires SameRun(T, P, R, n) && p % N == P % N
    ensures Copy(Written(T, R), p, n) == Written(T, R + n)
    decreases n
  {
    if n > 0 {
      var h := Written(T, R);
      RunStep(T, P, R, n);
      BackOnTape(T, P, R);
      NextCell(p, P);
      CopyRun(T, P + 1, R + 1, n - 1, p + 1);
      assert h + [T[R]] == Written(T, R + 1);
    }
  }

  lemma ApplyDescribed(t: Token, T: seq<byte>, R: int)
    requires TEXT <= R && Describes(t, T, R)
    ensures Apply(Written(T, R), t) == Written(T, R + Length(t))
  {
    if t.Literal? {
      assert Written(T, R) + [t.b] == Written(T, R + 1);
    } else {
      var P :| Source(P, R, t.pos) && SameRun(T, P, R, t.len);
      CopyRun(T, P, R, t.len, t.pos);
    }
  }

  lemma {:induction false} ReplayParse(ts: seq<Token>, T: seq<byte>, R: int)
    requires Parses(ts, T, R) && Repeat(SPACE, TEXT) <= T
    ensures TEXT <= R <= |T| && Replay(ts) == Written(T, R)
  {
    ParsesBounds(ts, T, R);
    if ts == [] {
      StartIsWritten(T);
    } else {
      hide Describes, Longest, Written;
      var t := ts[|ts| - 1];
      ReplayParse(ts[..|ts| - 1], T, R - Length(t));
      ApplyDescribed(t, T, R - Length(t));
    }
  }

  lemma StartIsWritten(T: seq<byte>)
    requires Repeat(SPACE, TEXT) <= T
    ensures Start() == Written(T, TEXT)
  {
  }

  lemma WrittenText(x: seq<byte>)
    ensures Written(Tape(x), TEXT + |x|)[N..] == x
  {
    var T := Tape(x);
    assert T[..TEXT + |x|] == T;
    assert (Repeat(0, F) + T)[N..] == T[TEXT..];
  }

  lemma DecompressPacked(ts: seq<Token>, header: seq<byte>)
    requires |header| == HEADER && AllSendable(ts)
    ensures Decompress(header + Pack(ts)) == Replay(ts)[N..]
  {
    var file := header + Pack(ts);
    assert file[HEADER..] == Pack(ts);
    UnpackPack(ts);
  }

  // Any greedy parse of a text, packed behind any header, is read back as that text.
  lemma RoundTrip(x: seq<byte>, ts: seq<Token>, header: seq<byte>)
    requires |header| == HEADER
    requires Parses(ts, Tape(x), TEXT + |x|)
    ensures AllSendable(ts) && Decompress(header + Pack(ts)) == x
  {
    ParsesBounds(ts, Tape(x), TEXT + |x|);
    ReplayParse(ts, Tape(x), TEXT + |x|);
    DecompressPacked(ts, header);
    WrittenText(x);
  }

  // The compressed text is never longer than the text and one byte for every eight of it.
  lemma SizeBound(x: seq<byte>, ts: seq<Token>)
    requires Parses(ts, Tape(x), TEXT + |x|)
    ensures AllSendable(ts) && |Pack(ts)| <= |x| + (|x| + 7) / 8
  {
    ParsesBounds(ts, Tape(x), TEXT + |x|);
    PackSize(ts);
  }
}
