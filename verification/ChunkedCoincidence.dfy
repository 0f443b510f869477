/**
 A bad cut that comes out right: a body whose first chunk repeats, and whose later chunks look like
 size lines at the places where the code then looks for them.
 */
module ChunkedCoincidence {
  import opened Bytes
  import opened Outcomes
  import opened ChunkedFormat
  import opened ChunkedDecoder
  import opened ChunkedCorrectness
  import opened ChunkedCuts

  function Times(s: bytes, n: nat): (r: bytes)
    ensures |r| == |s| * n
  {
    if n == 0 then [] else s + Times(s, n - 1)
  }

  lemma {:induction false} TimesTurns(s: bytes, n: nat)
    ensures s + Times(s, n) == Times(s, n) + s == Times(s, n + 1)
  {
    if n > 0 {
      TimesTurns(s, n - 1);
      assert s + (s + Times(s, n - 1)) == s + (Times(s, n - 1) + s) == s + Times(s, n - 1) + s;
    } else {
      assert s + [] == [] + s;
    }
  }

  const TAIL: bytes := "0\r\n\r\ne"

  predicate Turns(s: bytes, times: bytes) {
    s + times == times + s
  }

  /** The chunks, made of three repeated texts. */
  datatype Parts = Parts(ones: bytes, threes: bytes, zeros: bytes)
  {
    function First(): bytes { ones + "1" }
    function Third(): bytes { "63" + CRLF + threes + "3" }
    function Fifth(): bytes { TAIL + CRLF + TAIL }

    function Body(): seq<bytes> {
      [First()] + ["2"] + [Third()] + [zeros] + [Fifth()]
    }

    /** The last of the three chunks that the code finds: the end of the third one up to the middle of
        the fifth one, with the lines in between. */
    function Long(): bytes {
      threes + "3" + CRLF + ("30" + CRLF + zeros + CRLF + ("e" + CRLF + TAIL))
    }

    function Seen(): bytes {
      First() + CRLF + Encode(["26"] + [Long()])
    }

    /** A cut after the CR of the first size line, and one where the code then sees the end. */
    function Pieces(): seq<bytes> {
      ["10" + [CR]] + [[LF] + ("1" + CRLF) + Seen()] + ["e" + CRLF + ("0" + CRLF + CRLF)]
    }

    predicate Ok() {
      && |ones| == 15 && |threes| == 33 && |zeros| == 48
      && Turns("1" + CRLF, ones) && Turns("3" + CRLF, threes) && Turns("0" + CRLF, zeros)
    }
  }

  // ---------------------------------------------------------------- the texts

  lemma PrintTwo(a: nat, b: nat)
    requires 0 < a < 16 && b < 16
    ensures Print(b, 16) == [DigitChar(b)] && Print(16 * a + b, 16) == [DigitChar(a), DigitChar(b)]
  {
    assert (16 * a + b) / 16 == a && (16 * a + b) % 16 == b;
    assert Print(a, 16) == [DigitChar(a)];
  }

  lemma EncodeCons(c: bytes, more: seq<bytes>)
    ensures Encode([c] + more) == Print(|c|, 16) + CRLF + c + CRLF + Encode(more)
    ensures Concat([c] + more) == c + Concat(more)
  {
    assert ([c] + more)[1..] == more;
  }

  lemma EncodeNothing()
    ensures Encode([]) == "0" + CRLF + CRLF && Concat([]) == []
  {
    PrintTwo(1, 0);
  }

  /** The coding of the chunks that the code finds. */
  lemma FoundCoding(p: Parts)
    requires p.Ok()
    ensures Chunks(["26"] + [p.Long()])
    ensures Encode(["26"] + [p.Long()])
         == "2" + CRLF + "26" + CRLF + ("63" + CRLF + p.Long() + CRLF + ("0" + CRLF + CRLF))
    ensures Concat(["26"] + [p.Long()]) == "26" + p.Long()
  {
    EncodeNothing();
    EncodeCons(p.Long(), []);
    EncodeCons("26", [p.Long()]);
    assert [p.Long()] + [] == [p.Long()] && p.Long() + [] == p.Long();
    PrintTwo(1, 2);
    PrintTwo(6, 3);
  }

  /** The end of the coding of the body, from the third chunk on. */
  function Rest(p: Parts): bytes {
    "26" + CRLF + p.Third() + CRLF + ("30" + CRLF + p.zeros + CRLF + ("e" + CRLF + p.Fifth() + CRLF + ("0" + CRLF + CRLF)))
  }

  lemma BodyCoding(p: Parts)
    requires p.Ok()
    ensures Chunks(p.Body())
    ensures Encode(p.Body()) == "10" + CRLF + p.First() + CRLF + ("1" + CRLF + "2" + CRLF + Rest(p))
    ensures Concat(p.Body()) == p.First() + ("2" + (p.Third() + (p.zeros + p.Fifth())))
  {
    hide Print;
    EncodeNothing();
    EncodeCons(p.Fifth(), []);
    EncodeCons(p.zeros, [p.Fifth()]);
    EncodeCons(p.Third(), [p.zeros] + [p.Fifth()]);
    EncodeCons("2", [p.Third()] + ([p.zeros] + [p.Fifth()]));
    EncodeCons(p.First(), ["2"] + ([p.Third()] + ([p.zeros] + [p.Fifth()])));
    assert [p.Fifth()] + [] == [p.Fifth()] && p.Fifth() + [] == p.Fifth();
    assert p.Body() == [p.First()] + (["2"] + ([p.Third()] + ([p.zeros] + [p.Fifth()])));
    PrintTwo(1, 0);
    PrintTwo(1, 1);
    PrintTwo(2, 6);
    PrintTwo(3, 0);
    PrintTwo(1, 14);
  }

  /** The pieces are a way of cutting the coding of the body. */
  lemma PiecesAreBody(p: Parts)
    requires p.Ok()
    ensures Concat(p.Pieces()) == Encode(p.Body())
  {
    BodyCoding(p);
    FoundCoding(p);
    RestSeen(p);
    FrontSeen(p, Rest(p));
    hide Encode;
    var last := "e" + CRLF + ("0" + CRLF + CRLF);
    var head, middle := "10" + [CR], [LF] + ("1" + CRLF) + p.Seen();
    assert [head][1..] == [] && p.Pieces()[1..] == [middle] + [last] && p.Pieces()[1..][1..] == [last];
    ConcatOne(last);
    assert Concat(p.Pieces()) == head + (middle + last);
    var found := Encode(["26"] + [p.Long()]);
    assert p.Seen() == p.First() + CRLF + found;
    assert found + last == "2" + CRLF + Rest(p);
    assert middle + last == [LF] + ("1" + CRLF) + (p.First() + CRLF + (found + last));
  }

  /** Skipping "1", CR, LF at the beginning of the first chunk is like leaving out the line after it. */
  lemma FrontSeen(p: Parts, rest: bytes)
    requires p.Ok()
    ensures "10" + [CR] + ([LF] + ("1" + CRLF) + (p.First() + CRLF + ("2" + CRLF + rest)))
         == "10" + CRLF + p.First() + CRLF + ("1" + CRLF + "2" + CRLF + rest)
  {
    var head, one, more := "10" + CRLF, "1" + CRLF, "2" + CRLF + rest;
    var first := p.First() + CRLF;
    assert first == p.ones + one;
    assert one + (first + more) == (one + p.ones) + one + more;
    assert first + (one + more) == (p.ones + one) + one + more;
    assert "10" + [CR] + ([LF] + one + (first + more)) == head + (one + (first + more));
    assert head + (first + (one + more)) == head + p.First() + CRLF + (one + more);
    assert one + more == one + "2" + CRLF + rest;
  }

  lemma Joined(a: bytes, b: bytes, c: bytes, tail: bytes, end: bytes)
    ensures a + (b + (c + tail)) + CRLF + (tail + CRLF + end) == a + (b + (c + (tail + CRLF + tail) + CRLF + end))
  {
    var rest := CRLF + (tail + CRLF + end);
    assert a + (b + (c + tail)) + CRLF + (tail + CRLF + end) == a + (b + (c + tail + rest));
    assert c + tail + rest == c + (tail + CRLF + tail) + CRLF + end;
  }

  lemma FoundAssociates(line: bytes, size: bytes, long: bytes, end: bytes, more: bytes)
    ensures line + (size + long + CRLF + end) + more == line + (size + (long + CRLF + (end + more)))
  {
    assert size + long + CRLF + end + more == size + (long + CRLF + (end + more));
  }

  lemma RestAssociates(two: bytes, line: bytes, third: bytes, a: bytes, more: bytes)
    requires third + CRLF == "63" + CRLF + a
    ensures two + (line + third + CRLF + more) == two + line + ("63" + CRLF + (a + more))
  {
    assert line + third + CRLF + more == line + (third + CRLF) + more;
    assert line + ("63" + CRLF + a) + more == line + ("63" + CRLF + (a + more));
  }

  lemma RestSeen(p: Parts)
    requires p.Ok()
    ensures Encode(["26"] + [p.Long()]) + ("e" + CRLF + ("0" + CRLF + CRLF)) == "2" + CRLF + Rest(p)
  {
    FoundCoding(p);
    hide Encode;
    var end, two, line := "0" + CRLF + CRLF, "2" + CRLF, "26" + CRLF;
    var a, b, c := p.threes + "3" + CRLF, "30" + CRLF + p.zeros + CRLF, "e" + CRLF;
    EndSeen();
    Joined(a, b, c, TAIL, end);
    assert p.Third() + CRLF == "63" + CRLF + a;
    var size, more := "63" + CRLF, b + (c + p.Fifth() + CRLF + end);
    FoundAssociates(two + line, size, p.Long(), end, c + end);
    RestAssociates(two, line, p.Third(), a, more);
    assert Encode(["26"] + [p.Long()]) == two + line + (size + p.Long() + CRLF + end);
  }

  lemma EndSeen()
    ensures "0" + CRLF + CRLF + ("e" + CRLF + ("0" + CRLF + CRLF)) == TAIL + CRLF + ("0" + CRLF + CRLF)
  {
  }

  /** Both read the same bytes. */
  lemma SameData(p: Parts)
    requires p.Ok()
    ensures p.First() + ("26" + p.Long()) == p.First() + ("2" + (p.Third() + (p.zeros + p.Fifth())))
  {
    var three, zero := "3" + CRLF, "0" + CRLF;
    var rest := CRLF + ("e" + CRLF + TAIL);
    assert p.Long() == (p.threes + three) + ("3" + ((zero + p.zeros) + rest));
    assert "6" + (three + p.threes) + "3" == p.Third();
    assert p.zeros + p.Fifth() == (p.zeros + zero) + rest;
    assert "26" + p.Long() == "2" + (p.Third() + ((zero + p.zeros) + rest));
  }

  // ---------------------------------------------------------------- the run

  lemma FirstLine()
    ensures var line := "10" + [CR];
            FullLine(line + [LF]) && SizeOf(line + [LF]) == 16 && PartialLine(line) && LF !in line
  {
    hide Print;
    var line := "10" + [CR];
    PrintTwo(1, 0);
    PrintedLine(16);
    assert line + [LF] == "10" + CRLF;
    assert line[..2] == (line + [LF])[..2];
  }

  /** After the first piece the decoder has kept three bytes of the size line. */
  lemma FirstPiece()
    ensures var line := "10" + [CR];
            Process(AsShipped, FRESH, line, 0) == (FRESH.(tmp := line), Returned(false))
            && Feed(START, line) == Progress(SizeLine(line), []) && Live(FRESH.(tmp := line))
  {
    hide Process, Feed, FullLine, PartialLine;
    var line := "10" + [CR];
    FirstLine();
    FeedToLastByte([], line + [LF], []);
    assert (line + [LF])[0..|line + [LF]| - 1] == line && (line + [LF])[..|line + [LF]| - 1] == line;
    assert line[0..] == line && [] + line == line;
    assert Live(FRESH) by {
      StartIsLive();
    }
    SizeTurnWaits(AsShipped, FRESH, line, 0);
  }

  lemma StartIsLive()
    ensures Live(FRESH)
  {
  }

  /** What the code sees then is the body that it finds. */
  lemma SeenDecoded(p: Parts, st: ChunkState)
    requires p.Ok() && st.Valid() && st.size == 16 && st.read == st.ends == 0 && st.data == [] && !st.complete
    ensures Decoded(Process(AsShipped, st, p.Seen(), 0), p.First() + ("26" + p.Long()))
  {
    hide Process, Feed, Encode;
    FoundCoding(p);
    var found := Encode(["26"] + [p.Long()]);
    var start := Progress(Payload(16, 0), []);
    FeedPayload(16, 0, [], p.First());
    assert [] + p.First() == p.First();
    FeedAppend(start, p.First(), CRLF);
    FeedCrlf(16, p.First());
    FeedAppend(start, p.First() + CRLF, found);
    DecodeInvertsEncode(["26"] + [p.Long()], p.First());
    assert p.Seen()[0..] == p.Seen();
    ProcessRefines(AsShipped, st, p.Seen(), 0);
  }

  lemma SecondPiece(p: Parts, later: seq<bytes>)
    requires p.Ok()
    ensures Decoded(RunPieces(AsShipped, FRESH.(tmp := "10" + [CR]), [[LF] + ("1" + CRLF) + p.Seen()] + later),
                    p.First() + ("26" + p.Long()))
  {
    hide Process, Feed, Encode, FullLine;
    FirstPiece();
    FirstLine();
    var st, piece := FRESH.(tmp := "10" + [CR]), [LF] + ("1" + CRLF) + p.Seen();
    assert piece[..1] == [LF] && piece[0..][..1] == [LF];
    var tmp := SizeTurnFinishes(AsShipped, st, piece, 0, 1);
    var st' := st.(size := 16, tmp := tmp);
    GoOnAt(st', piece, 4);
    assert piece[4..] == p.Seen();
    SeenDecoded(p, st');
  }

  /** A body, and a way of cutting it with a bad cut, that the code decodes to the body. */
  lemma BadCutComesOutRight(p: Parts)
    requires p.Ok()
    ensures Chunks(p.Body()) && Concat(p.Pieces()) == Encode(p.Body()) && BadCut(START, p.Pieces())
    ensures Decoded(RunPieces(AsShipped, FRESH, p.Pieces()), Concat(p.Body()))
  {
    hide Process, Feed, Encode, RunPieces, Concat;
    PiecesAreBody(p);
    BodyCoding(p);
    SameData(p);
    FirstPiece();
    var first, second, last := "10" + [CR], [LF] + ("1" + CRLF) + p.Seen(), "e" + CRLF + ("0" + CRLF + CRLF);
    assert p.Pieces() == [first] + ([second] + [last]);
    assert p.Pieces()[1..] == [second] + [last];
    assert RunPieces(AsShipped, FRESH, p.Pieces()) == RunPieces(AsShipped, FRESH.(tmp := first), [second] + [last]) by {
      FirstStep(first, [second] + [last], FRESH.(tmp := first));
    }
    SecondPiece(p, [last]);
    assert second[0] == LF && RunsPast(Progress(SizeLine(first), []), second);
  }

  lemma FirstStep(piece: bytes, later: seq<bytes>, st: ChunkState)
    requires st.Valid() && Process(AsShipped, FRESH, piece, 0) == (st, Returned(false))
    ensures RunPieces(AsShipped, FRESH, [piece] + later) == RunPieces(AsShipped, st, later)
  {
    hide Process;
    assert ([piece] + later)[1..] == later;
  }

  /** There is such a body. */
  lemma CoincidenceExists() returns (p: Parts)
    ensures p.Ok()
  {
    var one, three, zero := "1" + CRLF, "3" + CRLF, "0" + CRLF;
    TimesTurns(one, 5);
    TimesTurns(three, 11);
    TimesTurns(zero, 16);
    hide Times;
    p := Parts(Times(one, 5), Times(three, 11), Times(zero, 16));
  }

  // ---------------------------------------------------------------- a CRLF after the end

  /** An empty body that a CRLF follows, cut before the line feed of its size line: the code skips the
      CRLF of the body and takes the one after it. */
  lemma CrlfAfterEndComesOutRight()
    ensures var pieces := ["0" + [CR]] + [[LF] + CRLF + CRLF];
            Concat(pieces) == Encode([]) + CRLF && BadCut(START, pieces)
            && Decoded(RunPieces(AsShipped, FRESH, pieces), [])
  {
    hide Process, Feed, FullLine, RunPieces, Concat;
    var line, piece := "0" + [CR], [LF] + CRLF + CRLF;
    ZeroLine();
    ZeroPieces();
    var st := FRESH.(tmp := line);
    FirstStep(line, [piece], st);
    assert ([line] + [piece])[1..] == [piece];
    assert piece[0] == LF && RunsPast(Progress(SizeLine(line), []), piece);
    assert piece[0..][..1] == [LF];
    var tmp := SizeTurnFinishes(AsShipped, st, piece, 0, 1);
    var st' := st.(size := 0, tmp := tmp);
    GoOnAt(st', piece, 3);
    assert piece[3..] == CRLF && CRLF[0..] == CRLF;
    FeedCrlf(0, []);
    ProcessRefines(AsShipped, st', CRLF, 0);
    OneRun(st, piece);
  }

  lemma OneRun(st: ChunkState, piece: bytes)
    requires st.Valid() && Process(AsShipped, st, piece, 0).1 != Returned(false)
    ensures RunPieces(AsShipped, st, [piece]) == Process(AsShipped, st, piece, 0)
  {
    hide Process;
  }

  lemma ZeroPieces()
    ensures Concat(["0" + [CR]] + [[LF] + CRLF + CRLF]) == Encode([]) + CRLF
  {
    EncodeNothing();
    var line, piece := "0" + [CR], [LF] + CRLF + CRLF;
    assert ([line] + [piece])[1..] == [piece];
    ConcatOne(piece);
  }

  lemma ZeroLine()
    ensures var line := "0" + [CR];
            Process(AsShipped, FRESH, line, 0) == (FRESH.(tmp := line), Returned(false))
            && Feed(START, line) == Progress(SizeLine(line), []) && Live(FRESH.(tmp := line))
            && FullLine(line + [LF]) && SizeOf(line + [LF]) == 0
  {
    hide Process, Feed;
    var line := "0" + [CR];
    assert Print(0, 16) == "0";
    PrintedLine(0);
    assert line + [LF] == "0" + CRLF;
    FeedToLastByte([], line + [LF], []);
    assert (line + [LF])[0..|line + [LF]| - 1] == line && (line + [LF])[..|line + [LF]| - 1] == line;
    assert line[0..] == line && [] + line == line && line[..1] == "0";
    SizeTurnWaits(AsShipped, FRESH, line, 0);
  }
}
