/**
 The block decoder against the byte-at-a-time reference: when decoding does not depend on the cuts,
 and exactly which cuts break the code as it is.
 */
module ChunkedCorrectness {
  import opened Bytes
  import opened Outcomes
  import opened ChunkedFormat
  import opened ChunkedDecoder

  /** The point of the coding at which a decoder state stands. */
  function Abs(st: ChunkState): Progress
    requires st.Valid()
  {
    Progress(
      if st.complete then Finished(0)
      else if st.size < 0 then SizeLine(st.tmp)
      else if st.read == st.size then Closing(st.size, st.ends)
      else Payload(st.size, st.read),
      st.data)
  }

  /** States that the decoder has while it takes in a well-formed body. */
  predicate Live(st: ChunkState) {
    st.Valid() && !st.complete && (st.size < 0 ==> PartialLine(st.tmp))
  }

  /** The piece starts inside a size line and runs on past the end of that line. */
  predicate RunsPast(p: Progress, piece: bytes) {
    p.phase.SizeLine? && p.phase.line != [] && exists i :: 0 <= i < |piece| - 1 && piece[i] == LF
  }

  // ---------------------------------------------------------------- one turn

  /** What the string functions make of a buffer that starts with a finished size line. */
  lemma ScanFullLine(l: bytes, buffer: bytes)
    requires FullLine(l) && l <= buffer
    ensures Find(CString(buffer), CRLF, 0) == |l| - 2
    ensures Strtoul(CString(buffer), 16) == Parsed(SizeOf(l), |l| - 2, false)
    ensures ToInt32(SizeOf(l)) == SizeOf(l) && 3 <= |l| <= TMPSIZ
  {
    var digits := l[..|l| - 2];
    CStringKeeps(l, buffer);
    var text := CString(buffer);
    var rest := text[|digits|..];
    assert l == digits + CRLF;
    assert text == digits + rest;
    assert rest[0] == CR && rest[1] == LF;
    StrtoulDigits(digits, rest, 16);
    FindAfterDigits(digits, text);
  }

  lemma FindAfterDigits(digits: bytes, text: bytes)
    requires digits + CRLF <= text && forall i :: 0 <= i < |digits| ==> IsDigit(digits[i], 16)
    ensures Find(text, CRLF, 0) == |digits|
  {
    forall i | 0 <= i < |digits|
      ensures !OccursAt(text, CRLF, i)
    {
      assert IsDigit(digits[i], 16) && text[i..i + 2][0] == digits[i];
    }
    assert text[|digits|..|digits| + 2] == CRLF;
    FindIs(text, CRLF, 0, |digits|);
  }

  lemma CStringKeeps(l: bytes, buffer: bytes)
    requires FullLine(l) && l <= buffer
    ensures l <= CString(buffer)
  {
    forall i | 0 <= i < |l|
      ensures buffer[i] != NUL
    {
      assert buffer[i] == l[i];
      assert l[i] == if i < |l| - 2 then l[..|l| - 2][i] else CRLF[i - (|l| - 2)];
      assert i < |l| - 2 ==> IsDigit(l[..|l| - 2][i], 16);
    }
  }

  /** A turn that finishes the size line with the first `n` bytes of what is left. */
  lemma SizeTurnFinishes(v: Version, st: ChunkState, data: bytes, pos: nat, n: nat) returns (tmp: bytes)
    requires Live(st) && st.size < 0 && pos < |data| && 0 < n <= |data| - pos
    requires FullLine(st.tmp + data[pos..][..n])
    ensures |tmp| <= TMPSIZ
    ensures Process(v, st, data, pos)
         == Process(v, st.(size := SizeOf(st.tmp + data[pos..][..n]), tmp := tmp), data,
                    if v.Patched? then pos + n else pos + |st.tmp| + n)
  {
    hide Strtoul, Find, CString, FullLine, PartialLine;
    tmp := Refill(st.tmp, data, pos);
    assert |st.tmp| + n <= TMPSIZ by {
      ScanFullLine(st.tmp + data[pos..][..n], st.tmp + data[pos..][..n]);
    }
    RefillStarts(st.tmp, data, pos, n);
    ScanFullLine(st.tmp + data[pos..][..n], tmp);
  }

  lemma RefillStarts(tmp: bytes, data: bytes, pos: nat, n: nat)
    requires pos + n <= |data| && |tmp| + n <= TMPSIZ
    ensures tmp + data[pos..][..n] <= Refill(tmp, data, pos)
  {
  }

  /** A turn that does not reach the end of the size line. */
  lemma SizeTurnWaits(v: Version, st: ChunkState, data: bytes, pos: nat)
    requires Live(st) && st.size < 0 && pos < |data|
    requires LF !in data[pos..] && PartialLine(st.tmp + data[pos..])
    ensures Process(v, st, data, pos) == (st.(tmp := st.tmp + data[pos..]), Returned(false))
  {
    hide Process, CString, Find, Strtoul, ToInt32;
    var tmp := Refill(st.tmp, data, pos);
    assert data[pos..pos + (|data| - pos)] == data[pos..];
    assert tmp == st.tmp + data[pos..];
    ProcessTurn(v, st, data, pos);
    NoLineFeed(tmp);
    NoCrlfInside(tmp);
  }

  lemma NoCrlfInside(tmp: bytes)
    requires forall i :: 0 <= i && i + 1 < |tmp| ==> tmp[i] != CR || tmp[i + 1] != LF
    ensures Find(CString(tmp), CRLF, 0) < 0
  {
    hide CString, Find, OccursAt;
    var text := CString(tmp);
    CrlfAt(text, Find(text, CRLF, 0));
  }

  lemma CrlfAt(s: bytes, i: int)
    ensures OccursAt(s, CRLF, i) <==> 0 <= i && i + 1 < |s| && s[i] == CR && s[i + 1] == LF
  {
    if 0 <= i && i + 1 < |s| {
      assert s[i..i + 2] == [s[i], s[i + 1]];
    }
  }

  lemma NoLineFeed(l: bytes)
    requires PartialLine(l)
    ensures LF !in l
  {
    forall i | 0 <= i < |l|
      ensures l[i] != LF
    {
      assert l[|l| - 1] == CR && i < |l| - 1 ==> l[i] == l[..|l| - 1][i];
    }
  }

  // ---------------------------------------------------------------- refinement

  /** The result of a call that did what the reference does with the same bytes. */
  ghost predicate Agrees(v: Version, r: (ChunkState, Outcome), p: Progress) {
    match p.phase
    case Unclosed(wrong) => r.1 == Refusal(v, wrong)
    case Finished(_) => r.0.Valid() && r.1 == Returned(true) && r.0.complete && r.0.data == p.data
    case _ => r.0.Valid() && r.1 == Returned(false) && Abs(r.0) == p && Live(r.0)
  }

  /** Refinement: on bytes that the reference accepts, one call of `process` does what the reference
      does byte by byte. As it is, the code needs that the piece does not start inside a size line
      and run on past its end. */
  lemma {:induction false} ProcessRefines(v: Version, st: ChunkState, data: bytes, pos: nat)
    requires Live(st) && pos <= |data| && Sound(Abs(st), data[pos..])
    requires v.Patched? || !RunsPast(Abs(st), data[pos..])
    ensures Agrees(v, Process(v, st, data, pos), Feed(Abs(st), data[pos..]))
    decreases |data| - pos, 1
  {
    if pos == |data| {
    } else if st.size < 0 {
      SizeRefines(v, st, data, pos);
    } else if st.read == st.size {
      ClosingRefines(v, st, data, pos);
    } else {
      PayloadRefines(v, st, data, pos);
    }
  }

  lemma {:induction false} SizeRefines(v: Version, st: ChunkState, data: bytes, pos: nat)
    requires Live(st) && st.size < 0 && pos < |data| && Sound(Abs(st), data[pos..])
    requires v.Patched? || !RunsPast(Abs(st), data[pos..])
    ensures Agrees(v, Process(v, st, data, pos), Feed(Abs(st), data[pos..]))
    decreases |data| - pos, 0
  {
    hide Process, FullLine, PartialLine, Strtoul, Find, CString;
    var s := data[pos..];
    var n := FeedLine(Abs(st), s);
    if n == 0 {
      SizeTurnWaits(v, st, data, pos);
    } else {
      var size := SizeOf(st.tmp + s[..n]);
      var tmp := SizeTurnFinishes(v, st, data, pos, n);
      assert data[pos + n..] == s[n..];
      assert v.AsShipped? && st.tmp != [] ==> n == |s| by {
        assert s[n - 1] == LF;
      }
      AfterLineRefines(v, st.(size := size, tmp := tmp), data, pos + n, if v.Patched? then pos + n else pos + |st.tmp| + n);
    }
  }

  /** Going on after a size line that ends at `pos`, from `next`, which is `pos` unless nothing of
      the piece is left there. */
  lemma {:induction false} AfterLineRefines(v: Version, st: ChunkState, data: bytes, pos: nat, next: nat)
    requires Live(st) && st.size >= 0 && st.read == 0 && st.ends == 0
    requires pos <= |data| && Sound(AfterLine(st.size, st.data), data[pos..])
    requires next == pos || (pos == |data| && next >= pos)
    ensures Agrees(v, Process(v, st, data, next), Feed(AfterLine(st.size, st.data), data[pos..]))
    decreases |data| - pos, 2
  {
    assert Abs(st) == AfterLine(st.size, st.data);
    if pos < |data| {
      ProcessRefines(v, st, data, pos);
    }
  }

  lemma {:induction false} ClosingRefines(v: Version, st: ChunkState, data: bytes, pos: nat)
    requires Live(st) && st.size == st.read && pos < |data| && Sound(Abs(st), data[pos..])
    ensures Agrees(v, Process(v, st, data, pos), Feed(Abs(st), data[pos..]))
    decreases |data| - pos, 0
  {
    hide Feed, Process;
    var s := data[pos..];
    var q := Step(Abs(st), s[0]);
    assert data[pos + 1..] == s[1..];
    FeedFirst(Abs(st), s);
    ProcessTurn(v, st, data, pos);
    if q.phase.Unclosed? {
      MalformedStays(q, s[1..]);
    } else if q.phase.Finished? {
      FinishedStays(q, s[1..]);
    } else {
      ProcessRefines(v, ClosingTurn(v, st, data, pos).st, data, pos + 1);
    }
  }

  lemma FeedFirst(p: Progress, s: bytes)
    requires s != []
    ensures Feed(p, s) == Feed(Step(p, s[0]), s[1..])
  {
  }

  lemma ProcessTurn(v: Version, st: ChunkState, data: bytes, pos: nat)
    requires st.Valid() && pos < |data|
    ensures Process(v, st, data, pos) ==
            match NextTurn(v, st, data, pos)
            case Stop(st', outcome) => (st', outcome)
            case Go(st', pos') => Process(v, st', data, pos')
  {
  }

  lemma {:induction false} PayloadRefines(v: Version, st: ChunkState, data: bytes, pos: nat)
    requires Live(st) && 0 <= st.read < st.size && pos < |data| && Sound(Abs(st), data[pos..])
    ensures Agrees(v, Process(v, st, data, pos), Feed(Abs(st), data[pos..]))
    decreases |data| - pos, 0
  {
    var n := Min(|data| - pos, st.size - st.read);
    var s := data[pos..pos + n];
    assert data[pos..] == s + data[pos + n..];
    FeedPayload(st.size, st.read, st.data, s);
    FeedAppend(Abs(st), s, data[pos + n..]);
    ProcessRefines(v, PayloadTurn(st, data, pos).st, data, pos + n);
  }

  // ---------------------------------------------------------------- pieces

  /** Feeding a body piece by piece until the decoder is complete or gives up, the way the replay
      client does. */
  function RunPieces(v: Version, st: ChunkState, pieces: seq<bytes>): (r: (ChunkState, Outcome))
    requires st.Valid()
    ensures r.0.Valid()
    decreases |pieces|
  {
    if pieces == [] then (st, Returned(false)) else
      var r := Process(v, st, pieces[0], 0);
      if r.1 == Returned(false) then RunPieces(v, r.0, pieces[1..]) else r
  }

  /** Some piece starts inside a size line and runs on past the end of that line. */
  predicate BadCut(p: Progress, pieces: seq<bytes>)
    decreases |pieces|
  {
    pieces != [] && (RunsPast(p, pieces[0]) || BadCut(Feed(p, pieces[0]), pieces[1..]))
  }

  /** However a well-formed body, or a part of one, is cut, the decoder ends where the reference
      ends on the uncut bytes. As it is, the code needs that there is no bad cut. */
  lemma {:induction false} PiecesRefine(v: Version, st: ChunkState, pieces: seq<bytes>)
    requires Live(st) && Sound(Abs(st), Concat(pieces))
    requires v.Patched? || !BadCut(Abs(st), pieces)
    ensures Agrees(v, RunPieces(v, st, pieces), Feed(Abs(st), Concat(pieces)))
    decreases |pieces|
  {
    if pieces != [] {
      var piece, rest := pieces[0], Concat(pieces[1..]);
      SoundPrefix(Abs(st), piece, rest);
      FeedAppend(Abs(st), piece, rest);
      assert piece[0..] == piece;
      ProcessRefines(v, st, piece, 0);
      var q := Feed(Abs(st), piece);
      if q.phase.Finished? {
        FinishedStays(q, rest);
      } else if q.phase.Unclosed? {
        MalformedStays(q, rest);
      } else {
        PiecesRefine(v, Process(v, st, piece, 0).0, pieces[1..]);
      }
    }
  }

  /** Two ways of cutting the same body give the same result. */
  lemma CutsDoNotMatter(v: Version, pieces: seq<bytes>, others: seq<bytes>)
    requires Concat(pieces) == Concat(others) && Sound(START, Concat(pieces))
    requires v.Patched? || (!BadCut(START, pieces) && !BadCut(START, others))
    ensures var r, q := RunPieces(v, FRESH, pieces), RunPieces(v, FRESH, others);
            r.1 == q.1 && (r.1.Returned? ==> Abs(r.0) == Abs(q.0) && r.0.data == q.0.data)
  {
    PiecesRefine(v, FRESH, pieces);
    PiecesRefine(v, FRESH, others);
  }

  /** Every way of cutting a coding of a list of chunks, however their sizes are written and whatever
      follows it, decodes to the chunks. */
  lemma PiecesDecode(v: Version, sizes: seq<bytes>, chunks: seq<bytes>, more: bytes, pieces: seq<bytes>)
    requires Spelled(sizes, chunks) && Concat(pieces) == Coding(sizes, chunks) + more
    requires v.Patched? || !BadCut(START, pieces)
    ensures RunPieces(v, FRESH, pieces).1 == Returned(true)
    ensures RunPieces(v, FRESH, pieces).0.data == Concat(chunks)
  {
    hide Feed, Coding, Spells, RunPieces, BadCut;
    CodingThenMore(sizes, chunks, more);
    PiecesRefine(v, FRESH, pieces);
  }

  /** ... and does not report completion on anything less, however that is cut. */
  lemma NeverCompleteEarly(v: Version, sizes: seq<bytes>, chunks: seq<bytes>, pieces: seq<bytes>, k: nat)
    requires Spelled(sizes, chunks) && k < |Coding(sizes, chunks)| && Concat(pieces) == Coding(sizes, chunks)[..k]
    requires v.Patched? || !BadCut(START, pieces)
    ensures RunPieces(v, FRESH, pieces).1 == Returned(false) && !RunPieces(v, FRESH, pieces).0.complete
  {
    hide Feed, Coding, Spells, RunPieces, BadCut;
    var s := Coding(sizes, chunks);
    DecodeInvertsCoding(sizes, chunks, []);
    assert s == s[..k] + s[k..];
    SoundPrefix(START, s[..k], s[k..]);
    FinishesLater(START, s[..k], s[k..]);
    NotFinishedEarly(sizes, chunks, k);
    PiecesRefine(v, FRESH, pieces);
  }

  /** A chunk that is not followed by CRLF stops the decoder, however the bytes are cut and whatever
      comes after it: the corrected one with an exception; the code as it is with an exception if and
      only if the wrong byte is at most 30, and else with reading from behind a literal. */
  lemma UnclosedChunkStops(v: Version, sizes: seq<bytes>, chunks: seq<bytes>, size: bytes, chunk: bytes, wrong: bytes,
                           rest: bytes, pieces: seq<bytes>)
    requires Chunks(chunks) && SizesOf(sizes, chunks) && |chunk| <= MAX_CHUNK && Spells(size, |chunk|)
    requires (|wrong| == 1 && wrong[0] != CR) || (|wrong| == 2 && wrong[0] == CR && wrong[1] != LF)
    requires Concat(pieces) == Lines(sizes, chunks) + (size + CRLF + chunk) + wrong + rest
    requires v.Patched? || !BadCut(START, pieces)
    ensures !RunPieces(v, FRESH, pieces).1.Returned?
    ensures RunPieces(v, FRESH, pieces).1 == Threw <==> v.Patched? || wrong[|wrong| - 1] as nat <= 30
    ensures v.AsShipped? && wrong[|wrong| - 1] as nat > 30 ==> RunPieces(v, FRESH, pieces).1 == LiteralOverrun
  {
    hide Feed, RunPieces, BadCut, Lines, Spells;
    UnclosedIsSeen(sizes, chunks, size, chunk, wrong, rest);
    PiecesRefine(v, FRESH, pieces);
  }

  /** A chunk "a" that is followed by "b". */
  lemma UnclosedExample()
    ensures RunPieces(AsShipped, FRESH, ["1\r\nab"]).1 == LiteralOverrun
    ensures RunPieces(Patched, FRESH, ["1\r\nab"]).1 == Threw
  {
    hide Feed, RunPieces, BadCut, Lines, Spells;
    var piece: bytes := "1\r\nab";
    var pieces: seq<bytes> := [piece];
    ExampleText();
    ConcatOne(piece);
    OnePiece(piece);
    UnclosedChunkStops(AsShipped, [], [], "1", "a", "b", [], pieces);
    UnclosedChunkStops(Patched, [], [], "1", "a", "b", [], pieces);
  }

  lemma ExampleText()
    ensures Lines([], []) + ("1" + CRLF + "a") + "b" + [] == "1\r\nab" && Spells("1", 1)
  {
    NumberOne();
    assert Lines([], []) == [];
  }

  lemma NumberOne()
    ensures Number("1", 16) == 1
  {
    NumberSnoc([], '1', 16);
    assert [] + ['1'] == "1";
  }

  lemma OnePiece(piece: bytes)
    ensures !BadCut(START, [piece])
  {
    assert [piece][1..] == [];
  }

  // ---------------------------------------------------------------- lines that are no size lines

  /** A decoder that waits for a size line and has nothing of it. */
  predicate AtLineStart(st: ChunkState) {
    st.Valid() && st.size < 0 && st.tmp == []
  }

  /** What the string functions see of a piece that ends a line at `k`. */
  lemma LineInBuffer(piece: bytes, k: nat)
    requires k + 2 <= |piece| && k + 2 <= 1024 && piece[k] == CR && piece[k + 1] == LF && NUL !in piece[..k]
    ensures var t := CString(Refill([], piece, 0)); piece[..k + 2] <= t <= piece && Find(t, CRLF, 0) >= 0
  {
    var r := Refill([], piece, 0);
    assert r == piece[..Min(|piece|, 1024)];
    var t := CString(r);
    assert t == piece[..|t|];
    assert |t| >= k + 2;
    assert t[k..k + 2] == CRLF;
    assert OccursAt(t, CRLF, k);
  }

  /** A line without a number is refused: one that starts with anything but a digit, a sign or white space. */
  lemma NoNumberThrows(v: Version, st: ChunkState, piece: bytes, k: nat)
    requires AtLineStart(st)
    requires k + 2 <= |piece| && k + 2 <= 1024 && piece[k] == CR && piece[k + 1] == LF && NUL !in piece[..k]
    requires piece[0] !in "0123456789abcdefABCDEF" && !IsSpace(piece[0]) && piece[0] != '+' && piece[0] != '-'
    ensures Process(v, st, piece, 0).1 == Threw
  {
    hide CString, Find, Strtoul, IsSpace, IsDigit, Process;
    LineInBuffer(piece, k);
    var t := CString(Refill([], piece, 0));
    assert t[0] == piece[0];
    IsDigitExactly(t[0]);
    StrtoulNothing([], [], t, 16);
    assert [] + ([] + t) == t;
    ProcessTurn(v, st, piece, 0);
  }

  /** So are 1024 bytes without the end of a line; fewer are kept, whatever they are. */
  lemma NoLineEnd(v: Version, st: ChunkState, piece: bytes)
    requires AtLineStart(st) && piece != []
    requires forall k :: 0 <= k && k + 1 < |piece| && k + 1 < 1024 ==> piece[k] != CR || piece[k + 1] != LF
    ensures if |piece| >= 1024 then Process(v, st, piece, 0).1 == Threw
            else Process(v, st, piece, 0) == (st.(tmp := piece), Returned(false))
  {
    hide CString, Find, Strtoul, Process;
    var r := Refill([], piece, 0);
    assert r == piece[..Min(|piece|, 1024)];
    assert piece[..|piece|] == piece;
    NoCrlfInside(r);
    ProcessTurn(v, st, piece, 0);
  }

  /** A size and something that is not CRLF before the end of its line, such as a chunk extension: the size
      is taken, and the decoder goes on two bytes after its digits, whatever these bytes are. A size that
      does not fit an `int` is taken as the conversion leaves it; the corrected decoder refuses it. */
  lemma SizeTaken(v: Version, st: ChunkState, size: bytes, n: nat, rest: bytes, k: nat)
    requires AtLineStart(st) && Spells(size, n)
    requires rest != [] && rest[0] !in "0123456789abcdefABCDEFxX"
    requires var piece := size + rest;
             k + 2 <= |piece| && k + 2 <= 1024 && piece[k] == CR && piece[k + 1] == LF && NUL !in piece[..k]
    ensures v.Patched? && n > 0x7FFF_FFFF ==> Process(v, st, size + rest, 0).1 == Threw
    ensures v.AsShipped? || n <= 0x7FFF_FFFF ==>
              Process(v, st, size + rest, 0)
              == Process(v, st.(size := ToInt32(Signed([], n)), tmp := Refill([], size + rest, 0)), size + rest, |size| + 2)
  {
    hide CString, Find, Strtoul, Process, NextTurn, ToInt32, Spells, Refill;
    LineInBuffer(size + rest, k);
    SizeScanned(size, n, rest, k);
    FirstSizeTurn(v, st, size + rest);
    ProcessTurn(v, st, size + rest, 0);
  }

  lemma FirstSizeTurn(v: Version, st: ChunkState, piece: bytes)
    requires AtLineStart(st) && piece != []
    ensures var t := CString(Refill([], piece, 0));
            var parsed := Strtoul(t, 16);
            Find(t, CRLF, 0) >= 0 ==>
              NextTurn(v, st, piece, 0) ==
              if parsed.end == 0 || (v.Patched? && parsed.value > 0x7FFF_FFFF) then Stop(st, Threw)
              else Go(st.(size := ToInt32(parsed.value), tmp := Refill([], piece, 0)), parsed.end + 2)
  {
    hide CString, Find, Strtoul, ToInt32;
  }

  lemma SizeScanned(size: bytes, n: nat, rest: bytes, k: nat)
    requires Spells(size, n) && rest != [] && rest[0] !in "0123456789abcdefABCDEFxX"
    requires k + 2 <= |size + rest| && (size + rest)[k] == CR
    requires (size + rest)[..k + 2] <= CString(Refill([], size + rest, 0)) <= size + rest
    ensures var parsed := Strtoul(CString(Refill([], size + rest, 0)), 16);
            parsed.value == Signed([], n) && parsed.end == |size| > 0
  {
    hide CString, Strtoul, IsDigit, Number;
    var t := CString(Refill([], size + rest, 0));
    SizeInLine(size, rest, k);
    var more := t[|size|..];
    assert t == size + more && more[0] == rest[0];
    SpelledDigits(size, n);
    IsDigitExactly(more[0]);
    StrtoulRead([], [], [], size, more, 16);
    assert [] + ([] + ([] + (size + more))) == t;
  }

  /** The digits end before the line does. */
  lemma SizeInLine(size: bytes, rest: bytes, k: nat)
    requires forall i :: 0 <= i < |size| ==> size[i] in "0123456789abcdefABCDEF"
    requires k + 2 <= |size + rest| && (size + rest)[k] == CR
    ensures |size| <= k
  {
  }

  lemma SpelledDigits(size: bytes, n: nat)
    requires Spells(size, n)
    ensures size != [] && AllDigits(size, 16)
  {
    hide IsDigit, Number;
    forall i | 0 <= i < |size|
      ensures IsDigit(size[i], 16)
    {
      IsDigitExactly(size[i]);
    }
  }
}
