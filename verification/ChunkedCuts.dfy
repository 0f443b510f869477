/**
 Exactly which ways of cutting a chunked body the code as it is gets right.

 When a piece starts inside a size line and runs on past the end of that line, `process` advances by
 the length of the whole line instead of the part that is new, and so skips as many bytes after the
 line as it had kept from earlier pieces, as far as the piece has them. The result is right only if
 what follows the line misleads the code: shifted by so many bytes, the payload runs into the size
 line after it and still reads the same. Otherwise the absence of such a cut is not only sufficient but
 also necessary.
 */
module ChunkedCuts {
  import opened Bytes
  import opened Outcomes
  import opened ChunkedFormat
  import opened ChunkedDecoder
  import opened ChunkedCorrectness

  /** The first `size` bytes come again `k` bytes later. */
  predicate EchoesAt(w: bytes, size: nat, k: nat) {
    size + k <= |w| && w[..size] == w[k..k + size]
  }

  /** What follows the size line of a chunk, or of the end of the body, and the number of bytes skipped:
      whether the code can go on as if nothing had happened. */
  predicate Misleads(w: bytes, size: nat, k: nat) {
    if size == 0 then 2 <= k < |w| && w[k] == CR else 3 <= k && EchoesAt(w, size, k)
  }

  /** The piece starts behind the part `line` of a size line and runs on past its end, and what follows
      misleads the code. */
  predicate MisledBy(line: bytes, piece: bytes, more: bytes) {
    var n := Find(piece, [LF], 0) + 1;
    && 0 < n <= |piece| && FullLine(line + piece[..n])
    && Misleads(piece[n..] + more, SizeOf(line + piece[..n]), Min(|piece| - n, |line|))
  }

  /** So it is at the first bad cut. */
  predicate Misled(p: Progress, pieces: seq<bytes>)
    decreases |pieces|
  {
    pieces != [] &&
    if RunsPast(p, pieces[0]) then MisledBy(p.phase.line, pieces[0], Concat(pieces[1..]))
    else Misled(Feed(p, pieces[0]), pieces[1..])
  }

  // ---------------------------------------------------------------- bodies that never mislead

  ghost predicate SomeMisleads(w: bytes, size: nat, limit: nat) {
    exists k: nat :: k <= limit && Misleads(w, size, k)
  }

  /** Nowhere in the rest of a body does what follows a size line mislead the code. */
  ghost predicate Clear(p: Progress, s: bytes)
    decreases |s|
  {
    s == [] ||
    var q := Step(p, s[0]);
    && (p.phase.SizeLine? && q.phase.Payload? ==> !SomeMisleads(s[1..], q.phase.size, |p.phase.line|))
    && (p.phase.SizeLine? && q.phase.Closing? ==> !SomeMisleads(s[1..], q.phase.size, |p.phase.line|))
    && Clear(q, s[1..])
  }

  lemma {:induction false} ClearLater(p: Progress, a: bytes, b: bytes)
    requires Clear(p, a + b)
    ensures Clear(Feed(p, a), b)
    decreases |a|
  {
    if a == [] {
      assert a + b == b;
    } else {
      assert (a + b)[1..] == a[1..] + b;
      ClearLater(Step(p, a[0]), a[1..], b);
    }
  }

  // ---------------------------------------------------------------- what the reference sees

  /** The reference only ever adds to the data. */
  lemma {:induction false} FeedGrows(p: Progress, s: bytes)
    ensures p.data <= Feed(p, s).data
    decreases |s|
  {
    if s != [] {
      FeedGrows(Step(p, s[0]), s[1..]);
    }
  }

  /** A chunk that is decoded to the end of the body: its bytes are next in the final data, and a
      CRLF and another size line follow them. */
  lemma ChunkAhead(size: nat, data: bytes, w: bytes)
    requires size > 0 && Feed(Progress(Payload(size, 0), data), w).phase.Finished?
    ensures |w| >= size + 3 && w[size] == CR && w[size + 1] == LF && w[size + 2] != CR
    ensures data + w[..size] <= Feed(Progress(Payload(size, 0), data), w).data
  {
    hide Feed, Step;
    if |w| < size {
      FeedPayload(size, 0, data, w);
    } else {
      var rest := w[size..];
      var q := Progress(Closing(size, 0), data + w[..size]);
      PayloadFed(size, data, w);
      FeedGrows(q, rest);
      ClosingAhead(q, rest);
      assert w[size] == rest[0] && w[size + 1] == rest[1] && w[size + 2] == rest[2];
    }
  }

  lemma PayloadFed(size: nat, data: bytes, w: bytes)
    requires 0 < size <= |w|
    ensures Feed(Progress(Payload(size, 0), data), w) == Feed(Progress(Closing(size, 0), data + w[..size]), w[size..])
  {
    hide Feed, Step;
    FeedPayload(size, 0, data, w[..size]);
    assert w == w[..size] + w[size..];
    FeedAppend(Progress(Payload(size, 0), data), w[..size], w[size..]);
  }

  lemma ClosingAhead(p: Progress, w: bytes)
    requires p.phase.Closing? && p.phase.seen == 0 && Feed(p, w).phase.Finished?
    ensures |w| >= 2 && w[0] == CR && w[1] == LF
    ensures p.phase.size > 0 ==> |w| >= 3 && w[2] != CR
    ensures p.phase.size == 0 ==> |w| == 2 + Feed(p, w).phase.extra
  {
    var q := Step(p, w[0]);
    if q.phase.Unclosed? {
      MalformedStays(q, w[1..]);
    }
    var t := Step(q, w[1..][0]);
    if t.phase.Unclosed? {
      MalformedStays(t, w[1..][1..]);
    }
    assert w[1..][1..] == w[2..];
    if t.phase.Finished? {
      FinishedStays(t, w[2..]);
    } else {
      LineAhead(t, w[2..]);
    }
  }

  /** A size line does not begin with CR. */
  lemma LineAhead(p: Progress, w: bytes)
    requires p.phase == SizeLine([]) && Feed(p, w).phase.Finished?
    ensures w != [] && w[0] != CR
  {
    if w != [] && w[0] == CR {
      MalformedStays(Step(p, w[0]), w[1..]);
    }
  }

  lemma LineSpells(l: bytes)
    requires FullLine(l)
    ensures l == l[..|l| - 2] + CRLF && Spells(l[..|l| - 2], SizeOf(l)) && SizeOf(l) <= MAX_CHUNK
  {
    hide Value, Number, IsDigit;
    var size := l[..|l| - 2];
    ValueIsNumber(size, 16);
    forall i | 0 <= i < |size|
      ensures size[i] in "0123456789abcdefABCDEF"
    {
      IsDigitExactly(size[i]);
    }
  }

  /** What the reference finishes on begins with a size line. */
  lemma SizeAhead(data: bytes, s: bytes) returns (size: bytes, k: nat, w: bytes)
    requires Feed(Progress(SizeLine([]), data), s).phase.Finished?
    ensures s == size + CRLF + w && Spells(size, k) && k <= MAX_CHUNK && |w| < |s|
    ensures Feed(AfterLine(k, data), w).phase.Finished?
  {
    hide Feed, FullLine, Spells, SizeOf;
    var n := FeedLine(Progress(SizeLine([]), data), s);
    var l := s[..n];
    assert [] + l == l;
    LineSpells(l);
    size, k, w := l[..n - 2], SizeOf(l), s[n..];
    assert s == l + w;
  }

  /** What the reference finishes on is a coding, and anything after it. */
  lemma {:induction false} FinishedIsCoding(data: bytes, s: bytes) returns (sizes: seq<bytes>, chunks: seq<bytes>, more: bytes)
    requires Feed(Progress(SizeLine([]), data), s).phase.Finished?
    ensures Spelled(sizes, chunks) && s == Coding(sizes, chunks) + more
    decreases |s|
  {
    hide Feed, Spells, Coding;
    var size, k, w := SizeAhead(data, s);
    if k == 0 {
      ClosingAhead(AfterLine(0, data), w);
      sizes, chunks, more := [size], [], w[2..];
      assert w == CRLF + more;
      LastLine(size, more);
    } else {
      NextChunk(k, data, w);
      var c, rest := w[..k], w[k + 2..];
      sizes, chunks, more := FinishedIsCoding(data + c, rest);
      OneChunkMore(size, c, sizes, chunks, more);
      sizes, chunks := [size] + sizes, [c] + chunks;
    }
  }

  /** A chunk, its CRLF, and the next size line. */
  lemma NextChunk(size: nat, data: bytes, w: bytes)
    requires size > 0 && Feed(Progress(Payload(size, 0), data), w).phase.Finished?
    ensures |w| >= size + 2 && w == w[..size] + CRLF + w[size + 2..]
    ensures Feed(Progress(SizeLine([]), data + w[..size]), w[size + 2..]).phase.Finished?
  {
    hide Feed, Step;
    ChunkAhead(size, data, w);
    PayloadFed(size, data, w);
    CrlfInside(w, size);
    FeedAppend(Progress(Closing(size, 0), data + w[..size]), CRLF, w[size + 2..]);
    FeedCrlf(size, data + w[..size]);
  }

  lemma CrlfInside(w: bytes, at: nat)
    requires at + 2 <= |w| && w[at] == CR && w[at + 1] == LF
    ensures w[at..] == CRLF + w[at + 2..] && w == w[..at] + CRLF + w[at + 2..]
  {
    assert w == w[..at] + w[at..at + 2] + w[at + 2..];
    assert w[at..at + 2] == CRLF;
  }

  lemma LastLine(size: bytes, more: bytes)
    requires Spells(size, 0)
    ensures Spelled([size], []) && size + CRLF + (CRLF + more) == Coding([size], []) + more
  {
  }

  lemma OneChunkMore(size: bytes, c: bytes, sizes: seq<bytes>, chunks: seq<bytes>, more: bytes)
    requires Spells(size, |c|) && 1 <= |c| <= MAX_CHUNK && Spelled(sizes, chunks)
    ensures Spelled([size] + sizes, [c] + chunks)
    ensures size + CRLF + (c + CRLF + (Coding(sizes, chunks) + more)) == Coding([size] + sizes, [c] + chunks) + more
  {
    hide Spells;
    assert ([size] + sizes)[1..] == sizes && ([c] + chunks)[1..] == chunks;
    var last := sizes[|chunks|] + CRLF + CRLF;
    LinesThen([size] + sizes, [c] + chunks, last);
    Associates(size + CRLF + c + CRLF, Coding(sizes, chunks), more);
    assert size + CRLF + (c + CRLF + (Coding(sizes, chunks) + more)) == size + CRLF + c + CRLF + (Coding(sizes, chunks) + more);
  }

  /** The reference finishes exactly on the codings of section 7.1 of RFC 9112, whatever follows them. */
  lemma FinishesExactly(s: bytes)
    ensures Feed(START, s).phase.Finished?
        <==> exists sizes, chunks, more :: Spelled(sizes, chunks) && s == Coding(sizes, chunks) + more
  {
    hide Feed, Coding, Spells;
    if Feed(START, s).phase.Finished? {
      var sizes, chunks, more := FinishedIsCoding([], s);
    }
    forall sizes, chunks, more | Spelled(sizes, chunks) && s == Coding(sizes, chunks) + more
      ensures Feed(START, s).phase.Finished?
    {
      CodingThenMore(sizes, chunks, more);
    }
  }

  // ---------------------------------------------------------------- what the code does

  /** `process` from a position on is `process` on what is left of the piece. */
  lemma {:induction false} ProcessShift(v: Version, st: ChunkState, data: bytes, base: nat, pos: nat)
    requires st.Valid() && base <= pos && base <= |data|
    ensures Process(v, st, data, pos) == Process(v, st, data[base..], pos - base)
    decreases |data| - pos
  {
    hide NextTurn;
    if pos < |data| {
      TurnShift(v, st, data, base, pos);
      var turn := NextTurn(v, st, data, pos);
      if turn.Go? {
        ProcessShift(v, turn.st, data, base, turn.pos);
      }
    }
  }

  function Moved(turn: Turn, base: nat): Turn {
    if turn.Go? && turn.pos >= base then Go(turn.st, turn.pos - base) else turn
  }

  lemma TurnShift(v: Version, st: ChunkState, data: bytes, base: nat, pos: nat)
    requires st.Valid() && base <= pos < |data|
    ensures NextTurn(v, st, data[base..], pos - base) == Moved(NextTurn(v, st, data, pos), base)
  {
    if st.size < 0 {
      SizeTurnShift(v, st, data, base, pos);
    } else if st.read < st.size {
      var n := Min(|data| - pos, st.size - st.read);
      assert data[base..][pos - base..pos - base + n] == data[pos..pos + n];
    }
  }

  lemma SizeTurnShift(v: Version, st: ChunkState, data: bytes, base: nat, pos: nat)
    requires st.Valid() && st.size < 0 && base <= pos < |data|
    ensures SizeTurn(v, st, data[base..], pos - base) == Moved(SizeTurn(v, st, data, pos), base)
  {
    hide Strtoul, Find, CString, ToInt32, Refill;
    assert Refill(st.tmp, data[base..], pos - base) == Refill(st.tmp, data, pos) by {
      RefillShift(st.tmp, data, base, pos);
    }
  }

  lemma RefillShift(tmp: bytes, data: bytes, base: nat, pos: nat)
    requires |tmp| <= TMPSIZ && base <= pos <= |data|
    ensures Refill(tmp, data[base..], pos - base) == Refill(tmp, data, pos)
  {
    var n := Min(|data| - pos, TMPSIZ - |tmp|);
    assert data[base..][pos - base..pos - base + n] == data[pos..pos + n];
  }

  /** The decoder only ever adds to its data. */
  lemma {:induction false} ProcessGrows(v: Version, st: ChunkState, data: bytes, pos: nat)
    requires st.Valid()
    ensures st.data <= Process(v, st, data, pos).0.data
    decreases |data| - pos
  {
    if pos < |data| {
      var turn := NextTurn(v, st, data, pos);
      assert st.data <= turn.st.data;
      if turn.Go? {
        ProcessGrows(v, turn.st, data, turn.pos);
      }
    }
  }

  lemma {:induction false} PiecesGrow(v: Version, st: ChunkState, pieces: seq<bytes>)
    requires st.Valid()
    ensures st.data <= RunPieces(v, st, pieces).0.data
    decreases |pieces|
  {
    if pieces != [] {
      var r := Process(v, st, pieces[0], 0);
      ProcessGrows(v, st, pieces[0], 0);
      if r.1 == Returned(false) {
        PiecesGrow(v, r.0, pieces[1..]);
      }
    }
  }

  /** One call that starts inside a chunk takes payload first, and then wants a CR. */
  lemma PayloadCall(v: Version, st: ChunkState, piece: bytes)
    requires st.Valid() && 0 <= st.read < st.size
    ensures var r, missing := Process(v, st, piece, 0), st.size - st.read;
            if |piece| < missing then
              r == (st.(data := st.data + piece, read := st.read + |piece|), Returned(false))
            else
              && st.data + piece[..missing] <= r.0.data
              && (|piece| == missing ==> r == (st.(data := st.data + piece, read := st.size), Returned(false)))
              && (|piece| > missing && piece[missing] != CR ==> !r.1.Returned?)
  {
    if piece == [] {
      assert st.(data := st.data + piece, read := st.read + |piece|) == st;
    } else {
      var n := Min(|piece|, st.size - st.read);
      var st' := st.(data := st.data + piece[..n], read := st.read + n);
      assert piece[0..0 + n] == piece[..n];
      assert Process(v, st, piece, 0) == Process(v, st', piece, n);
      if n == |piece| {
        assert piece[..n] == piece;
      }
      ProcessGrows(v, st', piece, n);
    }
  }

  /** A run that completes from the end of a chunk is given a CR next. */
  lemma {:induction false} CrTaken(v: Version, st: ChunkState, pieces: seq<bytes>)
    requires st.Valid() && st.read == st.size && st.ends == 0
    requires RunPieces(v, st, pieces).1 == Returned(true)
    ensures Concat(pieces) != [] && Concat(pieces)[0] == CR
    decreases |pieces|
  {
    if pieces[0] == [] {
      CrTaken(v, st, pieces[1..]);
    }
  }

  /** A run that completes from inside a chunk has taken the missing payload from the next bytes,
      whatever they are, and was given a CR after them. */
  lemma {:induction false} PayloadTaken(v: Version, st: ChunkState, pieces: seq<bytes>)
    requires st.Valid() && 0 <= st.read < st.size
    requires RunPieces(v, st, pieces).1 == Returned(true)
    ensures var missing := st.size - st.read;
            missing < |Concat(pieces)| && Concat(pieces)[missing] == CR
            && st.data + Concat(pieces)[..missing] <= RunPieces(v, st, pieces).0.data
    decreases |pieces|
  {
    hide Process;
    var piece, rest := pieces[0], Concat(pieces[1..]);
    var missing := st.size - st.read;
    var r := Process(v, st, piece, 0);
    PayloadCall(v, st, piece);
    if |piece| < missing {
      PayloadTaken(v, r.0, pieces[1..]);
      assert (piece + rest)[..missing] == piece + rest[..missing - |piece|];
      assert st.data + piece + rest[..missing - |piece|] == st.data + (piece + rest[..missing - |piece|]);
    } else {
      assert (piece + rest)[..missing] == piece[..missing];
      if |piece| == missing {
        CrTaken(v, r.0, pieces[1..]);
      }
      if r.1 == Returned(false) {
        PiecesGrow(v, r.0, pieces[1..]);
      }
    }
  }

  // ---------------------------------------------------------------- the cut that loses bytes

  /** The run succeeded: complete, with this data. */
  predicate Decoded(r: (ChunkState, Outcome), data: bytes) {
    r.1 == Returned(true) && r.0.data == data
  }

  /** At a bad cut the code goes on as if the bytes that it skips were not there: as many as it had
      kept of the size line, as far as the piece has them. */
  lemma BadCutSkips(st: ChunkState, piece: bytes, later: seq<bytes>) returns (n: nat, st': ChunkState, seen: seq<bytes>)
    requires Live(st) && Sound(Abs(st), piece) && RunsPast(Abs(st), piece)
    ensures 0 < n < |piece| && FullLine(st.tmp + piece[..n]) && n == Find(piece, [LF], 0) + 1
    ensures Feed(Abs(st), piece) == Feed(AfterLine(SizeOf(st.tmp + piece[..n]), st.data), piece[n..])
    ensures st'.Valid() && st'.size == SizeOf(st.tmp + piece[..n]) && st'.read == st'.ends == 0 && st'.data == st.data
    ensures RunPieces(AsShipped, st, [piece] + later) == RunPieces(AsShipped, st', seen)
    ensures seen == [piece[Min(|piece|, n + |st.tmp|)..]] + later
    ensures Concat(seen) == piece[Min(|piece|, n + |st.tmp|)..] + Concat(later)
  {
    hide FullLine, PartialLine, Feed, Process, RunsPast;
    n := LineEndInside(st, piece);
    assert piece[0..][..n] == piece[..n];
    var tmp := SizeTurnFinishes(AsShipped, st, piece, 0, n);
    st' := st.(size := SizeOf(st.tmp + piece[..n]), tmp := tmp);
    var next := Min(|piece|, n + |st.tmp|);
    GoOnAt(st', piece, n + |st.tmp|);
    seen := [piece[next..]] + later;
    assert ([piece] + later)[1..] == later && seen[1..] == later;
  }

  lemma LineEndInside(st: ChunkState, piece: bytes) returns (n: nat)
    requires Live(st) && Sound(Abs(st), piece) && RunsPast(Abs(st), piece)
    ensures 0 < n < |piece| && st.size < 0 && FullLine(st.tmp + piece[..n]) && n == Find(piece, [LF], 0) + 1
    ensures Feed(Abs(st), piece) == Feed(AfterLine(SizeOf(st.tmp + piece[..n]), st.data), piece[n..])
  {
    hide FullLine, PartialLine, Feed;
    n := FeedLine(Abs(st), piece);
    forall j | 0 <= j < n - 1
      ensures piece[j] != LF
    {
      assert piece[j] == piece[..n - 1][j];
    }
    FirstLineFeed(piece, n - 1);
  }

  lemma FirstLineFeed(s: bytes, at: nat)
    requires at < |s| && s[at] == LF && forall j :: 0 <= j < at ==> s[j] != LF
    ensures Find(s, [LF], 0) == at
  {
    forall i | 0 <= i < at
      ensures !OccursAt(s, [LF], i)
    {
      assert s[i..i + 1][0] == s[i];
    }
    assert s[at..at + 1] == [LF];
    FindIs(s, [LF], 0, at);
  }

  /** Going on at a position of the piece, or leaving the call when that is past its end. */
  lemma GoOnAt(st: ChunkState, piece: bytes, pos: nat)
    requires st.Valid()
    ensures Process(AsShipped, st, piece, pos) == Process(AsShipped, st, piece[Min(|piece|, pos)..], 0)
  {
    hide NextTurn;
    if pos <= |piece| {
      ProcessShift(AsShipped, st, piece, pos, pos);
    }
  }

  /** After a bad cut the code never completes with the data of the body, unless what follows the size
      line misleads it. */
  lemma BadCutLoses(st: ChunkState, piece: bytes, later: seq<bytes>)
    requires Live(st) && RunsPast(Abs(st), piece)
    requires Feed(Abs(st), piece + Concat(later)).phase.Finished?
    requires !MisledBy(st.tmp, piece, Concat(later))
    ensures !Decoded(RunPieces(AsShipped, st, [piece] + later), Feed(Abs(st), piece + Concat(later)).data)
  {
    hide Feed, FullLine, PartialLine, RunPieces, Find, Misleads, MisledBy;
    SoundPrefix(Abs(st), piece, Concat(later));
    var n, st', seen := BadCutSkips(st, piece, later);
    var w := piece[n..] + Concat(later);
    var skipped := Min(|piece| - n, |st.tmp|);
    SamePieceThenRest(Abs(st), AfterLine(st'.size, st.data), piece, n, Concat(later));
    assert piece[n + skipped..] + Concat(later) == w[skipped..];
    NotMisledAt(st.tmp, piece, Concat(later), n);
    Shifted(st', seen, w, skipped);
  }

  lemma SamePieceThenRest(p: Progress, q: Progress, piece: bytes, n: nat, later: bytes)
    requires n <= |piece| && Feed(p, piece) == Feed(q, piece[n..])
    ensures Feed(p, piece + later) == Feed(q, piece[n..] + later)
  {
    hide Feed;
    FeedAppend(p, piece, later);
    FeedAppend(q, piece[n..], later);
  }

  lemma NotMisledAt(line: bytes, piece: bytes, more: bytes, n: nat)
    requires !MisledBy(line, piece, more) && n == Find(piece, [LF], 0) + 1
    requires 0 < n <= |piece| && FullLine(line + piece[..n])
    ensures !Misleads(piece[n..] + more, SizeOf(line + piece[..n]), Min(|piece| - n, |line|))
  {
    hide FullLine, SizeOf, Find, Misleads;
  }

  /** What follows a size line, when the code goes on too late in it. */
  lemma Shifted(st: ChunkState, seen: seq<bytes>, w: bytes, skipped: nat)
    requires st.Valid() && st.size >= 0 && st.read == st.ends == 0
    requires Feed(AfterLine(st.size, st.data), w).phase.Finished?
    requires 0 < skipped <= |w| && Concat(seen) == w[skipped..] && !Misleads(w, st.size, skipped)
    ensures !Decoded(RunPieces(AsShipped, st, seen), Feed(AfterLine(st.size, st.data), w).data)
  {
    hide Feed, RunPieces, Misleads;
    var data := Feed(AfterLine(st.size, st.data), w).data;
    if st.size == 0 {
      ShiftedEnd(st, seen, w, skipped, data);
    } else {
      ShiftedChunk(st, seen, w, skipped, data);
    }
  }

  /** The end of the body, when the code starts to look for it too late. */
  lemma ShiftedEnd(st: ChunkState, seen: seq<bytes>, w: bytes, skipped: nat, data: bytes)
    requires st.Valid() && st.size == st.read == st.ends == 0
    requires Feed(AfterLine(0, st.data), w).phase.Finished?
    requires 0 < skipped <= |w| && Concat(seen) == w[skipped..] && !Misleads(w, 0, skipped)
    ensures !Decoded(RunPieces(AsShipped, st, seen), data)
  {
    hide RunPieces, Feed;
    ClosingAhead(AfterLine(0, st.data), w);
    assert skipped < |w| ==> w[skipped..][0] == w[skipped];
    if RunPieces(AsShipped, st, seen).1 == Returned(true) {
      CrTaken(AsShipped, st, seen);
    }
  }

  /** A chunk that the code starts to read too late. */
  lemma ShiftedChunk(st: ChunkState, seen: seq<bytes>, w: bytes, skipped: nat, data: bytes)
    requires st.Valid() && st.size > 0 && st.read == 0
    requires Feed(Progress(Payload(st.size, 0), st.data), w).phase.Finished?
    requires data == Feed(Progress(Payload(st.size, 0), st.data), w).data
    requires 0 < skipped <= |w| && Concat(seen) == w[skipped..] && !Misleads(w, st.size, skipped)
    ensures !Decoded(RunPieces(AsShipped, st, seen), data)
  {
    hide Feed, RunPieces, Concat;
    var size := st.size;
    ChunkAhead(size, st.data, w);
    var r := RunPieces(AsShipped, st, seen);
    if r.1 == Returned(true) {
      PayloadTaken(AsShipped, st, seen);
      assert w[skipped..][size] == w[skipped + size];
      assert w[skipped..][..size] == w[skipped..skipped + size];
      if r.0.data == data {
        SamePart(st.data, w[..size], w[skipped..skipped + size], data);
      }
    }
  }

  lemma SamePart(a: bytes, x: bytes, y: bytes, whole: bytes)
    requires |x| == |y| && a + x <= whole && a + y <= whole
    ensures x == y
  {
    assert x == whole[|a|..|a| + |x|] && y == whole[|a|..|a| + |y|];
  }

  /** What follows a size line of a body that never misleads. */
  lemma ClearAfterLine(line: bytes, data: bytes, piece: bytes, later: bytes, n: nat)
    requires line != [] && 0 < n <= |piece| && FullLine(line + piece[..n])
    requires Clear(Progress(SizeLine(line), data), piece + later)
    ensures !SomeMisleads(piece[n..] + later, SizeOf(line + piece[..n]), |line| + n - 1)
  {
    hide Feed, FullLine, SomeMisleads;
    var l, p := line + piece[..n], Progress(SizeLine(line), data);
    LastOfFullLine(l);
    SplitAtByte(piece, later, n);
    ClearLater(p, piece[..n - 1], [LF] + (piece[n..] + later));
    FeedToLastByte(line, l, data);
    assert l[|line|..|l| - 1] == piece[..n - 1];
    assert Step(Progress(SizeLine(l[..|l| - 1]), data), LF) == AfterLine(SizeOf(l), data);
    assert ([LF] + (piece[n..] + later))[1..] == piece[n..] + later;
  }

  /** A body that never misleads does not do so at its first bad cut. */
  lemma {:induction false} ClearNotMisled(p: Progress, pieces: seq<bytes>)
    requires Clear(p, Concat(pieces))
    ensures !Misled(p, pieces)
    decreases |pieces|
  {
    hide Clear, Feed, FullLine, Find, SomeMisleads;
    if pieces != [] {
      var piece, rest := pieces[0], Concat(pieces[1..]);
      if RunsPast(p, piece) {
        if MisledBy(p.phase.line, piece, rest) {
          var n := Find(piece, [LF], 0) + 1;
          ClearAfterLine(p.phase.line, p.data, piece, rest, n);
          Witness(piece[n..] + rest, SizeOf(p.phase.line + piece[..n]), |p.phase.line| + n - 1,
                  Min(|piece| - n, |p.phase.line|));
        }
      } else {
        ClearLater(p, piece, rest);
        ClearNotMisled(Feed(p, piece), pieces[1..]);
      }
    }
  }

  lemma Witness(w: bytes, size: nat, limit: nat, k: nat)
    requires k <= limit && Misleads(w, size, k)
    ensures SomeMisleads(w, size, limit)
  {
  }

  lemma LastOfFullLine(l: bytes)
    requires FullLine(l)
    ensures |l| >= 3 && l[|l| - 1] == LF && l[|l| - 2] == CR && l[..|l| - 1][..|l| - 2] == l[..|l| - 2]
  {
    assert l[|l| - 2..][1] == l[|l| - 1] && l[|l| - 2..][0] == l[|l| - 2];
  }

  lemma SplitAtByte(a: bytes, b: bytes, n: nat)
    requires 0 < n <= |a|
    ensures a + b == a[..n - 1] + ([a[n - 1]] + (a[n..] + b))
  {
  }

  /** Just before the line feed the reference has the rest of the size line. */
  lemma {:induction false} FeedToLastByte(t: bytes, l: bytes, data: bytes)
    requires FullLine(l) && t < l
    ensures Feed(Progress(SizeLine(t), data), l[|t|..|l| - 1]) == Progress(SizeLine(l[..|l| - 1]), data)
    decreases |l| - |t|
  {
    if |t| == |l| - 1 {
      assert t == l[..|l| - 1];
    } else {
      var b := l[|t|];
      assert t + [b] == l[..|t| + 1];
      assert l[|t|..|l| - 1][1..] == l[|t| + 1..|l| - 1];
      LineByte(t, l, data);
      FeedToLastByte(t + [b], l, data);
    }
  }

  lemma LineByte(t: bytes, l: bytes, data: bytes)
    requires FullLine(l) && t < l && |t| < |l| - 1
    ensures LineStep(t, data, l[|t|]) == Progress(SizeLine(t + [l[|t|]]), data)
  {
    var d := |l| - 2;
    assert t == l[..|t|];
    assert |t| < d ==> IsDigit(l[..d][|t|], 16);
    assert t != [] ==> IsDigit(l[..d][|t| - 1], 16) && l[|t| - 1] == t[|t| - 1];
    assert |t| == d ==> l[d..][0] == CR && t == l[..d];
  }

  // ---------------------------------------------------------------- the theorem

  /** How much of the size line had been kept at the first bad cut. */
  function Kept(p: Progress, pieces: seq<bytes>): nat
    requires BadCut(p, pieces)
    decreases |pieces|
  {
    if RunsPast(p, pieces[0]) then |p.phase.line| else Kept(Feed(p, pieces[0]), pieces[1..])
  }

  lemma {:induction false} BadCutFails(st: ChunkState, pieces: seq<bytes>)
    requires Live(st) && Feed(Abs(st), Concat(pieces)).phase.Finished?
    requires BadCut(Abs(st), pieces) && !Misled(Abs(st), pieces)
    ensures !Decoded(RunPieces(AsShipped, st, pieces), Feed(Abs(st), Concat(pieces)).data)
    decreases |pieces|
  {
    hide MisledBy;
    var piece, rest := pieces[0], Concat(pieces[1..]);
    if RunsPast(Abs(st), piece) {
      BadCutLoses(st, piece, pieces[1..]);
      assert [piece] + pieces[1..] == pieces;
    } else {
      hide Feed, Process, PartialLine;
      SoundPrefix(Abs(st), piece, rest);
      FinishesLater(Abs(st), piece, rest);
      FeedAppend(Abs(st), piece, rest);
      assert piece[0..] == piece;
      ProcessRefines(AsShipped, st, piece, 0);
      var q := Feed(Abs(st), piece);
      if q.phase.Finished? {
        NoBadCutAtEnd(q, pieces[1..]);
      } else {
        BadCutFails(Process(AsShipped, st, piece, 0).0, pieces[1..]);
      }
    }
  }

  lemma {:induction false} NoBadCutAtEnd(p: Progress, pieces: seq<bytes>)
    requires p.phase.Finished?
    ensures !BadCut(p, pieces)
    decreases |pieces|
  {
    if pieces != [] {
      FinishedStays(p, pieces[0]);
      NoBadCutAtEnd(Feed(p, pieces[0]), pieces[1..]);
    }
  }

  /** What follows the end of the body does not begin like a CRLF. */
  predicate EndsPlainly(p: Progress, s: bytes) {
    var q := Feed(p, s);
    q.phase.Finished? && (q.phase.extra == 0 || (q.phase.extra <= |s| && s[|s| - q.phase.extra] != CR))
  }

  lemma BadCutBeforeEnd(p: Progress, pieces: seq<bytes>)
    requires BadCut(p, pieces)
    ensures !p.phase.Finished?
  {
    if p.phase.Finished? {
      NoBadCutAtEnd(p, pieces);
    }
  }

  lemma {:induction false} ExtraIsPart(p: Progress, s: bytes)
    requires !p.phase.Finished? && Feed(p, s).phase.Finished?
    ensures Feed(p, s).phase.extra < |s|
    decreases |s|
  {
    if Step(p, s[0]).phase.Finished? {
      FinishedStays(Step(p, s[0]), s[1..]);
    } else {
      ExtraIsPart(Step(p, s[0]), s[1..]);
    }
  }

  /** With one or two bytes kept, no payload misleads. */
  lemma {:induction false} EarlyNotMisled(p: Progress, pieces: seq<bytes>)
    requires BadCut(p, pieces) && Kept(p, pieces) <= 2 && EndsPlainly(p, Concat(pieces))
    ensures !Misled(p, pieces)
    decreases |pieces|
  {
    hide Feed, FullLine, Find;
    var piece, rest := pieces[0], Concat(pieces[1..]);
    if RunsPast(p, piece) {
      var n := Find(piece, [LF], 0) + 1;
      if 0 < n <= |piece| && FullLine(p.phase.line + piece[..n]) && SizeOf(p.phase.line + piece[..n]) == 0 {
        var w := piece[n..] + rest;
        LineThenRest(p, piece, rest, n);
        ClosingAhead(AfterLine(0, p.data), w);
        assert |w| > 2 ==> w[2] == (piece + rest)[n + 2];
      }
    } else {
      BadCutBeforeEnd(Feed(p, piece), pieces[1..]);
      FinishedInLater(p, piece, rest);
      EarlyNotMisled(Feed(p, piece), pieces[1..]);
    }
  }

  lemma LineThenRest(p: Progress, piece: bytes, rest: bytes, n: nat)
    requires p.phase.SizeLine? && 0 < n <= |piece| && FullLine(p.phase.line + piece[..n])
    ensures Feed(p, piece + rest) == Feed(AfterLine(SizeOf(p.phase.line + piece[..n]), p.data), piece[n..] + rest)
  {
    hide Feed, FullLine;
    var l := p.phase.line + piece[..n];
    LastOfFullLine(l);
    FeedToLastByte(p.phase.line, l, p.data);
    assert l[|p.phase.line|..|l| - 1] == piece[..n - 1];
    SplitAtByte(piece, rest, n);
    FeedAppend(p, piece[..n - 1], [LF] + (piece[n..] + rest));
    assert Step(Progress(SizeLine(l[..|l| - 1]), p.data), LF) == AfterLine(SizeOf(l), p.data);
    FeedOne(Progress(SizeLine(l[..|l| - 1]), p.data), LF, piece[n..] + rest);
  }

  lemma FeedOne(p: Progress, b: byte, s: bytes)
    ensures Feed(p, [b] + s) == Feed(Step(p, b), s)
  {
    assert ([b] + s)[1..] == s;
  }

  lemma FinishedInLater(p: Progress, piece: bytes, rest: bytes)
    requires EndsPlainly(p, piece + rest) && !Feed(p, piece).phase.Finished?
    ensures EndsPlainly(Feed(p, piece), rest)
  {
    hide Feed;
    FeedAppend(p, piece, rest);
    ExtraIsPart(Feed(p, piece), rest);
  }

  // ---------------------------------------------------------------- chunks that echo

  /** The chunk repeats a text of `k` bytes that begins like the end of a chunk: CR, LF and a digit. */
  predicate RepeatsAt(c: bytes, k: nat) {
    && 3 <= k <= |c|
    && c[..|c| - k] == c[k..]
    && c[|c| - k] == CR && c[|c| - k + 1] == LF && IsDigit(c[|c| - k + 2], 16)
  }

  /** Such a repetition that is no longer than the size line of the chunk up to its CR. */
  ghost predicate Repeats(c: bytes) {
    exists k: nat :: k <= |Print(|c|, 16)| + 1 && RepeatsAt(c, k)
  }

  /** Only a chunk of at least sixteen bytes that has CR in it can do that. */
  lemma RarelyRepeats(c: bytes)
    requires |c| < 16 || CR !in c
    ensures !Repeats(c)
  {
  }

  /** A chunk that echoes in the coding repeats. */
  lemma EchoRepeats(c: bytes, next: bytes, k: nat)
    requires next != [] && IsDigit(next[0], 16) && 3 <= k <= |c| && EchoesAt(c + CRLF + next, |c|, k)
    ensures RepeatsAt(c, k)
  {
    var w, size := c + CRLF + next, |c|;
    assert w[..size] == c;
    assert c[..size - k] == w[k..k + size][..size - k] == c[k..];
    assert w[k..k + size][size - k] == w[size] && w[k..k + size][size - k + 1] == w[size + 1];
    assert w[k..k + size][size - k + 2] == w[size + 2];
  }

  lemma OnlyRepetitionMisleads(c: bytes, next: bytes)
    requires 0 < |c| <= MAX_CHUNK && !Repeats(c) && next != [] && IsDigit(next[0], 16)
    ensures !SomeMisleads(c + CRLF + next, |c|, |Print(|c|, 16)| + 1)
  {
    hide Print, EchoesAt, RepeatsAt;
    var limit := |Print(|c|, 16)| + 1;
    PrintedLine(|c|);
    LongLine(|c|);
    forall k: nat | k <= limit
      ensures !Misleads(c + CRLF + next, |c|, k)
    {
      if 3 <= k && EchoesAt(c + CRLF + next, |c|, k) {
        EchoRepeats(c, next, k);
      }
    }
  }

  lemma LongLine(n: nat)
    ensures |Print(n, 16)| >= 2 ==> n >= 16
  {
  }

  lemma {:induction false} LineClear(t: bytes, l: bytes, data: bytes, w: bytes)
    requires FullLine(l) && t < l && !SomeMisleads(w, SizeOf(l), |l| - 1)
    requires Clear(AfterLine(SizeOf(l), data), w)
    ensures Clear(Progress(SizeLine(t), data), l[|t|..] + w)
    decreases |l| - |t|
  {
    hide SomeMisleads;
    var b := l[|t|];
    assert (l[|t|..] + w)[0] == b && (l[|t|..] + w)[1..] == l[|t| + 1..] + w;
    if |t| < |l| - 1 {
      LineByte(t, l, data);
      assert t + [b] == l[..|t| + 1];
      LineClear(t + [b], l, data, w);
    } else {
      assert t == l[..|l| - 1] && l[|t| + 1..] + w == w;
      LastOfFullLine(l);
    }
  }

  lemma {:induction false} PayloadClear(size: nat, read: nat, data: bytes, s: bytes, w: bytes)
    requires s != [] && read + |s| == size && Clear(Progress(Closing(size, 0), data + s), w)
    ensures Clear(Progress(Payload(size, read), data), s + w)
    decreases |s|
  {
    assert (s + w)[0] == s[0] && (s + w)[1..] == s[1..] + w;
    if |s| == 1 {
      assert s == [s[0]] && s[1..] + w == w;
    } else {
      assert data + [s[0]] + s[1..] == data + s;
      PayloadClear(size, read + 1, data + [s[0]], s[1..], w);
    }
  }

  lemma CrlfClear(size: nat, data: bytes, w: bytes)
    requires Clear(Progress(if size == 0 then Finished(0) else SizeLine([]), data), w)
    ensures Clear(Progress(Closing(size, 0), data), CRLF + w)
  {
    assert (CRLF + w)[0] == CR && (CRLF + w)[1..] == [LF] + w && ([LF] + w)[1..] == w;
    assert Clear(Progress(Closing(size, 1), data), [LF] + w);
  }

  /** The bytes after a coding do not begin like a CRLF. */
  predicate Plain(more: bytes) {
    more == [] || more[0] != CR
  }

  lemma PlainEndNeverMisleads(more: bytes)
    requires Plain(more)
    ensures !SomeMisleads(CRLF + more, 0, 2)
  {
  }

  lemma {:induction false} FinishedClear(p: Progress, s: bytes)
    requires p.phase.Finished?
    ensures Clear(p, s)
    decreases |s|
  {
    if s != [] {
      FinishedClear(Step(p, s[0]), s[1..]);
    }
  }

  /** One chunk in front of a coding that never misleads, or the end of the coding. */
  lemma ChunkClear(c: bytes, data: bytes, next: bytes)
    requires |c| <= MAX_CHUNK && !Repeats(c)
    requires if c == [] then Plain(next) else next != [] && IsDigit(next[0], 16)
    requires Clear(Progress(if c == [] then Finished(0) else SizeLine([]), data + c), next)
    ensures Clear(Progress(SizeLine([]), data), Print(|c|, 16) + CRLF + c + CRLF + next)
  {
    hide Clear, FullLine, Repeats, SomeMisleads, Print;
    var line := Print(|c|, 16) + CRLF;
    PrintedLine(|c|);
    AfterLineClear(c, data, next);
    LineClear([], line, data, c + (CRLF + next));
    assert line[0..] == line && line + (c + (CRLF + next)) == line + c + CRLF + next;
  }

  lemma AfterLineClear(c: bytes, data: bytes, next: bytes)
    requires |c| <= MAX_CHUNK && !Repeats(c)
    requires if c == [] then Plain(next) else next != [] && IsDigit(next[0], 16)
    requires Clear(Progress(if c == [] then Finished(0) else SizeLine([]), data + c), next)
    ensures Clear(AfterLine(|c|, data), c + (CRLF + next))
    ensures !SomeMisleads(c + (CRLF + next), |c|, |Print(|c|, 16)| + 1)
  {
    hide Clear, Repeats, SomeMisleads, Print, Plain;
    CrlfClear(|c|, data + c, next);
    if c == [] {
      assert c + (CRLF + next) == CRLF + next && data + c == data;
      PlainEndNeverMisleads(next);
      assert |Print(0, 16)| == 1 by {
        PrintZero();
      }
    } else {
      PayloadClear(|c|, 0, data, c, CRLF + next);
      OnlyRepetitionMisleads(c, next);
      assert c + CRLF + next == c + (CRLF + next);
    }
  }

  lemma PrintZero()
    ensures Print(0, 16) == "0"
  {
  }

  ghost predicate NoneRepeats(chunks: seq<bytes>) {
    forall i :: 0 <= i < |chunks| ==> !Repeats(chunks[i])
  }

  lemma EncodeStarts(chunks: seq<bytes>)
    ensures Encode(chunks) != [] && IsDigit(Encode(chunks)[0], 16)
  {
    var n := if chunks == [] then 0 else |chunks[0]|;
    assert Encode(chunks)[0] == Print(n, 16)[0];
  }

  lemma {:induction false} EncodeClear(chunks: seq<bytes>, more: bytes, data: bytes)
    requires Chunks(chunks) && NoneRepeats(chunks) && Plain(more)
    ensures Clear(Progress(SizeLine([]), data), Encode(chunks) + more)
    decreases |chunks|
  {
    hide Clear, Print, Repeats, Plain;
    if chunks == [] {
      assert !Repeats([]) by {
        RarelyRepeats([]);
      }
      FinishedClear(Progress(Finished(0), data + []), more);
      ChunkClear([], data, more);
      assert Print(0, 16) + CRLF + [] + CRLF + more == Print(0, 16) + CRLF + CRLF + more;
    } else {
      var c, rest := chunks[0], Encode(chunks[1..]);
      EncodeStarts(chunks[1..]);
      EncodeClear(chunks[1..], more, data + c);
      assert !Repeats(c);
      ChunkClear(c, data, rest + more);
      assert Print(|c|, 16) + CRLF + c + CRLF + (rest + more) == Print(|c|, 16) + CRLF + c + CRLF + rest + more;
    }
  }

  /** A way of cutting a coding of some chunks, however their sizes are written and whatever follows it, is
      decoded to the chunks if and only if no piece starts inside a size line and runs on past its end.
      This is for pieces where what follows the first such cut does not mislead the code. */
  lemma CutsDecodedExactly(sizes: seq<bytes>, chunks: seq<bytes>, more: bytes, pieces: seq<bytes>)
    requires Spelled(sizes, chunks) && Concat(pieces) == Coding(sizes, chunks) + more && !Misled(START, pieces)
    ensures Decoded(RunPieces(AsShipped, FRESH, pieces), Concat(chunks)) <==> !BadCut(START, pieces)
  {
    hide Misled, Feed, RunPieces, Coding, Spells;
    if BadCut(START, pieces) {
      CodingThenMore(sizes, chunks, more);
      BadCutFails(FRESH, pieces);
    } else {
      PiecesDecode(AsShipped, sizes, chunks, more, pieces);
    }
  }

  /** Chunks that do not repeat never mislead, however they are cut. */
  lemma NeverMisled(chunks: seq<bytes>, more: bytes, pieces: seq<bytes>)
    requires Chunks(chunks) && Concat(pieces) == Encode(chunks) + more && NoneRepeats(chunks) && Plain(more)
    ensures !Misled(START, pieces)
  {
    hide Misled, Clear, Repeats, Encode, Plain;
    EncodeClear(chunks, more, []);
    ClearNotMisled(START, pieces);
  }

  /** Whatever the payload: a way of cutting whose first bad cut had kept one or two bytes of the size
      line is never decoded to the chunks. */
  lemma EarlyBadCutFails(sizes: seq<bytes>, chunks: seq<bytes>, more: bytes, pieces: seq<bytes>)
    requires Spelled(sizes, chunks) && Concat(pieces) == Coding(sizes, chunks) + more && Plain(more)
    requires BadCut(START, pieces) && Kept(START, pieces) <= 2
    ensures !Decoded(RunPieces(AsShipped, FRESH, pieces), Concat(chunks))
  {
    hide Misled, Feed, RunPieces, Coding, Spells, BadCut, Kept;
    CodingThenMore(sizes, chunks, more);
    assert more != [] ==> (Coding(sizes, chunks) + more)[|Coding(sizes, chunks)|] == more[0];
    EarlyNotMisled(START, pieces);
    CutsDecodedExactly(sizes, chunks, more, pieces);
  }

  /** For chunks of less than sixteen bytes whose sizes are printed the same holds for all ways of cutting. */
  lemma ShortChunksDecodedExactly(chunks: seq<bytes>, more: bytes, pieces: seq<bytes>)
    requires Chunks(chunks) && (forall i :: 0 <= i < |chunks| ==> |chunks[i]| < 16)
    requires Concat(pieces) == Encode(chunks) + more && Plain(more)
    ensures Decoded(RunPieces(AsShipped, FRESH, pieces), Concat(chunks)) <==> !BadCut(START, pieces)
  {
    hide Misled, BadCut, Encode, Coding, Spells, RunPieces, Plain, Repeats;
    forall i | 0 <= i < |chunks|
      ensures !Repeats(chunks[i])
    {
      RarelyRepeats(chunks[i]);
    }
    NeverMisled(chunks, more, pieces);
    EncodeIsCoding(chunks);
    CutsDecodedExactly(PrintedSizes(chunks), chunks, more, pieces);
  }

  /** A body of one chunk "ab", cut after the size digit. */
  lemma BadCutExample()
    ensures Encode(["ab"]) == "2\r\nab\r\n0\r\n\r\n"
    ensures !Decoded(RunPieces(AsShipped, FRESH, ["2", "\r\nab\r\n0\r\n\r\n"]), "ab")
    ensures Decoded(RunPieces(Patched, FRESH, ["2", "\r\nab\r\n0\r\n\r\n"]), "ab")
  {
    var chunks: seq<bytes> := ["ab"];
    var pieces: seq<bytes> := ["2", "\r\nab\r\n0\r\n\r\n"];
    ExampleBytes();
    hide Feed, Encode, Coding, Spells, Process, RunPieces, Print;
    assert RunsPast(Feed(START, pieces[0]), pieces[1]) by {
      assert pieces[1][1] == LF;
    }
    assert pieces[1..][0] == pieces[1];
    assert Encode(chunks) + [] == Encode(chunks);
    ShortChunksDecodedExactly(chunks, [], pieces);
    EncodeIsCoding(chunks);
    PiecesDecode(Patched, PrintedSizes(chunks), chunks, [], pieces);
  }

  lemma ExampleBytes()
    ensures Encode(["ab"]) == "2\r\nab\r\n0\r\n\r\n" == Concat(["2", "\r\nab\r\n0\r\n\r\n"])
    ensures Concat(["ab"]) == "ab"
    ensures Feed(START, "2") == Progress(SizeLine("2"), [])
  {
    hide Feed, Encode;
    ExampleEncoding();
    ConcatPair("2", "\r\nab\r\n0\r\n\r\n");
    assert Concat(["ab"]) == "ab" + Concat([]);
    FeedDigit();
  }

  lemma ExampleEncoding()
    ensures Encode(["ab"]) == "2\r\nab\r\n0\r\n\r\n"
  {
    var chunks: seq<bytes> := ["ab"];
    assert chunks[1..] == [];
    assert Print(2, 16) == "2" && Print(0, 16) == "0";
    assert Encode([]) == "0\r\n\r\n";
  }

  lemma ConcatPair(a: bytes, b: bytes)
    ensures Concat([a, b]) == a + b
  {
    assert [a, b][1..] == [b] && [b][1..] == [];
    assert Concat([b]) == b + Concat([]);
  }

  lemma FeedDigit()
    ensures Feed(START, "2") == Progress(SizeLine("2"), [])
  {
    assert "2"[1..] == [] && [] + "2" == "2";
    assert Feed(START, "2") == Feed(Step(START, '2'), []);
  }
}
