/**
 Decoding a whole response: how the bytes are cut does not matter, and comparing two responses is
 comparing what they mean.
 */
module HttpCorrectness {
  import opened Bytes
  import opened Outcomes
  import opened ChunkedFormat
  import opened ChunkedDecoder
  import opened ChunkedCorrectness
  import opened ChunkedCuts
  import opened HttpHeader
  import opened HttpResponse

  // ---------------------------------------------------------------- running

  /** Feeding a response piece by piece until it is complete or the processor gives up, the way the
      replay client does. */
  function RunResponse(v: Version, r: Response, pieces: seq<bytes>): (q: (Response, Outcome))
    requires r.Valid()
    ensures q.0.Valid()
    decreases |pieces|
  {
    if pieces == [] then (r, Returned(false)) else
      var q := ProcessData(v, r, pieces[0]);
      if q.1 == Returned(false) then RunResponse(v, q.0, pieces[1..]) else q
  }

  predicate ValidBody(body: Body) {
    Response(0, [], map[], body).Valid()
  }

  function RunBody(v: Version, body: Body, pieces: seq<bytes>): (q: (Body, Outcome))
    requires ValidBody(body)
    ensures ValidBody(q.0)
    decreases |pieces|
  {
    if pieces == [] then (body, Returned(false)) else
      var q := BodyProcess(v, body, pieces[0]);
      if q.1 == Returned(false) then RunBody(v, q.0, pieces[1..]) else q
  }

  // ---------------------------------------------------------------- the reference

  /** What a response means to the replay client. */
  datatype Meaning = Meaning(status: int, headers: Headers, body: bytes, complete: bool)

  function MeaningOf(r: Response): Meaning {
    Meaning(r.status, r.headers,
            match r.body case NoBody => [] case ContentLen(_, got) => got case Chunked(chunks) => chunks.data,
            Complete(r))
  }

  /** The processor of the body is the one that the header fields ask for. */
  predicate FramedByHeaders(r: Response) {
    !r.body.NoBody? && (r.body.ContentLen? <==> "content-length" in r.headers)
  }

  /** Decoding all bytes of a response at once: the header up to the first empty line, then either as
      many bytes as announced, or the chunked coding. Nothing when that is not possible. */
  function Decode(headers: Headers, m: bytes): Option<Meaning> {
    var pos := Find(m, HEAD_END, 0);
    if pos < 0 then None
    else match HeadOf(Reset(headers), m[..pos])
      case None => None
      case Some(q) =>
        var b := m[pos + 4..];
        if q.status == NO_STATUS then None
        else match q.body
          case ContentLen(size, _) => Some(Meaning(q.status, q.headers, b[..Min(|b|, size)], |b| >= size))
          case _ =>
            var p := Feed(START, b);
            if p.phase.Malformed? || p.phase.Unclosed? then None
            else Some(Meaning(q.status, q.headers, p.data, p.phase.Finished?))
  }

  // ---------------------------------------------------------------- after the header

  /** `process` reports completion exactly when it has set the flag. */
  lemma {:induction false} ProcessDone(v: Version, st: ChunkState, data: bytes, pos: nat)
    requires st.Valid() && !st.complete
    ensures var r := Process(v, st, data, pos); r.1.Returned? ==> r.1 == Returned(r.0.complete)
    decreases |data| - pos
  {
    if pos < |data| {
      var turn := NextTurn(v, st, data, pos);
      if turn.Go? {
        ProcessDone(v, turn.st, data, turn.pos);
      }
    }
  }

  lemma BodyProcessDone(v: Version, body: Body, data: bytes)
    requires ValidBody(body) && !BodyComplete(body)
    ensures var r := BodyProcess(v, body, data);
            (r.1.Returned? ==> r.1 == Returned(BodyComplete(r.0))) && (r.0.NoBody? <==> body.NoBody?)
  {
    if body.Chunked? {
      ProcessDone(v, body.chunks, data, 0);
    }
  }

  /** Once the header has been read, a response is its body. */
  lemma {:induction false} ResponseIsBody(v: Version, r: Response, pieces: seq<bytes>)
    requires r.Valid() && !r.body.NoBody? && r.status != NO_STATUS && !BodyComplete(r.body)
    ensures RunResponse(v, r, pieces).1 == RunBody(v, r.body, pieces).1
    ensures RunResponse(v, r, pieces).1.Returned? ==>
              RunResponse(v, r, pieces).0 == r.(body := RunBody(v, r.body, pieces).0)
    decreases |pieces|
  {
    if pieces != [] {
      var q := BodyProcess(v, r.body, pieces[0]);
      BodyProcessDone(v, r.body, pieces[0]);
      if q.1 == Returned(false) {
        ResponseIsBody(v, r.(body := q.0), pieces[1..]);
      }
    }
  }

  lemma NothingProcessed(v: Version, body: Body)
    requires FreshBody(body)
    ensures BodyProcess(v, body, []) == (body, Returned(BodyComplete(body)))
  {
    if body.ContentLen? {
      var none: bytes := [];
      assert none[..Min(0, body.size)] == none;
    }
  }

  /** The call that is given the whole header. */
  lemma FirstCall(v: Version, headers: Headers, first: bytes)
    requires Find(first, HEAD_END, 0) >= 0
    requires HeadOf(Reset(headers), first[..Find(first, HEAD_END, 0)]).Some?
    ensures var pos := Find(first, HEAD_END, 0);
            var q := HeadOf(Reset(headers), first[..pos]).value;
            var b := BodyProcess(v, q.body, first[pos + 4..]);
            var r := ProcessData(v, Reset(headers), first);
            if b.1.Returned? then
              r == (q.(header := first[..pos + 4], body := b.0), Returned(BodyComplete(b.0)))
            else
              r.1 == b.1
  {
    hide ParseHeader, MakeBody, Process, Find;
    var pos := Find(first, HEAD_END, 0);
    var q := HeadOf(Reset(headers), first[..pos]).value;
    assert [] + first == first;
    HeadKeepsText(Reset(headers), first, first[..pos]);
    if |first| == pos + 4 {
      assert first[..pos + 4] == first && first[pos + 4..] == [];
      NothingProcessed(v, q.body);
    }
  }

  lemma HeadKeepsText(r: Response, header: bytes, text: bytes)
    ensures HeadOf(r, text).Some? ==> HeadOf(r.(header := header), text) == Some(HeadOf(r, text).value.(header := header))
    ensures HeadOf(r, text).None? ==> HeadOf(r.(header := header), text).None?
  {
  }

  /** When the first piece holds the whole header, the rest of it and the later pieces are the body. */
  lemma HeadInFirstPiece(v: Version, headers: Headers, first: bytes, later: seq<bytes>)
    requires Find(first, HEAD_END, 0) >= 0
    requires HeadOf(Reset(headers), first[..Find(first, HEAD_END, 0)]).Some?
    requires HeadOf(Reset(headers), first[..Find(first, HEAD_END, 0)]).value.status != NO_STATUS
    ensures var pos := Find(first, HEAD_END, 0);
            var q := HeadOf(Reset(headers), first[..pos]).value;
            var b := RunBody(v, q.body, [first[pos + 4..]] + later);
            var r := RunResponse(v, Reset(headers), [first] + later);
            r.1 == b.1 && (r.1.Returned? ==> r.0 == q.(header := first[..pos + 4], body := b.0))
  {
    hide HeadOf, Process, Find;
    var pos := Find(first, HEAD_END, 0);
    var q := HeadOf(Reset(headers), first[..pos]).value;
    var rest := first[pos + 4..];
    assert ([first] + later)[1..] == later && ([rest] + later)[1..] == later;
    FirstCall(v, headers, first);
    var b := BodyProcess(v, q.body, rest);
    if !BodyComplete(q.body) {
      BodyProcessDone(v, q.body, rest);
      if b.1 == Returned(false) {
        ResponseIsBody(v, q.(header := first[..pos + 4], body := b.0), later);
      }
    }
  }

  // ---------------------------------------------------------------- the body

  /** Some piece goes on beyond `size` before the pieces add up to exactly `size`; `n` is what there is
      already. */
  predicate StepsOver(size: nat, n: nat, pieces: seq<bytes>)
    decreases |pieces|
  {
    pieces != [] &&
    var total := n + |pieces[0]|; (total > size || (total < size && StepsOver(size, total, pieces[1..])))
  }

  lemma {:induction false} FitsNeverStepsOver(size: nat, n: nat, pieces: seq<bytes>)
    requires n + |Concat(pieces)| <= size
    ensures !StepsOver(size, n, pieces)
    decreases |pieces|
  {
    if pieces != [] {
      FitsNeverStepsOver(size, n + |pieces[0]|, pieces[1..]);
    }
  }

  lemma {:induction false} LengthRun(v: Version, size: nat, got: bytes, pieces: seq<bytes>)
    requires |got| < size || (|got| == size && pieces != [])
    requires v.Patched? || !StepsOver(size, |got|, pieces)
    ensures var b := Concat(pieces);
            RunBody(v, ContentLen(size, got), pieces)
            == (ContentLen(size, got + b[..Min(|b|, size - |got|)]), Returned(|got| + |b| >= size))
    decreases |pieces|
  {
    var b := Concat(pieces);
    if pieces == [] {
      assert got + b[..0] == got;
    } else {
      var piece, rest := pieces[0], Concat(pieces[1..]);
      var got' := got + piece[..Min(|piece|, size - |got|)];
      if |got'| == size {
        assert b[..size - |got|] == piece[..size - |got|];
      } else {
        assert piece[..|piece|] == piece;
        LengthRun(v, size, got', pieces[1..]);
        assert b[..Min(|b|, size - |got|)] == piece + rest[..Min(|rest|, size - |got'|)];
        assert got + (piece + rest[..Min(|rest|, size - |got'|)]) == got' + rest[..Min(|rest|, size - |got'|)];
      }
    }
  }

  /** As it is, the copy leaves the payload buffer if and only if some piece steps over its end. */
  lemma {:induction false} OverrunExactly(size: nat, got: bytes, pieces: seq<bytes>)
    requires |got| <= size
    ensures RunBody(AsShipped, ContentLen(size, got), pieces).1 == BufferOverrun <==> StepsOver(size, |got|, pieces)
    decreases |pieces|
  {
    if pieces != [] && |got| + |pieces[0]| <= size {
      assert pieces[0][..|pieces[0]|] == pieces[0];
      OverrunExactly(size, got + pieces[0], pieces[1..]);
    }
  }

  lemma {:induction false} ChunkedRun(v: Version, st: ChunkState, pieces: seq<bytes>)
    requires st.Valid()
    ensures RunBody(v, Chunked(st), pieces) == (Chunked(RunPieces(v, st, pieces).0), RunPieces(v, st, pieces).1)
    decreases |pieces|
  {
    if pieces != [] {
      var r := Process(v, st, pieces[0], 0);
      if r.1 == Returned(false) {
        ChunkedRun(v, r.0, pieces[1..]);
      }
    }
  }

  // ---------------------------------------------------------------- what the code as it is needs

  /** The conditions under which the code as it is decodes a response whose header is in the first
      piece: no piece steps over the end of a body with a length, or no bad cut. */
  predicate Undisturbed(headers: Headers, first: bytes, later: seq<bytes>) {
    var pos := Find(first, HEAD_END, 0);
    pos >= 0 &&
    match HeadOf(Reset(headers), first[..pos])
    case None => false
    case Some(q) =>
      var rest := first[pos + 4..];
      if q.body.ContentLen? then !StepsOver(q.body.size, 0, [rest] + later)
      else !BadCut(START, [rest] + later)
  }

  lemma HeadEndKept(first: bytes, more: bytes)
    requires Find(first, HEAD_END, 0) >= 0
    ensures Find(first + more, HEAD_END, 0) == Find(first, HEAD_END, 0)
  {
    var pos := Find(first, HEAD_END, 0);
    forall i | 0 <= i < pos
      ensures !OccursAt(first + more, HEAD_END, i)
    {
      assert !OccursAt(first, HEAD_END, i);
      assert (first + more)[i..i + 4] == first[i..i + 4];
    }
    assert (first + more)[pos..pos + 4] == first[pos..pos + 4];
    FindIs(first + more, HEAD_END, 0, pos);
  }

  /** A response whose header is in the first piece is decoded as if it were not cut. */
  lemma DecodesFromHead(v: Version, headers: Headers, first: bytes, later: seq<bytes>)
    requires Find(first, HEAD_END, 0) >= 0 && Decode(headers, first + Concat(later)).Some?
    requires v.Patched? || Undisturbed(headers, first, later)
    ensures var r := RunResponse(v, Reset(headers), [first] + later);
            var d := Decode(headers, first + Concat(later)).value;
            r.1 == Returned(d.complete) && MeaningOf(r.0) == d && FramedByHeaders(r.0)
  {
    hide HeadOf, Process, Feed, RunResponse, RunBody, RunPieces, BadCut, Find;
    var pos := Find(first, HEAD_END, 0);
    HeadSplit(first, Concat(later));
    var q := HeadOf(Reset(headers), first[..pos]).value;
    var rest := first[pos + 4..];
    var pieces := [rest] + later;
    assert pieces[1..] == later;
    assert Concat(pieces) == rest + Concat(later);
    HeadInFirstPiece(v, headers, first, later);
    LengthWins(Reset(headers), first[..pos]);
    match q.body
    case ContentLen(size, got) =>
      LengthRun(v, size, [], pieces);
    case Chunked(chunks) =>
      ChunkedRun(v, FRESH, pieces);
      PiecesRefine(v, FRESH, pieces);
    case NoBody => assert false;
  }

  // ---------------------------------------------------------------- a header in several pieces

  /** The incremental search for the end of the header, which starts three bytes before the new ones,
      finds what a search from the beginning finds. */
  lemma SearchFindsFirst(before: bytes, data: bytes)
    requires Find(before, HEAD_END, 0) < 0
    ensures Find(before + data, HEAD_END, SearchStart(before)) == Find(before + data, HEAD_END, 0)
  {
    var text := before + data;
    forall i | 0 <= i < SearchStart(before)
      ensures !OccursAt(text, HEAD_END, i)
    {
      assert !OccursAt(before, HEAD_END, i);
      assert text[i..i + 4] == before[i..i + 4];
    }
    var pos := Find(text, HEAD_END, SearchStart(before));
    if pos >= 0 {
      FindIs(text, HEAD_END, 0, pos);
    }
  }

  /** A processor that waits for the end of the header. */
  function Waiting(headers: Headers, text: bytes): Response {
    Reset(headers).(header := text)
  }

  /** Until the header is complete, the pieces are only put together. */
  lemma {:induction false} HeadGathered(headers: Headers, text: bytes, pieces: seq<bytes>)
      returns (first: bytes, later: seq<bytes>)
    requires Find(text, HEAD_END, 0) < 0 && Find(text + Concat(pieces), HEAD_END, 0) >= 0
    ensures RunResponse(Patched, Waiting(headers, text), pieces) == RunResponse(Patched, Reset(headers), [first] + later)
    ensures first + Concat(later) == text + Concat(pieces) && Find(first, HEAD_END, 0) >= 0
    decreases |pieces|
  {
    hide HeadOf, Process;
    assert text + [] == text;
    var piece := pieces[0];
    first, later := text + piece, pieces[1..];
    assert first + Concat(later) == text + Concat(pieces);
    SearchFindsFirst(text, piece);
    SearchFindsFirst([], first);
    assert [] + first == first;
    assert ([first] + later)[1..] == later;
    if Find(first, HEAD_END, 0) < 0 {
      assert ProcessData(Patched, Waiting(headers, text), piece) == (Waiting(headers, first), Returned(false));
      first, later := HeadGathered(headers, first, later);
    }
  }

  /** The corrected processor decodes every response that can be decoded, however it is cut, to what
      decoding it at once gives. */
  lemma EveryCutDecodes(headers: Headers, pieces: seq<bytes>)
    requires Decode(headers, Concat(pieces)).Some?
    ensures var r := RunResponse(Patched, Reset(headers), pieces);
            var d := Decode(headers, Concat(pieces)).value;
            r.1 == Returned(d.complete) && MeaningOf(r.0) == d && FramedByHeaders(r.0)
  {
    hide RunResponse, HeadOf, Feed;
    assert [] + Concat(pieces) == Concat(pieces);
    var first, later := HeadGathered(headers, [], pieces);
    DecodesFromHead(Patched, headers, first, later);
  }

  /** A header that cannot be handled makes the corrected processor throw, however it is cut. */
  lemma UnreadableHeadThrows(headers: Headers, pieces: seq<bytes>)
    requires var m, pos := Concat(pieces), Find(Concat(pieces), HEAD_END, 0);
             pos >= 0 && HeadOf(Reset(headers), m[..pos]).None?
    ensures RunResponse(Patched, Reset(headers), pieces).1 == Threw
  {
    hide HeadOf, ProcessData;
    assert [] + Concat(pieces) == Concat(pieces);
    var first, later := HeadGathered(headers, [], pieces);
    HeadSplit(first, Concat(later));
    hide Find;
    UnreadablePieceThrows(Patched, headers, first);
    assert ([first] + later)[0] == first;
  }

  lemma UnreadablePieceThrows(v: Version, headers: Headers, first: bytes)
    requires var pos := Find(first, HEAD_END, 0); pos >= 0 && HeadOf(Reset(headers), first[..pos]).None?
    ensures ProcessData(v, Reset(headers), first).1 == Threw
  {
    hide HeadOf, BodyProcess, Find;
    assert [] + first == first;
    HeadKeepsText(Reset(headers), first, first[..Find(first, HEAD_END, 0)]);
  }

  /** The first line of a header. */
  predicate BeginsWithLine(header: bytes, line: bytes) {
    LF !in line && line <= header && (|line| < |header| ==> header[|line|] == LF)
  }

  lemma FirstLine(header: bytes, line: bytes)
    requires BeginsWithLine(header, line)
    ensures match GetLine(header, LF)
            case None => header == line == []
            case Some((first, _)) => first == line
  {
    if |line| < |header| {
      assert header == line + [LF] + header[|line| + 1..];
      GetLineAtDelim(line, LF, header[|line| + 1..]);
    } else {
      assert header == line;
      if line != [] {
        GetLineToEnd(line, LF);
      }
    }
  }

  /** A status that is no number is such a header. */
  lemma BadStatusThrows(v: Version, headers: Headers, first: bytes, version: bytes, token: bytes, rest: bytes)
    requires ' ' !in version && ' ' !in token && token + rest != [] && (rest != [] ==> rest[0] == ' ')
    requires token != [] ==> NoNumber(token[0])
    requires Find(first, HEAD_END, 0) >= 0
    requires BeginsWithLine(first[..Find(first, HEAD_END, 0)], version + [' '] + (token + rest))
    ensures ProcessData(v, Reset(headers), first).1 == Threw
  {
    hide GetLine, ParseStatus, ParseFields, ProcessData, Find, NoNumber, BeginsWithLine;
    NoNumberNoStatus(version, token, rest);
    FirstLine(first[..Find(first, HEAD_END, 0)], version + [' '] + (token + rest));
    UnreadablePieceThrows(v, headers, first);
  }

  /** A status line of one token: the response is never complete, whatever its body. */
  lemma NoStatusNeverComplete(v: Version, headers: Headers, first: bytes, line: bytes)
    requires line == [] || ' ' !in line[..|line| - 1]
    requires Find(first, HEAD_END, 0) >= 0 && BeginsWithLine(first[..Find(first, HEAD_END, 0)], line)
    ensures !Complete(ProcessData(v, Reset(headers), first).0)
  {
    hide GetLine, ParseStatus, ParseFields, MakeBody, BodyProcess, Find, BeginsWithLine;
    NoStatusToken(line);
    FirstLine(first[..Find(first, HEAD_END, 0)], line);
    assert [] + first == first;
  }

  // ---------------------------------------------------------------- the code as it is

  /** As it is, a call that leaves the header incomplete dereferences the null `data_processor_`. */
  lemma IncompleteHeadCrashes(headers: Headers, first: bytes)
    ensures ProcessData(AsShipped, Reset(headers), first).1 == NullDereference <==> Find(first, HEAD_END, 0) < 0
  {
    hide HeadOf, Process;
    assert [] + first == first;
    var pos := Find(first, HEAD_END, 0);
    if pos >= 0 {
      HeadKeepsText(Reset(headers), first, first[..pos]);
      if HeadOf(Reset(headers), first[..pos]).Some? {
        FirstCall(AsShipped, headers, first);
        NoNullBody(HeadOf(Reset(headers), first[..pos]).value.body, first[pos + 4..]);
      }
    }
  }

  lemma {:induction false} ProcessIsNoPointer(v: Version, st: ChunkState, data: bytes, pos: nat)
    requires st.Valid()
    ensures Process(v, st, data, pos).1 != NullDereference
    decreases |data| - pos
  {
    if pos < |data| {
      var turn := NextTurn(v, st, data, pos);
      if turn.Go? {
        ProcessIsNoPointer(v, turn.st, data, turn.pos);
      }
    }
  }

  lemma NoNullBody(body: Body, data: bytes)
    requires ValidBody(body) && !body.NoBody?
    ensures BodyProcess(AsShipped, body, data).1 != NullDereference
  {
    if body.Chunked? {
      ProcessIsNoPointer(AsShipped, body.chunks, data, 0);
    }
  }

  /** The run ended with this meaning, and with its completeness as the answer. */
  predicate Understood(r: (Response, Outcome), d: Meaning) {
    r.1 == Returned(d.complete) && MeaningOf(r.0) == d
  }

  /** The number of bytes after the first empty line. */
  function BodyBytes(m: bytes): nat {
    var pos := Find(m, HEAD_END, 0);
    if pos < 0 then 0 else |m| - pos - 4
  }

  lemma IncompleteHeadRun(headers: Headers, first: bytes, later: seq<bytes>)
    requires Find(first, HEAD_END, 0) < 0
    ensures RunResponse(AsShipped, Reset(headers), [first] + later).1 == NullDereference
  {
    hide ProcessData, Find;
    IncompleteHeadCrashes(headers, first);
  }

  lemma HeadSplit(first: bytes, more: bytes)
    requires Find(first, HEAD_END, 0) >= 0
    ensures var m, pos := first + more, Find(first, HEAD_END, 0);
            Find(m, HEAD_END, 0) == pos && m[..pos] == first[..pos] && m[pos + 4..] == first[pos + 4..] + more
  {
    HeadEndKept(first, more);
  }

  /** Content-Length decides the framing as soon as it is there. */
  lemma LengthWins(r: Response, text: bytes)
    requires HeadOf(r, text).Some?
    ensures HeadOf(r, text).value.body.ContentLen? <==> "content-length" in HeadOf(r, text).value.headers
  {
    hide ParseHeader, Stoul;
  }

  /** Bytes that do not go beyond what is announced cannot step over it. */
  lemma LengthUndisturbed(headers: Headers, first: bytes, later: seq<bytes>)
    requires Find(first, HEAD_END, 0) >= 0 && Decode(headers, first + Concat(later)).Some?
    requires "content-length" in Decode(headers, first + Concat(later)).value.headers
    requires BodyBytes(first + Concat(later)) == |Decode(headers, first + Concat(later)).value.body|
    ensures Undisturbed(headers, first, later)
  {
    hide HeadOf, Find, Feed, BadCut;
    var pos := Find(first, HEAD_END, 0);
    HeadSplit(first, Concat(later));
    LengthWins(Reset(headers), first[..pos]);
    var pieces := [first[pos + 4..]] + later;
    assert pieces[1..] == later;
    FitsNeverStepsOver(HeadOf(Reset(headers), first[..pos]).value.body.size, 0, pieces);
  }

  /** A response with a content length is understood by the code as it is, as far as it goes, if and only
      if the first piece holds the whole header and no piece steps over the announced end. Otherwise the
      code does not even return. */
  lemma LengthCutsExactly(headers: Headers, first: bytes, later: seq<bytes>)
    requires Decode(headers, first + Concat(later)).Some?
    requires "content-length" in Decode(headers, first + Concat(later)).value.headers
    ensures Understood(RunResponse(AsShipped, Reset(headers), [first] + later), Decode(headers, first + Concat(later)).value)
        <==> Find(first, HEAD_END, 0) >= 0
             && !StepsOver(Announced(headers, first + Concat(later)), 0,
                           [first[Find(first, HEAD_END, 0) + 4..]] + later)
    ensures RunResponse(AsShipped, Reset(headers), [first] + later).1.Returned?
        <==> Undisturbed(headers, first, later)
    ensures Undisturbed(headers, first, later)
        <==> Understood(RunResponse(AsShipped, Reset(headers), [first] + later), Decode(headers, first + Concat(later)).value)
  {
    hide RunResponse, RunBody, Find, HeadOf, BadCut, StepsOver, Feed, Decode;
    if Find(first, HEAD_END, 0) >= 0 {
      var pos := Find(first, HEAD_END, 0);
      HeadSplit(first, Concat(later));
      HeadDecoded(headers, first + Concat(later));
      LengthWins(Reset(headers), first[..pos]);
      var q := HeadOf(Reset(headers), first[..pos]).value;
      HeadInFirstPiece(AsShipped, headers, first, later);
      OverrunExactly(q.body.size, [], [first[pos + 4..]] + later);
      if !StepsOver(q.body.size, 0, [first[pos + 4..]] + later) {
        DecodesFromHead(AsShipped, headers, first, later);
      }
    } else {
      IncompleteHeadRun(headers, first, later);
    }
  }

  /** The announced length of a response that can be decoded. */
  function Announced(headers: Headers, m: bytes): nat {
    var pos := Find(m, HEAD_END, 0);
    if pos < 0 then 0
    else match HeadOf(Reset(headers), m[..pos])
      case Some(q) => if q.body.ContentLen? then q.body.size else 0
      case None => 0
  }

  lemma HeadDecoded(headers: Headers, m: bytes)
    requires Decode(headers, m).Some?
    ensures var pos := Find(m, HEAD_END, 0);
            pos >= 0 && HeadOf(Reset(headers), m[..pos]).Some?
            && HeadOf(Reset(headers), m[..pos]).value.status != NO_STATUS
            && Decode(headers, m).value.headers == HeadOf(Reset(headers), m[..pos]).value.headers
            && Decode(headers, m).value.status == HeadOf(Reset(headers), m[..pos]).value.status
  {
    hide HeadOf, Find, Feed;
  }

  /** A response whose body is a coding of some chunks, however their sizes are written and whatever follows
      it, is understood by the code as it is if and only if the first piece holds the whole header and no piece starts inside a
      size line and runs on past its end. This is for pieces where what follows the first such cut does
      not mislead the code. */
  lemma ChunkedCutsExactly(headers: Headers, first: bytes, later: seq<bytes>, sizes: seq<bytes>, chunks: seq<bytes>,
                           more: bytes)
    requires Decode(headers, first + Concat(later)).Some?
    requires "content-length" !in Decode(headers, first + Concat(later)).value.headers
    requires var m, pos := first + Concat(later), Find(first + Concat(later), HEAD_END, 0);
             Spelled(sizes, chunks) && pos >= 0 && m[pos + 4..] == Coding(sizes, chunks) + more
    requires Find(first, HEAD_END, 0) >= 0 ==> !Misled(START, [first[Find(first, HEAD_END, 0) + 4..]] + later)
    ensures Understood(RunResponse(AsShipped, Reset(headers), [first] + later), Decode(headers, first + Concat(later)).value)
        <==> Find(first, HEAD_END, 0) >= 0
             && !BadCut(START, [first[Find(first, HEAD_END, 0) + 4..]] + later)
  {
    hide RunResponse, RunBody, Find, HeadOf, BadCut, RunPieces, Feed, Misled, Coding, Spells;
    if Find(first, HEAD_END, 0) >= 0 {
      var pos := Find(first, HEAD_END, 0);
      HeadSplit(first, Concat(later));
      LengthWins(Reset(headers), first[..pos]);
      var pieces := [first[pos + 4..]] + later;
      assert pieces[1..] == later;
      HeadInFirstPiece(AsShipped, headers, first, later);
      ChunkedRun(AsShipped, FRESH, pieces);
      CutsDecodedExactly(sizes, chunks, more, pieces);
      CodingThenMore(sizes, chunks, more);
      if !BadCut(START, pieces) {
        DecodesFromHead(AsShipped, headers, first, later);
      }
    } else {
      IncompleteHeadRun(headers, first, later);
    }
  }
}
