/**
 `HttpResponseProcessor::ChunkedProcessor`: the decoder of chunked bodies that works on whole
 pieces, scanning a line buffer with `strstr` and copying payload in blocks.
 */
module ChunkedDecoder {
  import opened Bytes
  import opened Outcomes

  const TMPSIZ: nat := 1024

  datatype ChunkState = ChunkState(
    size: int,          // chunk_size_, negative while the size line is being read
    read: nat,          // chunk_read_
    tmp: bytes,         // the used part of tmp_buf_
    ends: nat,          // chunk_end_char_count_
    data: bytes,        // data_
    complete: bool)
  {
    predicate Valid() {
      && |tmp| <= TMPSIZ
      && ends <= 1
      && (if size < 0 then read == 0 && ends == 0 else read <= size && (ends == 1 ==> read == size))
    }
  }

  const FRESH: ChunkState := ChunkState(-1, 0, [], 0, [], false)

  /** The line buffer after taking what still fits from the piece. */
  function Refill(tmp: bytes, data: bytes, pos: nat): (r: bytes)
    requires |tmp| <= TMPSIZ && pos <= |data|
    ensures |r| <= TMPSIZ && tmp <= r
  {
    tmp + data[pos..pos + Min(|data| - pos, TMPSIZ - |tmp|)]
  }

  /** One turn of the loop in `process`: go on at a later position, or leave the call. */
  datatype Turn = Go(st: ChunkState, pos: nat) | Stop(st: ChunkState, outcome: Outcome)

  /** A turn that looks for the end of the size line. The patched version counts only those bytes of
      the line that come from this piece, and refuses a size that does not fit an `int`. The state
      after an exception is never looked at by the original and is left as it was. */
  function SizeTurn(v: Version, st: ChunkState, data: bytes, pos: nat): Turn
    requires |st.tmp| <= TMPSIZ && pos < |data|
  {
    var tmp := Refill(st.tmp, data, pos);
    if Find(CString(tmp), CRLF, 0) >= 0 then
      var parsed := Strtoul(CString(tmp), 16);
      var size := ToInt32(parsed.value);
      var carried := if v.Patched? then |st.tmp| else 0;
      if parsed.end == 0 || (v.Patched? && (parsed.value > 0x7FFF_FFFF || parsed.end + 2 <= carried)) then Stop(st, Threw)
      else Go(st.(size := size, tmp := tmp), pos + parsed.end + 2 - carried)
    else if |tmp| == TMPSIZ then Stop(st, Threw)
    else Stop(st.(tmp := tmp), Returned(false))
  }

  /** How many characters the literal has to which the code adds a wrong byte, instead of putting the byte
      behind it: a larger byte makes the message start behind the NUL of the literal. */
  const MESSAGE_LENGTH: nat := 30

  /** The refusal of a byte that is not the CR or LF after a chunk. */
  function Refusal(v: Version, wrong: byte): (o: Outcome)
    ensures !o.Returned?
  {
    if v.AsShipped? && wrong as nat > MESSAGE_LENGTH then LiteralOverrun else Threw
  }

  function ClosingTurn(v: Version, st: ChunkState, data: bytes, pos: nat): Turn
    requires pos < |data|
  {
    if data[pos] != (if st.ends == 0 then CR else LF) then Stop(st, Refusal(v, data[pos]))
    else if st.ends == 0 then Go(st.(ends := 1), pos + 1)
    else if st.size == 0 then Stop(st.(complete := true), Returned(true))
    else Go(st.(size := -1, read := 0, tmp := [], ends := 0), pos + 1)
  }

  function PayloadTurn(st: ChunkState, data: bytes, pos: nat): Turn
    requires pos < |data| && st.read < st.size
  {
    var n := Min(|data| - pos, st.size - st.read);
    Go(st.(data := st.data + data[pos..pos + n], read := st.read + n), pos + n)
  }

  function NextTurn(v: Version, st: ChunkState, data: bytes, pos: nat): (t: Turn)
    requires st.Valid() && pos < |data|
    ensures t.st.Valid() && (t.Go? ==> t.pos > pos)
  {
    if st.size < 0 then SizeTurn(v, st, data, pos)
    else if st.read == st.size then ClosingTurn(v, st, data, pos)
    else PayloadTurn(st, data, pos)
  }

  /** `process`, from position `pos` of the piece on. */
  function Process(v: Version, st: ChunkState, data: bytes, pos: nat): (r: (ChunkState, Outcome))
    requires st.Valid()
    ensures r.0.Valid()
    decreases |data| - pos
  {
    if pos >= |data| then (st, Returned(false))
    else match NextTurn(v, st, data, pos)
      case Stop(st', outcome) => (st', outcome)
      case Go(st', pos') => Process(v, st', data, pos')
  }

  // ---------------------------------------------------------------- the class

  class ChunkedProcessor {
    var chunkSize: int
    var chunkRead: nat
    var tmpBufSize: nat
    var chunkEndCharCount: nat
    const tmpBuf: array<byte>
    var data: bytes
    var complete: bool

    ghost predicate Valid()
      reads this, tmpBuf
    {
      tmpBuf.Length == TMPSIZ + 1 && tmpBufSize <= TMPSIZ && State().Valid()
    }

    function State(): ChunkState
      requires tmpBufSize <= tmpBuf.Length
      reads this, tmpBuf
    {
      ChunkState(chunkSize, chunkRead, tmpBuf[..tmpBufSize], chunkEndCharCount, data, complete)
    }

    constructor ()
      ensures Valid() && State() == FRESH && fresh(tmpBuf)
    {
      chunkSize, chunkRead, tmpBufSize, chunkEndCharCount := -1, 0, 0, 0;
      tmpBuf := new byte[TMPSIZ + 1](_ => NUL);
      data, complete := [], false;
    }

    /** Copies as much of the piece into the line buffer as fits. */
    method FillTmpBuf(piece: bytes, pos: nat)
      requires Valid() && pos <= |piece|
      modifies this`tmpBufSize, tmpBuf
      ensures tmpBufSize <= TMPSIZ
      ensures tmpBuf[..tmpBufSize] == Refill(old(tmpBuf[..tmpBufSize]), piece, pos)
    {
      var room := TMPSIZ - tmpBufSize;
      var copyLen := Min(|piece| - pos, room);
      ghost var before := tmpBuf[..tmpBufSize];
      forall i | 0 <= i < copyLen {
        tmpBuf[tmpBufSize + i] := piece[pos + i];
      }
      tmpBufSize := tmpBufSize + copyLen;
      tmpBuf[tmpBufSize] := NUL;
      assert tmpBuf[..tmpBufSize] == before + piece[pos..pos + copyLen];
    }

    /** What a part of the loop has to achieve: one turn, with `left` set when the call ends. */
    ghost predicate Took(turn: Turn, left: Option<Outcome>, next: nat)
      requires tmpBufSize <= tmpBuf.Length
      reads this, tmpBuf
    {
      match turn
      case Go(st, pos) => left.None? && State() == st && next == pos
      case Stop(st, outcome) => left == Some(outcome) && (outcome.Returned? ==> State() == st)
    }

    /** The part of the loop that looks for the end of the size line. */
    method ReadSizeLine(piece: bytes, pos: nat) returns (left: Option<Outcome>, next: nat)
      requires Valid() && pos < |piece| && chunkSize < 0
      modifies this, tmpBuf
      ensures tmpBufSize <= TMPSIZ && Took(SizeTurn(AsShipped, old(State()), piece, pos), left, next)
    {
      next := pos;
      FillTmpBuf(piece, pos);
      var text := CString(tmpBuf[..tmpBufSize]);
      if Find(text, CRLF, 0) >= 0 {
        var parsed := Strtoul(text, 16);
        if parsed.end == 0 {
          return Some(Threw), pos;
        }
        chunkSize := ToInt32(parsed.value);
        return None, pos + parsed.end + 2;
      } else if tmpBufSize == TMPSIZ {
        return Some(Threw), pos;
      } else {
        return Some(Returned(false)), pos;
      }
    }

    /** The part of the loop that checks the CRLF after the bytes of a chunk. */
    method ReadClosing(piece: bytes, pos: nat) returns (left: Option<Outcome>, next: nat)
      requires Valid() && pos < |piece| && chunkRead == chunkSize
      modifies this
      ensures tmpBufSize <= TMPSIZ && Took(ClosingTurn(AsShipped, old(State()), piece, pos), left, next)
    {
      if piece[pos] != (if chunkEndCharCount == 0 then CR else LF) {
        return Some(if piece[pos] as nat > MESSAGE_LENGTH then LiteralOverrun else Threw), pos;
      }
      if chunkEndCharCount == 0 {
        chunkEndCharCount := 1;
      } else if chunkSize == 0 {
        complete := true;
        return Some(Returned(true)), pos;
      } else {
        chunkSize, chunkRead, tmpBufSize, chunkEndCharCount := -1, 0, 0, 0;
      }
      return None, pos + 1;
    }

    /** The part of the loop that copies payload. */
    method ReadPayload(piece: bytes, pos: nat) returns (left: Option<Outcome>, next: nat)
      requires Valid() && pos < |piece| && 0 <= chunkRead < chunkSize
      modifies this`data, this`chunkRead
      ensures Took(PayloadTurn(old(State()), piece, pos), left, next)
    {
      var copyLen := Min(|piece| - pos, chunkSize - chunkRead);
      data := data + piece[pos..pos + copyLen];
      chunkRead := chunkRead + copyLen;
      return None, pos + copyLen;
    }

    /** `ChunkedProcessor::process`. */
    method ProcessPiece(piece: bytes) returns (out: Outcome)
      requires Valid()
      modifies this, tmpBuf
      ensures out == Process(AsShipped, old(State()), piece, 0).1
      ensures out.Returned? ==> Valid() && State() == Process(AsShipped, old(State()), piece, 0).0
    {
      var nprocessed := 0;
      while |piece| > nprocessed
        invariant Valid() && 0 <= nprocessed
        invariant Process(AsShipped, State(), piece, nprocessed) == Process(AsShipped, old(State()), piece, 0)
      {
        ghost var turn := NextTurn(AsShipped, State(), piece, nprocessed);
        var left, next;
        if chunkSize < 0 {
          left, next := ReadSizeLine(piece, nprocessed);
        } else if chunkRead == chunkSize {
          left, next := ReadClosing(piece, nprocessed);
        } else {
          left, next := ReadPayload(piece, nprocessed);
        }
        assert Took(turn, left, next);
        if left.Some? {
          return left.value;
        }
        nprocessed := next;
      }
      return Returned(false);
    }
  }
}
