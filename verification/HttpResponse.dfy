/** `HttpResponseProcessor`: the incremental decoder of one HTTP response. */
module HttpResponse {
  import opened Bytes
  import opened Outcomes
  import opened ChunkedDecoder
  import opened HttpHeader

  /** The object behind `data_processor_`. */
  datatype Body =
    | NoBody
    | ContentLen(size: nat, got: bytes)   // payload_size_ and the part of payload_ that is filled
    | Chunked(chunks: ChunkState)

  datatype Response = Response(status: int, header: bytes, headers: Headers, body: Body)
  {
    predicate Valid() {
      match body
      case NoBody => true
      case ContentLen(size, got) => |got| <= size
      case Chunked(chunks) => chunks.Valid()
    }
  }

  /** A processor after `reset`, which keeps the header fields of earlier responses. */
  function Reset(headers: Headers): Response {
    Response(NO_STATUS, [], headers, NoBody)
  }

  /** The processor that the header fields ask for; nothing when the original throws. */
  function MakeBody(headers: Headers): (r: Option<Body>)
    ensures r.Some? ==> FreshBody(r.value)
  {
    if "content-length" in headers then
      match Stoul(headers["content-length"])
      case None => None
      case Some(n) => if ToInt32(n) < 0 then None else Some(ContentLen(ToInt32(n), []))
    else if "transfer-encoding" in headers && ToLower(CString(headers["transfer-encoding"])) == "chunked" then
      Some(Chunked(FRESH))
    else
      None
  }

  /** The announced length is the number at the start of the field, as the conversion to `int` leaves it. */
  lemma LengthTaken(headers: Headers, digits: bytes, rest: bytes)
    requires "content-length" in headers && headers["content-length"] == digits + rest
    requires digits != [] && AllDigits(digits, 10) && (rest != [] ==> !IsDigit(rest[0], 10))
    ensures var n := Number(digits, 10);
            MakeBody(headers) ==
            if n < 0x1_0000_0000_0000_0000 && ToInt32(n) >= 0 then Some(ContentLen(ToInt32(n), [])) else None
  {
    hide Stoul, IsDigit, Number;
    StoulOfDigits(digits, rest);
  }

  /** A field that does not start with a number is refused, whatever the other fields are. */
  lemma NoLengthNoBody(headers: Headers)
    requires "content-length" in headers
    requires headers["content-length"] != [] ==> NoNumber(headers["content-length"][0])
    ensures MakeBody(headers) == None
  {
    hide Stoul, NoNumber;
    NoNumberThrows(headers["content-length"]);
  }

  /** A processor that has not been given any bytes yet. */
  predicate FreshBody(body: Body) {
    body == Chunked(FRESH) || (body.ContentLen? && body.got == [])
  }

  function BodyComplete(body: Body): bool {
    match body
    case NoBody => false
    case ContentLen(size, got) => |got| == size
    case Chunked(chunks) => chunks.complete
  }

  /** `DataProcessor::process`. As it is, the copy into `payload_` is not bounded; the patched
      version takes no more bytes than the announced length. */
  function BodyProcess(v: Version, body: Body, data: bytes): (r: (Body, Outcome))
    requires Response(0, [], map[], body).Valid()
    ensures Response(0, [], map[], r.0).Valid()
  {
    match body
    case NoBody => (body, NullDereference)
    case ContentLen(size, got) =>
      if v.AsShipped? && |got| + |data| > size then (body, BufferOverrun)
      else
        var got' := got + data[..Min(|data|, size - |got|)];
        (ContentLen(size, got'), Returned(|got'| == size))
    case Chunked(chunks) =>
      var r := Process(v, chunks, data, 0);
      (Chunked(r.0), r.1)
  }

  /** The answer of `processData`. As it is, it dereferences `data_processor_` even while the header
      is incomplete. */
  function Answer(v: Version, r: Response): (Response, Outcome) {
    if r.body.NoBody? && v.AsShipped? then (r, NullDereference) else (r, Returned(BodyComplete(r.body)))
  }

  /** Where `processData` starts to look for the end of the header. */
  function SearchStart(before: bytes): nat {
    if |before| < 3 then 0 else |before| - 3
  }

  /** The header has been parsed and the processor for the body is there; nothing when the original
      throws. */
  function HeadOf(r: Response, text: bytes): (q: Option<Response>)
    ensures q.Some? ==> q.value.Valid() && q.value.header == r.header && FreshBody(q.value.body)
  {
    match ParseHeader(text, r.headers)
    case None => None
    case Some(head) =>
      match MakeBody(head.headers)
      case None => None
      case Some(body) =>
        Some(Response(if head.status == NO_STATUS then r.status else head.status, r.header, head.headers, body))
  }

  /** The header is complete, up to `pos`: what follows it goes to the processor of the body. */
  function StartBody(v: Version, r: Response, pos: nat): (q: (Response, Outcome))
    requires r.Valid() && pos + 4 <= |r.header|
    ensures q.0.Valid()
  {
    match HeadOf(r, r.header[..pos])
    case None => (r, Threw)
    case Some(q) =>
      if |r.header| == pos + 4 then Answer(v, q)
      else
        var (body, out) := BodyProcess(v, q.body, r.header[pos + 4..]);
        if out.Returned? then Answer(v, q.(header := r.header[..pos + 4], body := body)) else (r, out)
  }

  /** `processData`. The patched version knows by `data_processor_` whether the header is complete,
      and answers `false` until it is. The state after an exception is left as it was. */
  function ProcessData(v: Version, r: Response, data: bytes): (q: (Response, Outcome))
    requires r.Valid()
    ensures q.0.Valid()
  {
    if (if v.AsShipped? then r.status == NO_STATUS else r.body.NoBody?) then
      var text := r.header + data;
      var pos := if |text| > 3 then Find(text, HEAD_END, SearchStart(r.header)) else -1;
      if pos < 0 then Answer(v, r.(header := text)) else StartBody(v, r.(header := text), pos)
    else
      var (body', out) := BodyProcess(v, r.body, data);
      if out.Returned? then Answer(v, r.(body := body')) else (r, out)
  }

  predicate Complete(r: Response) {
    r.status != NO_STATUS && BodyComplete(r.body)
  }

  // ---------------------------------------------------------------- comparing

  /** `strncmp`, which also stops after a NUL that both have. */
  function StrNCmp(a: bytes, b: bytes): int
    requires |a| == |b|
  {
    if a == [] then 0
    else if a[0] != b[0] then a[0] as int - b[0] as int
    else if a[0] == NUL then 0
    else StrNCmp(a[1..], b[1..])
  }

  /** `HttpResponseProcessor::compare`; nothing when it throws. */
  function Compare(a: Response, b: Response): Option<int> {
    if !Complete(a) || !Complete(b) then None
    else if a.status != b.status then Some(a.status - b.status)
    else match (a.body, b.body)
      case (ContentLen(m, x), ContentLen(n, y)) => if m != n then Some(m - n) else Some(MemCmp(x, y))
      case (Chunked(x), Chunked(y)) =>
        if |x.data| != |y.data| then Some(|x.data| - |y.data|) else Some(StrNCmp(x.data, y.data))
      case _ => None
  }

  // ---------------------------------------------------------------- the classes

  class ContentLenProcessor {
    const payload: array<byte>
    var payloadRead: nat

    ghost predicate Valid()
      reads this
    {
      payloadRead <= payload.Length
    }

    function State(): Body
      requires Valid()
      reads this, payload
    {
      ContentLen(payload.Length, payload[..payloadRead])
    }

    constructor (size: nat)
      ensures Valid() && State() == ContentLen(size, []) && fresh(payload)
    {
      payload := new byte[size](_ => NUL);
      payloadRead := 0;
    }

    /** `ContentLenProcessor::process`; the copy is not carried out when it would leave the buffer. */
    method ProcessPiece(data: bytes) returns (out: Outcome)
      requires Valid()
      modifies this, payload
      ensures Valid()
      ensures State() == BodyProcess(AsShipped, old(State()), data).0
      ensures out == BodyProcess(AsShipped, old(State()), data).1
    {
      if payloadRead + |data| > payload.Length {
        return BufferOverrun;
      }
      ghost var before := payload[..payloadRead];
      forall i | 0 <= i < |data| {
        payload[payloadRead + i] := data[i];
      }
      payloadRead := payloadRead + |data|;
      assert payload[..payloadRead] == before + data;
      assert data[..|data|] == data;
      return Returned(payloadRead == payload.Length);
    }
  }

  class HttpResponseProcessor {
    var headerStr: bytes
    var headers: Headers
    var statusCode: int
    var contentLen: ContentLenProcessor?   // data_processor_ is one of these two, or null
    var chunked: ChunkedProcessor?

    ghost function Repr(): set<object>
      reads this
    {
      {this}
      + (if contentLen != null then {contentLen, contentLen.payload} else {})
      + (if chunked != null then {chunked, chunked.tmpBuf} else {})
    }

    ghost predicate Valid()
      reads Repr()
    {
      && (contentLen != null ==> chunked == null && contentLen.Valid())
      && (chunked != null ==> chunked.Valid())
    }

    function BodyState(): Body
      requires Valid()
      reads Repr()
    {
      if contentLen != null then contentLen.State()
      else if chunked != null then Chunked(chunked.State())
      else NoBody
    }

    function State(): (r: Response)
      requires Valid()
      reads Repr()
      ensures r.Valid()
    {
      Response(statusCode, headerStr, headers, BodyState())
    }

    constructor ()
      ensures Valid() && State() == Reset(map[]) && fresh(Repr())
    {
      headerStr, headers, statusCode := [], map[], NO_STATUS;
      contentLen, chunked := null, null;
    }

    /** `reset`. */
    method ResetAll()
      requires Valid()
      modifies this
      ensures Valid() && State() == Reset(old(State()).headers) && Repr() == {this}
    {
      statusCode, headerStr := NO_STATUS, [];
      contentLen, chunked := null, null;
    }

    /** `(*data_processor_).process`. */
    method ProcessBody(data: bytes) returns (out: Outcome)
      requires Valid()
      modifies Repr()
      ensures out == BodyProcess(AsShipped, old(BodyState()), data).1
      ensures Repr() == old(Repr())
      ensures out.Returned? ==> Valid() && State() == old(State()).(body := BodyProcess(AsShipped, old(BodyState()), data).0)
    {
      if contentLen != null {
        out := contentLen.ProcessPiece(data);
      } else if chunked != null {
        out := chunked.ProcessPiece(data);
      } else {
        out := NullDereference;
      }
    }

    method AnswerComplete() returns (out: Outcome)
      requires Valid()
      ensures out == Answer(AsShipped, State()).1
    {
      if contentLen != null {
        return Returned(contentLen.payloadRead == contentLen.payload.Length);
      } else if chunked != null {
        return Returned(chunked.complete);
      } else {
        return NullDereference;
      }
    }

    /** Creates the processor that the header fields ask for. */
    method CreateBody() returns (ok: bool)
      requires Valid() && contentLen == null && chunked == null
      modifies this`contentLen, this`chunked
      ensures ok == MakeBody(headers).Some?
      ensures Valid() && fresh(Repr() - {this})
      ensures ok ==> BodyState() == MakeBody(headers).value
    {
      if "content-length" in headers {
        var size := Stoul(headers["content-length"]);
        if size.None? || ToInt32(size.value) < 0 {
          return false;
        }
        contentLen := new ContentLenProcessor(ToInt32(size.value));
        return true;
      } else if "transfer-encoding" in headers && ToLower(CString(headers["transfer-encoding"])) == "chunked" {
        chunked := new ChunkedProcessor();
        return true;
      } else {
        return false;
      }
    }

    /** `parseHeader`. */
    method ParseInto(text: bytes) returns (ok: bool)
      requires Valid()
      modifies this`statusCode, this`headers
      ensures ok == ParseHeader(text, old(headers)).Some?
      ensures ok ==> var head := ParseHeader(text, old(headers)).value;
                     headers == head.headers
                     && statusCode == if head.status == NO_STATUS then old(statusCode) else head.status
    {
      var first := GetLine(text, LF);
      if first.None? {
        return true;
      }
      var status := ParseStatus(first.value.0);
      if status.None? {
        return false;
      }
      if status.value != NO_STATUS {
        statusCode := status.value;
      }
      headers := ReadFields(first.value.1, headers);
      return true;
    }

    /** The header has been parsed and the processor for the body is there. */
    method BeginBody(pos: nat) returns (ok: bool)
      requires Valid() && pos <= |headerStr|
      modifies this
      ensures ok == HeadOf(old(State()), old(headerStr[..pos])).Some?
      ensures ok ==> Valid() && fresh(Repr() - {this})
      ensures ok ==> State() == HeadOf(old(State()), old(headerStr[..pos])).value
    {
      hide ParseHeader, MakeBody;
      ok := ParseInto(headerStr[..pos]);
      if ok {
        contentLen, chunked := null, null;
        ok := CreateBody();
      }
    }

    /** What `processData` does once it has found the end of the header at `pos`. */
    method TakeHead(pos: nat) returns (out: Outcome)
      requires Valid() && pos + 4 <= |headerStr|
      modifies Repr()
      ensures out == StartBody(AsShipped, old(State()), pos).1
      ensures out.Returned? ==> Valid() && fresh(Repr() - old(Repr()))
      ensures out.Returned? ==> State() == StartBody(AsShipped, old(State()), pos).0
    {
      hide HeadOf, BodyProcess;
      var ok := BeginBody(pos);
      if !ok {
        return Threw;
      }
      if |headerStr| > pos + 4 {
        out := ProcessBody(headerStr[pos + 4..]);
        if !out.Returned? {
          return;
        }
        headerStr := headerStr[..pos + 4];
      }
      out := AnswerComplete();
    }

    /** `processData`. */
    method ProcessPiece(data: bytes) returns (out: Outcome)
      requires Valid()
      modifies Repr()
      ensures out == ProcessData(AsShipped, old(State()), data).1
      ensures out.Returned? ==> Valid() && fresh(Repr() - old(Repr()))
      ensures out.Returned? ==> State() == ProcessData(AsShipped, old(State()), data).0
    {
      hide StartBody, BodyProcess, Find;
      if statusCode == NO_STATUS {
        var start := SearchStart(headerStr);
        headerStr := headerStr + data;
        assert State() == old(State()).(header := headerStr);
        var pos := -1;
        if |headerStr| > 3 {
          pos := Find(headerStr, HEAD_END, start);
        }
        if pos >= 0 {
          out := TakeHead(pos);
        } else {
          out := AnswerComplete();
        }
      } else {
        out := ProcessBody(data);
        if out.Returned? {
          out := AnswerComplete();
        }
      }
    }

    /** `complete`. */
    predicate IsComplete()
      requires Valid()
      reads Repr()
      ensures IsComplete() == Complete(State())
    {
      statusCode != NO_STATUS &&
      if contentLen != null then contentLen.payloadRead == contentLen.payload.Length
      else chunked != null && chunked.complete
    }

    /** `compare`; nothing when it throws. */
    method CompareTo(other: HttpResponseProcessor) returns (r: Option<int>)
      requires Valid() && other.Valid()
      ensures r == Compare(State(), other.State())
    {
      if !IsComplete() || !other.IsComplete() {
        return None;
      }
      if statusCode != other.statusCode {
        return Some(statusCode - other.statusCode);
      }
      if contentLen != null && other.contentLen != null {
        var a, b := contentLen.payload, other.contentLen.payload;
        assert a[..a.Length] == a[..] && b[..b.Length] == b[..];
        return if a.Length != b.Length then Some(a.Length - b.Length) else Some(MemCmp(a[..], b[..]));
      } else if chunked != null && other.chunked != null {
        var a, b := chunked.data, other.chunked.data;
        return if |a| != |b| then Some(|a| - |b|) else Some(StrNCmp(a, b));
      } else {
        return None;
      }
    }
  }
}
