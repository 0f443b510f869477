/** Comparing the captured response with the live one. */
module HttpVerdict {
  import opened Bytes
  import opened Outcomes
  import opened ChunkedFormat
  import opened ChunkedCorrectness
  import opened HttpHeader
  import opened HttpResponse
  import opened HttpCorrectness

  /** `strncmp` compares only up to the first NUL that both have. */
  lemma {:induction false} StrNCmpStopsAtNul(a: bytes, b: bytes)
    requires |a| == |b|
    ensures StrNCmp(a, b) == 0 <==> CString(a) == CString(b)
  {
    if a != [] && a[0] == b[0] && a[0] != NUL {
      StrNCmpStopsAtNul(a[1..], b[1..]);
      assert CString(a) == [a[0]] + CString(a[1..]) && CString(b) == [b[0]] + CString(b[1..]);
      assert CString(a)[1..] == CString(a[1..]) && CString(b)[1..] == CString(b[1..]);
    } else if a != [] && a[0] != b[0] {
      assert CString(a) != [] ==> CString(a)[0] == a[0];
      assert CString(b) != [] ==> CString(b)[0] == b[0];
    }
  }

  /** When `compare` finds no difference, for two complete responses. */
  predicate Same(a: Response, b: Response) {
    && a.status == b.status
    && if a.body.ContentLen? then b.body.ContentLen? && a.body.got == b.body.got
       else a.body.Chunked? && b.body.Chunked? && |a.body.chunks.data| == |b.body.chunks.data|
            && CString(a.body.chunks.data) == CString(b.body.chunks.data)
  }

  lemma CompareExactly(a: Response, b: Response)
    requires a.Valid() && b.Valid() && Complete(a) && Complete(b)
    ensures Compare(a, b) == Some(0) <==> Same(a, b)
  {
    match (a.body, b.body)
    case (ContentLen(m, x), ContentLen(n, y)) =>
      if m == n {
        MemCmpIsEquality(x, y);
      }
    case (Chunked(x), Chunked(y)) =>
      if |x.data| == |y.data| {
        StrNCmpStopsAtNul(x.data, y.data);
      }
    case _ =>
  }

  /** When `compare` reports no difference, in terms of what the responses mean. */
  predicate SameMeaning(x: Meaning, y: Meaning) {
    && x.status == y.status
    && ("content-length" in x.headers <==> "content-length" in y.headers)
    && if "content-length" in x.headers then x.body == y.body
       else |x.body| == |y.body| && CString(x.body) == CString(y.body)
  }

  /** The verdict of the replay client on the captured and the live response, both cut in any way that
      the processor copes with: no difference exactly when status, framing and body agree; for
      chunked bodies, exactly when the bodies agree in length and up to the first NUL. */
  lemma VerdictExactly(v: Version, headers: Headers, first: bytes, later: seq<bytes>,
                       headers': Headers, first': bytes, later': seq<bytes>)
    requires Decode(headers, first + Concat(later)).Some? && Decode(headers', first' + Concat(later')).Some?
    requires Decode(headers, first + Concat(later)).value.complete
    requires Decode(headers', first' + Concat(later')).value.complete
    requires v.Patched? || (Undisturbed(headers, first, later) && Undisturbed(headers', first', later'))
    ensures Compare(RunResponse(v, Reset(headers), [first] + later).0, RunResponse(v, Reset(headers'), [first'] + later').0)
              == Some(0)
        <==> SameMeaning(Decode(headers, first + Concat(later)).value, Decode(headers', first' + Concat(later')).value)
  {
    hide Decode, RunResponse, Undisturbed, Compare;
    Decodes(v, headers, first, later);
    Decodes(v, headers', first', later');
    CompareExactly(RunResponse(v, Reset(headers), [first] + later).0, RunResponse(v, Reset(headers'), [first'] + later').0);
  }

  lemma Decodes(v: Version, headers: Headers, first: bytes, later: seq<bytes>)
    requires Decode(headers, first + Concat(later)).Some?
    requires v.Patched? || Undisturbed(headers, first, later)
    ensures var r := RunResponse(v, Reset(headers), [first] + later).0;
            MeaningOf(r) == Decode(headers, first + Concat(later)).value && FramedByHeaders(r)
  {
    hide Decode, RunResponse;
    if v.Patched? {
      assert ([first] + later)[1..] == later;
      EveryCutDecodes(headers, [first] + later);
    } else {
      assert Find(first, HEAD_END, 0) >= 0;
      DecodesFromHead(v, headers, first, later);
    }
  }

  // ---------------------------------------------------------------- printed responses

  lemma HeadOfPrinted(version: bytes, status: nat, reason: bytes, fs: seq<Field>, headers: Headers)
    requires TokenOk(version) && status <= 0x7FFF_FFFF && LF !in reason && FieldsOk(fs)
    ensures var h := FieldMap(fs, headers);
            HeadOf(Reset(headers), PrintHead(version, status, reason, fs))
            == if MakeBody(h).Some? then Some(Response(status, [], h, MakeBody(h).value)) else None
  {
    hide PrintHead, ParseHeader, FieldMap, MakeBody;
    ParseInvertsPrint(version, status, reason, fs, headers);
  }

  /** A response printed with a content length is decoded to its parts. */
  lemma DecodePrintedLength(version: bytes, status: nat, reason: bytes, fs: seq<Field>, headers: Headers, payload: bytes)
    requires TokenOk(version) && status <= 0x7FFF_FFFF && CR !in reason && LF !in reason && FieldsOk(fs)
    requires |payload| <= 0x7FFF_FFFF
    requires "content-length" in FieldMap(fs, headers) && FieldMap(fs, headers)["content-length"] == Print(|payload|, 10)
    ensures Decode(headers, PrintHead(version, status, reason, fs) + HEAD_END + payload)
         == Some(Meaning(status, FieldMap(fs, headers), payload, true))
  {
    hide PrintHead, HeadOf, FieldMap, Find, Feed, Stoul, Print;
    var head := PrintHead(version, status, reason, fs);
    var m := head + HEAD_END + payload;
    HeadEndsOnce(version, status, reason, fs, payload);
    HeadOfPrinted(version, status, reason, fs, headers);
    assert m[..|head|] == head && m[|head| + 4..] == payload;
    StoulOfPrint(|payload|);
    assert payload[..|payload|] == payload;
  }

  /** A response printed in the chunked coding is decoded to its parts, however the sizes are written and
      whatever follows it. */
  lemma DecodePrintedChunks(version: bytes, status: nat, reason: bytes, fs: seq<Field>, headers: Headers,
                            sizes: seq<bytes>, chunks: seq<bytes>, more: bytes)
    requires TokenOk(version) && status <= 0x7FFF_FFFF && CR !in reason && LF !in reason && FieldsOk(fs)
    requires Spelled(sizes, chunks) && AsksForChunks(FieldMap(fs, headers))
    ensures Decode(headers, PrintHead(version, status, reason, fs) + HEAD_END + (Coding(sizes, chunks) + more))
         == Some(Meaning(status, FieldMap(fs, headers), Concat(chunks), true))
  {
    hide PrintHead, HeadOf, FieldMap, Find, Feed, Coding, Spells, Stoul;
    var head := PrintHead(version, status, reason, fs);
    var body := Coding(sizes, chunks) + more;
    var m := head + HEAD_END + body;
    HeadEndsOnce(version, status, reason, fs, body);
    HeadOfPrinted(version, status, reason, fs, headers);
    assert m[..|head|] == head && m[|head| + 4..] == body;
    CodingThenMore(sizes, chunks, more);
  }

  // ---------------------------------------------------------------- spellings

  /** The last field of that name, however the name is spelled. */
  predicate LastNamed(fs: seq<Field>, name: bytes, k: nat) {
    k < |fs| && SameText(fs[k].name, name) && forall i :: k < i < |fs| ==> !SameText(fs[i].name, name)
  }

  lemma LowerNames()
    ensures ToLower("Content-Length") == "content-length" && ToLower("Transfer-Encoding") == "transfer-encoding"
    ensures ToLower("chunked") == "chunked"
  {
    ContentName();
    ChunkedName();
    ChunkedValue();
  }

  lemma ContentName()
    ensures ToLower("Content-Length") == "content-length"
  {
  }

  lemma LastField(fs: seq<Field>, headers: Headers, name: bytes, k: nat)
    requires LastNamed(fs, name, k)
    ensures ToLower(name) in FieldMap(fs, headers) && FieldMap(fs, headers)[ToLower(name)] == fs[k].value
  {
    hide ToLower, SameText, FieldMap;
    forall i | k <= i < |fs|
      ensures ToLower(fs[i].name) == ToLower(name) <==> SameText(fs[i].name, name)
    {
      ToLowerExactly(fs[i].name, name);
    }
    FieldMapLast(fs, headers, ToLower(name), k);
  }

  /** A response with the length of its payload in a field whose name is Content-Length in any spelling, the
      last such field, decodes to that payload, whatever earlier responses had. */
  lemma AnyLengthField(version: bytes, status: nat, reason: bytes, fs: seq<Field>, headers: Headers, k: nat, payload: bytes)
    requires TokenOk(version) && status <= 0x7FFF_FFFF && CR !in reason && LF !in reason && FieldsOk(fs)
    requires LastNamed(fs, "Content-Length", k) && fs[k].value == Print(|payload|, 10) && |payload| <= 0x7FFF_FFFF
    ensures Decode(headers, PrintHead(version, status, reason, fs) + HEAD_END + payload)
         == Some(Meaning(status, FieldMap(fs, headers), payload, true))
  {
    hide ToLower, LastNamed, FieldMap, Decode, Print, PrintHead;
    LowerNames();
    LastField(fs, headers, "Content-Length", k);
    DecodePrintedLength(version, status, reason, fs, headers, payload);
  }

  /** The chunked coding in a field whose name is Transfer-Encoding and whose value is chunked, both in any
      spelling, and no field for a content length. */
  predicate SpellsChunked(fs: seq<Field>, k: nat) {
    && LastNamed(fs, "Transfer-Encoding", k) && SameText(fs[k].value, "chunked")
    && forall i :: 0 <= i < |fs| ==> !SameText(fs[i].name, "Content-Length")
  }

  lemma AskedInAnySpelling(fs: seq<Field>, headers: Headers, k: nat)
    requires SpellsChunked(fs, k) && "content-length" !in headers
    ensures AsksForChunks(FieldMap(fs, headers))
  {
    hide ToLower, LastNamed, SameText, FieldMap, CString;
    LowerNames();
    LastField(fs, headers, "Transfer-Encoding", k);
    forall i | 0 <= i < |fs|
      ensures ToLower(fs[i].name) != "content-length"
    {
      ToLowerExactly(fs[i].name, "Content-Length");
    }
    FieldMapWithout(fs, headers, "content-length");
    LastIsField(fs, k);
    ToLowerExactly(fs[k].value, "chunked");
    ChunkedHasNoNul(fs[k].value);
  }

  lemma LastIsField(fs: seq<Field>, k: nat)
    requires LastNamed(fs, "Transfer-Encoding", k)
    ensures k < |fs|
  {
  }

  /** A response with such fields, when no earlier one had a content length, decodes to its chunks. */
  lemma AnyChunkedField(version: bytes, status: nat, reason: bytes, fs: seq<Field>, headers: Headers, k: nat,
                        sizes: seq<bytes>, chunks: seq<bytes>, more: bytes)
    requires TokenOk(version) && status <= 0x7FFF_FFFF && CR !in reason && LF !in reason && FieldsOk(fs)
    requires SpellsChunked(fs, k) && "content-length" !in headers && Spelled(sizes, chunks)
    ensures Decode(headers, PrintHead(version, status, reason, fs) + HEAD_END + (Coding(sizes, chunks) + more))
         == Some(Meaning(status, FieldMap(fs, headers), Concat(chunks), true))
  {
    hide SpellsChunked, FieldMap, Decode, PrintHead, Coding, Spells, AsksForChunks;
    AskedInAnySpelling(fs, headers, k);
    DecodePrintedChunks(version, status, reason, fs, headers, sizes, chunks, more);
  }

  lemma ChunkedHasNoNul(s: bytes)
    requires SameText(s, "chunked")
    ensures CString(s) == s
  {
    hide CString;
    forall i | 0 <= i < |s|
      ensures s[i] != NUL
    {
      CapitalsInOrder(s[i]);
    }
  }

  /** A printed response whose length is not below 2^64, or negative after the conversion, is refused,
      however it is cut. */
  lemma UnusableLengthThrows(version: bytes, status: nat, reason: bytes, fs: seq<Field>, headers: Headers, digits: bytes,
                             body: bytes, pieces: seq<bytes>)
    requires TokenOk(version) && status <= 0x7FFF_FFFF && CR !in reason && LF !in reason && FieldsOk(fs)
    requires "content-length" in FieldMap(fs, headers) && FieldMap(fs, headers)["content-length"] == digits
    requires digits != [] && AllDigits(digits, 10)
    requires Number(digits, 10) >= 0x1_0000_0000_0000_0000 || ToInt32(Number(digits, 10)) < 0
    requires Concat(pieces) == PrintHead(version, status, reason, fs) + HEAD_END + body
    ensures RunResponse(Patched, Reset(headers), pieces).1 == Threw
  {
    hide PrintHead, HeadOf, FieldMap, Find, RunResponse, MakeBody, IsDigit, Number;
    var head := PrintHead(version, status, reason, fs);
    HeadEndsOnce(version, status, reason, fs, body);
    HeadOfPrinted(version, status, reason, fs, headers);
    assert digits + [] == digits;
    LengthTaken(FieldMap(fs, headers), digits, []);
    assert (head + HEAD_END + body)[..|head|] == head;
    UnreadableHeadThrows(headers, pieces);
  }

  // ---------------------------------------------------------------- fields of earlier responses

  predicate AsksForChunks(headers: Headers) {
    && "content-length" !in headers
    && "transfer-encoding" in headers
    && ToLower(CString(headers["transfer-encoding"])) == "chunked"
  }

  const CHUNKED_FIELDS: seq<Field> := [Field("Transfer-Encoding", "chunked")]
  const CHUNKED_MAP: Headers := map["transfer-encoding" := "chunked"]

  /** A response with one chunk that begins with a NUL, as it is on the wire. */
  function WireWithNul(x: bytes): bytes {
    PrintHead("HTTP/1.1", 200, "OK", CHUNKED_FIELDS) + HEAD_END + Encode([[NUL] + x])
  }

  lemma WireRead(x: bytes)
    requires |x| < MAX_CHUNK
    ensures Decode(map[], WireWithNul(x)) == Some(Meaning(200, CHUNKED_MAP, [NUL] + x, true))
    ensures Undisturbed(map[], WireWithNul(x), [])
  {
    hide PrintHead, Decode, Find, Encode, Coding, Spells, BadCut, FieldMap, FieldsOk, HeadOf, AsksForChunks;
    hide CHUNKED_FIELDS, CHUNKED_MAP;
    var chunk: bytes := [NUL] + x;
    var head, m := PrintHead("HTTP/1.1", 200, "OK", CHUNKED_FIELDS), WireWithNul(x);
    ChunkedField();
    EncodeIsCoding([chunk]);
    DecodePrintedChunks("HTTP/1.1", 200, "OK", CHUNKED_FIELDS, map[], PrintedSizes([chunk]), [chunk], []);
    assert Encode([chunk]) + [] == Encode([chunk]);
    ConcatOne(chunk);
    HeadEndsOnce("HTTP/1.1", 200, "OK", CHUNKED_FIELDS, Encode([chunk]));
    HeadDecoded(map[], m);
    assert "content-length" !in CHUNKED_MAP by {
      NoLengthInMap();
    }
    LengthWins(Reset(map[]), m[..|head|]);
    OnePiece(m[|head| + 4..]);
    assert [m[|head| + 4..]] + [] == [m[|head| + 4..]];
  }

  lemma NoLengthInMap()
    ensures "content-length" !in CHUNKED_MAP
  {
  }

  lemma ChunkedName()
    ensures ToLower("Transfer-Encoding") == "transfer-encoding"
  {
  }

  lemma ChunkedValue()
    ensures ToLower("chunked") == "chunked" && CString("chunked") == "chunked"
  {
    LowerChunked();
    NoNulInText("chunked");
  }

  lemma LowerChunked()
    ensures ToLower("chunked") == "chunked"
  {
  }

  lemma NoNulInText(s: bytes)
    requires NUL !in s
    ensures CString(s) == s
  {
    hide CString;
  }

  lemma ChunkedFieldOk()
    ensures FieldOk(Field("Transfer-Encoding", "chunked"))
  {
  }

  lemma ChunkedField()
    ensures FieldsOk(CHUNKED_FIELDS) && FieldMap(CHUNKED_FIELDS, map[]) == CHUNKED_MAP && AsksForChunks(CHUNKED_MAP)
  {
    hide ToLower, CString, FieldOk;
    ChunkedName();
    ChunkedValue();
    ChunkedFieldOk();
    OneField(CHUNKED_FIELDS[0]);
  }

  lemma OneField(f: Field)
    ensures FieldMap([f], map[]) == map[ToLower(f.name) := f.value]
  {
    assert [f][1..] == [];
  }

  /** Two responses whose bodies differ behind a NUL that both begin with: `compare` finds no difference. */
  lemma HiddenDifference(x: bytes, y: bytes)
    requires |x| == |y| < MAX_CHUNK
    ensures Decode(map[], WireWithNul(x)).Some? && Decode(map[], WireWithNul(x)).value.body == [NUL] + x
    ensures Decode(map[], WireWithNul(y)).Some? && Decode(map[], WireWithNul(y)).value.body == [NUL] + y
    ensures Compare(RunResponse(AsShipped, Reset(map[]), [WireWithNul(x)]).0,
                    RunResponse(AsShipped, Reset(map[]), [WireWithNul(y)]).0) == Some(0)
  {
    hide Decode, RunResponse, WireWithNul, Undisturbed, Compare;
    WireRead(x);
    WireRead(y);
    assert WireWithNul(x) + Concat([]) == WireWithNul(x) && WireWithNul(y) + Concat([]) == WireWithNul(y);
    VerdictExactly(AsShipped, map[], WireWithNul(x), [], map[], WireWithNul(y), []);
    assert [WireWithNul(x)] + [] == [WireWithNul(x)] && [WireWithNul(y)] + [] == [WireWithNul(y)];
  }

  /** A printed response with neither framing is refused, however it is cut. */
  lemma NoFramingThrows(version: bytes, status: nat, reason: bytes, fs: seq<Field>, headers: Headers, body: bytes,
                        pieces: seq<bytes>)
    requires TokenOk(version) && status <= 0x7FFF_FFFF && CR !in reason && LF !in reason && FieldsOk(fs)
    requires "content-length" !in FieldMap(fs, headers) && !AsksForChunks(FieldMap(fs, headers))
    requires Concat(pieces) == PrintHead(version, status, reason, fs) + HEAD_END + body
    ensures RunResponse(Patched, Reset(headers), pieces).1 == Threw
  {
    hide PrintHead, HeadOf, FieldMap, Find, RunResponse, Stoul;
    var head := PrintHead(version, status, reason, fs);
    HeadEndsOnce(version, status, reason, fs, body);
    HeadOfPrinted(version, status, reason, fs, headers);
    assert (head + HEAD_END + body)[..|head|] == head;
    UnreadableHeadThrows(headers, pieces);
  }

  lemma {:induction false} FieldMapAdds(fs: seq<Field>, headers: Headers)
    ensures FieldMap(fs, headers) == headers + FieldMap(fs, map[])
    decreases |fs|
  {
    if fs != [] {
      var one: Headers := map[ToLower(fs[0].name) := fs[0].value];
      FieldMapAdds(fs[1..], headers[ToLower(fs[0].name) := fs[0].value]);
      FieldMapAdds(fs[1..], one);
      assert headers[ToLower(fs[0].name) := fs[0].value] == headers + one;
    }
  }

  /** `reset` keeps the fields of the response before: a response that asks for the chunked coding
      gets it if and only if no earlier response had a content length. */
  lemma OldFieldsDecideFraming(version: bytes, status: nat, reason: bytes, fs: seq<Field>, headers: Headers)
    requires TokenOk(version) && status <= 0x7FFF_FFFF && LF !in reason && FieldsOk(fs)
    requires AsksForChunks(FieldMap(fs, map[]))
    ensures var q := HeadOf(Reset(headers), PrintHead(version, status, reason, fs));
            (q.Some? && q.value.body.Chunked?) <==> "content-length" !in headers
  {
    hide PrintHead, HeadOf, Stoul;
    HeadOfPrinted(version, status, reason, fs, headers);
    FieldMapAdds(fs, headers);
  }

  // ---------------------------------------------------------------- sessions

  /** The header fields after a number of responses, each started by `reset`. */
  function Session(v: Version, headers: Headers, responses: seq<seq<bytes>>): Headers
    decreases |responses|
  {
    if responses == [] then headers
    else Session(v, RunResponse(v, Reset(headers), responses[0]).0.headers, responses[1..])
  }

  lemma {:induction false} FieldsKept(s: bytes, headers: Headers, name: bytes)
    requires name in headers
    ensures name in ParseFields(s, headers)
    decreases |s|
  {
    hide ParseField;
    if GetLine(s, LF).Some? {
      var (line, rest) := GetLine(s, LF).value;
      assert name in ParseField(line, headers) by {
        FieldKept(line, headers, name);
      }
      FieldsKept(rest, ParseField(line, headers), name);
    }
  }

  lemma FieldKept(line: bytes, headers: Headers, name: bytes)
    requires name in headers
    ensures name in ParseField(line, headers)
  {
  }

  lemma HeadKeepsFields(r: Response, text: bytes, name: bytes)
    requires name in r.headers && HeadOf(r, text).Some?
    ensures name in HeadOf(r, text).value.headers
  {
    hide ParseFields, ParseStatus, MakeBody;
    if GetLine(text, LF).Some? {
      FieldsKept(GetLine(text, LF).value.1, r.headers, name);
    }
  }

  /** A processor that knows a content length and is not in the middle of a chunked body. */
  predicate KnowsLength(r: Response) {
    "content-length" in r.headers && !r.body.Chunked?
  }

  lemma StepKnowsLength(v: Version, r: Response, data: bytes)
    requires r.Valid() && KnowsLength(r)
    ensures KnowsLength(ProcessData(v, r, data).0)
  {
    hide HeadOf, Find;
    var r' := r.(header := r.header + data);
    forall text | HeadOf(r', text).Some?
      ensures KnowsLength(HeadOf(r', text).value)
    {
      HeadKeepsFields(r', text, "content-length");
      LengthWins(r', text);
    }
  }

  lemma {:induction false} RunKnowsLength(v: Version, r: Response, pieces: seq<bytes>)
    requires r.Valid() && KnowsLength(r)
    ensures KnowsLength(RunResponse(v, r, pieces).0)
    decreases |pieces|
  {
    hide ProcessData;
    if pieces != [] {
      StepKnowsLength(v, r, pieces[0]);
      if ProcessData(v, r, pieces[0]).1 == Returned(false) {
        RunKnowsLength(v, ProcessData(v, r, pieces[0]).0, pieces[1..]);
      }
    }
  }

  lemma {:induction false} SessionKnowsLength(v: Version, headers: Headers, responses: seq<seq<bytes>>)
    requires "content-length" in headers
    ensures "content-length" in Session(v, headers, responses)
    decreases |responses|
  {
    hide RunResponse;
    if responses != [] {
      RunKnowsLength(v, Reset(headers), responses[0]);
      SessionKnowsLength(v, RunResponse(v, Reset(headers), responses[0]).0.headers, responses[1..]);
    }
  }

  lemma {:induction false} SessionAppend(v: Version, headers: Headers, a: seq<seq<bytes>>, b: seq<seq<bytes>>)
    ensures Session(v, headers, a + b) == Session(v, Session(v, headers, a), b)
    decreases |a|
  {
    hide RunResponse;
    if a == [] {
      assert a + b == b;
    } else {
      assert (a + b)[1..] == a[1..] + b;
      SessionAppend(v, RunResponse(v, Reset(headers), a[0]).0.headers, a[1..], b);
    }
  }

  /** Once some response had a content length, no later response is decoded as chunked, whatever its
      bytes are and however they are cut. */
  lemma NoChunksAfterLength(v: Version, headers: Headers, earlier: seq<seq<bytes>>, between: seq<seq<bytes>>,
                            pieces: seq<bytes>)
    requires "content-length" in Session(v, headers, earlier)
    ensures !RunResponse(v, Reset(Session(v, headers, earlier + between)), pieces).0.body.Chunked?
  {
    hide RunResponse, Session;
    SessionAppend(v, headers, earlier, between);
    SessionKnowsLength(v, Session(v, headers, earlier), between);
    RunKnowsLength(v, Reset(Session(v, headers, earlier + between)), pieces);
  }
}
