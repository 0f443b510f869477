/**
 The verdict of a replay: when the client reports a difference between the captured response and the
 live one.
 */
module ReplayVerdict {
  import opened Bytes
  import opened Outcomes
  import opened Actions
  import opened ChunkedFormat
  import opened ChunkedCorrectness
  import opened HttpHeader
  import opened HttpResponse
  import opened HttpCorrectness
  import opened HttpVerdict
  import opened HttpReplay

  /** The RECV actions that a captured response is recorded as. */
  function Recvs(pieces: seq<bytes>): seq<Action> {
    if pieces == [] then [] else [Action(Recv, pieces[0])] + Recvs(pieces[1..])
  }

  predicate NoneEmpty(pieces: seq<bytes>) {
    forall i :: 0 <= i < |pieces| ==> pieces[i] != []
  }

  /** How often a difference has been reported. */
  function Differences(log: seq<Op>): nat {
    if log == [] then 0 else Differences(log[..|log| - 1]) + if log[|log| - 1].Difference? then 1 else 0
  }

  lemma DifferencesSnoc(log: seq<Op>, op: Op)
    ensures Differences(log + [op]) == Differences(log) + if op.Difference? then 1 else 0
  {
    assert (log + [op])[..|log|] == log;
  }

  /** The run ends with a complete response. */
  predicate Finishes(r: Response, pieces: seq<bytes>)
    requires r.Valid()
  {
    var q := RunResponse(AsShipped, r, pieces);
    q.1 == Returned(true) && Complete(q.0)
  }

  /** A call that answers `false` leaves the response incomplete. */
  lemma FalseMeansIncomplete(r: Response, data: bytes)
    requires r.Valid() && ProcessData(AsShipped, r, data).1 == Returned(false)
    ensures !Complete(ProcessData(AsShipped, r, data).0)
  {
    hide BodyProcess, HeadOf, Find;
  }

  /** The response is not complete before its last piece. */
  predicate LastNeeded(r: Response, pieces: seq<bytes>)
    requires r.Valid() && pieces != []
  {
    RunResponse(AsShipped, r, pieces[..|pieces| - 1]).1 == Returned(false)
  }

  /** The reads go on exactly until the live response is complete, and no further. */
  lemma {:induction false} ReadsUntilComplete(c: Client, pieces: seq<bytes>, net: Net, rest: seq<bytes>)
      returns (r: Play)
    requires c.Valid() && !Complete(c.test) && Finishes(c.test, pieces) && NoneEmpty(pieces)
    requires net.arrivals == pieces + rest
    ensures r == ReadResponse(c, net) && r.Going?
    ensures r.c.test == RunResponse(AsShipped, c.test, pieces).0 && r.c.expected == c.expected
    ensures Differences(r.c.log) == Differences(c.log)
    ensures r.net == net.(arrivals := r.net.arrivals) && (LastNeeded(c.test, pieces) ==> r.net.arrivals == rest)
    decreases |pieces|
  {
    hide ProcessData, Complete, Differences;
    r := ReadResponse(c, net);
    var q := ProcessData(AsShipped, c.test, pieces[0]);
    assert net.arrivals[0] == pieces[0] && net.arrivals[1..] == pieces[1..] + rest;
    DifferencesSnoc(c.log, ReadFrom(c.socket, pieces[0]));
    var p := ReadPiece(c, net);
    if q.1 == Returned(false) {
      FalseMeansIncomplete(c.test, pieces[0]);
      r := ReadsUntilComplete(p.c, pieces[1..], p.net, rest);
      assert |pieces| > 1 ==> pieces[..|pieces| - 1][1..] == pieces[1..][..|pieces[1..]| - 1];
    }
  }

  /** The outcome of comparing complete responses `e` and `t`, for a client that has seen them. */
  predicate Judged(r: Play, before: nat, e: Response, t: Response, net: Net) {
    match Compare(e, t)
    case None => r.Stopped?
    case Some(diff) =>
      && r.Going? && r.c.expected == e && r.c.test == t && r.net == net
      && Differences(r.c.log) >= before && (Differences(r.c.log) == before <==> diff == 0)
  }

  /** The state of the client while it goes through the RECV actions: `t` is the live response. */
  predicate Between(c: Client, t: Response) {
    c.Valid() && c.test == t && Complete(t)
  }

  /** A RECV that leaves the captured response incomplete. */
  lemma RecvGoesOn(c: Client, data: bytes, net: Net, t: Response)
    requires Between(c, t) && !Complete(c.expected)
    requires ProcessData(AsShipped, c.expected, data).1 == Returned(false)
    ensures PlayRecv(c, data, net) == Going(c.(expected := ProcessData(AsShipped, c.expected, data).0), net)
  {
    FalseMeansIncomplete(c.expected, data);
    hide ProcessData, Compare, Complete;
  }

  /** A RECV once the captured response is complete, or that completes it. */
  lemma RecvJudges(c: Client, data: bytes, net: Net, t: Response, e: Response)
    requires Between(c, t) && Complete(e)
    requires if Complete(c.expected) then c.expected == e
             else ProcessData(AsShipped, c.expected, data) == (e, Returned(true))
    ensures PlayRecv(c, data, net) ==
            match Compare(e, t)
            case None => Stopped(c.log)
            case Some(diff) =>
              Going(if diff == 0 then c.(expected := e) else Logged(c.(expected := e), Difference), net)
  {
    hide ProcessData, Compare, Complete;
  }

  /** Once both responses are complete, each further RECV compares them again. */
  lemma {:induction false} LaterRecvs(c: Client, pieces: seq<bytes>, net: Net, t: Response)
    requires Between(c, t) && Complete(c.expected) && Compare(c.expected, t).Some?
    ensures var r := PlayQueue(c, Recvs(pieces), net);
            r.Going? && r.c.expected == c.expected && r.c.test == t && r.net == net
            && Differences(r.c.log) >= Differences(c.log)
            && (Compare(c.expected, t) == Some(0) ==> Differences(r.c.log) == Differences(c.log))
    decreases |pieces|
  {
    hide PlayRecv, Compare, Complete, Differences;
    if pieces != [] {
      RecvJudges(c, pieces[0], net, t, c.expected);
      DifferencesSnoc(c.log, Difference);
      assert Recvs(pieces)[1..] == Recvs(pieces[1..]);
      var r := PlayRecv(c, pieces[0], net);
      LaterRecvs(r.c, pieces[1..], r.net, t);
    }
  }

  /** From the second RECV on: the live response is complete, and the captured one is being decoded. */
  lemma {:induction false} ExpectedFollows(c: Client, pieces: seq<bytes>, net: Net, t: Response)
    requires Between(c, t) && !Complete(c.expected) && Finishes(c.expected, pieces)
    ensures Judged(PlayQueue(c, Recvs(pieces), net), Differences(c.log), RunResponse(AsShipped, c.expected, pieces).0, t,
                   net)
    decreases |pieces|
  {
    hide PlayRecv, ProcessData, Compare, Complete, Differences;
    assert Recvs(pieces)[1..] == Recvs(pieces[1..]);
    var q := ProcessData(AsShipped, c.expected, pieces[0]);
    if q.1 == Returned(false) {
      FalseMeansIncomplete(c.expected, pieces[0]);
      RecvGoesOn(c, pieces[0], net, t);
      ExpectedFollows(c.(expected := q.0), pieces[1..], net, t);
    } else {
      RecvJudges(c, pieces[0], net, t, q.0);
      DifferencesSnoc(c.log, Difference);
      if Compare(q.0, t).Some? {
        var r := PlayRecv(c, pieces[0], net);
        LaterRecvs(r.c, pieces[1..], r.net, t);
      }
    }
  }

  /** The first RECV reads the whole live response; what it does otherwise is what a RECV does when the
      live response is there already. */
  lemma FirstRecv(c: Client, data: bytes, arrivals: seq<bytes>, net: Net, rest: seq<bytes>) returns (c': Client, net': Net)
    requires c.Valid() && !Complete(c.test) && Finishes(c.test, arrivals) && NoneEmpty(arrivals)
    requires net.arrivals == arrivals + rest
    requires Complete(c.expected) || ProcessData(AsShipped, c.expected, data).1.Returned?
    ensures Between(c', RunResponse(AsShipped, c.test, arrivals).0) && c'.expected == c.expected
    ensures Differences(c'.log) == Differences(c.log)
    ensures PlayRecv(c, data, net) == PlayRecv(c', data, net')
    ensures net' == net.(arrivals := net'.arrivals) && (LastNeeded(c.test, arrivals) ==> net'.arrivals == rest)
  {
    hide ProcessData, Compare, Differences, Complete, RunResponse;
    var e := FeedExpected(c, data, net);
    var r := ReadsUntilComplete(e.c, arrivals, net, rest);
    c', net' := r.c.(expected := c.expected), r.net;
    assert FeedExpected(c', data, net') == Going(r.c, net');
  }

  /** All RECVs of one response, from the first on. */
  lemma WholeResponse(c: Client, pieces: seq<bytes>, arrivals: seq<bytes>, net: Net, rest: seq<bytes>)
      returns (net': Net)
    requires c.Valid() && !Complete(c.expected) && !Complete(c.test)
    requires Finishes(c.expected, pieces) && Finishes(c.test, arrivals) && NoneEmpty(arrivals)
    requires net.arrivals == arrivals + rest
    ensures Judged(PlayQueue(c, Recvs(pieces), net), Differences(c.log),
                   RunResponse(AsShipped, c.expected, pieces).0, RunResponse(AsShipped, c.test, arrivals).0, net')
    ensures net' == net.(arrivals := net'.arrivals) && (LastNeeded(c.test, arrivals) ==> net'.arrivals == rest)
  {
    hide PlayRecv, ProcessData, Compare, Complete, Differences;
    var c';
    c', net' := FirstRecv(c, pieces[0], arrivals, net, rest);
    ExpectedFollows(c', pieces, net', RunResponse(AsShipped, c.test, arrivals).0);
    assert PlayAction(c, Recvs(pieces)[0], net) == PlayAction(c', Recvs(pieces)[0], net');
  }

  /** `compare` throws exactly when one of the responses is not complete, or they agree in status and one of
      them has a content length and the other one is chunked. */
  lemma CompareThrowsExactly(a: Response, b: Response)
    ensures Compare(a, b).None?
        <==> !Complete(a) || !Complete(b) || (a.status == b.status && (a.body.ContentLen? <==> !b.body.ContentLen?))
  {
  }

  /** A SEND that goes through leaves what arrives alone and starts two new responses. */
  lemma SendStarts(c: Client, data: bytes, net: Net)
    requires c.Valid() && PlaySend(c, data, net).Going?
    ensures var r := PlaySend(c, data, net);
            r.c.Valid() && r.c.expected == Reset(c.expected.headers) && r.c.test == Reset(c.test.headers)
            && r.net == net.(writes := r.net.writes) && Differences(r.c.log) == Differences(c.log)
  {
    hide Differences;
    WriteAllKeeps(c, data, net);
  }

  lemma {:induction false} WriteAllKeeps(c: Client, data: bytes, net: Net)
    requires c.Valid() && WriteAll(c, data, net).Going?
    ensures var r := WriteAll(c, data, net);
            r.c == c.(log := r.c.log) && r.net == net.(writes := r.net.writes) && Differences(r.c.log) == Differences(c.log)
    decreases |data|
  {
    hide Differences;
    if data != [] {
      var n := Min(net.writes[0], |data|);
      DifferencesSnoc(c.log, Wrote(c.socket, data[..n]));
      WriteAllKeeps(Logged(c, Wrote(c.socket, data[..n])), data[n..], net.(writes := net.writes[1..]));
    }
  }

  /** The decoder copes with a response in these pieces, and it is complete. */
  predicate Readable(headers: Headers, first: bytes, later: seq<bytes>) {
    Undisturbed(headers, first, later)
    && Decode(headers, first + Concat(later)).Some? && Decode(headers, first + Concat(later)).value.complete
  }

  lemma ReadableFinishes(headers: Headers, first: bytes, later: seq<bytes>)
    requires Readable(headers, first, later)
    ensures Finishes(Reset(headers), [first] + later)
    ensures var r := RunResponse(AsShipped, Reset(headers), [first] + later).0;
            MeaningOf(r) == Decode(headers, first + Concat(later)).value && FramedByHeaders(r)
  {
    hide RunResponse, Decode, ProcessData;
    assert Find(first, HEAD_END, 0) >= 0;
    DecodesFromHead(AsShipped, headers, first, later);
  }

  /** The statuses agree and the framings do not: `compare` throws. */
  predicate Mixed(x: Meaning, y: Meaning) {
    x.status == y.status && ("content-length" in x.headers <==> "content-length" !in y.headers)
  }

  /** One exchange, and what is left after it: the fields of both responses, and the network. */
  lemma ExchangePlayed(c: Client, request: bytes, first: bytes, later: seq<bytes>, first': bytes, later': seq<bytes>,
                       net: Net, rest: seq<bytes>) returns (net': Net)
    requires c.Valid() && PlaySend(c, request, net).Going?
    requires Readable(c.expected.headers, first, later) && Readable(c.test.headers, first', later')
    requires NoneEmpty([first'] + later') && net.arrivals == [first'] + later' + rest
    ensures var x := Decode(c.expected.headers, first + Concat(later)).value;
            var y := Decode(c.test.headers, first' + Concat(later')).value;
            var r := PlayQueue(c, [Action(Send, request)] + Recvs([first] + later), net);
            if Mixed(x, y) then
              r.Stopped?
            else
              && r.Going? && r.c.expected.headers == x.headers && r.c.test.headers == y.headers && r.net == net'
              && Differences(r.c.log) >= Differences(c.log)
              && (Differences(r.c.log) == Differences(c.log) <==> SameMeaning(x, y))
    ensures net' == PlaySend(c, request, net).net.(arrivals := net'.arrivals)
    ensures LastNeeded(Reset(c.test.headers), [first'] + later') ==> net'.arrivals == rest
  {
    hide PlaySend, RunResponse, Decode, Compare, Undisturbed, Differences, LastNeeded;
    var queue := [Action(Send, request)] + Recvs([first] + later);
    assert queue[1..] == Recvs([first] + later);
    SendStarts(c, request, net);
    var s := PlaySend(c, request, net);
    ReadableFinishes(c.expected.headers, first, later);
    ReadableFinishes(c.test.headers, first', later');
    net' := WholeResponse(s.c, [first] + later, [first'] + later', s.net, rest);
    hide PlayQueue;
    var e := RunResponse(AsShipped, s.c.expected, [first] + later).0;
    var t := RunResponse(AsShipped, s.c.test, [first'] + later').0;
    CompareThrowsExactly(e, t);
    VerdictExactly(AsShipped, c.expected.headers, first, later, c.test.headers, first', later');
  }

  /** One exchange: a request is sent, and both the captured response and the live one arrive in any
      pieces the decoder copes with. The client reports a difference exactly when the responses do not
      mean the same; when they agree in status but not in framing, it gives up instead. */
  lemma ExchangeVerdict(c: Client, request: bytes, first: bytes, later: seq<bytes>, first': bytes, later': seq<bytes>,
                        net: Net, rest: seq<bytes>)
    requires c.Valid() && PlaySend(c, request, net).Going?
    requires Readable(c.expected.headers, first, later) && Readable(c.test.headers, first', later')
    requires NoneEmpty([first'] + later') && net.arrivals == [first'] + later' + rest
    ensures var x := Decode(c.expected.headers, first + Concat(later)).value;
            var y := Decode(c.test.headers, first' + Concat(later')).value;
            var r := PlayQueue(c, [Action(Send, request)] + Recvs([first] + later), net);
            if Mixed(x, y) then
              r.Stopped?
            else
              r.Going? && Differences(r.c.log) >= Differences(c.log)
              && (Differences(r.c.log) == Differences(c.log) <==> SameMeaning(x, y))
  {
    hide PlaySend, PlayQueue, Decode, Undisturbed, Differences;
    var net' := ExchangePlayed(c, request, first, later, first', later', net, rest);
  }

  // ---------------------------------------------------------------- when the decoder does not cope

  /** A captured response that the decoder gives up on stops the replay, whatever arrives. */
  lemma {:induction false} CapturedStops(c: Client, pieces: seq<bytes>, net: Net)
    requires c.Valid() && !Complete(c.expected) && !RunResponse(AsShipped, c.expected, pieces).1.Returned?
    ensures PlayQueue(c, Recvs(pieces), net).Stopped?
    decreases |pieces|
  {
    hide ProcessData, Complete, Compare, ReadResponse;
    assert Recvs(pieces)[1..] == Recvs(pieces[1..]);
    var q := ProcessData(AsShipped, c.expected, pieces[0]);
    if q.1 == Returned(false) {
      FalseMeansIncomplete(c.expected, pieces[0]);
      var r := PlayRecv(c, pieces[0], net);
      if r.Going? {
        CapturedStops(r.c, pieces[1..], r.net);
      }
    }
  }

  lemma {:induction false} ReadStops(c: Client, pieces: seq<bytes>, net: Net, rest: seq<bytes>)
    requires c.Valid() && !Complete(c.test) && !RunResponse(AsShipped, c.test, pieces).1.Returned?
    requires NoneEmpty(pieces) && net.arrivals == pieces + rest
    ensures ReadResponse(c, net).Stopped?
    decreases |pieces|
  {
    hide ProcessData, Complete;
    assert net.arrivals[0] == pieces[0] && net.arrivals[1..] == pieces[1..] + rest;
    if ProcessData(AsShipped, c.test, pieces[0]).1 == Returned(false) {
      FalseMeansIncomplete(c.test, pieces[0]);
      var p := ReadPiece(c, net);
      ReadStops(p.c, pieces[1..], p.net, rest);
    }
  }

  /** A live response that the decoder gives up on stops the replay, whatever was captured. */
  lemma LiveStops(c: Client, pieces: seq<bytes>, arrivals: seq<bytes>, net: Net, rest: seq<bytes>)
    requires c.Valid() && !Complete(c.test) && !RunResponse(AsShipped, c.test, arrivals).1.Returned?
    requires pieces != [] && NoneEmpty(arrivals) && net.arrivals == arrivals + rest
    ensures PlayQueue(c, Recvs(pieces), net).Stopped?
  {
    hide ProcessData, Complete, Compare, ReadResponse, RunResponse;
    var e := FeedExpected(c, pieces[0], net);
    if e.Going? {
      ReadStops(e.c, arrivals, e.net, rest);
    }
  }

  lemma {:induction false} ReadsRunOut(c: Client, pieces: seq<bytes>, net: Net, rest: seq<bytes>)
    requires c.Valid() && !Complete(c.test) && RunResponse(AsShipped, c.test, pieces).1 == Returned(false)
    requires NoneEmpty(pieces) && (net.arrivals == pieces || net.arrivals == pieces + ([[]] + rest))
    ensures ReadResponse(c, net).Stopped?
    decreases |pieces|
  {
    hide ProcessData, Complete;
    if pieces == [] {
      assert net.arrivals != [] ==> net.arrivals[0] == [];
    } else {
      assert net.arrivals[0] == pieces[0];
      assert net.arrivals[1..] == pieces[1..] || net.arrivals[1..] == pieces[1..] + ([[]] + rest);
      FalseMeansIncomplete(c.test, pieces[0]);
      var p := ReadPiece(c, net);
      ReadsRunOut(p.c, pieces[1..], p.net, rest);
    }
  }

  /** A `read` that fails, or finds the connection closed, before the live response is complete stops the
      replay, in whatever pieces the response was captured. */
  lemma FailedReadStops(c: Client, pieces: seq<bytes>, arrivals: seq<bytes>, net: Net, rest: seq<bytes>)
    requires c.Valid() && !Complete(c.test) && RunResponse(AsShipped, c.test, arrivals).1 == Returned(false)
    requires pieces != [] && NoneEmpty(arrivals) && (net.arrivals == arrivals || net.arrivals == arrivals + ([[]] + rest))
    ensures PlayQueue(c, Recvs(pieces), net).Stopped?
  {
    hide ProcessData, Complete, Compare, ReadResponse, RunResponse;
    var e := FeedExpected(c, pieces[0], net);
    if e.Going? {
      ReadsRunOut(e.c, arrivals, e.net, rest);
    }
  }

  /** One exchange with content lengths on both sides goes through if and only if the decoder copes with
      the pieces of both responses. */
  lemma LengthExchangeGoesExactly(c: Client, request: bytes, first: bytes, later: seq<bytes>,
                                  first': bytes, later': seq<bytes>, net: Net, rest: seq<bytes>)
    requires c.Valid() && PlaySend(c, request, net).Going?
    requires Decode(c.expected.headers, first + Concat(later)).Some? && Decode(c.test.headers, first' + Concat(later')).Some?
    requires var x := Decode(c.expected.headers, first + Concat(later)).value;
             x.complete && "content-length" in x.headers
    requires var y := Decode(c.test.headers, first' + Concat(later')).value;
             y.complete && "content-length" in y.headers
    requires NoneEmpty([first'] + later') && net.arrivals == [first'] + later' + rest
    ensures PlayQueue(c, [Action(Send, request)] + Recvs([first] + later), net).Going?
        <==> Undisturbed(c.expected.headers, first, later) && Undisturbed(c.test.headers, first', later')
  {
    hide PlaySend, Decode, Undisturbed, RunResponse, Differences, ProcessData, PlayRecv;
    LengthCutsExactly(c.expected.headers, first, later);
    LengthCutsExactly(c.test.headers, first', later');
    var queue := [Action(Send, request)] + Recvs([first] + later);
    assert queue[1..] == Recvs([first] + later);
    SendStarts(c, request, net);
    var s := PlaySend(c, request, net);
    if !Undisturbed(c.expected.headers, first, later) {
      CapturedStops(s.c, [first] + later, s.net);
    } else if !Undisturbed(c.test.headers, first', later') {
      LiveStops(s.c, [first] + later, [first'] + later', s.net, rest);
    } else {
      ExchangeVerdict(c, request, first, later, first', later', net, rest);
    }
  }

  /** The parts of a response that a server sends with a content length. */
  datatype Parts = Parts(version: bytes, status: nat, reason: bytes, fields: seq<Field>, payload: bytes)

  /** The parts can be printed, and the last field for the content length announces the payload. */
  predicate PartsOk(p: Parts, headers: Headers) {
    && TokenOk(p.version) && p.status <= 0x7FFF_FFFF && CR !in p.reason && LF !in p.reason && FieldsOk(p.fields)
    && |p.payload| <= 0x7FFF_FFFF
    && "content-length" in FieldMap(p.fields, headers)
    && FieldMap(p.fields, headers)["content-length"] == Print(|p.payload|, 10)
  }

  function Printed(p: Parts): bytes {
    PrintHead(p.version, p.status, p.reason, p.fields) + HEAD_END + p.payload
  }

  /** A printed response in any pieces of which the first holds the header. */
  predicate CutAfterHead(p: Parts, first: bytes, later: seq<bytes>) {
    first + Concat(later) == Printed(p) && Find(first, HEAD_END, 0) >= 0
  }

  lemma PrintedIsReadable(p: Parts, headers: Headers, first: bytes, later: seq<bytes>)
    requires PartsOk(p, headers) && CutAfterHead(p, first, later)
    ensures Readable(headers, first, later)
    ensures Decode(headers, Printed(p)) == Some(Meaning(p.status, FieldMap(p.fields, headers), p.payload, true))
  {
    hide Decode, Find, PrintHead, FieldMap, Undisturbed;
    DecodePrintedLength(p.version, p.status, p.reason, p.fields, headers, p.payload);
    HeadEndsOnce(p.version, p.status, p.reason, p.fields, p.payload);
    LengthUndisturbed(headers, first, later);
  }

  /** One exchange with content lengths on both sides: however both responses are cut after their
      headers, a difference is reported exactly when status or payload differ. */
  lemma LengthExchangeVerdict(c: Client, request: bytes, p: Parts, first: bytes, later: seq<bytes>,
                              q: Parts, first': bytes, later': seq<bytes>, net: Net, rest: seq<bytes>)
    requires c.Valid() && PlaySend(c, request, net).Going?
    requires PartsOk(p, c.expected.headers) && CutAfterHead(p, first, later)
    requires PartsOk(q, c.test.headers) && CutAfterHead(q, first', later')
    requires NoneEmpty([first'] + later') && net.arrivals == [first'] + later' + rest
    ensures var r := PlayQueue(c, [Action(Send, request)] + Recvs([first] + later), net);
            r.Going? && Differences(r.c.log) >= Differences(c.log)
            && (Differences(r.c.log) == Differences(c.log) <==> p.status == q.status && p.payload == q.payload)
  {
    hide PlaySend, PlayQueue, Decode, Differences, FieldMap, Printed, Readable, Find;
    PrintedIsReadable(p, c.expected.headers, first, later);
    PrintedIsReadable(q, c.test.headers, first', later');
    ExchangeVerdict(c, request, first, later, first', later', net, rest);
  }

  /** The parts of a response that a server sends in the chunked coding, and what follows it. */
  datatype ChunkedParts = ChunkedParts(version: bytes, status: nat, reason: bytes, fields: seq<Field>, sizes: seq<bytes>,
                                       chunks: seq<bytes>,
                                       more: bytes)

  predicate ChunkedPartsOk(p: ChunkedParts, headers: Headers) {
    && TokenOk(p.version) && p.status <= 0x7FFF_FFFF && CR !in p.reason && LF !in p.reason && FieldsOk(p.fields)
    && Spelled(p.sizes, p.chunks) && AsksForChunks(FieldMap(p.fields, headers))
  }

  function PrintedChunks(p: ChunkedParts): bytes
    requires Spelled(p.sizes, p.chunks)
  {
    PrintHead(p.version, p.status, p.reason, p.fields) + HEAD_END + (Coding(p.sizes, p.chunks) + p.more)
  }

  /** A printed response in any pieces of which the first holds the header, without a bad cut. */
  predicate CutWell(p: ChunkedParts, first: bytes, later: seq<bytes>)
    requires Spelled(p.sizes, p.chunks)
  {
    && first + Concat(later) == PrintedChunks(p)
    && Find(first, HEAD_END, 0) >= 0
    && !BadCut(START, [first[Find(first, HEAD_END, 0) + 4..]] + later)
  }

  lemma PrintedChunksReadable(p: ChunkedParts, headers: Headers, first: bytes, later: seq<bytes>)
    requires ChunkedPartsOk(p, headers) && CutWell(p, first, later)
    ensures Readable(headers, first, later)
    ensures Decode(headers, PrintedChunks(p)) == Some(Meaning(p.status, FieldMap(p.fields, headers), Concat(p.chunks), true))
  {
    hide Decode, Find, PrintHead, FieldMap, HeadOf, BadCut, Coding, Spells;
    DecodePrintedChunks(p.version, p.status, p.reason, p.fields, headers, p.sizes, p.chunks, p.more);
    HeadDecoded(headers, first + Concat(later));
    HeadSplit(first, Concat(later));
    LengthWins(Reset(headers), first[..Find(first, HEAD_END, 0)]);
  }

  /** One exchange in the chunked coding on both sides: a difference is reported exactly when the statuses
      differ, or the lengths of the bodies, or the bodies before the first NUL. */
  lemma ChunkedExchangeVerdict(c: Client, request: bytes, p: ChunkedParts, first: bytes, later: seq<bytes>,
                               q: ChunkedParts, first': bytes, later': seq<bytes>, net: Net, rest: seq<bytes>)
    requires c.Valid() && PlaySend(c, request, net).Going?
    requires ChunkedPartsOk(p, c.expected.headers) && CutWell(p, first, later)
    requires ChunkedPartsOk(q, c.test.headers) && CutWell(q, first', later')
    requires NoneEmpty([first'] + later') && net.arrivals == [first'] + later' + rest
    ensures var r := PlayQueue(c, [Action(Send, request)] + Recvs([first] + later), net);
            var x, y := Concat(p.chunks), Concat(q.chunks);
            r.Going? && Differences(r.c.log) >= Differences(c.log)
            && (Differences(r.c.log) == Differences(c.log)
                <==> p.status == q.status && |x| == |y| && CString(x) == CString(y))
  {
    hide PlaySend, PlayQueue, Decode, Differences, FieldMap, PrintedChunks, Readable, Find;
    PrintedChunksReadable(p, c.expected.headers, first, later);
    PrintedChunksReadable(q, c.test.headers, first', later');
    ExchangeVerdict(c, request, first, later, first', later', net, rest);
  }
}
