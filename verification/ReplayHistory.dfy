/** The verdict of a whole replay: a connection with any number of exchanges. */
module ReplayHistory {
  import opened Bytes
  import opened Outcomes
  import opened Actions
  import opened ChunkedFormat
  import opened ChunkedCorrectness
  import opened HttpHeader
  import opened HttpResponse
  import opened HttpCorrectness
  import opened HttpVerdict
  import opened HttpReplay
  import opened Packets
  import opened ReplaySafety
  import opened ReplayVerdict
  import opened TcpRecording

  /** A request, and its response as captured and as it arrives, each in pieces. */
  datatype Exchange = Exchange(request: seq<bytes>, first: bytes, later: seq<bytes>, liveFirst: bytes, liveLater: seq<bytes>)

  function Sends(pieces: seq<bytes>): seq<Action> {
    if pieces == [] then [] else [Action(Send, pieces[0])] + Sends(pieces[1..])
  }

  function Queue(xs: seq<Exchange>): seq<Action> {
    if xs == [] then []
    else Sends(xs[0].request) + Recvs([xs[0].first] + xs[0].later) + Queue(xs[1..])
  }

  /** All that arrives. */
  function Live(xs: seq<Exchange>): seq<bytes> {
    if xs == [] then [] else [xs[0].liveFirst] + xs[0].liveLater + Live(xs[1..])
  }

  /** The number of bytes in all requests. */
  function Requested(xs: seq<Exchange>): nat {
    if xs == [] then 0 else |Concat(xs[0].request)| + Requested(xs[1..])
  }

  /** The network takes that many bytes, even if it takes them one by one. */
  predicate Takes(writes: seq<int>, total: nat) {
    |writes| >= total && forall i :: 0 <= i < |writes| ==> writes[i] > 0
  }

  lemma {:induction false} WritesEnough(c: Client, data: bytes, net: Net, total: nat)
    requires c.Valid() && Takes(net.writes, |data| + total)
    ensures WriteAll(c, data, net).Going? && Takes(WriteAll(c, data, net).net.writes, total)
    decreases |data|
  {
    if data != [] {
      var n := Min(net.writes[0], |data|);
      WritesEnough(Logged(c, Wrote(c.socket, data[..n])), data[n..], net.(writes := net.writes[1..]), total);
    }
  }

  lemma SendsEnough(c: Client, data: bytes, net: Net, total: nat)
    requires c.Valid() && Takes(net.writes, |data| + total)
    ensures PlaySend(c, data, net).Going? && Takes(PlaySend(c, data, net).net.writes, total)
  {
    WritesEnough(c, data, net, total);
  }

  /** The SENDs of a request: the responses are as after the last one, and nothing else has happened. */
  lemma {:induction false} RequestSent(c: Client, pieces: seq<bytes>, net: Net, total: nat)
    requires c.Valid() && Takes(net.writes, |Concat(pieces)| + total)
    ensures var r := PlayQueue(c, Sends(pieces), net);
            && r.Going? && r.c.expected.headers == c.expected.headers && r.c.test.headers == c.test.headers
            && r.net == net.(writes := r.net.writes) && Takes(r.net.writes, total)
            && Differences(r.c.log) == Differences(c.log)
    decreases |pieces|
  {
    hide PlaySend, Takes, Differences;
    if pieces != [] {
      SendsEnough(c, pieces[0], net, |Concat(pieces[1..])| + total);
      SendStarts(c, pieces[0], net);
      var s := PlaySend(c, pieces[0], net);
      assert Sends(pieces)[1..] == Sends(pieces[1..]);
      RequestSent(s.c, pieces[1..], s.net, total);
    }
  }

  lemma {:induction false} SendsSplit(pieces: seq<bytes>, last: bytes)
    ensures Sends(pieces + [last]) == Sends(pieces) + [Action(Send, last)]
    ensures |Concat(pieces + [last])| == |Concat(pieces)| + |last|
    decreases |pieces|
  {
    if pieces == [] {
      assert pieces + [last] == [last] && [last][1..] == [];
    } else {
      assert (pieces + [last])[1..] == pieces[1..] + [last];
      SendsSplit(pieces[1..], last);
    }
  }

  function Meant(headers: Headers, first: bytes, later: seq<bytes>): Meaning
    requires Readable(headers, first, later)
  {
    Decode(headers, first + Concat(later)).value
  }

  /** One exchange with any number of SENDs. */
  lemma RequestPlayed(c: Client, x: Exchange, net: Net, rest: seq<bytes>, total: nat) returns (net': Net)
    requires c.Valid() && x.request != [] && Takes(net.writes, |Concat(x.request)| + total)
    requires Readable(c.expected.headers, x.first, x.later) && Readable(c.test.headers, x.liveFirst, x.liveLater)
    requires NoneEmpty([x.liveFirst] + x.liveLater) && net.arrivals == [x.liveFirst] + x.liveLater + rest
    ensures var m, m' := Meant(c.expected.headers, x.first, x.later), Meant(c.test.headers, x.liveFirst, x.liveLater);
            var r := PlayQueue(c, Sends(x.request) + Recvs([x.first] + x.later), net);
            if Mixed(m, m') then
              r.Stopped?
            else
              && r.Going? && r.c.expected.headers == m.headers && r.c.test.headers == m'.headers && r.net == net'
              && Differences(r.c.log) >= Differences(c.log)
              && (Differences(r.c.log) == Differences(c.log) <==> SameMeaning(m, m'))
    ensures Takes(net'.writes, total) && net'.connects == net.connects
    ensures LastNeeded(Reset(c.test.headers), [x.liveFirst] + x.liveLater) ==> net'.arrivals == rest
  {
    hide PlaySend, PlayAction, PlayQueue, Differences, Readable, Mixed, SameMeaning, LastNeeded, Takes, NoneEmpty;
    var k := |x.request| - 1;
    var before, last := x.request[..k], x.request[k];
    assert x.request == before + [last];
    SendsSplit(before, last);
    RequestSent(c, before, net, |last| + total);
    var s := PlayQueue(c, Sends(before), net);
    SendsEnough(s.c, last, s.net, total);
    SendStarts(s.c, last, s.net);
    net' := ExchangePlayed(s.c, last, x.first, x.later, x.liveFirst, x.liveLater, s.net, rest);
    var tail := [Action(Send, last)] + Recvs([x.first] + x.later);
    PlayAppend(c, Sends(before), tail, net);
    assert Sends(x.request) + Recvs([x.first] + x.later) == Sends(before) + tail;
  }

  // ---------------------------------------------------------------- the last piece

  lemma {:induction false} StepsOverPrefix(size: nat, n: nat, pieces: seq<bytes>, k: nat)
    requires k <= |pieces| && !StepsOver(size, n, pieces)
    ensures !StepsOver(size, n, pieces[..k])
    decreases k
  {
    if k > 0 && n + |pieces[0]| < size {
      StepsOverPrefix(size, n + |pieces[0]|, pieces[1..], k - 1);
      assert pieces[..k][1..] == pieces[1..][..k - 1];
    }
  }

  lemma {:induction false} BadCutPrefix(p: Progress, pieces: seq<bytes>, k: nat)
    requires k <= |pieces| && !BadCut(p, pieces)
    ensures !BadCut(p, pieces[..k])
    decreases k
  {
    if k > 0 {
      BadCutPrefix(Feed(p, pieces[0]), pieces[1..], k - 1);
      assert pieces[..k][1..] == pieces[1..][..k - 1];
    }
  }

  /** The first pieces of a response disturb the decoder no more than all of them. */
  lemma UndisturbedPrefix(headers: Headers, first: bytes, later: seq<bytes>, k: nat)
    requires Undisturbed(headers, first, later) && k <= |later|
    ensures Undisturbed(headers, first, later[..k])
  {
    hide HeadOf, Find, StepsOver, BadCut;
    var pos := Find(first, HEAD_END, 0);
    var q := HeadOf(Reset(headers), first[..pos]).value;
    var rest := first[pos + 4..];
    assert ([rest] + later)[..k + 1] == [rest] + later[..k];
    if q.body.ContentLen? {
      StepsOverPrefix(q.body.size, 0, [rest] + later, k + 1);
    } else {
      BadCutPrefix(START, [rest] + later, k + 1);
    }
  }

  /** The response is not complete without its last piece. */
  predicate EndsWithLast(headers: Headers, first: bytes, later: seq<bytes>) {
    later == [] ||
    var d := Decode(headers, first + Concat(later[..|later| - 1]));
    d.Some? && !d.value.complete
  }

  lemma EndsNeeded(headers: Headers, first: bytes, later: seq<bytes>)
    requires Undisturbed(headers, first, later) && EndsWithLast(headers, first, later)
    ensures LastNeeded(Reset(headers), [first] + later)
  {
    hide Decode, RunResponse, Undisturbed;
    var pieces := [first] + later;
    if later == [] {
      assert pieces[..0] == [];
      NothingRun(Reset(headers));
    } else {
      var k := |later| - 1;
      assert pieces[..|pieces| - 1] == [first] + later[..k];
      UndisturbedPrefix(headers, first, later, k);
      assert Find(first, HEAD_END, 0) >= 0 by {
        HeadThere(headers, first, later);
      }
      DecodesFromHead(AsShipped, headers, first, later[..k]);
    }
  }

  lemma NothingRun(r: Response)
    requires r.Valid()
    ensures RunResponse(AsShipped, r, []).1 == Returned(false)
  {
  }

  lemma HeadThere(headers: Headers, first: bytes, later: seq<bytes>)
    requires Undisturbed(headers, first, later)
    ensures Find(first, HEAD_END, 0) >= 0
  {
  }

  // ---------------------------------------------------------------- the whole connection

  /** The decoder copes with every response, given the header fields that the ones before have left. */
  predicate AllReadable(expected: Headers, test: Headers, xs: seq<Exchange>)
    decreases |xs|
  {
    xs == [] ||
    var x := xs[0];
    && x.request != [] && Readable(expected, x.first, x.later)
    && Readable(test, x.liveFirst, x.liveLater)
    && NoneEmpty([x.liveFirst] + x.liveLater) && EndsWithLast(test, x.liveFirst, x.liveLater)
    && AllReadable(Meant(expected, x.first, x.later).headers, Meant(test, x.liveFirst, x.liveLater).headers, xs[1..])
  }

  /** No exchange has responses with the same status and different framings. */
  predicate NoneMixed(expected: Headers, test: Headers, xs: seq<Exchange>)
    requires AllReadable(expected, test, xs)
    decreases |xs|
  {
    xs == [] ||
    var m, m' := Meant(expected, xs[0].first, xs[0].later), Meant(test, xs[0].liveFirst, xs[0].liveLater);
    !Mixed(m, m') && NoneMixed(m.headers, m'.headers, xs[1..])
  }

  /** In every exchange both responses mean the same. */
  predicate AllSame(expected: Headers, test: Headers, xs: seq<Exchange>)
    requires AllReadable(expected, test, xs)
    decreases |xs|
  {
    xs == [] ||
    var m, m' := Meant(expected, xs[0].first, xs[0].later), Meant(test, xs[0].liveFirst, xs[0].liveLater);
    SameMeaning(m, m') && AllSame(m.headers, m'.headers, xs[1..])
  }

  /** The header fields of the captured and of the live responses. */
  datatype Fields = Fields(expected: Headers, test: Headers)

  /** The fields that the exchanges leave. */
  function FieldsAfter(expected: Headers, test: Headers, xs: seq<Exchange>): Fields
    requires AllReadable(expected, test, xs)
    decreases |xs|
  {
    if xs == [] then Fields(expected, test)
    else FieldsAfter(Meant(expected, xs[0].first, xs[0].later).headers,
                     Meant(test, xs[0].liveFirst, xs[0].liveLater).headers, xs[1..])
  }

  lemma {:induction false} ExchangesVerdict(c: Client, xs: seq<Exchange>, net: Net, rest: seq<bytes>, total: nat)
      returns (net': Net)
    requires c.Valid() && AllReadable(c.expected.headers, c.test.headers, xs)
    requires net.arrivals == Live(xs) + rest && Takes(net.writes, Requested(xs) + total)
    ensures var r := PlayQueue(c, Queue(xs), net);
            if NoneMixed(c.expected.headers, c.test.headers, xs) then
              && r.Going? && r.net == net'
              && Fields(r.c.expected.headers, r.c.test.headers) == FieldsAfter(c.expected.headers, c.test.headers, xs)
              && Differences(r.c.log) >= Differences(c.log)
              && (Differences(r.c.log) == Differences(c.log) <==> AllSame(c.expected.headers, c.test.headers, xs))
            else
              r.Stopped?
    ensures net'.arrivals == rest && Takes(net'.writes, total) && net'.connects == net.connects
    decreases |xs|
  {
    hide PlaySend, PlayAction, Differences, Readable, EndsWithLast, Mixed, SameMeaning, LastNeeded, Takes;
    net' := net.(arrivals := rest);
    if xs == [] {
      PlayNothing(c, net);
      assert [] + rest == rest;
    } else {
      var x := xs[0];
      var queue := Sends(x.request) + Recvs([x.first] + x.later);
      assert net.arrivals == [x.liveFirst] + x.liveLater + (Live(xs[1..]) + rest);
      net' := RequestPlayed(c, x, net, Live(xs[1..]) + rest, Requested(xs[1..]) + total);
      ReadableNeeded(c.test.headers, x.liveFirst, x.liveLater);
      PlayAppend(c, queue, Queue(xs[1..]), net);
      var r := PlayQueue(c, queue, net);
      hide PlayQueue;
      if r.Going? {
        net' := ExchangesVerdict(r.c, xs[1..], net', rest, total);
      } else {
        TakesLess(net'.writes, Requested(xs[1..]) + total, total);
        net' := net'.(arrivals := rest);
      }
    }
  }

  lemma TakesLess(writes: seq<int>, more: nat, total: nat)
    requires Takes(writes, more) && total <= more
    ensures Takes(writes, total)
  {
  }

  lemma ReadableNeeded(headers: Headers, first: bytes, later: seq<bytes>)
    requires Readable(headers, first, later) && EndsWithLast(headers, first, later)
    ensures LastNeeded(Reset(headers), [first] + later)
  {
    hide Undisturbed, Decode;
    EndsNeeded(headers, first, later);
  }

  /** The queue of a connection: CONNECT, the exchanges, CLOSE. */
  function Connection(xs: seq<Exchange>): seq<Action> {
    [Action(Connect, [])] + (Queue(xs) + [Action(Close, [])])
  }

  /** Replaying a whole connection. */
  lemma ConnectionPlayed(c: Client, xs: seq<Exchange>, net: Net, rest: seq<bytes>, total: nat) returns (net': Net)
    requires c.Valid() && net.connects != [] && net.connects[0].Some?
    requires AllReadable(c.expected.headers, c.test.headers, xs)
    requires net.arrivals == Live(xs) + rest && Takes(net.writes, Requested(xs) + total)
    ensures var r := PlayQueue(c, Connection(xs), net);
            if NoneMixed(c.expected.headers, c.test.headers, xs) then
              && r.Going? && r.net == net'
              && Fields(r.c.expected.headers, r.c.test.headers) == FieldsAfter(c.expected.headers, c.test.headers, xs)
              && Differences(r.c.log) >= Differences(c.log)
              && (Differences(r.c.log) == Differences(c.log) <==> AllSame(c.expected.headers, c.test.headers, xs))
            else
              r.Stopped?
    ensures net'.arrivals == rest && Takes(net'.writes, total) && net'.connects == net.connects[1..]
  {
    hide AllReadable, NoneMixed, AllSame, FieldsAfter, Queue, Differences, PlayQueue;
    var open, close := [Action(Connect, [])], [Action(Close, [])];
    PlayAppend(c, open, Queue(xs) + close, net);
    PlayOne(c, Action(Connect, []), net);
    var c' := PlayConnect(c, net).c;
    DifferencesSnoc(c.log, Opened(net.connects[0].value));
    net' := ExchangesVerdict(c', xs, PlayConnect(c, net).net, rest, total);
    PlayAppend(c', Queue(xs), close, PlayConnect(c, net).net);
    var r := PlayQueue(c', Queue(xs), PlayConnect(c, net).net);
    if r.Going? {
      PlayOne(r.c, Action(Close, []), r.net);
      DifferencesSnoc(r.c.log, Shut(r.c.socket));
    }
  }

  /** Connections one after the other. */
  function Connections(xss: seq<seq<Exchange>>): seq<Action> {
    if xss == [] then [] else Connection(xss[0]) + Connections(xss[1..])
  }

  function AllLive(xss: seq<seq<Exchange>>): seq<bytes> {
    if xss == [] then [] else Live(xss[0]) + AllLive(xss[1..])
  }

  function AllRequested(xss: seq<seq<Exchange>>): nat {
    if xss == [] then 0 else Requested(xss[0]) + AllRequested(xss[1..])
  }

  /** The decoder copes with every response; fields are kept from one connection to the next, too. */
  predicate ConnectionsReadable(f: Fields, xss: seq<seq<Exchange>>)
    decreases |xss|
  {
    xss == [] ||
    (AllReadable(f.expected, f.test, xss[0]) && ConnectionsReadable(FieldsAfter(f.expected, f.test, xss[0]), xss[1..]))
  }

  predicate ConnectionsUnmixed(f: Fields, xss: seq<seq<Exchange>>)
    requires ConnectionsReadable(f, xss)
    decreases |xss|
  {
    xss == [] ||
    (NoneMixed(f.expected, f.test, xss[0]) && ConnectionsUnmixed(FieldsAfter(f.expected, f.test, xss[0]), xss[1..]))
  }

  predicate ConnectionsSame(f: Fields, xss: seq<seq<Exchange>>)
    requires ConnectionsReadable(f, xss)
    decreases |xss|
  {
    xss == [] ||
    (AllSame(f.expected, f.test, xss[0]) && ConnectionsSame(FieldsAfter(f.expected, f.test, xss[0]), xss[1..]))
  }

  /** Any number of connections with one client: the replay finishes exactly when no exchange mixes
      framings, and then reports a difference exactly when in some exchange the responses do not mean the
      same. */
  lemma {:induction false} ConnectionsVerdict(c: Client, xss: seq<seq<Exchange>>, net: Net, rest: seq<bytes>)
    requires c.Valid() && ConnectionsReadable(Fields(c.expected.headers, c.test.headers), xss)
    requires |net.connects| >= |xss| && forall i :: 0 <= i < |xss| ==> net.connects[i].Some?
    requires net.arrivals == AllLive(xss) + rest && Takes(net.writes, AllRequested(xss))
    ensures var r := PlayQueue(c, Connections(xss), net);
            var f := Fields(c.expected.headers, c.test.headers);
            && (r.Going? <==> ConnectionsUnmixed(f, xss))
            && (r.Going? ==> Differences(r.c.log) >= Differences(c.log)
                             && (Differences(r.c.log) == Differences(c.log) <==> ConnectionsSame(f, xss)))
    decreases |xss|
  {
    hide PlayQueue, Differences, Takes, AllReadable, NoneMixed, AllSame, FieldsAfter, Connection;
    if xss == [] {
      PlayNothing(c, net);
    } else {
      assert net.arrivals == Live(xss[0]) + (AllLive(xss[1..]) + rest);
      var net' := ConnectionPlayed(c, xss[0], net, AllLive(xss[1..]) + rest, AllRequested(xss[1..]));
      PlayAppend(c, Connection(xss[0]), Connections(xss[1..]), net);
      var r := PlayQueue(c, Connection(xss[0]), net);
      if r.Going? {
        ConnectionsVerdict(r.c, xss[1..], net', rest);
      }
    }
  }

  lemma NothingReported()
    ensures Differences([]) == 0
  {
  }

  /** From packets to the verdict: connections are captured, recorded and replayed with a new client. */
  lemma CaptureVerdict(first: Packet, captures: seq<Capture>, xss: seq<seq<Exchange>>, net: Net, rest: seq<bytes>)
    requires CapturesOk(first.src, first.dest, captures) && |captures| == |xss|
    requires forall i :: 0 <= i < |xss| ==> captures[i].Data(first.src) == Queue(xss[i])
    requires ConnectionsReadable(Fields(map[], map[]), xss)
    requires |net.connects| >= |xss| && forall i :: 0 <= i < |xss| ==> net.connects[i].Some?
    requires net.arrivals == AllLive(xss) + rest && Takes(net.writes, AllRequested(xss))
    ensures var r := PlayQueue(FRESH_CLIENT, Run(Fresh(first), AllPackets(captures)).queue, net);
            && (r.Going? <==> ConnectionsUnmixed(Fields(map[], map[]), xss))
            && (r.Going? ==> (Differences(r.c.log) == 0 <==> ConnectionsSame(Fields(map[], map[]), xss)))
  {
    hide PlayQueue, Run, Queue, ConnectionsReadable, ConnectionsUnmixed, ConnectionsSame, Differences, Takes, CapturesOk;
    CapturesRecorded(Fresh(first), captures);
    RecordedConnections(first.src, captures, xss);
    assert [] + Connections(xss) == Connections(xss);
    NothingReported();
    assert FRESH_CLIENT.log == [];
    ConnectionsVerdict(FRESH_CLIENT, xss, net, rest);
  }

  lemma {:induction false} RecordedConnections(client: Endpoint, captures: seq<Capture>, xss: seq<seq<Exchange>>)
    requires |captures| == |xss|
    requires forall i :: 0 <= i < |xss| ==> captures[i].Data(client) == Queue(xss[i])
    ensures RecordedAs(client, captures) == Connections(xss)
    decreases |xss|
  {
    hide Queue;
    if xss != [] {
      assert forall i :: 0 <= i < |xss[1..]| ==> captures[1..][i] == captures[i + 1] && xss[1..][i] == xss[i + 1];
      RecordedConnections(client, captures[1..], xss[1..]);
    }
  }
}
