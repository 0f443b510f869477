/**
 Replaying a recorded conversation: which sockets are used and left open, and which bytes are sent,
 whatever the network answers.
 */
module ReplaySafety {
  import opened Bytes
  import opened Actions
  import opened Packets
  import opened TcpRecording
  import opened HttpResponse
  import opened HttpReplay

  lemma {:induction false} PlayAppend(c: Client, a: seq<Action>, b: seq<Action>, net: Net)
    requires c.Valid()
    ensures PlayQueue(c, a + b, net) ==
            match PlayQueue(c, a, net)
            case Stopped(log) => Stopped(log)
            case Going(c', net') => PlayQueue(c', b, net')
    decreases |a|
  {
    hide PlayAction;
    if a == [] {
      assert a + b == b;
    } else {
      assert (a + b)[1..] == a[1..] + b;
      match PlayAction(c, a[0], net)
      case Stopped(_) =>
      case Going(c', net') => PlayAppend(c', a[1..], b, net');
    }
  }

  lemma PlayOne(c: Client, a: Action, net: Net)
    requires c.Valid()
    ensures PlayQueue(c, [a], net) == PlayAction(c, a, net)
  {
    hide PlayAction;
    assert [a][1..] == [];
  }

  // ---------------------------------------------------------------- sockets

  /** The socket that a log leaves open, `NO_SOCKET` when there is none; nothing when some operation
      used a socket other than the open one, or none at all. */
  function InUse(log: seq<Op>): Option<int> {
    if log == [] then Some(NO_SOCKET) else
      match InUse(log[..|log| - 1])
      case None => None
      case Some(open) => After(open, log[|log| - 1])
  }

  function After(open: int, op: Op): Option<int> {
    match op
    case Opened(fd) => Some(fd)
    case Wrote(fd, _) => if fd == open != NO_SOCKET then Some(open) else None
    case ReadFrom(fd, _) => if fd == open != NO_SOCKET then Some(open) else None
    case Shut(fd) => if fd == open != NO_SOCKET then Some(NO_SOCKET) else None
    case Difference => Some(open)
  }

  lemma InUseSnoc(log: seq<Op>, op: Op)
    requires InUse(log).Some?
    ensures InUse(log + [op]) == After(InUse(log).value, op)
  {
    assert (log + [op])[..|log|] == log;
  }

  /** No socket has been misused so far. */
  predicate Safe(p: Play) {
    if p.Going? then InUse(p.c.log) == Some(p.c.socket) else InUse(p.log).Some?
  }

  lemma {:induction false} WriteAllSafe(c: Client, data: bytes, net: Net)
    requires c.Valid() && InUse(c.log) == Some(c.socket) && c.socket != NO_SOCKET
    ensures var r := WriteAll(c, data, net); Safe(r) && (r.Going? ==> r.c.socket == c.socket)
    decreases |data|
  {
    hide InUse;
    if data != [] && net.writes != [] && net.writes[0] > 0 {
      var n := Min(net.writes[0], |data|);
      InUseSnoc(c.log, Wrote(c.socket, data[..n]));
      WriteAllSafe(Logged(c, Wrote(c.socket, data[..n])), data[n..], net.(writes := net.writes[1..]));
    }
  }

  lemma {:induction false} ReadResponseSafe(c: Client, net: Net)
    requires c.Valid() && InUse(c.log) == Some(c.socket) && c.socket != NO_SOCKET
    ensures var r := ReadResponse(c, net); Safe(r) && (r.Going? ==> r.c.socket == c.socket)
    decreases |net.arrivals|
  {
    hide InUse, ProcessData;
    if net.arrivals != [] {
      InUseSnoc(c.log, ReadFrom(c.socket, net.arrivals[0]));
      var r := ReadPiece(c, net);
      if r.Going? {
        ReadResponseSafe(r.c, r.net);
      }
    }
  }

  lemma RecvSafe(c: Client, data: bytes, net: Net)
    requires c.Valid() && InUse(c.log) == Some(c.socket) && c.socket != NO_SOCKET
    ensures var r := PlayRecv(c, data, net); Safe(r) && (r.Going? ==> r.c.socket == c.socket)
  {
    hide InUse, ProcessData, ReadResponse, Compare;
    var e := FeedExpected(c, data, net);
    if e.Going? {
      ReadResponseSafe(e.c, net);
      var r := ReadResponse(e.c, net);
      if r.Going? {
        InUseSnoc(r.c.log, Difference);
      }
    }
  }

  /** One action in a connection, or a CONNECT. */
  lemma ActionSafe(c: Client, a: Action, net: Net)
    requires c.Valid() && InUse(c.log) == Some(c.socket)
    requires a.kind.Connect? || c.socket != NO_SOCKET
    ensures var r := PlayAction(c, a, net);
            Safe(r) && (r.Going? ==> (r.c.socket == NO_SOCKET <==> a.kind.Close?))
  {
    hide InUse, PlayRecv, WriteAll;
    match a.kind
    case Connect =>
      if net.connects != [] && net.connects[0].Some? {
        InUseSnoc(c.log, Opened(net.connects[0].value));
      }
    case Send => WriteAllSafe(c, a.data, net);
    case Recv => RecvSafe(c, a.data, net);
    case Close => InUseSnoc(c.log, Shut(c.socket));
  }

  /** Replaying any queue of the form (CONNECT (SEND|RECV)* CLOSE?)*, whatever the network answers:
      every write, read and close uses the socket of the last connect, and that one is still open. */
  lemma {:induction false} ReplaySafely(queue: seq<Action>, net: Net)
    requires Connected(queue).Some?
    ensures var r := PlayQueue(FRESH_CLIENT, queue, net);
            Safe(r) && (r.Going? ==> (r.c.socket != NO_SOCKET <==> Connected(queue).value))
    decreases |queue|
  {
    hide PlayAction, InUse;
    if queue == [] {
      assert InUse([]) == Some(NO_SOCKET) by {
        InUseEmpty();
      }
    } else {
      var before, a := queue[..|queue| - 1], queue[|queue| - 1];
      assert queue == before + [a];
      ReplaySafely(before, net);
      PlayAppend(FRESH_CLIENT, before, [a], net);
      var r := PlayQueue(FRESH_CLIENT, before, net);
      if r.Going? {
        PlayOne(r.c, a, r.net);
        ActionSafe(r.c, a, r.net);
      }
    }
  }

  lemma InUseEmpty()
    ensures InUse([]) == Some(NO_SOCKET)
  {
  }

  /** So does replaying every conversation that was recorded from any packets. */
  lemma RecordedReplaysSafely(first: Packet, ps: seq<Packet>, net: Net)
    ensures InUse(LogOf(PlayQueue(FRESH_CLIENT, Run(Fresh(first), ps).queue, net))).Some?
  {
    hide InUse, Connected, PlayQueue;
    RecordedQueueOk(first, ps);
    ReplaySafely(Run(Fresh(first), ps).queue, net);
  }

  // ---------------------------------------------------------------- when the network fails

  /** CONNECT goes through if and only if there is a socket and it connects. */
  lemma ConnectGoesExactly(c: Client, data: bytes, net: Net)
    requires c.Valid()
    ensures var r := PlayQueue(c, [Action(Connect, data)], net);
            if net.connects != [] && net.connects[0].Some? then r.Going? && r.c.socket == net.connects[0].value
            else r == Stopped(c.log)
  {
    PlayOne(c, Action(Connect, data), net);
  }

  function Sum(counts: seq<int>): int {
    if counts == [] then 0 else counts[0] + Sum(counts[1..])
  }

  /** Some calls of `write`, each of which takes something, take so many bytes together. */
  predicate TakenBy(writes: seq<int>, k: nat, size: nat) {
    k <= |writes| && (forall i :: 0 <= i < k ==> writes[i] > 0) && Sum(writes[..k]) >= size
  }

  /** SEND goes through if and only if the calls of `write` take all of its data before one of them fails. */
  lemma {:induction false} WriteGoesExactly(c: Client, data: bytes, net: Net)
    requires c.Valid()
    ensures WriteAll(c, data, net).Going? <==> exists k: nat :: TakenBy(net.writes, k, |data|)
    decreases |data|
  {
    if data == [] {
      assert TakenBy(net.writes, 0, 0);
    } else if net.writes == [] || net.writes[0] <= 0 {
      assert forall k: nat :: TakenBy(net.writes, k, |data|) ==> k > 0;
    } else {
      var n := Min(net.writes[0], |data|);
      var more := net.writes[1..];
      WriteGoesExactly(Logged(c, Wrote(c.socket, data[..n])), data[n..], net.(writes := more));
      TakenByStep(net.writes, |data|, |data| - n);
    }
  }

  lemma TakenByStep(writes: seq<int>, size: nat, rest: nat)
    requires writes != [] && writes[0] > 0 && size > 0 && rest == size - Min(writes[0], size)
    ensures (exists k: nat :: TakenBy(writes, k, size)) <==> exists k: nat :: TakenBy(writes[1..], k, rest)
  {
    forall k: nat | TakenBy(writes, k, size)
      ensures k > 0 && TakenBy(writes[1..], k - 1, rest)
    {
      assert writes[..k][1..] == writes[1..][..k - 1];
      AllPositive(writes[1..][..k - 1]);
    }
    forall k: nat | TakenBy(writes[1..], k, rest)
      ensures TakenBy(writes, k + 1, size)
    {
      assert writes[..k + 1][1..] == writes[1..][..k];
      AllPositive(writes[1..][..k]);
    }
  }

  lemma {:induction false} AllPositive(counts: seq<int>)
    requires forall i :: 0 <= i < |counts| ==> counts[i] > 0
    ensures Sum(counts) >= 0
    decreases |counts|
  {
    if counts != [] {
      AllPositive(counts[1..]);
    }
  }

  lemma SendGoesExactly(c: Client, data: bytes, net: Net)
    requires c.Valid()
    ensures PlayQueue(c, [Action(Send, data)], net).Going? <==> exists k: nat :: TakenBy(net.writes, k, |data|)
  {
    hide TakenBy, WriteAll;
    PlayOne(c, Action(Send, data), net);
    WriteGoesExactly(c, data, net);
  }

  // ---------------------------------------------------------------- what the log adds up to

  function Opens(log: seq<Op>): nat {
    if log == [] then 0 else Opens(log[..|log| - 1]) + if log[|log| - 1].Opened? then 1 else 0
  }

  function Shuts(log: seq<Op>): nat {
    if log == [] then 0 else Shuts(log[..|log| - 1]) + if log[|log| - 1].Shut? then 1 else 0
  }

  /** The bytes written to sockets. */
  function Written(log: seq<Op>): bytes {
    if log == [] then [] else Written(log[..|log| - 1]) + DataOf(log[|log| - 1])
  }

  function DataOf(op: Op): bytes {
    if op.Wrote? then op.data else []
  }

  lemma LogSnoc(log: seq<Op>, op: Op)
    ensures Opens(log + [op]) == Opens(log) + if op.Opened? then 1 else 0
    ensures Shuts(log + [op]) == Shuts(log) + if op.Shut? then 1 else 0
    ensures Written(log + [op]) == Written(log) + DataOf(op)
  {
    assert (log + [op])[..|log|] == log;
  }

  /** The bytes of the SEND actions of a queue. */
  function Sent(queue: seq<Action>): bytes {
    if queue == [] then [] else Sent(queue[..|queue| - 1]) + SentBy(queue[|queue| - 1])
  }

  function SentBy(a: Action): bytes {
    if a.kind.Send? then a.data else []
  }

  lemma SentSnoc(queue: seq<Action>, a: Action)
    ensures Sent(queue + [a]) == Sent(queue) + SentBy(a)
  {
    assert (queue + [a])[..|queue|] == queue;
  }

  /** What is in `log` beyond `before`: so many sockets opened and shut, and these bytes written. */
  predicate Adds(before: seq<Op>, log: seq<Op>, opens: nat, shuts: nat, data: bytes) {
    Opens(log) == Opens(before) + opens && Shuts(log) == Shuts(before) + shuts && Written(log) == Written(before) + data
  }

  /** What was written beyond `before` is a beginning of `data`. */
  predicate WritesSomeOf(before: seq<Op>, log: seq<Op>, data: bytes) {
    Written(log) <= Written(before) + data
  }

  lemma {:induction false} WriteAllAdds(c: Client, data: bytes, net: Net)
    requires c.Valid()
    ensures var r := WriteAll(c, data, net);
            if r.Going? then Adds(c.log, r.c.log, 0, 0, data) else WritesSomeOf(c.log, r.log, data)
    decreases |data|
  {
    hide Opens, Shuts, Written;
    if data != [] && net.writes != [] && net.writes[0] > 0 {
      var n := Min(net.writes[0], |data|);
      LogSnoc(c.log, Wrote(c.socket, data[..n]));
      WriteAllAdds(Logged(c, Wrote(c.socket, data[..n])), data[n..], net.(writes := net.writes[1..]));
      assert Written(c.log) + data[..n] + data[n..] == Written(c.log) + data;
    } else {
      assert Written(c.log) + [] == Written(c.log);
    }
  }

  lemma {:induction false} ReadResponseAdds(c: Client, net: Net)
    requires c.Valid()
    ensures Adds(c.log, LogOf(ReadResponse(c, net)), 0, 0, [])
    decreases |net.arrivals|
  {
    hide Opens, Shuts, Written, ProcessData;
    assert Written(c.log) + [] == Written(c.log);
    if net.arrivals != [] {
      LogSnoc(c.log, ReadFrom(c.socket, net.arrivals[0]));
      var r := ReadPiece(c, net);
      if r.Going? {
        ReadResponseAdds(r.c, r.net);
      }
    }
  }

  lemma RecvAdds(c: Client, data: bytes, net: Net)
    requires c.Valid()
    ensures Adds(c.log, LogOf(PlayRecv(c, data, net)), 0, 0, [])
  {
    hide Opens, Shuts, Written, ProcessData, ReadResponse, Compare;
    assert Written(c.log) + [] == Written(c.log);
    var e := FeedExpected(c, data, net);
    if e.Going? {
      ReadResponseAdds(e.c, net);
      var r := ReadResponse(e.c, net);
      if r.Going? {
        LogSnoc(r.c.log, Difference);
      }
    }
  }

  lemma ActionAdds(c: Client, a: Action, net: Net)
    requires c.Valid()
    ensures var r := PlayAction(c, a, net);
            if r.Going? then
              Adds(c.log, r.c.log, if a.kind.Connect? then 1 else 0, if a.kind.Close? then 1 else 0, SentBy(a))
            else WritesSomeOf(c.log, r.log, SentBy(a))
  {
    hide Opens, Shuts, Written, WriteAll, PlayRecv;
    match a.kind
    case Connect =>
      if net.connects != [] && net.connects[0].Some? {
        LogSnoc(c.log, Opened(net.connects[0].value));
      }
    case Send => WriteAllAdds(c, a.data, net);
    case Recv => RecvAdds(c, a.data, net);
    case Close => LogSnoc(c.log, Shut(c.socket));
  }

  lemma AddsThenAction(c: Client, a: Action, net: Net, connects: nat, closes: nat, sent: bytes)
    requires c.Valid() && Adds([], c.log, connects, closes, sent)
    ensures var r := PlayAction(c, a, net);
            if r.Going? then
              Adds([], r.c.log, connects + (if a.kind.Connect? then 1 else 0),
                   closes + (if a.kind.Close? then 1 else 0), sent + SentBy(a))
            else WritesSomeOf([], r.log, sent + SentBy(a))
  {
    hide PlayAction, Opens, Shuts, Written;
    ActionAdds(c, a, net);
    assert Written([]) + (sent + SentBy(a)) == Written([]) + sent + SentBy(a);
  }

  lemma SomeOfMore(before: seq<Op>, log: seq<Op>, sent: bytes, more: bytes)
    requires WritesSomeOf(before, log, sent)
    ensures WritesSomeOf(before, log, sent + more)
  {
    hide Written;
    assert Written(before) + (sent + more) == Written(before) + sent + more;
  }

  /** What a replay that finishes has done, and what one that stops has sent. */
  lemma {:induction false} ReplayAdds(queue: seq<Action>, net: Net)
    ensures var r := PlayQueue(FRESH_CLIENT, queue, net);
            if r.Going? then Adds([], r.c.log, Count(queue, Connect), Count(queue, Close), Sent(queue))
            else WritesSomeOf([], r.log, Sent(queue))
    decreases |queue|
  {
    hide PlayAction;
    if queue != [] {
      var before, a := queue[..|queue| - 1], queue[|queue| - 1];
      assert queue == before + [a];
      ReplayAdds(before, net);
      PlayAppend(FRESH_CLIENT, before, [a], net);
      hide Opens, Shuts, Written, PlayQueue, Adds, WritesSomeOf;
      var r := PlayQueue(FRESH_CLIENT, before, net);
      if r.Going? {
        PlayOne(r.c, a, r.net);
        AddsThenAction(r.c, a, r.net, Count(before, Connect), Count(before, Close), Sent(before));
      } else {
        SomeOfMore([], r.log, Sent(before), SentBy(a));
      }
    }
  }

  lemma {:induction false} SentOfTransfers(queue: seq<Action>)
    ensures Sent(Transfers(queue)) == Sent(queue)
    decreases |queue|
  {
    if queue != [] {
      var before, a := queue[..|queue| - 1], queue[|queue| - 1];
      SentOfTransfers(before);
      SentSnoc(Transfers(before), a);
      assert Transfers(before) + [] == Transfers(before);
    }
  }

  /** The payloads of the packets from an end point. */
  function DataFrom(client: Endpoint, ps: seq<Packet>): bytes {
    if ps == [] then [] else
      DataFrom(client, ps[..|ps| - 1])
      + if ps[|ps| - 1].transport.Tcp? && ps[|ps| - 1].src == client then ps[|ps| - 1].transport.data else []
  }

  lemma {:induction false} SentOfDirected(client: Endpoint, ps: seq<Packet>)
    ensures Sent(Directed(client, ps)) == DataFrom(client, ps)
    decreases |ps|
  {
    if ps != [] {
      var before, p := ps[..|ps| - 1], ps[|ps| - 1];
      assert ps == before + [p];
      SentOfDirected(client, before);
      DirectedAppend(client, before, [p]);
      DirectedSingle(client, p);
      assert Directed(client, before) + [] == Directed(client, before);
      if p.transport.Tcp? && p.transport.data != [] {
        SentSnoc(Directed(client, before), DirectedOne(client, p)[0]);
      }
    }
  }

  /** A replay that finishes sends, byte by byte, what arrived from the end point of the first packet while
      a connection was established; one that stops has sent a beginning of that. */
  lemma ReplaySendsTheCapture(first: Packet, ps: seq<Packet>, net: Net)
    ensures var r := PlayQueue(FRESH_CLIENT, Run(Fresh(first), ps).queue, net);
            var data := DataFrom(first.src, WhileEstablished(Fresh(first), ps));
            if r.Going? then Written(r.c.log) == data else Written(r.log) <= data
  {
    hide PlayQueue, Opens, Shuts, Sent, Count, WhileEstablished, Directed, DataFrom;
    var queue := Run(Fresh(first), ps).queue;
    ReplayAdds(queue, net);
    PayloadConserved(first, ps);
    SentOfTransfers(queue);
    SentOfDirected(first.src, WhileEstablished(Fresh(first), ps));
    assert Written([]) + Sent(queue) == Sent(queue);
  }

  /** A reset in the capture closes no socket: a replay that finishes leaves one socket open for every
      reset of an established connection, and one for the connection still open at the end. */
  lemma SocketsLeftOpen(first: Packet, ps: seq<Packet>, net: Net)
    requires PlayQueue(FRESH_CLIENT, Run(Fresh(first), ps).queue, net).Going?
    ensures var log := PlayQueue(FRESH_CLIENT, Run(Fresh(first), ps).queue, net).c.log;
            Opens(log) - Shuts(log)
            == Resets(Fresh(first), ps) + if Run(Fresh(first), ps).state.Established? then 1 else 0
  {
    hide PlayQueue, Written, Sent, Count, Resets;
    ReplayAdds(Run(Fresh(first), ps).queue, net);
    ConnectionsBalance(first, ps);
  }
}
