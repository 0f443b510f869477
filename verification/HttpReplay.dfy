/** `HttpReplayClient::replay`: a recorded conversation played against a live server. */
module HttpReplay {
  import opened Bytes
  import opened Outcomes
  import opened Actions
  import opened HttpResponse
  import TcpRecording

  const NO_SOCKET: int := -1

  /** What the network answers: sockets for `connect`, counts for `write`, bytes for `read`. Nothing,
      or a count that is not positive, stands for an error or a closed connection. */
  datatype Net = Net(connects: seq<Option<nat>>, writes: seq<int>, arrivals: seq<bytes>)

  /** What the client does that can be seen from outside. */
  datatype Op =
    | Opened(fd: int)
    | Wrote(fd: int, data: bytes)
    | ReadFrom(fd: int, data: bytes)
    | Shut(fd: int)
    | Difference

  datatype Client = Client(socket: int, expected: Response, test: Response, log: seq<Op>)
  {
    predicate Valid() {
      expected.Valid() && test.Valid()
    }
  }

  /** A client that goes on, or one that an exception has stopped. */
  datatype Play = Going(c: Client, net: Net) | Stopped(log: seq<Op>)

  function Logged(c: Client, op: Op): Client {
    c.(log := c.log + [op])
  }

  function PlayConnect(c: Client, net: Net): Play {
    if net.connects == [] || net.connects[0].None? then Stopped(c.log)
    else
      var fd := net.connects[0].value;
      Going(Logged(c, Opened(fd)).(socket := fd), net.(connects := net.connects[1..]))
  }

  /** The loop that writes until all data has been taken. */
  function WriteAll(c: Client, data: bytes, net: Net): (r: Play)
    requires c.Valid()
    ensures r.Going? ==> r.c.Valid()
    decreases |data|
  {
    if data == [] then Going(c, net)
    else if net.writes == [] || net.writes[0] <= 0 then Stopped(c.log)
    else
      var n := Min(net.writes[0], |data|);
      WriteAll(Logged(c, Wrote(c.socket, data[..n])), data[n..], net.(writes := net.writes[1..]))
  }

  function PlaySend(c: Client, data: bytes, net: Net): (r: Play)
    requires c.Valid()
    ensures r.Going? ==> r.c.Valid()
  {
    match WriteAll(c, data, net)
    case Stopped(log) => Stopped(log)
    case Going(c', net') => Going(c'.(expected := Reset(c'.expected.headers), test := Reset(c'.test.headers)), net')
  }

  /** One `read`, and what it brought given to the live response. */
  function ReadPiece(c: Client, net: Net): (r: Play)
    requires c.Valid()
    ensures r.Going? ==> r.c.Valid() && r.c.expected == c.expected && |r.net.arrivals| < |net.arrivals|
  {
    if net.arrivals == [] || net.arrivals[0] == [] then Stopped(c.log)
    else
      var q := ProcessData(AsShipped, c.test, net.arrivals[0]);
      var c' := Logged(c, ReadFrom(c.socket, net.arrivals[0]));
      if q.1.Returned? then Going(c'.(test := q.0), net.(arrivals := net.arrivals[1..])) else Stopped(c'.log)
  }

  /** The loop that reads until the live response is complete. */
  function ReadResponse(c: Client, net: Net): (r: Play)
    requires c.Valid()
    ensures r.Going? ==> r.c.Valid() && Complete(r.c.test) && r.c.expected == c.expected
    decreases |net.arrivals|
  {
    if Complete(c.test) then Going(c, net)
    else match ReadPiece(c, net)
      case Stopped(log) => Stopped(log)
      case Going(c', net') => ReadResponse(c', net')
  }

  /** The comparison, once both responses are complete. */
  function Judge(c: Client, net: Net): Play {
    if !Complete(c.expected) then Going(c, net)
    else match Compare(c.expected, c.test)
      case None => Stopped(c.log)
      case Some(diff) => Going(if diff == 0 then c else Logged(c, Difference), net)
  }

  /** The captured piece goes to the expected response, unless that is complete. */
  function FeedExpected(c: Client, data: bytes, net: Net): (r: Play)
    requires c.Valid()
    ensures r.Going? ==> r.c.Valid()
  {
    if Complete(c.expected) then Going(c, net) else
      var q := ProcessData(AsShipped, c.expected, data);
      if q.1.Returned? then Going(c.(expected := q.0), net) else Stopped(c.log)
  }

  function PlayRecv(c: Client, data: bytes, net: Net): (r: Play)
    requires c.Valid()
    ensures r.Going? ==> r.c.Valid()
  {
    match FeedExpected(c, data, net)
    case Stopped(log) => Stopped(log)
    case Going(c', net') =>
      match ReadResponse(c', net')
      case Stopped(log) => Stopped(log)
      case Going(c'', net'') => Judge(c'', net'')
  }

  function PlayClose(c: Client, net: Net): Play {
    Going(Logged(c, Shut(c.socket)).(socket := NO_SOCKET), net)
  }

  function PlayAction(c: Client, a: Action, net: Net): (r: Play)
    requires c.Valid()
    ensures r.Going? ==> r.c.Valid()
  {
    match a.kind
    case Connect => PlayConnect(c, net)
    case Send => PlaySend(c, a.data, net)
    case Recv => PlayRecv(c, a.data, net)
    case Close => PlayClose(c, net)
  }

  /** `replay`: draining the action queue. */
  function PlayQueue(c: Client, queue: seq<Action>, net: Net): (r: Play)
    requires c.Valid()
    ensures r.Going? ==> r.c.Valid()
    decreases |queue|
  {
    if queue == [] then Going(c, net)
    else match PlayAction(c, queue[0], net)
      case Stopped(log) => Stopped(log)
      case Going(c', net') => PlayQueue(c', queue[1..], net')
  }

  lemma PlayFront(c: Client, queue: seq<Action>, net: Net)
    requires c.Valid() && queue != []
    ensures PlayQueue(c, queue, net) ==
            match PlayAction(c, queue[0], net)
            case Stopped(log) => Stopped(log)
            case Going(c', net') => PlayQueue(c', queue[1..], net')
  {
  }

  lemma PlayNothing(c: Client, net: Net)
    requires c.Valid()
    ensures PlayQueue(c, [], net) == Going(c, net)
  {
  }

  function LogOf(p: Play): seq<Op> {
    if p.Going? then p.c.log else p.log
  }

  /** A new client: no socket, two processors that have seen nothing. */
  const FRESH_CLIENT: Client := Client(NO_SOCKET, Reset(map[]), Reset(map[]), [])

  // ---------------------------------------------------------------- the class

  class Network {
    var connects: seq<Option<nat>>
    var writes: seq<int>
    var arrivals: seq<bytes>
    var log: seq<Op>

    function State(): Net
      reads this
    {
      Net(connects, writes, arrivals)
    }

    constructor (net: Net)
      ensures State() == net && log == []
    {
      connects, writes, arrivals, log := net.connects, net.writes, net.arrivals, [];
    }

    method ConnectSocket() returns (fd: Option<nat>)
      modifies this
      ensures fd == if old(connects) == [] then None else old(connects)[0]
      ensures State() == old(State()).(connects := if old(connects) == [] then [] else old(connects)[1..])
      ensures log == if fd.None? then old(log) else old(log) + [Opened(fd.value)]
    {
      if connects == [] {
        return None;
      }
      fd, connects := connects[0], connects[1..];
      if fd.Some? {
        log := log + [Opened(fd.value)];
      }
    }

    method Write(fd: int, data: bytes) returns (n: int)
      requires data != []
      modifies this
      ensures n == if old(writes) == [] then -1 else Min(old(writes)[0], |data|)
      ensures State() == old(State()).(writes := if old(writes) == [] then [] else old(writes)[1..])
      ensures log == if n <= 0 then old(log) else old(log) + [Wrote(fd, data[..n])]
    {
      if writes == [] {
        return -1;
      }
      n, writes := Min(writes[0], |data|), writes[1..];
      if n > 0 {
        log := log + [Wrote(fd, data[..n])];
      }
    }

    method Read(fd: int) returns (data: bytes)
      modifies this
      ensures data == if old(arrivals) == [] then [] else old(arrivals)[0]
      ensures State() == old(State()).(arrivals := if old(arrivals) == [] then [] else old(arrivals)[1..])
      ensures log == if data == [] then old(log) else old(log) + [ReadFrom(fd, data)]
    {
      if arrivals == [] {
        return [];
      }
      data, arrivals := arrivals[0], arrivals[1..];
      if data != [] {
        log := log + [ReadFrom(fd, data)];
      }
    }

    method Report(op: Op)
      modifies this`log
      ensures log == old(log) + [op]
    {
      log := log + [op];
    }
  }

  class HttpReplayClient {
    const conversation: TcpRecording.TcpConversation
    const net: Network
    var socket: int

    constructor (conversation: TcpRecording.TcpConversation, net: Network)
      ensures this.conversation == conversation && this.net == net && socket == NO_SOCKET
    {
      this.conversation, this.net, socket := conversation, net, NO_SOCKET;
    }

    /** The two processors share nothing with anything else, and `c` is the client as it is now. */
    ghost predicate Shows(expected: HttpResponseProcessor, test: HttpResponseProcessor, c: Client)
      reads this, net, expected, test, expected.Repr(), test.Repr()
    {
      && expected.Valid() && test.Valid() && expected.Repr() !! test.Repr()
      && {this, net, conversation} !! expected.Repr() && {this, net, conversation} !! test.Repr()
      && c == Client(socket, expected.State(), test.State(), net.log)
    }

    lemma ShowsValid(expected: HttpResponseProcessor, test: HttpResponseProcessor, c: Client)
      requires Shows(expected, test, c)
      ensures c.Valid() && test.Valid() && test.State() == c.test && socket == c.socket && net.log == c.log
    {
    }

    lemma ShowsApart(expected: HttpResponseProcessor, test: HttpResponseProcessor, c: Client)
      requires Shows(expected, test, c)
      ensures conversation !in expected.Repr() && conversation !in test.Repr()
    {
      hide HttpResponseProcessor.State, HttpResponseProcessor.Valid, HttpResponseProcessor.Repr;
    }

    /** The loop that writes until all data has been taken. */
    method SendData(data: bytes, ghost c: Client) returns (ok: bool)
      requires c.Valid() && c.socket == socket && c.log == net.log
      modifies net
      ensures var r := WriteAll(c, data, old(net.State()));
              if ok then r == Going(c.(log := net.log), net.State()) else r == Stopped(net.log)
    {
      var nwrite := 0;
      while nwrite < |data|
        invariant 0 <= nwrite <= |data|
        invariant WriteAll(c, data, old(net.State())) == WriteAll(c.(log := net.log), data[nwrite..], net.State())
      {
        var n := net.Write(socket, data[nwrite..]);
        if n <= 0 {
          return false;
        }
        assert data[nwrite..][n..] == data[nwrite + n..];
        nwrite := nwrite + n;
      }
      return true;
    }

    /** Bytes for one processor leave the other one alone. */
    method Give(to: HttpResponseProcessor, ghost other: HttpResponseProcessor, data: bytes) returns (ok: bool)
      requires to.Valid() && other.Valid() && to.Repr() !! other.Repr() && {this, net, conversation} !! to.Repr()
      modifies to.Repr()
      ensures ok == ProcessData(AsShipped, old(to.State()), data).1.Returned?
      ensures other.Valid() && other.Repr() == old(other.Repr()) && other.State() == old(other.State())
      ensures ok ==> to.Valid() && to.State() == ProcessData(AsShipped, old(to.State()), data).0
      ensures ok ==> to.Repr() !! other.Repr() && {this, net, conversation} !! to.Repr()
      ensures ok ==> fresh(to.Repr() - old(to.Repr()))
    {
      hide ProcessData, HttpResponseProcessor.State, HttpResponseProcessor.Valid;
      var out := to.ProcessPiece(data);
      return out.Returned?;
    }

    /** One `read`, and what it brought given to the live response. */
    method ReceivePiece(ghost expected: HttpResponseProcessor, test: HttpResponseProcessor, ghost c: Client)
        returns (ok: bool, ghost c': Client)
      requires Shows(expected, test, c) && c.Valid()
      modifies net, test.Repr()
      ensures var r := ReadPiece(c, old(net.State()));
              if ok then Shows(expected, test, c') && r == Going(c', net.State()) else r == Stopped(net.log)
      ensures ok ==> fresh(test.Repr() - old(test.Repr()))
    {
      hide ProcessData, HttpResponseProcessor.State, HttpResponseProcessor.Valid;
      c' := c;
      var data := net.Read(socket);
      if data == [] {
        return false, c';
      }
      ok := Give(test, expected, data);
      if ok {
        c' := c.(test := test.State(), log := net.log);
      }
    }

    /** The loop that reads until the live response is complete. */
    method ReceiveResponse(ghost expected: HttpResponseProcessor, test: HttpResponseProcessor, ghost c: Client)
        returns (ok: bool, ghost c': Client)
      requires Shows(expected, test, c) && c.Valid()
      modifies net, test.Repr()
      ensures var r := ReadResponse(c, old(net.State()));
              if ok then Shows(expected, test, c') && r == Going(c', net.State()) else r == Stopped(net.log)
      ensures ok ==> fresh(test.Repr() - old(test.Repr()))
    {
      hide ReadPiece, Complete, Shows, HttpResponseProcessor.State;
      c' := c;
      ShowsValid(expected, test, c');
      while !test.IsComplete()
        invariant Shows(expected, test, c') && fresh(test.Repr() - old(test.Repr()))
        invariant c'.Valid() && test.Valid() && test.State() == c'.test
        invariant ReadResponse(c, old(net.State())) == ReadResponse(c', net.State())
        decreases |net.State().arrivals|
      {
        ok, c' := ReceivePiece(expected, test, c');
        if !ok {
          return;
        }
        ShowsValid(expected, test, c');
      }
      ok := true;
    }

    /** The captured piece goes to the expected response, unless that is complete. */
    method TakeExpected(data: bytes, expected: HttpResponseProcessor, ghost test: HttpResponseProcessor,
                        ghost c: Client)
        returns (ok: bool, ghost c': Client)
      requires Shows(expected, test, c) && c.Valid()
      modifies expected.Repr()
      ensures var r := FeedExpected(c, data, net.State());
              if ok then Shows(expected, test, c') && r == Going(c', net.State()) else r == Stopped(net.log)
      ensures net.State() == old(net.State())
      ensures ok ==> fresh(expected.Repr() - old(expected.Repr())) && test.Repr() == old(test.Repr())
    {
      hide ProcessData, HttpResponseProcessor.State, HttpResponseProcessor.Valid;
      ok, c' := true, c;
      if !expected.IsComplete() {
        ok := Give(expected, test, data);
        if ok {
          c' := c.(expected := expected.State());
        }
      }
    }

    /** The comparison, once both responses are complete. */
    method Decide(expected: HttpResponseProcessor, test: HttpResponseProcessor, ghost c: Client)
        returns (ok: bool, ghost c': Client)
      requires Shows(expected, test, c) && c.Valid()
      modifies net`log
      ensures var r := Judge(c, net.State());
              if ok then Shows(expected, test, c') && r == Going(c', net.State()) else r == Stopped(net.log)
      ensures net.State() == old(net.State())
      ensures expected.Repr() == old(expected.Repr()) && test.Repr() == old(test.Repr())
    {
      hide Compare, HttpResponseProcessor.State, HttpResponseProcessor.Valid;
      ok, c' := true, c;
      if expected.IsComplete() {
        var diff := expected.CompareTo(test);
        if diff.None? {
          return false, c';
        }
        if diff.value != 0 {
          net.Report(Difference);
          c' := Logged(c, Difference);
        }
      }
    }

    method ReplayRecv(data: bytes, expected: HttpResponseProcessor, test: HttpResponseProcessor, ghost c: Client)
        returns (ok: bool, ghost c': Client)
      requires Shows(expected, test, c) && c.Valid()
      modifies net, expected.Repr(), test.Repr()
      ensures var r := PlayRecv(c, data, old(net.State()));
              if ok then Shows(expected, test, c') && r == Going(c', net.State()) else r == Stopped(net.log)
      ensures ok ==> fresh(expected.Repr() - old(expected.Repr())) && fresh(test.Repr() - old(test.Repr()))
    {
      hide FeedExpected, ReadResponse, Judge, HttpResponseProcessor.State, HttpResponseProcessor.Valid;
      ok, c' := TakeExpected(data, expected, test, c);
      if ok {
        ok, c' := ReceiveResponse(expected, test, c');
        if ok {
          ok, c' := Decide(expected, test, c');
        }
      }
    }

    method ReplayConnect(ghost expected: HttpResponseProcessor, ghost test: HttpResponseProcessor, ghost c: Client)
        returns (ok: bool, ghost c': Client)
      requires Shows(expected, test, c) && (this as object) != net
      modifies this, net
      ensures var r := PlayConnect(c, old(net.State()));
              if ok then Shows(expected, test, c') && r == Going(c', net.State()) else r == Stopped(net.log)
      ensures expected.Repr() == old(expected.Repr()) && test.Repr() == old(test.Repr())
    {
      hide HttpResponseProcessor.State, HttpResponseProcessor.Valid;
      c' := c;
      var fd := net.ConnectSocket();
      if fd.None? {
        return false, c';
      }
      socket := fd.value;
      ok, c' := true, c.(socket := fd.value, log := net.log);
    }

    method ReplaySend(data: bytes, expected: HttpResponseProcessor, test: HttpResponseProcessor, ghost c: Client)
        returns (ok: bool, ghost c': Client)
      requires Shows(expected, test, c) && c.Valid()
      modifies net, expected, test
      ensures var r := PlaySend(c, data, old(net.State()));
              if ok then Shows(expected, test, c') && r == Going(c', net.State()) else r == Stopped(net.log)
      ensures ok ==> expected.Repr() == {expected as object} && test.Repr() == {test as object}
    {
      hide WriteAll, Reset, HttpResponseProcessor.State, HttpResponseProcessor.Valid;
      c' := c;
      ok := SendData(data, c);
      if ok {
        c' := c.(log := net.log);
        c' := ResetBoth(expected, test, c');
      }
    }

    method ResetBoth(expected: HttpResponseProcessor, test: HttpResponseProcessor, ghost c: Client)
        returns (ghost c': Client)
      requires Shows(expected, test, c)
      modifies expected, test
      ensures Shows(expected, test, c')
      ensures c' == c.(expected := Reset(c.expected.headers), test := Reset(c.test.headers))
      ensures expected.Repr() == {expected as object} && test.Repr() == {test as object}
    {
      hide Reset, HttpResponseProcessor.State, HttpResponseProcessor.Valid;
      expected.ResetAll();
      test.ResetAll();
      c' := c.(expected := Reset(c.expected.headers), test := Reset(c.test.headers));
    }

    method ReplayClose(ghost expected: HttpResponseProcessor, ghost test: HttpResponseProcessor, ghost c: Client)
        returns (ghost c': Client)
      requires Shows(expected, test, c) && (this as object) != net
      modifies this, net
      ensures Shows(expected, test, c') && PlayClose(c, old(net.State())) == Going(c', net.State())
      ensures expected.Repr() == old(expected.Repr()) && test.Repr() == old(test.Repr())
    {
      hide HttpResponseProcessor.State, HttpResponseProcessor.Valid;
      net.Report(Shut(socket));
      socket := NO_SOCKET;
      c' := c.(socket := NO_SOCKET, log := net.log);
    }

    /** The switch over the kinds of action. */
    method ReplayAction(a: Action, expected: HttpResponseProcessor, test: HttpResponseProcessor, ghost c: Client)
        returns (ok: bool, ghost c': Client)
      requires Shows(expected, test, c) && c.Valid() && (this as object) != net
      modifies this, net, expected.Repr(), test.Repr()
      ensures var r := PlayAction(c, a, old(net.State()));
              if ok then Shows(expected, test, c') && r == Going(c', net.State()) else r == Stopped(net.log)
      ensures ok ==> fresh(expected.Repr() - old(expected.Repr())) && fresh(test.Repr() - old(test.Repr()))
    {
      hide PlayConnect, PlaySend, PlayRecv, PlayClose, Shows;
      match a.kind {
        case Connect => ok, c' := ReplayConnect(expected, test, c);
        case Send => ok, c' := ReplaySend(a.data, expected, test, c);
        case Recv => ok, c' := ReplayRecv(a.data, expected, test, c);
        case Close => ok, c' := true, c; c' := ReplayClose(expected, test, c);
      }
    }

    /** Two processors that have seen nothing. */
    method MakeProcessors() returns (expected: HttpResponseProcessor, test: HttpResponseProcessor)
      requires socket == NO_SOCKET && net.log == []
      ensures Shows(expected, test, FRESH_CLIENT) && fresh(expected.Repr()) && fresh(test.Repr())
    {
      hide HttpResponseProcessor.State, HttpResponseProcessor.Valid;
      expected := new HttpResponseProcessor();
      test := new HttpResponseProcessor();
    }

    /** The action at the front of the queue, which is then taken off. */
    method ReplayFront(expected: HttpResponseProcessor, test: HttpResponseProcessor, ghost c: Client)
        returns (ok: bool, ghost c': Client)
      requires Shows(expected, test, c) && c.Valid() && conversation.queue != []
      requires (this as object) != net && (this as object) != conversation && (net as object) != conversation
      modifies this, net, conversation, expected.Repr(), test.Repr()
      ensures var r := PlayAction(c, old(conversation.queue)[0], old(net.State()));
              if ok then Shows(expected, test, c') && r == Going(c', net.State()) else r == Stopped(net.log)
      ensures ok ==> conversation.queue == old(conversation.queue)[1..]
      ensures ok ==> forall o <- expected.Repr() :: o in old(expected.Repr()) || fresh(o)
      ensures ok ==> forall o <- test.Repr() :: o in old(test.Repr()) || fresh(o)
    {
      hide PlayAction, Shows, Client.Valid, HttpResponseProcessor.Repr;
      ShowsApart(expected, test, c);
      ok, c' := ReplayAction(conversation.queue[0], expected, test, c);
      if ok {
        TakeOff(expected, test, c');
      }
    }

    method TakeOff(ghost expected: HttpResponseProcessor, ghost test: HttpResponseProcessor, ghost c: Client)
      requires Shows(expected, test, c) && conversation.queue != []
      modifies conversation`queue
      ensures Shows(expected, test, c) && conversation.queue == old(conversation.queue)[1..]
      ensures expected.Repr() == old(expected.Repr()) && test.Repr() == old(test.Repr())
    {
      hide HttpResponseProcessor.State, HttpResponseProcessor.Valid;
      conversation.ActionPop();
    }

    /** The loop that drains the queue. */
    method Drain(expected: HttpResponseProcessor, test: HttpResponseProcessor, ghost c: Client)
        returns (ok: bool, ghost c': Client)
      requires Shows(expected, test, c) && c.Valid()
      requires (this as object) != net && (this as object) != conversation && (net as object) != conversation
      modifies this, net, conversation, expected.Repr(), test.Repr()
      ensures var r := PlayQueue(c, old(conversation.queue), old(net.State()));
              if ok then Shows(expected, test, c') && r == Going(c', net.State()) && conversation.queue == []
              else r == Stopped(net.log)
    {
      hide PlayAction, PlayQueue, Shows, HttpResponseProcessor.Repr;
      c' := c;
      while conversation.queue != []
        invariant Shows(expected, test, c') && c'.Valid()
        invariant forall o <- expected.Repr() :: o in old(expected.Repr()) || fresh(o)
        invariant forall o <- test.Repr() :: o in old(test.Repr()) || fresh(o)
        invariant PlayQueue(c, old(conversation.queue), old(net.State()))
               == PlayQueue(c', conversation.queue, net.State())
        decreases |conversation.queue|
      {
        PlayFront(c', conversation.queue, net.State());
        ok, c' := ReplayFront(expected, test, c');
        if !ok {
          return;
        }
      }
      PlayNothing(c', net.State());
      ok := true;
    }

    /** `replay`. */
    method Replay() returns (ok: bool)
      requires socket == NO_SOCKET && net.log == []
      requires (this as object) != net && (this as object) != conversation && (net as object) != conversation
      modifies this, net, conversation
      ensures var r := PlayQueue(FRESH_CLIENT, old(conversation.queue), old(net.State()));
              if ok then r.Going? && r.c.socket == socket && r.c.log == net.log && r.net == net.State()
                         && conversation.queue == []
              else r == Stopped(net.log)
    {
      hide PlayQueue, Shows, HttpResponseProcessor.State, HttpResponseProcessor.Valid;
      var expected, test := MakeProcessors();
      ghost var c;
      ok, c := Drain(expected, test, FRESH_CLIENT);
      if ok {
        ShowsValid(expected, test, c);
      }
    }
  }
}
