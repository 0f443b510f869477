/** `TcpConversation`: packets of one connection become actions. */
module TcpRecording {
  import opened Bytes
  import opened Actions
  import opened Packets

  datatype TcpState = SynSent | SynReceived | Established | Closed

  /** The captured end points, the state and the action queue of a conversation. */
  datatype Recording = Recording(client: Endpoint, server: Endpoint, state: TcpState, queue: seq<Action>)

  /** A conversation is created for the packet that shows it first. */
  function Fresh(p: Packet): Recording {
    Recording(p.src, p.dest, Closed, [])
  }

  function Push(r: Recording, a: Action): Recording {
    r.(queue := r.queue + [a])
  }

  predicate FromClient(r: Recording, p: Packet) {
    p.src.addr == r.client.addr
  }

  /** `closeProcessCapturePacket`. */
  function CloseStep(r: Recording, p: Packet): Recording
    requires p.transport.Tcp?
  {
    if FromClient(r, p) && p.transport.flags == TH_SYN then r.(state := SynSent) else r
  }

  /** `synSentProcessCapturePacket`. */
  function SynSentStep(r: Recording, p: Packet): Recording
    requires p.transport.Tcp?
  {
    if p.src.addr == r.server.addr && Has(p, TH_ACK) && Has(p, TH_SYN) then r.(state := SynReceived) else r
  }

  /** `synRecvProcessCapturePacket`. */
  function SynRecvStep(r: Recording, p: Packet): Recording
    requires p.transport.Tcp?
  {
    if FromClient(r, p) && Has(p, TH_ACK) then Push(r.(state := Established), Action(Connect, [])) else r
  }

  /** The action that a packet with data makes. */
  function Transfer(r: Recording, p: Packet): Action
    requires p.transport.Tcp?
  {
    Action(if FromClient(r, p) && p.src.port == r.client.port then Send else Recv, p.transport.data)
  }

  /** `estProcessCapturePacket`. */
  function EstStep(r: Recording, p: Packet): Recording
    requires p.transport.Tcp?
  {
    var r' := if p.transport.data != [] then Push(r, Transfer(r, p)) else r;
    if Has(p, TH_FIN) then Push(r'.(state := Closed), Action(Close, [])) else r'
  }

  /** `processCapturePacket`. */
  function Step(r: Recording, p: Packet): Recording {
    if !p.transport.Tcp? then r
    else if Has(p, TH_RST) then r.(state := Closed)
    else match r.state
      case Closed => CloseStep(r, p)
      case SynSent => SynSentStep(r, p)
      case SynReceived => SynRecvStep(r, p)
      case Established => EstStep(r, p)
  }

  function Run(r: Recording, ps: seq<Packet>): Recording
    decreases |ps|
  {
    if ps == [] then r else Run(Step(r, ps[0]), ps[1..])
  }

  // ---------------------------------------------------------------- the class

  class TcpConversation {
    const capSrc: Endpoint
    const capDest: Endpoint
    var state: TcpState
    var queue: seq<Action>

    function View(): Recording
      reads this
    {
      Recording(capSrc, capDest, state, queue)
    }

    constructor (p: Packet)
      ensures View() == Fresh(p)
    {
      capSrc, capDest, state, queue := p.src, p.dest, Closed, [];
    }

    /** `actionPush`. */
    method ActionPush(a: Action)
      modifies this`queue
      ensures queue == old(queue) + [a]
    {
      queue := queue + [a];
    }

    /** `actionPop`. */
    method ActionPop()
      requires queue != []
      modifies this`queue
      ensures queue == old(queue)[1..]
    {
      queue := queue[1..];
    }

    /** `processCapturePacket`. */
    method ProcessCapturePacket(p: Packet)
      modifies this
      ensures View() == Step(old(View()), p)
    {
      if !p.transport.Tcp? {
        return;
      }
      if Has(p, TH_RST) {
        state := Closed;
        return;
      }
      match state {
        case Closed => CloseProcessCapturePacket(p);
        case SynSent => SynSentProcessCapturePacket(p);
        case SynReceived => SynRecvProcessCapturePacket(p);
        case Established => EstProcessCapturePacket(p);
      }
    }

    method CloseProcessCapturePacket(p: Packet)
      requires p.transport.Tcp?
      modifies this
      ensures View() == CloseStep(old(View()), p)
    {
      if p.src.addr == capSrc.addr && p.transport.flags == TH_SYN {
        state := SynSent;
      }
    }

    method SynSentProcessCapturePacket(p: Packet)
      requires p.transport.Tcp?
      modifies this
      ensures View() == SynSentStep(old(View()), p)
    {
      if p.src.addr == capDest.addr && Has(p, TH_ACK) && Has(p, TH_SYN) {
        state := SynReceived;
      }
    }

    method SynRecvProcessCapturePacket(p: Packet)
      requires p.transport.Tcp?
      modifies this
      ensures View() == SynRecvStep(old(View()), p)
    {
      if p.src.addr == capSrc.addr && Has(p, TH_ACK) {
        state := Established;
        ActionPush(Action(Connect, []));
      }
    }

    method EstProcessCapturePacket(p: Packet)
      requires p.transport.Tcp?
      modifies this
      ensures View() == EstStep(old(View()), p)
    {
      if |p.transport.data| > 0 {
        var fromClient := p.src.addr == capSrc.addr && p.src.port == capSrc.port;
        ActionPush(Action(if fromClient then Send else Recv, p.transport.data));
      }
      if Has(p, TH_FIN) {
        state := Closed;
        ActionPush(Action(Close, []));
      }
    }
  }

  // ---------------------------------------------------------------- runs

  lemma {:induction false} RunAppend(r: Recording, a: seq<Packet>, b: seq<Packet>)
    ensures Run(r, a + b) == Run(Run(r, a), b)
    decreases |a|
  {
    if a == [] {
      assert a + b == b;
    } else {
      assert (a + b)[1..] == a[1..] + b;
      RunAppend(Step(r, a[0]), a[1..], b);
    }
  }

  lemma RunSnoc(r: Recording, a: seq<Packet>, p: Packet)
    ensures Run(r, a + [p]) == Step(Run(r, a), p)
  {
    RunAppend(r, a, [p]);
    assert [p][1..] == [];
    assert Run(Run(r, a), [p]) == Run(Step(Run(r, a), p), []);
  }

  lemma {:induction false} EndPointsStay(r: Recording, ps: seq<Packet>)
    ensures Run(r, ps).client == r.client && Run(r, ps).server == r.server && r.queue <= Run(r, ps).queue
    decreases |ps|
  {
    if ps != [] {
      EndPointsStay(Step(r, ps[0]), ps[1..]);
    }
  }

  // ---------------------------------------------------------------- the grammar of queues

  /** Reading a queue as (CONNECT (SEND|RECV)* CLOSE?)*: whether it ends inside a connection, or
      nothing when it is not of that form. */
  function Connected(queue: seq<Action>): Option<bool> {
    if queue == [] then Some(false) else
      var before, last := Connected(queue[..|queue| - 1]), queue[|queue| - 1].kind;
      match before
      case None => None
      case Some(open) =>
        match last
        case Connect => Some(true)
        case Close => if open then Some(false) else None
        case _ => if open then Some(true) else None
  }

  lemma ConnectedSnoc(queue: seq<Action>, a: Action)
    ensures Connected(queue + [a]) ==
            match Connected(queue)
            case None => None
            case Some(open) =>
              match a.kind
              case Connect => Some(true)
              case Close => if open then Some(false) else None
              case _ => if open then Some(true) else None
  {
    assert (queue + [a])[..|queue|] == queue;
  }

  /** The queue is of that form, and a connection is open while the state says so. */
  predicate QueueOk(r: Recording) {
    Connected(r.queue).Some? && (r.state.Established? ==> Connected(r.queue).value)
  }

  lemma StepKeepsQueueOk(r: Recording, p: Packet)
    requires QueueOk(r)
    ensures QueueOk(Step(r, p))
  {
    hide Connected;
    ConnectedSnoc(r.queue, Action(Connect, []));
    ConnectedSnoc(r.queue, Action(Close, []));
    if p.transport.Tcp? {
      var t := Transfer(r, p);
      ConnectedSnoc(r.queue, t);
      ConnectedSnoc(r.queue + [t], Action(Close, []));
    }
  }

  /** Every queue recorded from any packets is of that form. */
  lemma {:induction false} RecordedQueueOk(first: Packet, ps: seq<Packet>)
    ensures QueueOk(Run(Fresh(first), ps))
    decreases |ps|
  {
    if ps != [] {
      var p := ps[|ps| - 1];
      RecordedQueueOk(first, ps[..|ps| - 1]);
      assert ps == ps[..|ps| - 1] + [p];
      RunSnoc(Fresh(first), ps[..|ps| - 1], p);
      StepKeepsQueueOk(Run(Fresh(first), ps[..|ps| - 1]), p);
    }
  }

  // ---------------------------------------------------------------- counting connections

  function Count(queue: seq<Action>, kind: ActionType): nat {
    if queue == [] then 0
    else Count(queue[..|queue| - 1], kind) + if queue[|queue| - 1].kind == kind then 1 else 0
  }

  lemma CountSnoc(queue: seq<Action>, a: Action, kind: ActionType)
    ensures Count(queue + [a], kind) == Count(queue, kind) + if a.kind == kind then 1 else 0
  {
    assert (queue + [a])[..|queue|] == queue;
  }

  // The bits of the flags, as section 3.1 of RFC 9293 numbers them.

  predicate IsFin(p: Packet) {
    p.transport.Tcp? && p.transport.flags & 1 != 0
  }

  predicate IsReset(p: Packet) {
    p.transport.Tcp? && p.transport.flags & 4 != 0
  }

  /** The resets that arrive while the connection is established. */
  function Resets(r: Recording, ps: seq<Packet>): nat
    decreases |ps|
  {
    if ps == [] then 0
    else (if r.state.Established? && IsReset(ps[0]) then 1 else 0) + Resets(Step(r, ps[0]), ps[1..])
  }

  /** Connections opened less connections closed and the one that is open. */
  function Balance(r: Recording): int {
    Count(r.queue, Connect) - Count(r.queue, Close) - if r.state.Established? then 1 else 0
  }

  lemma StepBalance(r: Recording, p: Packet)
    ensures Balance(Step(r, p)) == Balance(r) + if r.state.Established? && IsReset(p) then 1 else 0
  {
    hide Count;
    forall kind: ActionType
      ensures Count(r.queue + [Action(Connect, [])], kind) == Count(r.queue, kind) + if kind == Connect then 1 else 0
      ensures Count(r.queue + [Action(Close, [])], kind) == Count(r.queue, kind) + if kind == Close then 1 else 0
    {
      CountSnoc(r.queue, Action(Connect, []), kind);
      CountSnoc(r.queue, Action(Close, []), kind);
    }
    if p.transport.Tcp? {
      var t := Transfer(r, p);
      forall kind: ActionType
        ensures Count(r.queue + [t], kind) == Count(r.queue, kind) + if kind == t.kind then 1 else 0
        ensures Count(r.queue + [t] + [Action(Close, [])], kind)
             == Count(r.queue + [t], kind) + if kind == Close then 1 else 0
      {
        CountSnoc(r.queue, t, kind);
        CountSnoc(r.queue + [t], Action(Close, []), kind);
      }
    }
  }

  lemma {:induction false} RunBalance(r: Recording, ps: seq<Packet>)
    ensures Balance(Run(r, ps)) == Balance(r) + Resets(r, ps)
    decreases |ps|
  {
    hide Balance;
    if ps != [] {
      StepBalance(r, ps[0]);
      RunBalance(Step(r, ps[0]), ps[1..]);
    }
  }

  /** After any packets: as many CONNECTs as CLOSEs and resets of established connections, and one
      more while a connection is established. */
  lemma ConnectionsBalance(first: Packet, ps: seq<Packet>)
    ensures var r := Run(Fresh(first), ps);
            Count(r.queue, Connect)
            == Count(r.queue, Close) + Resets(Fresh(first), ps) + if r.state.Established? then 1 else 0
  {
    RunBalance(Fresh(first), ps);
  }

  /** The packets with FIN that arrive while the connection is established. */
  function Fins(r: Recording, ps: seq<Packet>): nat
    decreases |ps|
  {
    if ps == [] then 0
    else (if r.state.Established? && IsFin(ps[0]) && !IsReset(ps[0]) then 1 else 0) + Fins(Step(r, ps[0]), ps[1..])
  }

  /** Each of them makes one CLOSE, and nothing else does. */
  lemma {:induction false} ClosesAreFins(r: Recording, ps: seq<Packet>)
    ensures Count(Run(r, ps).queue, Close) == Count(r.queue, Close) + Fins(r, ps)
    decreases |ps|
  {
    hide Count;
    if ps != [] {
      var p := ps[0];
      CountSnoc(r.queue, Action(Connect, []), Close);
      CountSnoc(r.queue, Action(Close, []), Close);
      if p.transport.Tcp? {
        CountSnoc(r.queue, Transfer(r, p), Close);
        CountSnoc(r.queue + [Transfer(r, p)], Action(Close, []), Close);
      }
      ClosesAreFins(Step(r, p), ps[1..]);
    }
  }

  // ---------------------------------------------------------------- where a connection comes from

  predicate NoReset(ps: seq<Packet>) {
    forall i :: 0 <= i < |ps| ==> !IsReset(ps[i])
  }

  predicate IsSyn(client: Endpoint, p: Packet) {
    p.transport.Tcp? && p.src.addr == client.addr && p.transport.flags == 2
  }

  predicate IsSynAck(server: Endpoint, p: Packet) {
    p.transport.Tcp? && p.src.addr == server.addr && p.transport.flags & 16 != 0 && p.transport.flags & 2 != 0
  }

  predicate IsClientAck(client: Endpoint, p: Packet) {
    p.transport.Tcp? && p.src.addr == client.addr && p.transport.flags & 16 != 0
  }

  /** A SYN at `j` and no reset since. */
  predicate SynAt(client: Endpoint, ps: seq<Packet>, j: int) {
    0 <= j < |ps| && IsSyn(client, ps[j]) && NoReset(ps[j..])
  }

  predicate SynAckAt(server: Endpoint, ps: seq<Packet>, j: int, k: int) {
    0 <= j < k < |ps| && IsSynAck(server, ps[k])
  }

  /** The client's ACK at `l`, and no FIN since. */
  predicate AckAt(client: Endpoint, ps: seq<Packet>, k: int, l: int) {
    0 <= k < l < |ps| && IsClientAck(client, ps[l]) && forall i :: l < i < |ps| ==> !IsFin(ps[i])
  }

  lemma NoResetSnoc(ps: seq<Packet>, j: nat, p: Packet)
    requires j <= |ps| && NoReset(ps[j..]) && !IsReset(p)
    ensures NoReset((ps + [p])[j..])
  {
    assert (ps + [p])[j..] == ps[j..] + [p];
  }

  /** What leads into each state. */
  lemma StateStep(r: Recording, p: Packet)
    ensures var r' := Step(r, p);
            && (!r'.state.Closed? ==> !IsReset(p))
            && (r'.state.SynSent? ==> r.state.SynSent? || (r.state.Closed? && IsSyn(r.client, p)))
            && (r'.state.SynReceived? ==> r.state.SynReceived? || (r.state.SynSent? && IsSynAck(r.server, p)))
            && (r'.state.Established? ==>
                  (r.state.Established? && !IsFin(p)) || (r.state.SynReceived? && IsClientAck(r.client, p)))
  {
  }

  /** The handshake seen so far, in a state that waits for its next packet, and all of it in the established
      state. */
  lemma {:induction false} HandshakeSeen(first: Packet, ps: seq<Packet>) returns (j: int, k: int, l: int)
    ensures var r := Run(Fresh(first), ps);
            (!r.state.Closed? ==> SynAt(first.src, ps, j))
            && (r.state.SynReceived? || r.state.Established? ==> SynAckAt(first.dest, ps, j, k))
            && (r.state.Established? ==> AckAt(first.src, ps, k, l))
    decreases |ps|
  {
    hide Step;
    j, k, l := 0, 0, 0;
    if ps != [] {
      var p, before := ps[|ps| - 1], ps[..|ps| - 1];
      assert ps == before + [p];
      j, k, l := HandshakeSeen(first, before);
      RunSnoc(Fresh(first), before, p);
      EndPointsStay(Fresh(first), before);
      var r, r' := Run(Fresh(first), before), Run(Fresh(first), ps);
      StateStep(r, p);
      hide Run, IsSyn, IsSynAck, IsClientAck, IsReset, IsFin;
      if r.state.Closed? {
        j := |before|;
        assert ps[j..] == [p];
      } else if !r'.state.Closed? {
        NoResetSnoc(before, j, p);
        k := if r.state.SynSent? then |before| else k;
        l := if r.state.SynReceived? then |before| else l;
      }
    }
  }

  /** Every CONNECT that a packet adds has its handshake before it, in order and without a reset in
      between: the client's SYN, the server's SYN and ACK, and this packet with the client's ACK. */
  lemma ConnectHasHandshake(first: Packet, ps: seq<Packet>, p: Packet) returns (j: int, k: int)
    requires var r := Run(Fresh(first), ps);
             Count(Step(r, p).queue, Connect) > Count(r.queue, Connect)
    ensures SynAt(first.src, ps, j) && SynAckAt(first.dest, ps, j, k)
    ensures IsClientAck(first.src, p) && !IsReset(p)
  {
    var l;
    j, k, l := HandshakeSeen(first, ps);
    EndPointsStay(Fresh(first), ps);
    var r := Run(Fresh(first), ps);
    hide Count;
    CountSnoc(r.queue, Action(Close, []), Connect);
    if p.transport.Tcp? {
      CountSnoc(r.queue, Transfer(r, p), Connect);
      CountSnoc(r.queue + [Transfer(r, p)], Action(Close, []), Connect);
    }
  }

  predicate NoneIs(ps: seq<Packet>, excluded: Packet -> bool) {
    forall i :: 0 <= i < |ps| ==> !excluded(ps[i])
  }

  lemma {:induction false} Waits(r: Recording, ps: seq<Packet>)
    requires r.state.Closed? ==> NoneIs(ps, p => IsSyn(r.client, p))
    requires r.state.SynSent? ==> NoReset(ps) && NoneIs(ps, p => IsSynAck(r.server, p))
    requires r.state.SynReceived? ==> NoReset(ps) && NoneIs(ps, p => IsClientAck(r.client, p))
    requires !r.state.Established?
    ensures Run(r, ps) == r
    decreases |ps|
  {
    if ps != [] {
      assert Step(r, ps[0]) == r;
      Waits(r, ps[1..]);
    }
  }

  /** Every handshake makes a CONNECT, whatever other packets come in between, as long as none of them
      is a reset once the client has sent its SYN. */
  lemma HandshakeConnects(r: Recording, a: seq<Packet>, syn: Packet, b: seq<Packet>, synAck: Packet, c: seq<Packet>,
                          ack: Packet)
    requires r.state.Closed? && NoneIs(a, p => IsSyn(r.client, p)) && IsSyn(r.client, syn)
    requires NoReset(b) && NoneIs(b, p => IsSynAck(r.server, p))
    requires IsSynAck(r.server, synAck) && !IsReset(synAck)
    requires NoReset(c) && NoneIs(c, p => IsClientAck(r.client, p))
    requires IsClientAck(r.client, ack) && !IsReset(ack)
    ensures Run(r, a + [syn] + b + [synAck] + c + [ack])
         == r.(state := Established, queue := r.queue + [Action(Connect, [])])
  {
    RunSnoc(r, a + [syn] + b + [synAck] + c, ack);
    RunAppend(r, a + [syn] + b + [synAck], c);
    RunSnoc(r, a + [syn] + b, synAck);
    RunAppend(r, a + [syn], b);
    RunSnoc(r, a, syn);
    Waits(r, a);
    hide Run;
    assert !IsReset(syn);
    var sent, received := r.(state := SynSent), r.(state := SynReceived);
    assert Step(r, syn) == sent;
    Waits(sent, b);
    assert Step(sent, synAck) == received;
    Waits(received, c);
  }

  // ---------------------------------------------------------------- payload

  predicate IsTransfer(a: Action) {
    a.kind == Send || a.kind == Recv
  }

  /** The transfers of a queue. */
  function Transfers(queue: seq<Action>): seq<Action> {
    if queue == [] then []
    else Transfers(queue[..|queue| - 1]) + if IsTransfer(queue[|queue| - 1]) then [queue[|queue| - 1]] else []
  }

  lemma TransfersSnoc(queue: seq<Action>, a: Action)
    ensures Transfers(queue + [a]) == Transfers(queue) + if IsTransfer(a) then [a] else []
  {
    assert (queue + [a])[..|queue|] == queue;
  }

  /** The packets that arrive while the connection is established, up to and with the one that ends it. */
  function WhileEstablished(r: Recording, ps: seq<Packet>): seq<Packet>
    decreases |ps|
  {
    if ps == [] then []
    else (if r.state.Established? && !IsReset(ps[0]) then [ps[0]] else []) + WhileEstablished(Step(r, ps[0]), ps[1..])
  }

  /** The payloads of packets in order, each with its direction: from the end point `client`, or not. */
  function Directed(client: Endpoint, ps: seq<Packet>): seq<Action>
    decreases |ps|
  {
    if ps == [] then [] else DirectedOne(client, ps[0]) + Directed(client, ps[1..])
  }

  function DirectedOne(client: Endpoint, p: Packet): seq<Action> {
    if p.transport.Tcp? && p.transport.data != [] then
      [Action(if p.src == client then Send else Recv, p.transport.data)]
    else []
  }

  lemma {:induction false} DirectedAppend(client: Endpoint, a: seq<Packet>, b: seq<Packet>)
    ensures Directed(client, a + b) == Directed(client, a) + Directed(client, b)
    decreases |a|
  {
    hide DirectedOne;
    if a == [] {
      assert a + b == b;
    } else {
      assert (a + b)[1..] == a[1..] + b;
      DirectedAppend(client, a[1..], b);
    }
  }

  lemma DirectedSingle(client: Endpoint, p: Packet)
    ensures Directed(client, [p]) == DirectedOne(client, p)
  {
    assert [p][1..] == [];
  }

  /** One packet in an established connection that does not end it. */
  lemma EstablishedStep(r: Recording, p: Packet)
    requires r.state.Established? && !IsReset(p)
    ensures Step(r, p) == if IsFin(p)
                          then r.(state := Closed, queue := r.queue + DirectedOne(r.client, p) + [Action(Close, [])])
                          else r.(queue := r.queue + DirectedOne(r.client, p))
  {
    assert r.queue + [] == r.queue;
  }

  /** While nothing ends an established connection, its payloads are what the queue grows by. */
  lemma {:induction false} EstablishedGrows(r: Recording, ps: seq<Packet>)
    requires r.state.Established? && forall i :: 0 <= i < |ps| ==> !IsReset(ps[i]) && !IsFin(ps[i])
    ensures Run(r, ps) == r.(queue := r.queue + Directed(r.client, ps))
    decreases |ps|
  {
    hide Step, DirectedOne;
    if ps == [] {
      assert r.queue + [] == r.queue;
    } else {
      assert !IsReset(ps[0]) && !IsFin(ps[0]);
      EstablishedStep(r, ps[0]);
      EstablishedGrows(Step(r, ps[0]), ps[1..]);
      assert r.queue + DirectedOne(r.client, ps[0]) + Directed(r.client, ps[1..]) == r.queue + Directed(r.client, ps);
    }
  }

  lemma TransfersStep(r: Recording, p: Packet)
    ensures Transfers(Step(r, p).queue) ==
            Transfers(r.queue) + if r.state.Established? && !IsReset(p) then DirectedOne(r.client, p) else []
  {
    hide Transfers;
    TransfersSnoc(r.queue, Action(Connect, []));
    TransfersSnoc(r.queue, Action(Close, []));
    if p.transport.Tcp? {
      TransfersSnoc(r.queue, Transfer(r, p));
      TransfersSnoc(r.queue + [Transfer(r, p)], Action(Close, []));
    }
  }

  lemma {:induction false} RunTransfers(r: Recording, ps: seq<Packet>)
    ensures Transfers(Run(r, ps).queue) == Transfers(r.queue) + Directed(r.client, WhileEstablished(r, ps))
    decreases |ps|
  {
    hide Transfers, Step, DirectedOne;
    if ps == [] {
      assert Transfers(r.queue) + [] == Transfers(r.queue);
    } else {
      var p, r' := ps[0], Step(r, ps[0]);
      TransfersStep(r, p);
      EndPointsStay(r, [p]);
      assert Run(r, [p]) == r' by {
        RunOnce(r, p);
      }
      RunTransfers(r', ps[1..]);
      var now := if r.state.Established? && !IsReset(p) then [p] else [];
      DirectedAppend(r.client, now, WhileEstablished(r', ps[1..]));
      DirectedSingle(r.client, p);
      assert Transfers(r.queue) + Directed(r.client, now) + Directed(r.client, WhileEstablished(r', ps[1..]))
          == Transfers(r.queue) + (Directed(r.client, now) + Directed(r.client, WhileEstablished(r', ps[1..])));
    }
  }

  lemma RunOnce(r: Recording, p: Packet)
    ensures Run(r, [p]) == Step(r, p)
  {
    assert [p][1..] == [];
    assert Run(Step(r, p), []) == Step(r, p);
  }

  /** The end points are those of the first packet, whatever comes after it. */
  lemma EndPointsOfFirst(first: Packet, ps: seq<Packet>)
    ensures Run(Fresh(first), ps).client == first.src && Run(Fresh(first), ps).server == first.dest
  {
    EndPointsStay(Fresh(first), ps);
  }

  /** No payload of an established connection is lost, made up or put out of order, and those from the
      address and port that the first packet came from, and only those, are sent. */
  lemma PayloadConserved(first: Packet, ps: seq<Packet>)
    ensures Transfers(Run(Fresh(first), ps).queue) == Directed(first.src, WhileEstablished(Fresh(first), ps))
  {
    RunTransfers(Fresh(first), ps);
    assert [] + Directed(first.src, WhileEstablished(Fresh(first), ps))
        == Directed(first.src, WhileEstablished(Fresh(first), ps));
  }

  /** A captured connection from the client's SYN to the first FIN: its packets, by their part. */
  datatype Capture = Capture(syn: Packet, beforeSynAck: seq<Packet>, synAck: Packet, beforeAck: seq<Packet>, ack: Packet,
                             transfers: seq<Packet>, fin: Packet)
  {
    function Packets(): seq<Packet> {
      [syn] + beforeSynAck + [synAck] + beforeAck + [ack] + transfers + [fin]
    }

    /** The parts are what they are called, and nothing in between is taken for one of them. */
    predicate Ok(client: Endpoint, server: Endpoint) {
      && IsSyn(client, syn)
      && NoReset(beforeSynAck) && NoneIs(beforeSynAck, p => IsSynAck(server, p))
      && IsSynAck(server, synAck) && !IsReset(synAck)
      && NoReset(beforeAck) && NoneIs(beforeAck, p => IsClientAck(client, p))
      && IsClientAck(client, ack) && !IsReset(ack)
      && (forall i :: 0 <= i < |transfers| ==> !IsReset(transfers[i]) && !IsFin(transfers[i]))
      && IsFin(fin) && !IsReset(fin)
    }

    /** The payloads of the connection. */
    function Data(client: Endpoint): seq<Action> {
      Directed(client, transfers + [fin])
    }
  }

  /** It is recorded as CONNECT, its payloads, CLOSE. */
  lemma CaptureRecorded(r: Recording, c: Capture)
    requires r.state.Closed? && c.Ok(r.client, r.server)
    ensures Run(r, c.Packets())
         == r.(queue := r.queue + ([Action(Connect, [])] + (c.Data(r.client) + [Action(Close, [])])))
  {
    hide Run, Step, Directed, DirectedOne;
    var shake := [c.syn] + c.beforeSynAck + [c.synAck] + c.beforeAck + [c.ack];
    var none: seq<Packet> := [];
    assert shake == none + [c.syn] + c.beforeSynAck + [c.synAck] + c.beforeAck + [c.ack];
    HandshakeConnects(r, none, c.syn, c.beforeSynAck, c.synAck, c.beforeAck, c.ack);
    var open := r.(state := Established, queue := r.queue + [Action(Connect, [])]);
    RunAppend(r, shake, c.transfers);
    EstablishedGrows(open, c.transfers);
    RunSnoc(r, shake + c.transfers, c.fin);
    EstablishedStep(Run(r, shake + c.transfers), c.fin);
    DirectedAppend(r.client, c.transfers, [c.fin]);
    DirectedSingle(r.client, c.fin);
    assert c.Packets() == shake + c.transfers + [c.fin];
    assert r.queue + [Action(Connect, [])] + Directed(r.client, c.transfers) + DirectedOne(r.client, c.fin) + [Action(Close, [])]
        == r.queue + ([Action(Connect, [])] + (c.Data(r.client) + [Action(Close, [])]));
  }

  /** Connections captured one after the other. */
  function AllPackets(cs: seq<Capture>): seq<Packet> {
    if cs == [] then [] else cs[0].Packets() + AllPackets(cs[1..])
  }

  predicate CapturesOk(client: Endpoint, server: Endpoint, cs: seq<Capture>) {
    forall i :: 0 <= i < |cs| ==> cs[i].Ok(client, server)
  }

  function RecordedAs(client: Endpoint, cs: seq<Capture>): seq<Action> {
    if cs == [] then []
    else ([Action(Connect, [])] + (cs[0].Data(client) + [Action(Close, [])])) + RecordedAs(client, cs[1..])
  }

  lemma {:induction false} CapturesRecorded(r: Recording, cs: seq<Capture>)
    requires r.state.Closed? && CapturesOk(r.client, r.server, cs)
    ensures Run(r, AllPackets(cs)) == r.(queue := r.queue + RecordedAs(r.client, cs))
    decreases |cs|
  {
    if cs == [] {
      assert r.queue + [] == r.queue;
    } else {
      RunAppend(r, cs[0].Packets(), AllPackets(cs[1..]));
      CaptureRecorded(r, cs[0]);
      hide Run;
      var one := [Action(Connect, [])] + (cs[0].Data(r.client) + [Action(Close, [])]);
      CapturesRecorded(r.(queue := r.queue + one), cs[1..]);
      assert r.queue + one + RecordedAs(r.client, cs[1..]) == r.queue + RecordedAs(r.client, cs);
    }
  }
}
