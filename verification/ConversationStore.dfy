/** `TypedConversationStore` and `Capture::packetHandler`: which conversation a packet belongs to. */
module ConversationStore {
  import opened Bytes
  import opened Packets
  import opened ConversationKey
  import opened TcpRecording

  /** Where to send the requests instead of the captured server. */
  datatype TestServer = TestServer(addr: bytes, port: int)

  /** A conversation, and the test server that it was created with, if any. */
  datatype Entry = Entry(recording: Recording, target: Option<TestServer>)

  type Servers = map<bytes, Option<TestServer>>

  datatype Store = Store(servers: Servers, entries: map<bytes, Entry>)

  /** `tcpIpGetTargetTestServerKeys`. */
  function ServerKeys(p: Packet): seq<bytes> {
    [p.srcName + KEY_SEPARATOR + Print(p.src.port, 10), p.srcName]
  }

  /** The first key of the packet's source that is configured. */
  function Configured(servers: Servers, p: Packet): (r: Option<bytes>)
    ensures r.Some? ==> r.value in servers
  {
    var keys := ServerKeys(p);
    if keys[0] in servers then Some(keys[0]) else if keys[1] in servers then Some(keys[1]) else None
  }

  /** Whether the packet may start a conversation, and with which test server. */
  function Admission(s: Store, p: Packet): Option<Option<TestServer>> {
    match Configured(s.servers, p)
    case Some(key) => Some(s.servers[key])
    case None => if s.servers == map[] && s.entries == map[] then Some(None) else None
  }

  /** `getConversation`: the conversation of the packet is there, if it may have one. */
  function WithConversation(s: Store, p: Packet): Store
    requires WellFormed(p)
  {
    var key := KeyOf(p);
    if key in s.entries then s
    else match Admission(s, p)
      case None => s
      case Some(target) => s.(entries := s.entries[key := Entry(Fresh(p), target)])
  }

  /** `getConversation`, and then `processCapturePacket` on what it gives. */
  function StepStore(s: Store, p: Packet): Store
    requires WellFormed(p)
  {
    var key := KeyOf(p);
    var s' := WithConversation(s, p);
    if key in s'.entries then
      s'.(entries := s'.entries[key := s'.entries[key].(recording := Step(s'.entries[key].recording, p))])
    else s'
  }

  predicate AllWellFormed(ps: seq<Packet>) {
    forall i :: 0 <= i < |ps| ==> WellFormed(ps[i])
  }

  function RunStore(s: Store, ps: seq<Packet>): Store
    requires AllWellFormed(ps)
    decreases |ps|
  {
    if ps == [] then s else RunStore(StepStore(s, ps[0]), ps[1..])
  }

  // ---------------------------------------------------------------- the class

  class TypedConversationStore {
    var testServers: Servers
    var conversations: map<bytes, TcpConversation>
    var targets: map<bytes, Option<TestServer>>   // the constructor argument of each conversation

    ghost predicate Valid()
      reads this
    {
      && targets.Keys == conversations.Keys
      && forall j, k :: j in conversations && k in conversations && j != k ==> conversations[j] != conversations[k]
    }

    function View(): Store
      requires Valid()
      reads this, conversations.Values
    {
      Store(testServers, map k | k in conversations :: Entry(conversations[k].View(), targets[k]))
    }

    constructor ()
      ensures Valid() && View() == Store(map[], map[])
    {
      testServers, conversations, targets := map[], map[], map[];
    }

    /** `addTargetTestServer`, for a specification that has been parsed. */
    method AddTargetTestServer(key: bytes, server: Option<TestServer>)
      requires Valid()
      modifies this`testServers
      ensures Valid() && View() == old(View()).(servers := old(testServers)[key := server])
    {
      testServers := testServers[key := server];
    }

    /** `getConversation`. */
    method GetConversation(p: Packet) returns (c: TcpConversation?)
      requires Valid() && WellFormed(p)
      modifies this`conversations, this`targets
      ensures Valid() && View() == WithConversation(old(View()), p)
      ensures c == if KeyOf(p) in conversations then conversations[KeyOf(p)] else null
      ensures forall k :: k in conversations && k !in old(conversations) ==> fresh(conversations[k])
      ensures forall k :: k in old(conversations) ==> k in conversations && conversations[k] == old(conversations[k])
    {
      hide KeyOf, Configured;
      var key := KeyOf(p);
      if key in conversations {
        return conversations[key];
      }
      var found := FindServer(p);
      c := null;
      assert View().entries.Keys == conversations.Keys;
      if found.Some? || (testServers == map[] && conversations == map[]) {
        c := CreateConversation(key, p, if found.Some? then testServers[found.value] else None);
      }
    }

    method CreateConversation(key: bytes, p: Packet, server: Option<TestServer>) returns (c: TcpConversation)
      requires Valid() && key !in conversations
      modifies this`conversations, this`targets
      ensures Valid() && fresh(c) && conversations == old(conversations)[key := c]
      ensures View() == old(View()).(entries := old(View()).entries[key := Entry(Fresh(p), server)])
    {
      hide Fresh;
      c := new TcpConversation(p);
      File(key, c, server);
    }

    method File(key: bytes, c: TcpConversation, server: Option<TestServer>)
      requires Valid() && key !in conversations && c !in conversations.Values
      modifies this`conversations, this`targets
      ensures Valid() && conversations == old(conversations)[key := c]
      ensures View() == old(View()).(entries := old(View()).entries[key := Entry(c.View(), server)])
    {
      conversations, targets := conversations[key := c], targets[key := server];
    }

    /** The loop over the keys under which a test server may be configured. */
    method FindServer(p: Packet) returns (found: Option<bytes>)
      ensures found == Configured(testServers, p) && (found.Some? ==> found.value in testServers)
    {
      var keys := ServerKeys(p);
      var i := 0;
      while i < |keys|
        invariant 0 <= i <= 2
        invariant forall k :: 0 <= k < i ==> keys[k] !in testServers
      {
        if keys[i] in testServers {
          return Some(keys[i]);
        }
        i := i + 1;
      }
      return None;
    }

    /** `processCapturePacket` on one of the conversations. */
    method ProcessOn(key: bytes, p: Packet)
      requires Valid() && key in conversations
      modifies conversations[key]
      ensures Valid()
      ensures View() == var s := old(View());
                        s.(entries := s.entries[key := s.entries[key].(recording := Step(s.entries[key].recording, p))])
    {
      hide Step;
      ghost var before := View();
      conversations[key].ProcessCapturePacket(p);
      assert forall k :: k in conversations && k != key ==> conversations[k].View() == before.entries[k].recording;
    }

    /** The end of `packetHandler`. */
    method HandlePacket(p: Packet)
      requires Valid() && WellFormed(p)
      modifies this`conversations, this`targets, conversations.Values
      ensures Valid() && View() == StepStore(old(View()), p)
    {
      hide Step, KeyOf, Admission;
      var c := GetConversation(p);
      if c != null {
        assert KeyOf(p) in old(conversations) ==> c in old(conversations).Values;
        ProcessOn(KeyOf(p), p);
      }
    }
  }

  // ---------------------------------------------------------------- isolation

  /** The packets with a key. */
  function OfKey(ps: seq<Packet>, key: bytes): seq<Packet>
    requires AllWellFormed(ps)
    decreases |ps|
  {
    if ps == [] then []
    else (if KeyOf(ps[0]) == key then [ps[0]] else []) + OfKey(ps[1..], key)
  }

  /** A server is configured for the packet's source: for address and port, as in `10.0.0.1:80`, or for the
      address alone. */
  predicate SourceConfigured(servers: Servers, p: Packet) {
    p.srcName + ":" + Print(p.src.port, 10) in servers || p.srcName in servers
  }

  /** The server for address and port, if there is one, and otherwise the one for the address. */
  function ServerFor(servers: Servers, p: Packet): Option<TestServer>
    requires SourceConfigured(servers, p)
  {
    if p.srcName + ":" + Print(p.src.port, 10) in servers then servers[p.srcName + ":" + Print(p.src.port, 10)]
    else servers[p.srcName]
  }

  lemma ConfiguredExactly(servers: Servers, p: Packet)
    ensures Configured(servers, p).Some? <==> SourceConfigured(servers, p)
    ensures SourceConfigured(servers, p) ==> servers[Configured(servers, p).value] == ServerFor(servers, p)
  {
  }

  /** What becomes of a key when there are no other conversations: a conversation created for the first
      packet with that key whose source is configured, and run on the packets with that key from then
      on. */
  function Alone(servers: Servers, key: bytes, ps: seq<Packet>): Option<Entry>
    requires AllWellFormed(ps)
    decreases |ps|
  {
    if ps == [] then None
    else if KeyOf(ps[0]) == key && SourceConfigured(servers, ps[0]) then
      Some(Entry(Run(Fresh(ps[0]), OfKey(ps, key)), ServerFor(servers, ps[0])))
    else Alone(servers, key, ps[1..])
  }

  function Lookup(entries: map<bytes, Entry>, key: bytes): Option<Entry> {
    if key in entries then Some(entries[key]) else None
  }

  lemma RunOne(r: Recording, p: Packet, rest: seq<Packet>)
    ensures Run(r, [p] + rest) == Run(Step(r, p), rest)
  {
    assert ([p] + rest)[1..] == rest;
  }

  /** Once some server is configured or some conversation exists, no conversation affects another. */
  lemma {:induction false} KeysAreIsolated(s: Store, ps: seq<Packet>, key: bytes)
    requires AllWellFormed(ps) && (s.servers != map[] || s.entries != map[])
    ensures RunStore(s, ps).servers == s.servers
    ensures Lookup(RunStore(s, ps).entries, key) ==
            if key in s.entries then
              Some(s.entries[key].(recording := Run(s.entries[key].recording, OfKey(ps, key))))
            else Alone(s.servers, key, ps)
    decreases |ps|
  {
    hide KeyOf, Step, Configured, SourceConfigured, ServerFor;
    if ps != [] {
      var p, rest := ps[0], ps[1..];
      ConfiguredExactly(s.servers, p);
      var s' := StepStore(s, p);
      KeysAreIsolated(s', rest, key);
      if KeyOf(p) == key {
        if key in s.entries {
          RunOne(s.entries[key].recording, p, OfKey(rest, key));
        } else {
          RunOne(Fresh(p), p, OfKey(rest, key));
        }
      } else {
        assert [] + OfKey(rest, key) == OfKey(rest, key);
      }
    }
  }

  /** With configured servers, the conversations after any packets are exactly those of every key
      alone. */
  lemma ConfiguredConversations(servers: Servers, ps: seq<Packet>, key: bytes)
    requires AllWellFormed(ps) && servers != map[]
    ensures Lookup(RunStore(Store(servers, map[]), ps).entries, key) == Alone(servers, key, ps)
  {
    KeysAreIsolated(Store(servers, map[]), ps, key);
  }

  /** Without configured servers there is one conversation, that of the very first packet, whatever
      packet that is. */
  lemma OnlyConversation(ps: seq<Packet>, key: bytes)
    requires AllWellFormed(ps) && ps != []
    ensures Lookup(RunStore(Store(map[], map[]), ps).entries, key) ==
            if key == KeyOf(ps[0]) then Some(Entry(Run(Fresh(ps[0]), OfKey(ps, key)), None)) else None
  {
    hide KeyOf, Step;
    var s := StepStore(Store(map[], map[]), ps[0]);
    KeysAreIsolated(s, ps[1..], key);
    NoServersNoneAlone(ps[1..], key);
    RunOne(Fresh(ps[0]), ps[0], OfKey(ps[1..], key));
  }

  lemma {:induction false} NoServersNoneAlone(ps: seq<Packet>, key: bytes)
    requires AllWellFormed(ps)
    ensures Alone(map[], key, ps) == None
    decreases |ps|
  {
    if ps != [] {
      NoServersNoneAlone(ps[1..], key);
    }
  }

  /** Which server a conversation goes to is decided by its first packet from a configured source: the
      server configured for the address and port of that source, if there is one, and otherwise the one
      for its address. */
  lemma PortHasPrecedence(servers: Servers, ps: seq<Packet>, key: bytes) returns (i: nat)
    requires AllWellFormed(ps) && servers != map[]
    requires key in RunStore(Store(servers, map[]), ps).entries
    ensures i < |ps| && KeyOf(ps[i]) == key
    ensures var withPort, address := ps[i].srcName + ":" + Print(ps[i].src.port, 10), ps[i].srcName;
            var target := RunStore(Store(servers, map[]), ps).entries[key].target;
            if withPort in servers then target == servers[withPort]
            else address in servers && target == servers[address]
    ensures forall j :: 0 <= j < i && KeyOf(ps[j]) == key ==>
              ps[j].srcName + ":" + Print(ps[j].src.port, 10) !in servers && ps[j].srcName !in servers
  {
    hide RunStore, KeyOf, Print;
    ConfiguredConversations(servers, ps, key);
    i := FirstConfigured(servers, key, ps);
  }

  lemma {:induction false} FirstConfigured(servers: Servers, key: bytes, ps: seq<Packet>) returns (i: nat)
    requires AllWellFormed(ps) && Alone(servers, key, ps).Some?
    ensures i < |ps| && KeyOf(ps[i]) == key && SourceConfigured(servers, ps[i])
    ensures Alone(servers, key, ps).value.target == ServerFor(servers, ps[i])
    ensures forall j :: 0 <= j < i && KeyOf(ps[j]) == key ==> !SourceConfigured(servers, ps[j])
    decreases |ps|
  {
    hide KeyOf, SourceConfigured, ServerFor;
    if KeyOf(ps[0]) == key && SourceConfigured(servers, ps[0]) {
      i := 0;
    } else {
      i := FirstConfigured(servers, key, ps[1..]);
      assert forall j :: 0 < j <= |ps[1..]| ==> ps[j] == ps[1..][j - 1];
      i := i + 1;
    }
  }
}
