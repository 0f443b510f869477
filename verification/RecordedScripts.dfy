/** The scripts of recorded conversations. */
module RecordedScripts {
  import opened Bytes
  import opened Actions
  import opened Packets
  import opened TcpRecording
  import Script

  /** Only the actions that open and close a connection have no data. */
  predicate DataOk(queue: seq<Action>) {
    forall i :: 0 <= i < |queue| ==> (queue[i].data == [] <==> !IsTransfer(queue[i]))
  }

  /** So it is in every recorded queue. */
  lemma {:induction false} RecordedDataOk(first: Packet, ps: seq<Packet>)
    ensures DataOk(Run(Fresh(first), ps).queue)
    decreases |ps|
  {
    if ps != [] {
      var before := ps[..|ps| - 1];
      assert ps == before + [ps[|ps| - 1]];
      RecordedDataOk(first, before);
      RunSnoc(Fresh(first), before, ps[|ps| - 1]);
    }
  }

  lemma {:induction false} FirstIsConnect(queue: seq<Action>)
    requires Connected(queue).Some? && queue != []
    ensures queue[0].kind.Connect?
    decreases |queue|
  {
    if |queue| > 1 {
      FirstIsConnect(queue[..|queue| - 1]);
    }
  }

  /** No recorded conversation can be read back from its script: the first action is a CONNECT, which has
      no data, and reading it leaves the buffer of the tag scan. */
  lemma RecordedScriptNeverReadsBack(first: Packet, ps: seq<Packet>)
    requires Run(Fresh(first), ps).queue != []
    ensures Script.ReadActions(Script.Stream(Script.WriteActions(Run(Fresh(first), ps).queue), false))
         == Script.ParseOutsideBuffer
  {
    hide Run, Connected, Script.ReadAction, Script.WriteAction;
    var queue := Run(Fresh(first), ps).queue;
    RecordedQueueOk(first, ps);
    RecordedDataOk(first, ps);
    FirstIsConnect(queue);
    assert queue[0] == Action(Connect, []);
    var rest := Script.WriteActions(queue[1..]);
    var text := Script.WriteAction(queue[0]) + rest;
    assert Script.WriteActions(queue) == [LF] + Script.SEPARATOR + [LF] + [LF] + text;
    Script.SeparatorSkipped(text);
    Script.SameTextSameAction(Script.Stream(Script.WriteActions(queue), false), Script.Stream(text, false));
    Script.EmptyNeverSurvives(Connect, rest);
  }
}
