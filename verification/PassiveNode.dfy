/** The passive side of the control protocol: the handlers of src/control.cc and the parts of
    src/flowmanager.cc they work on. */
module PassiveNodes {
  import opened MessageFraming
  import opened FileTransfer

  /** A flow on the passive side: whether a socket has been mapped to it, whether it has a
      vector file, and whether it belongs to a running measurement. */
  datatype PassiveFlow = PassiveFlow(key: FlowKey, identified: bool, vectorFile: bool, running: bool)

  /** The output files of a measurement. */
  datatype Measurement = Measurement(vectorFile: bool, scalarFile: bool)

  datatype Command =
    | AddFlow(key: FlowKey)
    | RemoveFlow(key: FlowKey)
    | Start(measurementID: nat, noVectors: bool, noScalars: bool)
    | Stop(measurementID: nat)

  datatype Passive = Passive(flows: seq<PassiveFlow>, measurements: map<nat, Measurement>)

  /** What has been collected in the files of a measurement and of a flow. */
  datatype Contents = Contents(vector: seq<byte>, scalar: seq<byte>, flow: seq<byte>)

  /** The acknowledgements of START and STOP carry flow and stream zero. */
  function MeasurementKey(measurementID: nat): FlowKey {
    FlowKey(measurementID, 0, 0)
  }

  function Find(flows: seq<PassiveFlow>, key: FlowKey): (i: nat)
    ensures i <= |flows| && (i < |flows| ==> flows[i].key == key)
    ensures forall k | 0 <= k < i :: flows[k].key != key
  {
    if flows == [] || flows[0].key == key then 0 else 1 + Find(flows[1..], key)
  }

  /** The position of the first flow with a key. */
  predicate IsFirst(flows: seq<PassiveFlow>, key: FlowKey, i: int) {
    0 <= i < |flows| && flows[i].key == key && forall k | 0 <= k < i :: flows[k].key != key
  }

  lemma OneFirst(flows: seq<PassiveFlow>, key: FlowKey)
    ensures forall i | IsFirst(flows, key, i) :: i == Find(flows, key)
  {
  }

  /** Just the flows of one measurement have been marked, and nothing else has changed. */
  predicate Marked(before: seq<PassiveFlow>, after: seq<PassiveFlow>, measurementID: nat, running: bool) {
    && |after| == |before|
    && forall i | 0 <= i < |before| ::
         && after[i].key == before[i].key && after[i].identified == before[i].identified && after[i].vectorFile == before[i].vectorFile
         && after[i].running == if before[i].key.measurementID == measurementID then running else before[i].running
  }

  function SetRunning(flows: seq<PassiveFlow>, measurementID: nat, running: bool): (r: seq<PassiveFlow>)
    ensures Marked(flows, r, measurementID, running)
  {
    seq(|flows|, i requires 0 <= i < |flows| =>
      if flows[i].key.measurementID == measurementID then flows[i].(running := running) else flows[i])
  }

  /** The new state, the replies sent, and the files they carry. */
  datatype Outcome = Outcome(state: Passive, replies: seq<Reply>, files: seq<seq<byte>>)

  function Upload(content: seq<byte>, wanted: bool): seq<Reply> {
    if wanted then Chunks(content) else []
  }

  function Files(content: seq<byte>, wanted: bool): seq<seq<byte>> {
    if wanted then [content] else []
  }

  function Handle(p: Passive, command: Command, c: Contents): Outcome {
    match command
    case AddFlow(key) =>
      if Find(p.flows, key) < |p.flows| then Outcome(p, [Acknowledge(key, false)], [])
      else Outcome(p.(flows := p.flows + [PassiveFlow(key, false, false, false)]), [Acknowledge(key, true)], [])
    case RemoveFlow(key) =>
      var i := Find(p.flows, key);
      if i == |p.flows| then Outcome(p, [Acknowledge(key, false)], [])
      else
        var wanted := p.flows[i].vectorFile;
        Outcome(p.(flows := p.flows[..i] + p.flows[i + 1..]),
                (if wanted then [Acknowledge(key, true)] else []) + Upload(c.flow, wanted), Files(c.flow, wanted))
    case Start(id, noVectors, noScalars) =>
      if id in p.measurements then Outcome(p, [Acknowledge(MeasurementKey(id), false)], [])
      else Outcome(Passive(SetRunning(p.flows, id, true), p.measurements[id := Measurement(!noVectors, !noScalars)]),
                   [Acknowledge(MeasurementKey(id), true)], [])
    case Stop(id) =>
      if id !in p.measurements then Outcome(p, [Acknowledge(MeasurementKey(id), false)], [])
      else
        var m := p.measurements[id];
        Outcome(Passive(SetRunning(p.flows, id, false), p.measurements - {id}),
                [Acknowledge(MeasurementKey(id), true)] + Upload(c.vector, m.vectorFile) + Upload(c.scalar, m.scalarFile),
                Files(c.vector, m.vectorFile) + Files(c.scalar, m.scalarFile))
  }

  /** An IDENTIFY message: only the first one for a known flow is acknowledged. */
  function HandleIdentify(p: Passive, key: FlowKey, noVectors: bool): Outcome {
    var i := Find(p.flows, key);
    if i == |p.flows| || p.flows[i].identified then Outcome(p, [], [])
    else Outcome(p.(flows := p.flows[i := p.flows[i].(identified := true, vectorFile := !noVectors)]),
                 [Acknowledge(key, true)], [])
  }

  class PassiveNode {
    var FlowSet: seq<PassiveFlow>
    var MeasurementSet: map<nat, Measurement>
    const Control: Channel

    constructor ()
      ensures State() == Passive([], map[]) && Control.Queue == [] && fresh(Control)
    {
      FlowSet, MeasurementSet := [], map[];
      Control := new Channel([]);
    }

    ghost function State(): Passive
      reads this
    {
      Passive(FlowSet, MeasurementSet)
    }

    /** The first flow with this key. */
    method FindFlow(key: FlowKey) returns (found: bool, at: nat)
      ensures at == Find(FlowSet, key) && (found <==> at < |FlowSet|)
    {
      at := 0;
      assert FlowSet[0..] == FlowSet;
      while at < |FlowSet|
        invariant at <= |FlowSet| && Find(FlowSet, key) == at + Find(FlowSet[at..], key)
      {
        if FlowSet[at].key == key {
          return true, at;
        }
        assert FlowSet[at..][1..] == FlowSet[at + 1..];
        at := at + 1;
      }
      found := false;
    }

    method SendAcknowledge(key: FlowKey, okay: bool)
      modifies Control
      ensures Control.Queue == old(Control.Queue) + [Acknowledge(key, okay)]
    {
      Control.Queue := Control.Queue + [Acknowledge(key, okay)];
    }

    /** Uploads a file that exists. */
    method UploadFile(content: seq<byte>, present: bool)
      modifies Control
      ensures Control.Queue == old(Control.Queue) + Upload(content, present)
    {
      if present {
        var file := new InputStream(content);
        assert content[0..] == content;
        UploadOutputFile(Control, file);
      }
    }

    method HandleAddFlow(key: FlowKey, ghost c: Contents)
      modifies this, Control
      ensures var o := Handle(old(State()), AddFlow(key), c);
        State() == o.state && Control.Queue == old(Control.Queue) + o.replies
      ensures var known := exists f :: f in old(FlowSet) && f.key == key;
        && FlowSet == (if known then old(FlowSet) else old(FlowSet) + [PassiveFlow(key, false, false, false)])
        && MeasurementSet == old(MeasurementSet) && Control.Queue == old(Control.Queue) + [Acknowledge(key, !known)]
    {
      var found, at := FindFlow(key);
      if found {
        assert FlowSet[at] in FlowSet;
        SendAcknowledge(key, false);
      } else {
        FlowSet := FlowSet + [PassiveFlow(key, false, false, false)];
        SendAcknowledge(key, true);
      }
    }

    method HandleRemoveFlow(key: FlowKey, c: Contents)
      modifies this, Control
      ensures var o := Handle(old(State()), RemoveFlow(key), c);
        State() == o.state && Control.Queue == old(Control.Queue) + o.replies
      ensures MeasurementSet == old(MeasurementSet)
      ensures (forall f | f in old(FlowSet) :: f.key != key) ==>
        FlowSet == old(FlowSet) && Control.Queue == old(Control.Queue) + [Acknowledge(key, false)]
      ensures forall i | IsFirst(old(FlowSet), key, i) ::
        && FlowSet == old(FlowSet)[..i] + old(FlowSet)[i + 1..]
        && Control.Queue == old(Control.Queue) + if old(FlowSet)[i].vectorFile then [Acknowledge(key, true)] + Chunks(c.flow) else []
    {
      var found, at := FindFlow(key);
      if !found {
        SendAcknowledge(key, false);
      } else {
        OneFirst(FlowSet, key);
        assert Control.Queue + [] == Control.Queue;
        var flow := FlowSet[at];
        FlowSet := FlowSet[..at] + FlowSet[at + 1..];
        if flow.vectorFile {
          ghost var queue := Control.Queue;
          SendAcknowledge(key, true);
          UploadFile(c.flow, true);
          Associate(queue, [Acknowledge(key, true)], Chunks(c.flow));
        }
      }
    }

    /** Marks the flows of a measurement as running, or as stopped. */
    method MarkFlows(measurementID: nat, running: bool)
      modifies this`FlowSet
      ensures FlowSet == SetRunning(old(FlowSet), measurementID, running) && Marked(old(FlowSet), FlowSet, measurementID, running)
    {
      ghost var was := FlowSet;
      var i := 0;
      while i < |FlowSet|
        invariant 0 <= i <= |FlowSet| == |was|
        invariant FlowSet[..i] == SetRunning(was, measurementID, running)[..i] && FlowSet[i..] == was[i..]
      {
        if FlowSet[i].key.measurementID == measurementID {
          FlowSet := FlowSet[i := FlowSet[i].(running := running)];
        }
        i := i + 1;
      }
    }

    method HandleStart(measurementID: nat, noVectors: bool, noScalars: bool, ghost c: Contents)
      modifies this, Control
      ensures var o := Handle(old(State()), Start(measurementID, noVectors, noScalars), c);
        State() == o.state && Control.Queue == old(Control.Queue) + o.replies
      ensures if measurementID in old(MeasurementSet) then FlowSet == old(FlowSet) && MeasurementSet == old(MeasurementSet)
        else Marked(old(FlowSet), FlowSet, measurementID, true)
             && MeasurementSet == old(MeasurementSet)[measurementID := Measurement(!noVectors, !noScalars)]
      ensures Control.Queue == old(Control.Queue) + [Acknowledge(FlowKey(measurementID, 0, 0), measurementID !in old(MeasurementSet))]
    {
      var success := measurementID !in MeasurementSet;
      if success {
        MeasurementSet := MeasurementSet[measurementID := Measurement(!noVectors, !noScalars)];
        MarkFlows(measurementID, true);
      }
      SendAcknowledge(MeasurementKey(measurementID), success);
    }

    method HandleStop(measurementID: nat, c: Contents)
      modifies this, Control
      ensures var o := Handle(old(State()), Stop(measurementID), c);
        State() == o.state && Control.Queue == old(Control.Queue) + o.replies
      ensures measurementID !in old(MeasurementSet) ==>
        && FlowSet == old(FlowSet) && MeasurementSet == old(MeasurementSet)
        && Control.Queue == old(Control.Queue) + [Acknowledge(FlowKey(measurementID, 0, 0), false)]
      ensures measurementID in old(MeasurementSet) ==>
        && Marked(old(FlowSet), FlowSet, measurementID, false) && measurementID !in MeasurementSet
        && (forall id | id != measurementID :: (id in MeasurementSet <==> id in old(MeasurementSet))
             && (id in MeasurementSet ==> MeasurementSet[id] == old(MeasurementSet)[id]))
        && var m := old(MeasurementSet)[measurementID];
           Control.Queue == old(Control.Queue) + ([Acknowledge(FlowKey(measurementID, 0, 0), true)]
             + (if m.vectorFile then Chunks(c.vector) else []) + (if m.scalarFile then Chunks(c.scalar) else []))
    {
      var success := measurementID in MeasurementSet;
      var measurement := Measurement(false, false);
      ghost var queue := Control.Queue;
      if success {
        measurement := MeasurementSet[measurementID];
        MeasurementSet := MeasurementSet - {measurementID};
        MarkFlows(measurementID, false);
      }
      SendAcknowledge(MeasurementKey(measurementID), success);
      if success {
        UploadFile(c.vector, measurement.vectorFile);
        UploadFile(c.scalar, measurement.scalarFile);
        ghost var ack := [Acknowledge(MeasurementKey(measurementID), true)];
        Associate(queue, ack, Upload(c.vector, measurement.vectorFile));
        Associate(queue, ack + Upload(c.vector, measurement.vectorFile), Upload(c.scalar, measurement.scalarFile));
      }
    }

    /** An IDENTIFY message has arrived on a data socket. */
    method HandleIdentifyFlow(key: FlowKey, noVectors: bool) returns (known: bool)
      modifies this, Control
      ensures var o := HandleIdentify(old(State()), key, noVectors);
        State() == o.state && Control.Queue == old(Control.Queue) + o.replies
      ensures known <==> exists f :: f in old(FlowSet) && f.key == key
      ensures !known ==> FlowSet == old(FlowSet) && Control.Queue == old(Control.Queue)
      ensures MeasurementSet == old(MeasurementSet)
      ensures forall i | IsFirst(old(FlowSet), key, i) ::
        var f := old(FlowSet)[i];
        && FlowSet == old(FlowSet)[i := if f.identified then f else PassiveFlow(key, true, !noVectors, f.running)]
        && Control.Queue == old(Control.Queue) + if f.identified then [] else [Acknowledge(key, true)]
    {
      var at;
      known, at := FindFlow(key);
      if known {
        OneFirst(FlowSet, key);
        assert FlowSet[at] in FlowSet && FlowSet[at := FlowSet[at]] == FlowSet && Control.Queue + [] == Control.Queue;
        var isAlreadyInitialised := FlowSet[at].identified;
        if !isAlreadyInitialised {
          FlowSet := FlowSet[at := FlowSet[at].(identified := true, vectorFile := !noVectors)];
          SendAcknowledge(key, true);
        }
      }
    }
  }
}
