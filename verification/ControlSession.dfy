/** A whole control session: the active side's procedures of src/control.cc against the
    handlers of the passive side, over two FIFO control channels and the data connections. */
module ControlSessions {
  import opened MessageFraming
  import opened FileTransfer
  import opened PassiveNodes

  const UNRELIABLE_IDENTIFY_MAX_TRIALS: nat := 5
  const RELIABLE_IDENTIFY_MAX_TRIALS: nat := 1

  datatype FlowSpec = FlowSpec(key: FlowKey, reliable: bool)

  /** What the active side has been told to do. */
  datatype Config = Config(measurementID: nat, flows: seq<FlowSpec>, vectors: bool, scalars: bool)

  ghost predicate ValidConfig(cfg: Config) {
    && (forall i | 0 <= i < |cfg.flows| :: cfg.flows[i].key.measurementID == cfg.measurementID)
    && (forall i, j | 0 <= i < j < |cfg.flows| :: cfg.flows[i].key != cfg.flows[j].key)
  }

  function MaxTrials(cfg: Config, i: nat): nat
    requires i < |cfg.flows|
  {
    if cfg.flows[i].reliable then RELIABLE_IDENTIFY_MAX_TRIALS else UNRELIABLE_IDENTIFY_MAX_TRIALS
  }

  /** Where the active side is. `GaveUp` is the end of the identify trials; `Broken` is every
      failure on an unexpected message. */
  datatype PC =
    | SendAdd(i: nat)
    | AwaitAdd(i: nat)
    | SendIdentify(i: nat, trial: nat)
    | AwaitIdentify(i: nat, trial: nat)
    | SendStart
    | AwaitStart
    | SendStop
    | AwaitStop
    | DownloadVector(sofar: seq<byte>)
    | DownloadScalar(sofar: seq<byte>)
    | SendRemove(i: nat)
    | AwaitRemove(i: nat)
    | DownloadFlow(i: nat, sofar: seq<byte>)
    | Done
    | GaveUp(i: nat)
    | Broken

  /** The state of both sides and of what is between them.  `identifies` are the IDENTIFY
      messages ever sent: the network may deliver each of them at any time, any number of
      times, or never. `downloaded` and `uploaded` record files, `identified` the flows whose
      IDENTIFY was acknowledged. */
  datatype State = State(
    pc: PC, commands: seq<Command>, replies: seq<Reply>, identifies: set<nat>,
    passive: Passive, downloaded: seq<seq<byte>>, uploaded: seq<seq<byte>>, identified: seq<nat>)

  // ----- The active side ---------------------------------------------------------------------------

  function FirstFlow(cfg: Config, i: nat): PC {
    if i < |cfg.flows| then SendAdd(i) else SendStart
  }

  function NextRemove(cfg: Config, i: nat): PC {
    if i < |cfg.flows| then SendRemove(i) else Done
  }

  function AfterVector(cfg: Config): PC {
    if cfg.scalars then DownloadScalar([]) else NextRemove(cfg, 0)
  }

  function AfterStop(cfg: Config): PC {
    if cfg.vectors then DownloadVector([]) else AfterVector(cfg)
  }

  function NextTrial(cfg: Config, i: nat, trial: nat): PC
    requires i < |cfg.flows|
  {
    if trial < MaxTrials(cfg, i) then SendIdentify(i, trial + 1) else GaveUp(i)
  }

  /** `awaitNetPerfMeterAcknowledge` on a message that is there. */
  predicate Accepts(reply: Reply, key: FlowKey) {
    reply.Acknowledge? && reply.key == key && reply.okay
  }

  /** One message of a download: go on, finish, or fail. */
  function AfterChunk(s: State, more: PC, done: PC, sofar: seq<byte>): State
    requires s.replies != []
  {
    var reply, s' := s.replies[0], s.(replies := s.replies[1..]);
    if !reply.Results? then s'.(pc := Broken)
    else if reply.eof then s'.(pc := done, downloaded := s.downloaded + [sofar + reply.data])
    else s'.(pc := more)
  }

  predicate InRange(cfg: Config, pc: PC) {
    match pc
    case SendAdd(i) => i < |cfg.flows|
    case AwaitAdd(i) => i < |cfg.flows|
    case SendIdentify(i, _) => i < |cfg.flows|
    case AwaitIdentify(i, _) => i < |cfg.flows|
    case SendRemove(i) => i < |cfg.flows|
    case AwaitRemove(i) => i < |cfg.flows|
    case DownloadFlow(i, _) => i < |cfg.flows|
    case GaveUp(i) => i < |cfg.flows|
    case _ => true
  }

  /** The active side has something to do. */
  predicate ActiveReady(s: State) {
    match s.pc
    case SendAdd(_) => true
    case SendIdentify(_, _) => true
    case SendStart => true
    case SendStop => true
    case SendRemove(_) => true
    case Done => false
    case GaveUp(_) => false
    case Broken => false
    case _ => s.replies != []
  }

  /** Await an acknowledgement and go on to one of two places. */
  function Awaited(s: State, key: FlowKey, okay: PC, failed: PC): State
    requires s.replies != []
  {
    s.(replies := s.replies[1..], pc := if Accepts(s.replies[0], key) then okay else failed)
  }

  function ReplyHead(s: State): Reply
    requires s.replies != []
  {
    s.replies[0]
  }

  function ActiveStep(cfg: Config, s: State): State
    requires ActiveReady(s) && InRange(cfg, s.pc)
  {
    match s.pc
    case SendAdd(i) => s.(commands := s.commands + [AddFlow(cfg.flows[i].key)], pc := AwaitAdd(i))
    case AwaitAdd(i) => Awaited(s, cfg.flows[i].key, SendIdentify(i, 1), Broken)
    case SendIdentify(i, trial) => s.(identifies := s.identifies + {i}, pc := AwaitIdentify(i, trial))
    case AwaitIdentify(i, trial) => Awaited(s, cfg.flows[i].key, FirstFlow(cfg, i + 1), NextTrial(cfg, i, trial))
    case SendStart => s.(commands := s.commands + [Start(cfg.measurementID, !cfg.vectors, !cfg.scalars)], pc := AwaitStart)
    case AwaitStart => Awaited(s, MeasurementKey(cfg.measurementID), SendStop, Broken)
    case SendStop => s.(commands := s.commands + [Stop(cfg.measurementID)], pc := AwaitStop)
    case AwaitStop => Awaited(s, MeasurementKey(cfg.measurementID), AfterStop(cfg), Broken)
    case DownloadVector(sofar) =>
      AfterChunk(s, if ReplyHead(s).Results? then DownloadVector(sofar + ReplyHead(s).data) else Broken, AfterVector(cfg), sofar)
    case DownloadScalar(sofar) =>
      AfterChunk(s, if ReplyHead(s).Results? then DownloadScalar(sofar + ReplyHead(s).data) else Broken, NextRemove(cfg, 0), sofar)
    case SendRemove(i) =>
      s.(commands := s.commands + [RemoveFlow(cfg.flows[i].key)], pc := if cfg.vectors then AwaitRemove(i) else NextRemove(cfg, i + 1))
    case AwaitRemove(i) => Awaited(s, cfg.flows[i].key, DownloadFlow(i, []), Broken)
    case DownloadFlow(i, sofar) =>
      AfterChunk(s, if ReplyHead(s).Results? then DownloadFlow(i, sofar + ReplyHead(s).data) else Broken, NextRemove(cfg, i + 1), sofar)
    case _ => s
  }

  // ----- All steps -----------------------------------------------------------------------------------

  datatype Step =
    | Active
    | Timeout                       // an identify trial ends without an answer
    | Control(contents: Contents)   // the passive side handles a command
    | Identify(i: nat)              // an IDENTIFY message arrives

  predicate Enabled(cfg: Config, s: State, step: Step) {
    match step
    case Active => ActiveReady(s) && InRange(cfg, s.pc)
    case Timeout => s.pc.AwaitIdentify? && s.replies == [] && InRange(cfg, s.pc)
    case Control(_) => s.commands != []
    case Identify(i) => i in s.identifies && i < |cfg.flows|
  }

  function Apply(cfg: Config, s: State, step: Step): State
    requires Enabled(cfg, s, step)
  {
    match step
    case Active => ActiveStep(cfg, s)
    case Timeout => s.(pc := NextTrial(cfg, s.pc.i, s.pc.trial))
    case Control(contents) =>
      var o := Handle(s.passive, s.commands[0], contents);
      s.(commands := s.commands[1..], passive := o.state, replies := s.replies + o.replies, uploaded := s.uploaded + o.files)
    case Identify(i) =>
      var o := HandleIdentify(s.passive, cfg.flows[i].key, !cfg.vectors);
      s.(passive := o.state, replies := s.replies + o.replies,
         identified := if o.replies == [] then s.identified else s.identified + [i])
  }

  function Initial(cfg: Config): State {
    State(FirstFlow(cfg, 0), [], [], {}, Passive([], map[]), [], [], [])
  }

  // ----- The invariant ---------------------------------------------------------------------------------

  /** Flow `i` as the passive side knows it once it has been identified. */
  function KnownFlow(cfg: Config, i: nat, running: bool): PassiveFlow
    requires i < |cfg.flows|
  {
    PassiveFlow(cfg.flows[i].key, true, cfg.vectors, running)
  }

  function Known(cfg: Config, lo: nat, hi: nat, running: bool): (flows: seq<PassiveFlow>)
    requires lo <= hi <= |cfg.flows|
    ensures |flows| == hi - lo
  {
    seq(hi - lo, k requires 0 <= k < hi - lo => KnownFlow(cfg, lo + k, running))
  }

  function NewFlow(cfg: Config, i: nat): PassiveFlow
    requires i < |cfg.flows|
  {
    PassiveFlow(cfg.flows[i].key, false, false, false)
  }

  function Removals(cfg: Config, lo: nat, hi: nat): (commands: seq<Command>)
    requires lo <= hi <= |cfg.flows|
    ensures |commands| == hi - lo
  {
    seq(hi - lo, k requires 0 <= k < hi - lo => RemoveFlow(cfg.flows[lo + k].key))
  }

  function UpTo(n: nat): (s: seq<nat>)
    ensures |s| == n
  {
    seq(n, i => i)
  }

  /** The messages of files that have not been read yet; of the first one `sofar` has been. */
  ghost predicate Pending(replies: seq<Reply>, files: seq<seq<byte>>, sofar: seq<byte>) {
    if files == [] then replies == [] && sofar == []
    else sofar <= files[0] && replies == Chunks(files[0][|sofar|..]) + AllChunks(files[1..])
  }

  function AllChunks(files: seq<seq<byte>>): seq<Reply> {
    if files == [] then [] else Chunks(files[0]) + AllChunks(files[1..])
  }

  function Running(cfg: Config): map<nat, Measurement> {
    map[cfg.measurementID := Measurement(cfg.vectors, cfg.scalars)]
  }

  function Count(wanted: bool): nat {
    if wanted then 1 else 0
  }

  /** The passive side knows the first `i` flows and nothing is under way. */
  ghost predicate Quiet(cfg: Config, s: State, lo: nat, hi: nat, running: bool)
    requires lo <= hi <= |cfg.flows|
  {
    && s.commands == [] && s.passive.flows == Known(cfg, lo, hi, running)
    && s.passive.measurements == if running then Running(cfg) else map[]
  }

  /** Flow `i` is being identified: either it is still new, or its acknowledgement is there. */
  ghost predicate Identifying(cfg: Config, s: State, i: nat)
    requires i < |cfg.flows|
  {
    || (Quiet(cfg, s, 0, i + 1, false) && s.replies == [Acknowledge(cfg.flows[i].key, true)] && s.identified == UpTo(i + 1))
    || (s.commands == [] && s.passive == Passive(Known(cfg, 0, i, false) + [NewFlow(cfg, i)], map[])
        && s.replies == [] && s.identified == UpTo(i))
  }

  /** A command is on its way, or its acknowledgement and the files that follow are. */
  ghost predicate Asked(s: State, command: Command, key: FlowKey, files: seq<seq<byte>>, before: Passive, after: Passive) {
    || (s.commands == [command] && s.replies == [] && files == [] && s.passive == before)
    || (s.commands == [] && s.replies == [Acknowledge(key, true)] + AllChunks(files) && s.passive == after)
  }

  /** The removals still to be handled, when nothing has to be downloaded. */
  ghost predicate Removing(cfg: Config, s: State, i: nat)
    requires i <= |cfg.flows|
  {
    exists k: nat ::
      k <= i && s.commands == Removals(cfg, k, i) && s.passive == Passive(Known(cfg, k, |cfg.flows|, false), map[])
      && (cfg.vectors ==> k == i)
  }

  ghost predicate AtPC(cfg: Config, s: State, files: seq<seq<byte>>) {
    var n := |cfg.flows|;
    match s.pc
    case SendAdd(i) => i < n && files == [] && s.replies == [] && Quiet(cfg, s, 0, i, false) && s.identified == UpTo(i)
    case AwaitAdd(i) => i < n && files == [] && s.identified == UpTo(i)
      && Asked(s, AddFlow(cfg.flows[i].key), cfg.flows[i].key, files, Passive(Known(cfg, 0, i, false), map[]),
               Passive(Known(cfg, 0, i, false) + [NewFlow(cfg, i)], map[]))
    case SendIdentify(i, trial) => i < n && files == [] && 1 <= trial <= MaxTrials(cfg, i) && Identifying(cfg, s, i)
    case AwaitIdentify(i, trial) => i < n && files == [] && 1 <= trial <= MaxTrials(cfg, i) && Identifying(cfg, s, i) && i in s.identifies
    case SendStart => files == [] && s.replies == [] && Quiet(cfg, s, 0, n, false) && s.identified == UpTo(n)
    case AwaitStart => files == [] && s.identified == UpTo(n)
      && Asked(s, Start(cfg.measurementID, !cfg.vectors, !cfg.scalars), MeasurementKey(cfg.measurementID), files,
               Passive(Known(cfg, 0, n, false), map[]), Passive(Known(cfg, 0, n, true), Running(cfg)))
    case SendStop => files == [] && s.replies == [] && Quiet(cfg, s, 0, n, true) && s.identified == UpTo(n)
    case AwaitStop => s.identified == UpTo(n) && (s.commands == [] ==> |files| == Count(cfg.vectors) + Count(cfg.scalars))
      && Asked(s, Stop(cfg.measurementID), MeasurementKey(cfg.measurementID), files,
               Passive(Known(cfg, 0, n, true), Running(cfg)), Passive(Known(cfg, 0, n, false), map[]))
    case DownloadVector(sofar) => cfg.vectors && |files| == 1 + Count(cfg.scalars) && Pending(s.replies, files, sofar)
      && Quiet(cfg, s, 0, n, false) && s.identified == UpTo(n)
    case DownloadScalar(sofar) => cfg.scalars && |files| == 1 && Pending(s.replies, files, sofar)
      && Quiet(cfg, s, 0, n, false) && s.identified == UpTo(n)
    case SendRemove(i) => i < n && files == [] && s.replies == [] && Removing(cfg, s, i) && s.identified == UpTo(n)
    case AwaitRemove(i) => i < n && cfg.vectors && s.identified == UpTo(n) && (s.commands == [] ==> |files| == 1)
      && Asked(s, RemoveFlow(cfg.flows[i].key), cfg.flows[i].key, files,
               Passive(Known(cfg, i, n, false), map[]), Passive(Known(cfg, i + 1, n, false), map[]))
    case DownloadFlow(i, sofar) => i < n && cfg.vectors && |files| == 1 && Pending(s.replies, files, sofar)
      && Quiet(cfg, s, i + 1, n, false) && s.identified == UpTo(n)
    case Done => files == [] && s.replies == [] && Removing(cfg, s, n) && s.identified == UpTo(n)
    case GaveUp(i) => i < n && files == [] && Identifying(cfg, s, i)
    case Broken => false
  }

  /** The highest flow that may have been announced to the network. */
  function Announced(cfg: Config, pc: PC): nat {
    match pc
    case SendAdd(i) => i
    case AwaitAdd(i) => i
    case SendIdentify(i, trial) => if trial == 1 then i else i + 1
    case AwaitIdentify(i, _) => i + 1
    case GaveUp(i) => i + 1
    case _ => |cfg.flows|
  }

  /** The number of files downloaded when the active side gets there. */
  function FilesBefore(cfg: Config, pc: PC): nat {
    match pc
    case DownloadScalar(_) => Count(cfg.vectors)
    case SendRemove(i) => Count(cfg.vectors) + Count(cfg.scalars) + i * Count(cfg.vectors)
    case AwaitRemove(i) => Count(cfg.vectors) + Count(cfg.scalars) + i * Count(cfg.vectors)
    case DownloadFlow(i, _) => Count(cfg.vectors) + Count(cfg.scalars) + i * Count(cfg.vectors)
    case Done => Count(cfg.vectors) + Count(cfg.scalars) + |cfg.flows| * Count(cfg.vectors)
    case _ => 0
  }

  ghost predicate Inv(cfg: Config, s: State) {
    && |s.downloaded| == FilesBefore(cfg, s.pc)
    && (forall i | i in s.identifies :: i < Announced(cfg, s.pc) && i < |cfg.flows|)
    && s.downloaded <= s.uploaded && AtPC(cfg, s, s.uploaded[|s.downloaded|..])
  }

  // ----- What the steps do --------------------------------------------------------------------------------

  lemma KeyIsUnique(cfg: Config, i: nat)
    requires ValidConfig(cfg) && i < |cfg.flows|
    ensures forall j | 0 <= j < |cfg.flows| && cfg.flows[j].key == cfg.flows[i].key :: j == i
  {
  }

  lemma FindInKnown(cfg: Config, lo: nat, hi: nat, running: bool, i: nat, last: seq<PassiveFlow>)
    requires ValidConfig(cfg) && lo <= hi <= |cfg.flows| && i < |cfg.flows|
    requires |last| <= 1 && (last != [] ==> hi < |cfg.flows| && last[0].key == cfg.flows[hi].key)
    ensures Find(Known(cfg, lo, hi, running) + last, cfg.flows[i].key) == if lo <= i < hi + |last| then i - lo else hi - lo + |last|
  {
    var flows := Known(cfg, lo, hi, running) + last;
    var k := Find(flows, cfg.flows[i].key);
    forall j | 0 <= j < |flows| ensures flows[j].key == cfg.flows[lo + j].key {
      if j < hi - lo { assert flows[j] == KnownFlow(cfg, lo + j, running); } else { assert flows[j] == last[0]; }
    }
    KeyIsUnique(cfg, i);
    if lo <= i < hi + |last| { assert flows[i - lo].key == cfg.flows[i].key; }
  }

  lemma FirstPending(replies: seq<Reply>, files: seq<seq<byte>>, sofar: seq<byte>)
    requires Pending(replies, files, sofar) && files != []
    ensures replies != [] && replies[0].Results?
    ensures if replies[0].eof then sofar + replies[0].data == files[0] && Pending(replies[1..], files[1..], [])
            else Pending(replies[1..], files, sofar + replies[0].data)
  {
    var rest := files[0][|sofar|..];
    assert sofar + rest == files[0];
    assert replies[0] == Chunks(rest)[0];
    if |rest| < MAX_DATA_LENGTH {
      assert replies[1..] == AllChunks(files[1..]);
      if files[1..] != [] { assert files[1..][0][0..] == files[1..][0]; }
    } else {
      var sofar' := sofar + rest[..MAX_DATA_LENGTH];
      assert rest[MAX_DATA_LENGTH..] == files[0][|sofar'|..];
      assert replies[1..] == Chunks(rest[MAX_DATA_LENGTH..]) + AllChunks(files[1..]);
    }
  }

  lemma AllPending(files: seq<seq<byte>>)
    ensures Pending(AllChunks(files), files, [])
  {
    if files != [] { assert files[0][0..] == files[0]; }
  }

  lemma KnownGrows(cfg: Config, i: nat, running: bool)
    requires i < |cfg.flows|
    ensures Known(cfg, 0, i + 1, running) == Known(cfg, 0, i, running) + [KnownFlow(cfg, i, running)]
    ensures UpTo(i + 1) == UpTo(i) + [i]
  {
  }

  lemma KnownShrinks(cfg: Config, lo: nat, running: bool)
    requires lo < |cfg.flows|
    ensures Known(cfg, lo, |cfg.flows|, running)[..0] + Known(cfg, lo, |cfg.flows|, running)[1..] == Known(cfg, lo + 1, |cfg.flows|, running)
    ensures Known(cfg, lo, |cfg.flows|, running)[0] == KnownFlow(cfg, lo, running)
  {
  }

  lemma RunningKnown(cfg: Config, n: nat, was: bool, running: bool)
    requires ValidConfig(cfg) && n <= |cfg.flows|
    ensures SetRunning(Known(cfg, 0, n, was), cfg.measurementID, running) == Known(cfg, 0, n, running)
  {
    forall k | 0 <= k < n
      ensures SetRunning(Known(cfg, 0, n, was), cfg.measurementID, running)[k] == Known(cfg, 0, n, running)[k]
    {
      assert Known(cfg, 0, n, was)[k] == KnownFlow(cfg, k, was);
    }
  }

  lemma RemovalsGrow(cfg: Config, lo: nat, hi: nat)
    requires lo <= hi < |cfg.flows|
    ensures Removals(cfg, lo, hi + 1) == Removals(cfg, lo, hi) + [RemoveFlow(cfg.flows[hi].key)]
  {
  }

  lemma RemovalsShrink(cfg: Config, lo: nat, hi: nat)
    requires lo < hi <= |cfg.flows|
    ensures Removals(cfg, lo, hi)[0] == RemoveFlow(cfg.flows[lo].key) && Removals(cfg, lo, hi)[1..] == Removals(cfg, lo + 1, hi)
  {
  }

  // ----- An IDENTIFY message arrives ------------------------------------------------------------------------

  /** A flow that is known already, or known no longer: nothing happens. */
  lemma IdentifyAgain(cfg: Config, lo: nat, hi: nat, running: bool, i: nat, last: seq<PassiveFlow>, p: Passive)
    requires ValidConfig(cfg) && lo <= hi <= |cfg.flows| && i < hi
    requires |last| <= 1 && (last != [] ==> hi < |cfg.flows| && last[0].key == cfg.flows[hi].key)
    requires p.flows == Known(cfg, lo, hi, running) + last
    ensures HandleIdentify(p, cfg.flows[i].key, !cfg.vectors) == Outcome(p, [], [])
  {
    FindInKnown(cfg, lo, hi, running, i, last);
    if lo <= i { assert p.flows[i - lo] == KnownFlow(cfg, i, running); }
  }

  lemma IdentifyNew(cfg: Config, i: nat)
    requires ValidConfig(cfg) && i < |cfg.flows|
    ensures HandleIdentify(Passive(Known(cfg, 0, i, false) + [NewFlow(cfg, i)], map[]), cfg.flows[i].key, !cfg.vectors)
      == Outcome(Passive(Known(cfg, 0, i + 1, false), map[]), [Acknowledge(cfg.flows[i].key, true)], [])
  {
    FindInKnown(cfg, 0, i, false, i, [NewFlow(cfg, i)]);
    KnownGrows(cfg, i, false);
  }

  lemma AnnouncedBound(cfg: Config, s: State)
    requires Inv(cfg, s)
    ensures forall i | i in s.identifies :: i < |cfg.flows|
    ensures s.pc.SendAdd? || s.pc.AwaitAdd? ==> forall i | i in s.identifies :: i < s.pc.i
    ensures s.pc.SendIdentify? || s.pc.AwaitIdentify? || s.pc.GaveUp? ==> forall i | i in s.identifies :: i <= s.pc.i
  {
    hide AtPC, FilesBefore;
  }

  /** The flows of the passive side, whatever the active side is doing. */
  lemma PassiveFlows(cfg: Config, s: State) returns (lo: nat, hi: nat, running: bool, last: seq<PassiveFlow>)
    requires Inv(cfg, s) && ValidConfig(cfg)
    ensures lo <= hi <= |cfg.flows| && |last| <= 1 && (last != [] ==> hi < |cfg.flows| && last[0] == NewFlow(cfg, hi))
    ensures s.passive.flows == Known(cfg, lo, hi, running) + last
    ensures forall i | i in s.identifies :: i < hi + |last|
    ensures last != [] && hi in s.identifies ==> s.pc.SendIdentify? || s.pc.AwaitIdentify? || s.pc.GaveUp?
    ensures s.pc.SendIdentify? || s.pc.AwaitIdentify? || s.pc.GaveUp? ==>
      && (if last != [] then hi == s.pc.i else hi == s.pc.i + 1) && lo == 0 && !running
  {
    hide FilesBefore, Pending, AllChunks, Chunks, Running, Known, Removals, NewFlow, KnownFlow, UpTo, Announced;
    AnnouncedBound(cfg, s);
    var n := |cfg.flows|;
    assert forall f: seq<PassiveFlow> :: f + [] == f;
    lo, hi, running, last := 0, n, false, [];
    match s.pc
    case SendAdd(i) => hi := i;
    case AwaitAdd(i) => hi := i; last := if s.commands == [] then [NewFlow(cfg, i)] else [];
    case SendIdentify(i, _) => if s.replies == [] { hi := i; last := [NewFlow(cfg, i)]; } else { hi := i + 1; }
    case AwaitIdentify(i, _) => if s.replies == [] { hi := i; last := [NewFlow(cfg, i)]; } else { hi := i + 1; }
    case GaveUp(i) => if s.replies == [] { hi := i; last := [NewFlow(cfg, i)]; } else { hi := i + 1; }
    case AwaitStart => running := s.commands == [];
    case SendStop => running := true;
    case AwaitStop => running := s.commands != [];
    case SendRemove(i) => lo :| lo <= i && s.commands == Removals(cfg, lo, i) && s.passive == Passive(Known(cfg, lo, n, false), map[]);
    case AwaitRemove(i) => lo := if s.commands == [] then i + 1 else i;
    case DownloadFlow(i, _) => lo := i + 1;
    case Done => lo :| lo <= n && s.commands == Removals(cfg, lo, n) && s.passive == Passive(Known(cfg, lo, n, false), map[]);
    case _ =>
  }

  lemma IdentifyStutters(cfg: Config, s: State, i: nat, lo: nat, hi: nat, running: bool, last: seq<PassiveFlow>)
    requires ValidConfig(cfg) && lo <= hi <= |cfg.flows| && i < hi && i in s.identifies
    requires |last| <= 1 && (last != [] ==> hi < |cfg.flows| && last[0] == NewFlow(cfg, hi))
    requires s.passive.flows == Known(cfg, lo, hi, running) + last
    ensures Apply(cfg, s, Identify(i)) == s
  {
    IdentifyAgain(cfg, lo, hi, running, i, last, s.passive);
    assert s.replies + [] == s.replies && s.uploaded + [] == s.uploaded;
  }

  lemma IdentifyAnswered(cfg: Config, s: State, i: nat)
    requires ValidConfig(cfg) && Inv(cfg, s) && i in s.identifies && i < |cfg.flows|
    requires s.pc.SendIdentify? || s.pc.AwaitIdentify? || s.pc.GaveUp?
    requires s.pc.i == i && s.passive.flows == Known(cfg, 0, i, false) + [NewFlow(cfg, i)]
    ensures Inv(cfg, Apply(cfg, s, Identify(i))) && i !in s.identified
  {
    assert |s.passive.flows| == i + 1 && s.passive.flows[i] == NewFlow(cfg, i);
    if Quiet(cfg, s, 0, i + 1, false) { assert s.passive.flows[i] == KnownFlow(cfg, i, false); }
    IdentifyNew(cfg, i);
    KnownGrows(cfg, i, false);
    hide FilesBefore, Known, HandleIdentify;
    assert [] + [Acknowledge(cfg.flows[i].key, true)] == [Acknowledge(cfg.flows[i].key, true)];
  }

  lemma IdentifyKeeps(cfg: Config, s: State, i: nat)
    requires ValidConfig(cfg) && Inv(cfg, s) && i in s.identifies && i < |cfg.flows|
    ensures Inv(cfg, Apply(cfg, s, Identify(i)))
    ensures Apply(cfg, s, Identify(i)) == s || i !in s.identified
  {
    hide Inv, Apply, Known, ValidConfig;
    var lo, hi, running, last := PassiveFlows(cfg, s);
    if i < hi {
      IdentifyStutters(cfg, s, i, lo, hi, running, last);
    } else {
      IdentifyAnswered(cfg, s, i);
    }
  }

  // ----- The passive side handles a command --------------------------------------------------------------------

  lemma HandleAdd(cfg: Config, i: nat, c: Contents)
    requires ValidConfig(cfg) && i < |cfg.flows|
    ensures Handle(Passive(Known(cfg, 0, i, false), map[]), AddFlow(cfg.flows[i].key), c)
      == Outcome(Passive(Known(cfg, 0, i, false) + [NewFlow(cfg, i)], map[]), [Acknowledge(cfg.flows[i].key, true)], [])
  {
    assert Known(cfg, 0, i, false) + [] == Known(cfg, 0, i, false);
    FindInKnown(cfg, 0, i, false, i, []);
  }

  lemma HandleBegin(cfg: Config, c: Contents)
    requires ValidConfig(cfg)
    ensures Handle(Passive(Known(cfg, 0, |cfg.flows|, false), map[]), Start(cfg.measurementID, !cfg.vectors, !cfg.scalars), c)
      == Outcome(Passive(Known(cfg, 0, |cfg.flows|, true), Running(cfg)), [Acknowledge(MeasurementKey(cfg.measurementID), true)], [])
  {
    RunningKnown(cfg, |cfg.flows|, false, true);
  }

  lemma UploadIsAllChunks(content: seq<byte>, wanted: bool)
    ensures Upload(content, wanted) == AllChunks(Files(content, wanted))
  {
    if wanted { assert [content][1..] == []; assert Chunks(content) + [] == Chunks(content); }
  }

  lemma {:induction false} AllChunksAppend(a: seq<seq<byte>>, b: seq<seq<byte>>)
    ensures AllChunks(a + b) == AllChunks(a) + AllChunks(b)
  {
    if a == [] {
      assert a + b == b;
    } else {
      AllChunksAppend(a[1..], b);
      assert (a + b)[1..] == a[1..] + b;
      Associate(Chunks(a[0]), AllChunks(a[1..]), AllChunks(b));
    }
  }

  lemma HandleEnd(cfg: Config, c: Contents)
    requires ValidConfig(cfg)
    ensures var files := Files(c.vector, cfg.vectors) + Files(c.scalar, cfg.scalars);
      Handle(Passive(Known(cfg, 0, |cfg.flows|, true), Running(cfg)), Stop(cfg.measurementID), c)
      == Outcome(Passive(Known(cfg, 0, |cfg.flows|, false), map[]), [Acknowledge(MeasurementKey(cfg.measurementID), true)] + AllChunks(files), files)
  {
    var ack := [Acknowledge(MeasurementKey(cfg.measurementID), true)];
    RunningKnown(cfg, |cfg.flows|, true, false);
    assert Running(cfg) - {cfg.measurementID} == map[];
    UploadIsAllChunks(c.vector, cfg.vectors);
    UploadIsAllChunks(c.scalar, cfg.scalars);
    AllChunksAppend(Files(c.vector, cfg.vectors), Files(c.scalar, cfg.scalars));
    Associate(ack, Upload(c.vector, cfg.vectors), Upload(c.scalar, cfg.scalars));
  }

  lemma HandleRemove(cfg: Config, i: nat, c: Contents)
    requires ValidConfig(cfg) && i < |cfg.flows|
    ensures var files := Files(c.flow, cfg.vectors);
      Handle(Passive(Known(cfg, i, |cfg.flows|, false), map[]), RemoveFlow(cfg.flows[i].key), c)
      == Outcome(Passive(Known(cfg, i + 1, |cfg.flows|, false), map[]),
                 if cfg.vectors then [Acknowledge(cfg.flows[i].key, true)] + AllChunks(files) else [], files)
  {
    var flows := Known(cfg, i, |cfg.flows|, false);
    assert flows + [] == flows;
    FindInKnown(cfg, i, |cfg.flows|, false, i, []);
    KnownShrinks(cfg, i, false);
    UploadIsAllChunks(c.flow, cfg.vectors);
  }

  lemma NewFiles(downloaded: seq<seq<byte>>, uploaded: seq<seq<byte>>, files: seq<seq<byte>>)
    requires downloaded <= uploaded
    ensures downloaded <= uploaded + files && (uploaded + files)[|downloaded|..] == uploaded[|downloaded|..] + files
  {
  }

  /** A lone command, of which the handling is known. */
  lemma AnsweredCommand(cfg: Config, s: State, c: Contents, o: Outcome)
    requires |s.commands| == 1 && s.replies == [] && s.downloaded == s.uploaded
    requires o == Handle(s.passive, s.commands[0], c)
    ensures var s' := Apply(cfg, s, Control(c));
      && s' == s.(commands := [], passive := o.state, replies := o.replies, uploaded := s.uploaded + o.files)
      && s'.downloaded <= s'.uploaded && s'.uploaded[|s'.downloaded|..] == o.files
  {
    NewFiles(s.downloaded, s.uploaded, o.files);
    assert [] + o.files == o.files && [] + o.replies == o.replies;
  }

  lemma AddHandled(cfg: Config, s: State, c: Contents)
    requires ValidConfig(cfg) && Inv(cfg, s) && s.commands != [] && s.pc.AwaitAdd?
    ensures Inv(cfg, Apply(cfg, s, Control(c)))
  {
    hide FilesBefore, Announced, Handle, Known, Pending, AllChunks, NewFlow, ValidConfig;
    HandleAdd(cfg, s.pc.i, c);
    AnsweredCommand(cfg, s, c, Handle(s.passive, s.commands[0], c));
    NoFiles();
  }

  lemma NoFiles()
    ensures AllChunks([]) == []
  {
  }

  lemma StartHandled(cfg: Config, s: State, c: Contents)
    requires ValidConfig(cfg) && Inv(cfg, s) && s.commands != [] && s.pc.AwaitStart?
    ensures Inv(cfg, Apply(cfg, s, Control(c)))
  {
    hide FilesBefore, Announced, Handle, Known, Pending, AllChunks, ValidConfig, Running;
    HandleBegin(cfg, c);
    AnsweredCommand(cfg, s, c, Handle(s.passive, s.commands[0], c));
    NoFiles();
  }

  lemma StopHandled(cfg: Config, s: State, c: Contents)
    requires ValidConfig(cfg) && Inv(cfg, s) && s.commands != [] && s.pc.AwaitStop?
    ensures Inv(cfg, Apply(cfg, s, Control(c)))
  {
    hide FilesBefore, Announced, Handle, Known, Pending, AllChunks, ValidConfig, Running;
    HandleEnd(cfg, c);
    AnsweredCommand(cfg, s, c, Handle(s.passive, s.commands[0], c));
  }

  lemma RemoveHandled(cfg: Config, s: State, c: Contents)
    requires ValidConfig(cfg) && Inv(cfg, s) && s.commands != [] && s.pc.AwaitRemove?
    ensures Inv(cfg, Apply(cfg, s, Control(c)))
  {
    hide FilesBefore, Announced, Handle, Known, Pending, AllChunks, ValidConfig;
    HandleRemove(cfg, s.pc.i, c);
    AnsweredCommand(cfg, s, c, Handle(s.passive, s.commands[0], c));
  }

  lemma LooseRemovalHandled(cfg: Config, s: State, c: Contents)
    requires ValidConfig(cfg) && Inv(cfg, s) && s.commands != [] && (s.pc.SendRemove? || s.pc.Done?)
    ensures Inv(cfg, Apply(cfg, s, Control(c)))
  {
    hide FilesBefore, Announced, Handle, Known, Pending, AllChunks, ValidConfig, Removals, Removing, Apply;
    RemovalHandled(cfg, s, if s.pc.Done? then |cfg.flows| else s.pc.i, c);
  }

  /** Only these states have a command under way. */
  lemma CommandUnderWay(cfg: Config, s: State)
    requires Inv(cfg, s) && s.commands != []
    ensures s.pc.AwaitAdd? || s.pc.AwaitStart? || s.pc.AwaitStop? || s.pc.AwaitRemove? || s.pc.SendRemove? || s.pc.Done?
  {
    hide FilesBefore, Known, Pending, AllChunks, Removals;
  }

  lemma ControlKeeps(cfg: Config, s: State, c: Contents)
    requires ValidConfig(cfg) && Inv(cfg, s) && s.commands != []
    ensures Inv(cfg, Apply(cfg, s, Control(c)))
  {
    hide Inv, Apply;
    CommandUnderWay(cfg, s);
    match s.pc
    case AwaitAdd(_) => AddHandled(cfg, s, c);
    case AwaitStart => StartHandled(cfg, s, c);
    case AwaitStop => StopHandled(cfg, s, c);
    case AwaitRemove(_) => RemoveHandled(cfg, s, c);
    case SendRemove(_) => LooseRemovalHandled(cfg, s, c);
    case Done => LooseRemovalHandled(cfg, s, c);
  }

  lemma RemovalHandled(cfg: Config, s: State, i: nat, c: Contents)
    requires ValidConfig(cfg) && i <= |cfg.flows| && Removing(cfg, s, i) && s.commands != []
    requires s.downloaded <= s.uploaded
    ensures var s' := Apply(cfg, s, Control(c));
      Removing(cfg, s', i) && s' == s.(commands := s'.commands, passive := s'.passive)
  {
    var n := |cfg.flows|;
    var k: nat :| k <= i && s.commands == Removals(cfg, k, i) && s.passive == Passive(Known(cfg, k, n, false), map[]) && (cfg.vectors ==> k == i);
    RemovalsShrink(cfg, k, i);
    HandleRemove(cfg, k, c);
    assert s.replies + [] == s.replies && s.uploaded + [] == s.uploaded;
    assert Apply(cfg, s, Control(c)).commands == Removals(cfg, k + 1, i);
  }

  // ----- The active side goes on ---------------------------------------------------------------------------------

  /** A download takes the next message. */
  lemma DownloadKeeps(s: State, more: PC, done: PC, sofar: seq<byte>, files: seq<seq<byte>>)
    requires s.downloaded <= s.uploaded && files == s.uploaded[|s.downloaded|..] && files != [] && Pending(s.replies, files, sofar)
    ensures s.replies != [] && s.replies[0].Results?
    ensures var s' := AfterChunk(s, more, done, sofar);
      && s'.downloaded <= s'.uploaded && s' == s.(replies := s.replies[1..], pc := s'.pc, downloaded := s'.downloaded)
      && var files' := s'.uploaded[|s'.downloaded|..];
      if s.replies[0].eof then s'.pc == done && files' == files[1..] && Pending(s'.replies, files', [])
      else s'.pc == more && files' == files && Pending(s'.replies, files', sofar + s.replies[0].data)
  {
    FirstPending(s.replies, files, sofar);
    if s.replies[0].eof { assert s.uploaded[|s.downloaded|] == files[0]; }
  }

  /** An awaited acknowledgement is the right one, and only the files asked for follow. */
  lemma AwaitedArrives(s: State, command: Command, key: FlowKey, files: seq<seq<byte>>, before: Passive, after: Passive)
    requires Asked(s, command, key, files, before, after) && s.replies != []
    ensures Accepts(s.replies[0], key) && s.commands == [] && s.passive == after
    ensures s.replies[1..] == AllChunks(files) && Pending(s.replies[1..], files, [])
  {
    AllPending(files);
  }

  lemma AddKeeps(cfg: Config, s: State)
    requires ValidConfig(cfg) && Inv(cfg, s) && ActiveReady(s) && InRange(cfg, s.pc)
    requires s.pc.SendAdd? || s.pc.AwaitAdd? || s.pc.SendIdentify? || s.pc.AwaitIdentify?
    ensures Inv(cfg, ActiveStep(cfg, s))
  {
    match s.pc
    case SendAdd(i) =>
    case AwaitAdd(i) =>
      AwaitedArrives(s, AddFlow(cfg.flows[i].key), cfg.flows[i].key, s.uploaded[|s.downloaded|..],
                     Passive(Known(cfg, 0, i, false), map[]), Passive(Known(cfg, 0, i, false) + [NewFlow(cfg, i)], map[]));
    case SendIdentify(i, trial) =>
    case AwaitIdentify(i, trial) =>
      assert s.replies[1..] == [];
    case _ =>
  }

  lemma MeasureKeeps(cfg: Config, s: State)
    requires ValidConfig(cfg) && Inv(cfg, s) && ActiveReady(s) && InRange(cfg, s.pc)
    requires s.pc.SendStart? || s.pc.AwaitStart? || s.pc.SendStop? || s.pc.AwaitStop?
    ensures Inv(cfg, ActiveStep(cfg, s))
  {
    var n, files := |cfg.flows|, s.uploaded[|s.downloaded|..];
    match s.pc
    case SendStart =>
    case AwaitStart =>
      AwaitedArrives(s, Start(cfg.measurementID, !cfg.vectors, !cfg.scalars), MeasurementKey(cfg.measurementID), files,
                     Passive(Known(cfg, 0, n, false), map[]), Passive(Known(cfg, 0, n, true), Running(cfg)));
    case SendStop =>
    case AwaitStop =>
      AwaitedArrives(s, Stop(cfg.measurementID), MeasurementKey(cfg.measurementID), files,
                     Passive(Known(cfg, 0, n, true), Running(cfg)), Passive(Known(cfg, 0, n, false), map[]));
      if !cfg.vectors && !cfg.scalars { NothingRemoved(cfg, ActiveStep(cfg, s), 0); }
    case _ =>
  }

  /** Removals start with all flows known. */
  lemma NothingRemoved(cfg: Config, s: State, i: nat)
    requires i <= |cfg.flows| && Quiet(cfg, s, i, |cfg.flows|, false)
    ensures Removing(cfg, s, i)
  {
    assert s.commands == Removals(cfg, i, i);
  }

  lemma VectorKeeps(cfg: Config, s: State)
    requires ValidConfig(cfg) && Inv(cfg, s) && s.pc.DownloadVector? && s.replies != []
    ensures Inv(cfg, ActiveStep(cfg, s))
  {
    hide Known, Pending, AllChunks, Chunks, Removing, ValidConfig;
    var files, reply, sofar := s.uploaded[|s.downloaded|..], s.replies[0], s.pc.sofar;
    FirstPending(s.replies, files, sofar);
    DownloadKeeps(s, DownloadVector(sofar + reply.data), AfterVector(cfg), sofar, files);
    NoMoreFiles(ActiveStep(cfg, s));
    if reply.eof && !cfg.scalars { NothingRemoved(cfg, ActiveStep(cfg, s), 0); }
  }

  lemma ScalarKeeps(cfg: Config, s: State)
    requires ValidConfig(cfg) && Inv(cfg, s) && s.pc.DownloadScalar? && s.replies != []
    ensures Inv(cfg, ActiveStep(cfg, s))
  {
    hide Known, Pending, AllChunks, Chunks, Removing, ValidConfig;
    var files, reply, sofar := s.uploaded[|s.downloaded|..], s.replies[0], s.pc.sofar;
    FirstPending(s.replies, files, sofar);
    DownloadKeeps(s, DownloadScalar(sofar + reply.data), NextRemove(cfg, 0), sofar, files);
    NoMoreFiles(ActiveStep(cfg, s));
    if reply.eof { NothingRemoved(cfg, ActiveStep(cfg, s), 0); }
  }

  lemma OneMoreFile(cfg: Config, i: nat)
    requires cfg.vectors && i < |cfg.flows|
    ensures FilesBefore(cfg, NextRemove(cfg, i + 1)) == FilesBefore(cfg, SendRemove(i)) + 1
    ensures forall sofar :: FilesBefore(cfg, DownloadFlow(i, sofar)) == FilesBefore(cfg, SendRemove(i))
  {
  }

  lemma FlowKeeps(cfg: Config, s: State)
    requires ValidConfig(cfg) && Inv(cfg, s) && s.pc.DownloadFlow? && s.replies != []
    ensures Inv(cfg, ActiveStep(cfg, s))
  {
    OneMoreFile(cfg, s.pc.i);
    hide FilesBefore, Known, Pending, AllChunks, Chunks, Removing, ValidConfig, UpTo, Removals, KnownFlow, NewFlow, Asked, Identifying;
    var i, files, reply, sofar := s.pc.i, s.uploaded[|s.downloaded|..], s.replies[0], s.pc.sofar;
    FirstPending(s.replies, files, sofar);
    DownloadKeeps(s, DownloadFlow(i, sofar + reply.data), NextRemove(cfg, i + 1), sofar, files);
    NoMoreFiles(ActiveStep(cfg, s));
    if reply.eof { NothingRemoved(cfg, ActiveStep(cfg, s), i + 1); }
  }

  /** Without files under way, there is nothing to read. */
  lemma NoMoreFiles(s: State)
    ensures forall sofar :: Pending(s.replies, [], sofar) ==> s.replies == []
  {
  }

  lemma SendRemoveKeeps(cfg: Config, s: State)
    requires ValidConfig(cfg) && Inv(cfg, s) && s.pc.SendRemove?
    ensures Inv(cfg, ActiveStep(cfg, s))
  {
    hide FilesBefore, Known, Removals, Pending, AllChunks, Chunks, UpTo;
    var n, i, s' := |cfg.flows|, s.pc.i, ActiveStep(cfg, s);
    var k: nat :| k <= i && s.commands == Removals(cfg, k, i) && s.passive == Passive(Known(cfg, k, n, false), map[]) && (cfg.vectors ==> k == i);
    RemovalsGrow(cfg, k, i);
    SameFiles(cfg, i);
    if cfg.vectors {
      NoRemovals(cfg, i);
      assert [] + [RemoveFlow(cfg.flows[i].key)] == [RemoveFlow(cfg.flows[i].key)];
    } else {
      assert s'.commands == Removals(cfg, k, i + 1);
    }
  }

  lemma NoRemovals(cfg: Config, i: nat)
    requires i <= |cfg.flows|
    ensures Removals(cfg, i, i) == []
  {
  }

  lemma SameFiles(cfg: Config, i: nat)
    requires i < |cfg.flows|
    ensures FilesBefore(cfg, AwaitRemove(i)) == FilesBefore(cfg, SendRemove(i))
    ensures !cfg.vectors ==> FilesBefore(cfg, NextRemove(cfg, i + 1)) == FilesBefore(cfg, SendRemove(i))
    ensures FilesBefore(cfg, DownloadFlow(i, [])) == FilesBefore(cfg, AwaitRemove(i))
  {
  }

  lemma AwaitRemoveKeeps(cfg: Config, s: State)
    requires ValidConfig(cfg) && Inv(cfg, s) && s.pc.AwaitRemove? && s.replies != []
    ensures Inv(cfg, ActiveStep(cfg, s))
  {
    hide FilesBefore, Known, Pending, AllChunks, Chunks, UpTo;
    var n, i := |cfg.flows|, s.pc.i;
    SameFiles(cfg, i);
    AwaitedArrives(s, RemoveFlow(cfg.flows[i].key), cfg.flows[i].key, s.uploaded[|s.downloaded|..],
                   Passive(Known(cfg, i, n, false), map[]), Passive(Known(cfg, i + 1, n, false), map[]));
  }

  lemma ActiveKeeps(cfg: Config, s: State)
    requires ValidConfig(cfg) && Inv(cfg, s) && ActiveReady(s) && InRange(cfg, s.pc)
    ensures Inv(cfg, ActiveStep(cfg, s))
  {
    assert s.pc.DownloadVector? || s.pc.DownloadScalar? || s.pc.DownloadFlow? || s.pc.AwaitRemove? ==> s.replies != [];
    hide Inv, ActiveStep, ActiveReady;
    if s.pc.SendAdd? || s.pc.AwaitAdd? || s.pc.SendIdentify? || s.pc.AwaitIdentify? { AddKeeps(cfg, s); }
    else if s.pc.SendStart? || s.pc.AwaitStart? || s.pc.SendStop? || s.pc.AwaitStop? { MeasureKeeps(cfg, s); }
    else if s.pc.DownloadVector? { VectorKeeps(cfg, s); }
    else if s.pc.DownloadScalar? { ScalarKeeps(cfg, s); }
    else if s.pc.DownloadFlow? { FlowKeeps(cfg, s); }
    else if s.pc.SendRemove? { SendRemoveKeeps(cfg, s); }
    else if s.pc.AwaitRemove? { AwaitRemoveKeeps(cfg, s); }
    else { NotReady(s); }
  }

  lemma NotReady(s: State)
    requires s.pc.Done? || s.pc.GaveUp? || s.pc.Broken?
    ensures !ActiveReady(s)
  {
  }

  lemma TimeoutKeeps(cfg: Config, s: State)
    requires ValidConfig(cfg) && Inv(cfg, s) && s.pc.AwaitIdentify? && s.replies == [] && InRange(cfg, s.pc)
    ensures Inv(cfg, Apply(cfg, s, Timeout))
  {
  }

  // ----- Runs ---------------------------------------------------------------------------------------------------------

  /** A sequence of steps that can happen. */
  ghost predicate Possible(cfg: Config, s: State, steps: seq<Step>)
    decreases |steps|
  {
    steps != [] ==> Enabled(cfg, s, steps[0]) && Possible(cfg, Apply(cfg, s, steps[0]), steps[1..])
  }

  function After(cfg: Config, s: State, steps: seq<Step>): State
    requires Possible(cfg, s, steps)
    decreases |steps|
  {
    if steps == [] then s else After(cfg, Apply(cfg, s, steps[0]), steps[1..])
  }

  lemma StepKeeps(cfg: Config, s: State, step: Step)
    requires ValidConfig(cfg) && Inv(cfg, s) && Enabled(cfg, s, step)
    ensures Inv(cfg, Apply(cfg, s, step))
  {
    hide Inv;
    match step
    case Active => ActiveKeeps(cfg, s);
    case Timeout => TimeoutKeeps(cfg, s);
    case Control(c) => ControlKeeps(cfg, s, c);
    case Identify(i) => IdentifyKeeps(cfg, s, i);
  }

  lemma InitialInv(cfg: Config)
    ensures Inv(cfg, Initial(cfg))
  {
    assert UpTo(0) == [] && Known(cfg, 0, 0, false) == [];
  }

  lemma {:induction false} RunKeepsInv(cfg: Config, s: State, steps: seq<Step>)
    requires ValidConfig(cfg) && Inv(cfg, s) && Possible(cfg, s, steps)
    ensures Inv(cfg, After(cfg, s, steps))
    decreases |steps|
  {
    if steps != [] {
      hide Inv, Apply, Enabled;
      StepKeeps(cfg, s, steps[0]);
      RunKeepsInv(cfg, Apply(cfg, s, steps[0]), steps[1..]);
    }
  }

  /** What is there to be read is what the active side waits for: its own acknowledgement, or
      a part of the file that it downloads. */
  predicate Expected(cfg: Config, s: State)
    requires InRange(cfg, s.pc)
  {
    match s.pc
    case AwaitAdd(i) => s.replies != [] ==> Accepts(s.replies[0], cfg.flows[i].key)
    case AwaitIdentify(i, _) => s.replies != [] ==> Accepts(s.replies[0], cfg.flows[i].key)
    case AwaitStart => s.replies != [] ==> Accepts(s.replies[0], MeasurementKey(cfg.measurementID))
    case AwaitStop => s.replies != [] ==> Accepts(s.replies[0], MeasurementKey(cfg.measurementID))
    case AwaitRemove(i) => s.replies != [] ==> Accepts(s.replies[0], cfg.flows[i].key)
    case DownloadVector(_) => s.replies != [] && s.replies[0].Results?
    case DownloadScalar(_) => s.replies != [] && s.replies[0].Results?
    case DownloadFlow(_, _) => s.replies != [] && s.replies[0].Results?
    case _ => s.replies == [] || s.pc.SendIdentify? || s.pc.GaveUp?
  }

  lemma InvExpected(cfg: Config, s: State)
    requires Inv(cfg, s)
    ensures InRange(cfg, s.pc) && Expected(cfg, s) && s.pc != Broken && s.downloaded <= s.uploaded
  {
    if s.pc.DownloadVector? || s.pc.DownloadScalar? || s.pc.DownloadFlow? {
      FirstPending(s.replies, s.uploaded[|s.downloaded|..], s.pc.sofar);
    }
  }

  /** In no run does the active side meet an unexpected message or fail on one, and the files
      that it has downloaded are the first ones uploaded. */
  lemma SessionIsSafe(cfg: Config, steps: seq<Step>)
    requires ValidConfig(cfg) && Possible(cfg, Initial(cfg), steps)
    ensures var s := After(cfg, Initial(cfg), steps);
      InRange(cfg, s.pc) && Expected(cfg, s) && s.pc != Broken && s.downloaded <= s.uploaded
  {
    InitialInv(cfg);
    RunKeepsInv(cfg, Initial(cfg), steps);
    InvExpected(cfg, After(cfg, Initial(cfg), steps));
  }

  /** Anything but the positive acknowledgement that is awaited ends the session, or just the
      trial; so does anything but a part of the file in a download. */
  lemma OtherRepliesFail(cfg: Config, s: State)
    requires s.replies != [] && InRange(cfg, s.pc) && ActiveReady(s)
    ensures var s', reply := ActiveStep(cfg, s), s.replies[0];
      match s.pc
      case AwaitAdd(i) => s'.pc == if reply == Acknowledge(cfg.flows[i].key, true) then SendIdentify(i, 1) else Broken
      case AwaitIdentify(i, trial) => reply != Acknowledge(cfg.flows[i].key, true) ==>
        s'.pc == if trial < (if cfg.flows[i].reliable then 1 else 5) then SendIdentify(i, trial + 1) else GaveUp(i)
      case AwaitStart => s'.pc == if reply == Acknowledge(FlowKey(cfg.measurementID, 0, 0), true) then SendStop else Broken
      case AwaitStop => reply != Acknowledge(FlowKey(cfg.measurementID, 0, 0), true) ==> s'.pc == Broken
      case AwaitRemove(i) => s'.pc == if reply == Acknowledge(cfg.flows[i].key, true) then DownloadFlow(i, []) else Broken
      case DownloadVector(_) => !reply.Results? ==> s'.pc == Broken
      case DownloadScalar(_) => !reply.Results? ==> s'.pc == Broken
      case DownloadFlow(_, _) => !reply.Results? ==> s'.pc == Broken
      case _ => true
  {
  }

  /** In every run: at most one trial for a reliable flow and five for any other; and between
      START and STOP the passive side runs just this measurement, with its files, and all of its
      flows in order, identified, with vector files if these are wanted. */
  lemma MeasurementRuns(cfg: Config, steps: seq<Step>)
    requires ValidConfig(cfg) && Possible(cfg, Initial(cfg), steps)
    ensures var s := After(cfg, Initial(cfg), steps);
      && (s.pc.SendIdentify? || s.pc.AwaitIdentify? ==>
           s.pc.i < |cfg.flows| && 1 <= s.pc.trial <= if cfg.flows[s.pc.i].reliable then 1 else 5)
      && (s.pc.SendStop? ==>
           && s.passive.measurements == map[cfg.measurementID := Measurement(cfg.vectors, cfg.scalars)]
           && |s.passive.flows| == |cfg.flows|
           && forall i | 0 <= i < |cfg.flows| :: s.passive.flows[i] == PassiveFlow(cfg.flows[i].key, true, cfg.vectors, true))
  {
    InitialInv(cfg);
    RunKeepsInv(cfg, Initial(cfg), steps);
  }

  /** Every flow's IDENTIFY is acknowledged at most once, in the order of the flows; and when the
      active side has gone on, nothing is left of it in the control channel. */
  lemma IdentifyOnce(cfg: Config, steps: seq<Step>)
    requires ValidConfig(cfg) && Possible(cfg, Initial(cfg), steps)
    ensures var s := After(cfg, Initial(cfg), steps);
      && (forall i | 0 <= i < |s.identified| :: s.identified[i] == i) && |s.identified| <= |cfg.flows|
      && (s.pc.SendAdd? ==> s.replies == [] && |s.identified| == s.pc.i)
      && (s.pc.SendStart? ==> s.replies == [] && |s.identified| == |cfg.flows|)
  {
    InitialInv(cfg);
    RunKeepsInv(cfg, Initial(cfg), steps);
  }

  /** Once a flow has been identified, further copies of its IDENTIFY change nothing, whenever
      they arrive. */
  lemma LateIdentifyIsHarmless(cfg: Config, steps: seq<Step>, i: nat)
    requires ValidConfig(cfg) && Possible(cfg, Initial(cfg), steps)
    requires i in After(cfg, Initial(cfg), steps).identified && i in After(cfg, Initial(cfg), steps).identifies
    ensures i < |cfg.flows|
    ensures var s := After(cfg, Initial(cfg), steps); Apply(cfg, s, Identify(i)) == s
  {
    hide Inv, Apply;
    IdentifyOnce(cfg, steps);
    InitialInv(cfg);
    RunKeepsInv(cfg, Initial(cfg), steps);
    IdentifyKeeps(cfg, After(cfg, Initial(cfg), steps), i);
  }

  /** Nothing is left: no message, no flow, no measurement, and every file has arrived. */
  ghost predicate Clean(cfg: Config, s: State) {
    && s.replies == [] && s.passive == Passive([], map[]) && s.downloaded == s.uploaded
    && |s.downloaded| == Count(cfg.vectors) + Count(cfg.scalars) + |cfg.flows| * Count(cfg.vectors)
    && |s.identified| == |cfg.flows|
  }

  lemma CleanEnd(cfg: Config, s: State)
    requires Inv(cfg, s) && s.pc == Done && s.commands == []
    ensures Clean(cfg, s)
  {
    var n := |cfg.flows|;
    var k: nat :| k <= n && s.commands == Removals(cfg, k, n) && s.passive == Passive(Known(cfg, k, n, false), map[]);
    assert |Removals(cfg, k, n)| == n - k;
    assert Known(cfg, n, n, false) == [];
  }

  /** When the active side is done and its last command has been handled, nothing is left. */
  lemma SessionEndsClean(cfg: Config, steps: seq<Step>)
    requires ValidConfig(cfg) && Possible(cfg, Initial(cfg), steps)
    requires After(cfg, Initial(cfg), steps).pc == Done && After(cfg, Initial(cfg), steps).commands == []
    ensures Clean(cfg, After(cfg, Initial(cfg), steps))
  {
    InitialInv(cfg);
    RunKeepsInv(cfg, Initial(cfg), steps);
    CleanEnd(cfg, After(cfg, Initial(cfg), steps));
  }

  /** The session has come to its end, good or bad. */
  predicate Over(s: State) {
    (s.pc == Done || s.pc.GaveUp?) && s.commands == []
  }

  /** One of the two sides has something to do. */
  predicate CanAct(cfg: Config, s: State) {
    Enabled(cfg, s, Active) || s.commands != [] || Enabled(cfg, s, Timeout)
  }

  lemma GoesOn(cfg: Config, s: State)
    requires Inv(cfg, s)
    ensures Over(s) || CanAct(cfg, s)
  {
    InvExpected(cfg, s);
  }

  /** Neither side gets stuck: as long as the session is not over, something can happen that
      does not depend on a message that may be lost for good. */
  lemma SessionGoesOn(cfg: Config, steps: seq<Step>)
    requires ValidConfig(cfg) && Possible(cfg, Initial(cfg), steps)
    ensures var s := After(cfg, Initial(cfg), steps); Over(s) || CanAct(cfg, s)
  {
    InitialInv(cfg);
    RunKeepsInv(cfg, Initial(cfg), steps);
    GoesOn(cfg, After(cfg, Initial(cfg), steps));
  }

  // ----- Every session comes to an end ------------------------------------------------------------------------

  /** An upper bound on the moves of the active side that are left. */
  function MovesLeft(cfg: Config, pc: PC): nat
    requires InRange(cfg, pc)
  {
    var n := |cfg.flows|;
    match pc
    case SendAdd(i) => (n - i) * 12 + 2 * n * 2 + 12
    case AwaitAdd(i) => (n - i) * 12 - 1 + 2 * n * 2 + 12
    case SendIdentify(i, trial) => if trial > 5 then 0 else (n - i) * 12 - 2 * trial + 2 * n * 2 + 12
    case AwaitIdentify(i, trial) => if trial > 5 then 0 else (n - i) * 12 - 2 * trial - 1 + 2 * n * 2 + 12
    case SendStart => 2 * n * 2 + 11
    case AwaitStart => 2 * n * 2 + 10
    case SendStop => 2 * n * 2 + 9
    case AwaitStop => 2 * n * 2 + 8
    case DownloadVector(_) => 2 * n * 2 + 7
    case DownloadScalar(_) => 2 * n * 2 + 6
    case SendRemove(i) => (n - i) * 4 + 5
    case AwaitRemove(i) => (n - i) * 4 + 4
    case DownloadFlow(i, _) => (n - i) * 4 + 3
    case Done => 1
    case GaveUp(_) => 0
    case Broken => 0
  }

  /** The flows whose IDENTIFY has not been answered yet. */
  function Unidentified(cfg: Config, s: State): nat {
    if |s.identified| <= |cfg.flows| then |cfg.flows| - |s.identified| else 0
  }

  /** What gets smaller: the flows to be identified, then the moves left, then the commands under
      way, then the messages to read. */
  ghost predicate Smaller(cfg: Config, s: State, s': State)
    requires InRange(cfg, s.pc) && InRange(cfg, s'.pc)
  {
    var u, u', m, m' := Unidentified(cfg, s), Unidentified(cfg, s'), MovesLeft(cfg, s.pc), MovesLeft(cfg, s'.pc);
    u' < u || (u' == u && (m' < m || (m' == m && (|s'.commands| < |s.commands| || (s'.commands == s.commands && |s'.replies| < |s.replies|)))))
  }

  lemma StepInRange(cfg: Config, s: State)
    requires Inv(cfg, s)
    ensures InRange(cfg, s.pc) && (s.pc.SendIdentify? || s.pc.AwaitIdentify? ==> 1 <= s.pc.trial <= 5)
    ensures |s.identified| <= |cfg.flows|
  {
  }

  lemma ActiveGetsSmaller(cfg: Config, s: State)
    requires InRange(cfg, s.pc) && ActiveReady(s) && Expected(cfg, s)
    requires s.pc.SendIdentify? || s.pc.AwaitIdentify? ==> 1 <= s.pc.trial <= 5
    ensures InRange(cfg, ActiveStep(cfg, s).pc) && Smaller(cfg, s, ActiveStep(cfg, s))
  {
    ActiveIdentifiesNone(cfg, s);
    hide Unidentified;
  }

  lemma ActiveIdentifiesNone(cfg: Config, s: State)
    requires InRange(cfg, s.pc) && ActiveReady(s)
    ensures Unidentified(cfg, ActiveStep(cfg, s)) == Unidentified(cfg, s)
  {
  }

  lemma IdentifyGetsSmaller(cfg: Config, s: State, i: nat)
    requires i < |cfg.flows| && i in s.identifies
    ensures var s' := Apply(cfg, s, Identify(i)); s' == s || s'.identified == s.identified + [i]
  {
    var o := HandleIdentify(s.passive, cfg.flows[i].key, !cfg.vectors);
    if o.replies == [] {
      assert o.state == s.passive;
      assert s.replies + [] == s.replies;
    }
  }

  /** Every step brings the session closer to its end, except for arrivals of an IDENTIFY that
      change nothing at all. */
  lemma StepGetsSmaller(cfg: Config, s: State, step: Step)
    requires ValidConfig(cfg) && Inv(cfg, s) && Enabled(cfg, s, step)
    ensures InRange(cfg, s.pc) && InRange(cfg, Apply(cfg, s, step).pc)
    ensures Smaller(cfg, s, Apply(cfg, s, step)) || (step.Identify? && Apply(cfg, s, step) == s)
  {
    hide Inv, ActiveStep, Handle, Expected, ActiveReady, ValidConfig, HandleIdentify;
    StepKeeps(cfg, s, step);
    StepInRange(cfg, s);
    InvExpected(cfg, s);
    StepInRange(cfg, Apply(cfg, s, step));
    if step.Active? { ActiveGetsSmaller(cfg, s); }
    if step.Identify? { IdentifyGetsSmaller(cfg, s, step.i); }
  }

  /** An endless run: at any moment a step happens, or nothing does. */
  ghost predicate IsRun(cfg: Config, run: nat -> State) {
    run(0) == Initial(cfg) && forall k: nat :: MovesAt(cfg, run, k)
  }

  ghost predicate MovesAt(cfg: Config, run: nat -> State, k: nat) {
    run(k + 1) == run(k) || exists step :: Enabled(cfg, run(k), step) && run(k + 1) == Apply(cfg, run(k), step)
  }

  /** A run does not stop for good while one of the two sides can act. */
  ghost predicate Fair(cfg: Config, run: nat -> State) {
    forall n: nat | CanAct(cfg, run(n)) :: exists k: nat :: n <= k && run(k) != run(n)
  }

  lemma {:induction false} RunInv(cfg: Config, run: nat -> State, k: nat)
    requires ValidConfig(cfg) && IsRun(cfg, run)
    ensures Inv(cfg, run(k)) && InRange(cfg, run(k).pc)
  {
    if k == 0 {
      InitialInv(cfg);
    } else {
      RunInv(cfg, run, k - 1);
      assert MovesAt(cfg, run, k - 1);
      hide Inv, Apply, Enabled;
      if run(k) != run(k - 1) {
        var step :| Enabled(cfg, run(k - 1), step) && run(k) == Apply(cfg, run(k - 1), step);
        StepKeeps(cfg, run(k - 1), step);
      }
    }
    StepInRange(cfg, run(k));
  }

  /** The first change after the moment `n`. */
  lemma {:induction false} FirstChange(run: nat -> State, n: nat, k: nat) returns (j: nat)
    requires n <= k && run(k) != run(n)
    ensures n <= j < k && run(j) == run(n) && run(j + 1) != run(n)
  {
    if run(k - 1) != run(n) { j := FirstChange(run, n, k - 1); } else { j := k - 1; }
  }

  /** The next state that differs is closer to the end. */
  lemma NextIsSmaller(cfg: Config, run: nat -> State, n: nat, k: nat) returns (j: nat)
    requires ValidConfig(cfg) && IsRun(cfg, run) && n <= k && run(k) != run(n)
    ensures n < j && InRange(cfg, run(n).pc) && InRange(cfg, run(j).pc) && Smaller(cfg, run(n), run(j))
  {
    j := FirstChange(run, n, k);
    RunInv(cfg, run, j);
    assert MovesAt(cfg, run, j);
    hide Inv, Apply, Enabled, IsRun, InRange, Smaller;
    var step :| Enabled(cfg, run(j), step) && run(j + 1) == Apply(cfg, run(j), step);
    StepGetsSmaller(cfg, run(j), step);
    j := j + 1;
  }

  /** From some moment on nothing changes any more. */
  lemma {:induction false} ComesToRest(cfg: Config, run: nat -> State, n: nat) returns (m: nat)
    requires ValidConfig(cfg) && IsRun(cfg, run) && InRange(cfg, run(n).pc)
    ensures n <= m && forall k | m <= k :: run(k) == run(m)
    decreases Unidentified(cfg, run(n)), MovesLeft(cfg, run(n).pc), |run(n).commands|, |run(n).replies|
  {
    hide IsRun, InRange, MovesLeft, Unidentified, ValidConfig;
    m := n;
    if k :| n <= k && run(k) != run(n) {
      var j := NextIsSmaller(cfg, run, n, k);
      m := ComesToRest(cfg, run, j);
    }
  }

  /** Every fair run comes to its end and stays there, however often copies of IDENTIFY messages
      arrive; unless the active side has given up, nothing is left behind. */
  lemma SessionTerminates(cfg: Config, run: nat -> State)
    requires ValidConfig(cfg) && IsRun(cfg, run) && Fair(cfg, run)
    ensures exists n: nat :: Over(run(n)) && (run(n).pc.GaveUp? || Clean(cfg, run(n))) && forall k | n <= k :: run(k) == run(n)
  {
    RunInv(cfg, run, 0);
    var n := ComesToRest(cfg, run, 0);
    RunInv(cfg, run, n);
    hide Inv, CanAct, IsRun, Clean;
    GoesOn(cfg, run(n));
    if run(n).pc == Done { CleanEnd(cfg, run(n)); }
  }

  // ----- The identify procedure ---------------------------------------------------------------------------------

  /** What one trial gets to see: a message, or a timeout. */
  datatype Answer = NoAnswer | Answer(reply: Reply)

  /** `awaitNetPerfMeterAcknowledge` with a timeout. */
  method AwaitAcknowledge(answer: Answer, key: FlowKey) returns (okay: bool)
    ensures okay <==> Acknowledged(answer, key)
    ensures okay <==> answer == Answer(Acknowledge(key, true))
  {
    if answer.NoAnswer? {
      return false;
    }
    match answer.reply
    case Results(_, _) => return false;
    case Acknowledge(received, status) =>
      if received != key {
        return false;
      }
      return status;
  }

  predicate Acknowledged(answer: Answer, key: FlowKey) {
    answer.Answer? && Accepts(answer.reply, key)
  }

  /** Where the session goes from a trial on, if the trials get these answers in turn. */
  function AfterTrials(cfg: Config, i: nat, trial: nat, answers: seq<Answer>): PC
    requires i < |cfg.flows| && 1 <= trial <= MaxTrials(cfg, i) <= |answers|
    decreases MaxTrials(cfg, i) - trial
  {
    if Acknowledged(answers[trial - 1], cfg.flows[i].key) then FirstFlow(cfg, i + 1)
    else if NextTrial(cfg, i, trial).GaveUp? then GaveUp(i)
    else AfterTrials(cfg, i, NextTrial(cfg, i, trial).trial, answers)
  }

  /** The retry loop: one IDENTIFY for each trial, until an acknowledgement comes. */
  method PerformIdentifyFlow(cfg: Config, i: nat, answers: seq<Answer>) returns (okay: bool, sent: nat)
    requires i < |cfg.flows| && |answers| >= MaxTrials(cfg, i)
    ensures var trials, wanted := if cfg.flows[i].reliable then 1 else 5, Answer(Acknowledge(cfg.flows[i].key, true));
      && (okay <==> exists t :: 0 <= t < trials && answers[t] == wanted)
      && (okay ==> 0 < sent <= trials && answers[sent - 1] == wanted && forall t | 0 <= t < sent - 1 :: answers[t] != wanted)
      && (!okay ==> sent == trials)
    ensures AfterTrials(cfg, i, 1, answers) == if okay then FirstFlow(cfg, i + 1) else GaveUp(i)
  {
    hide FirstFlow;
    var maxTrials := if cfg.flows[i].reliable then RELIABLE_IDENTIFY_MAX_TRIALS else UNRELIABLE_IDENTIFY_MAX_TRIALS;
    sent := 0;
    var trial := 1;
    while trial <= maxTrials
      invariant 1 <= trial <= maxTrials + 1 && sent == trial - 1
      invariant forall t | 0 <= t < trial - 1 :: !Acknowledged(answers[t], cfg.flows[i].key)
      invariant AfterTrials(cfg, i, 1, answers) == if trial <= maxTrials then AfterTrials(cfg, i, trial, answers) else GaveUp(i)
    {
      sent := sent + 1;
      var acknowledged := AwaitAcknowledge(answers[trial - 1], cfg.flows[i].key);
      if acknowledged {
        return true, sent;
      }
      trial := trial + 1;
    }
    okay := false;
  }
}
