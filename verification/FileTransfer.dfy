/** Uploading and downloading a results file in NETPERFMETER_RESULTS messages: src/control.cc. */
module FileTransfer {
  import opened MessageFraming

  /** NETPERFMETER_RESULTS_MAX_DATA_LENGTH. */
  const MAX_DATA_LENGTH: nat := 1400

  /** The identity that acknowledgements carry. */
  datatype FlowKey = FlowKey(measurementID: nat, flowID: nat, streamID: nat)

  /** What the passive side sends on the control connection. */
  datatype Reply =
    | Acknowledge(key: FlowKey, okay: bool)
    | Results(data: seq<byte>, eof: bool)

  /** The messages of one file; a full last block is followed by an empty one. */
  function Chunks(content: seq<byte>): (replies: seq<Reply>)
    ensures replies != []
    decreases |content|
  {
    if |content| < MAX_DATA_LENGTH then [Results(content, true)]
    else [Results(content[..MAX_DATA_LENGTH], false)] + Chunks(content[MAX_DATA_LENGTH..])
  }

  /** A file that is read from its current position on; `AtEnd` is what `feof` reports. */
  class InputStream {
    const Content: seq<byte>
    var Position: nat
    var AtEnd: bool

    ghost predicate Valid()
      reads this
    {
      Position <= |Content|
    }

    constructor (content: seq<byte>)
      ensures Valid() && Content == content && Position == 0 && !AtEnd
    {
      Content, Position, AtEnd := content, 0, false;
    }

    /** `fread`: the end of the file is noticed when fewer bytes than wanted are left. */
    method Read(wanted: nat) returns (data: seq<byte>)
      requires Valid()
      modifies this
      ensures Valid() && Position == old(Position) + |data|
      ensures if |Content| - old(Position) < wanted then data == Content[old(Position)..] && AtEnd
              else data == Content[old(Position)..old(Position) + wanted] && AtEnd == old(AtEnd)
    {
      var n := if |Content| - Position < wanted then |Content| - Position else wanted;
      data := Content[Position..Position + n];
      Position := Position + n;
      if n < wanted {
        AtEnd := true;
      }
    }
  }

  /** One direction of the control connection. */
  class Channel {
    var Queue: seq<Reply>

    constructor (queue: seq<Reply>)
      ensures Queue == queue
    {
      Queue := queue;
    }
  }

  /** Sends the file, from its current position on. */
  method UploadOutputFile(channel: Channel, file: InputStream)
    requires file.Valid() && !file.AtEnd
    modifies channel, file
    ensures channel.Queue == old(channel.Queue) + Chunks(old(file.Content[file.Position..]))
  {
    ghost var goal := channel.Queue + Chunks(file.Content[file.Position..]);
    var eof := false;
    while !eof
      invariant file.Valid() && file.AtEnd == eof
      invariant goal == channel.Queue + if eof then [] else Chunks(file.Content[file.Position..])
      decreases |file.Content| - file.Position, !eof
    {
      ghost var rest, queue := file.Content[file.Position..], channel.Queue;
      var data := file.Read(MAX_DATA_LENGTH);
      eof := file.AtEnd;
      channel.Queue := channel.Queue + [Results(data, eof)];
      NextChunk(queue, rest, data, eof, file.Content[file.Position..]);
    }
  }

  lemma NextChunk(queue: seq<Reply>, rest: seq<byte>, data: seq<byte>, eof: bool, rest': seq<byte>)
    requires rest == data + rest' && eof == (|rest| < MAX_DATA_LENGTH)
    requires if eof then data == rest else |data| == MAX_DATA_LENGTH
    ensures queue + Chunks(rest) == queue + [Results(data, eof)] + if eof then [] else Chunks(rest')
  {
    if !eof {
      assert rest[..MAX_DATA_LENGTH] == data && rest[MAX_DATA_LENGTH..] == rest';
      Associate(queue, [Results(data, eof)], Chunks(rest'));
    }
  }

  /** What a download makes of the messages that are there: whether it succeeds, the content
      written, and what it leaves unread. */
  function Download(queue: seq<Reply>): (bool, seq<byte>, seq<Reply>)
    decreases |queue|
  {
    if queue == [] then (false, [], [])
    else if !queue[0].Results? then (false, [], queue[1..])
    else if queue[0].eof then (true, queue[0].data, queue[1..])
    else
      var (success, content, rest) := Download(queue[1..]);
      (success, queue[0].data + content, rest)
  }

  /** The parts of a file, put together. */
  function DataOf(replies: seq<Reply>): seq<byte>
    requires forall r | r in replies :: r.Results?
  {
    if replies == [] then [] else replies[0].data + DataOf(replies[1..])
  }

  /** Parts of a file that go on. */
  ghost predicate GoesOn(queue: seq<Reply>, k: nat) {
    k <= |queue| && forall j | 0 <= j < k :: queue[j].Results? && !queue[j].eof
  }

  /** A download stops at the first message that does not go on: with success at a part with the
      EOF flag, and without it at any other message, which it takes, or when there is none. */
  lemma {:induction false} DownloadStops(queue: seq<Reply>, k: nat)
    requires GoesOn(queue, k) && !GoesOn(queue, k + 1)
    ensures Download(queue) ==
      if k == |queue| then (false, DataOf(queue), [])
      else if queue[k].Results? then (true, DataOf(queue[..k + 1]), queue[k + 1..])
      else (false, DataOf(queue[..k]), queue[k + 1..])
  {
    if k > 0 {
      var rest := queue[1..];
      assert GoesOn(rest, k - 1) && !GoesOn(rest, k) by {
        if GoesOn(rest, k) {
          forall j | 0 <= j < k + 1 ensures queue[j].Results? && !queue[j].eof { if j > 0 { assert queue[j] == rest[j - 1]; } }
        }
      }
      DownloadStops(rest, k - 1);
      if k < |queue| {
        assert queue[..k][1..] == rest[..k - 1] && queue[k + 1..] == rest[k..];
        assert queue[..k + 1][1..] == rest[..k];
      }
    } else if queue != [] {
      assert queue[..1] == [queue[0]] && queue[..1][1..] == [] && queue[0].Results? ==> queue[0].eof;
      if queue[0].Results? { assert queue[0].data + DataOf([]) == queue[0].data; }
    }
  }

  /** Reads the messages of one file; an empty queue stands for a broken connection. */
  method DownloadOutputFile(channel: Channel) returns (success: bool, content: seq<byte>)
    modifies channel
    ensures (success, content, channel.Queue) == Download(old(channel.Queue))
  {
    success, content := false, [];
    ghost var goal := Download(channel.Queue);
    assert [] + goal.1 == goal.1;
    while channel.Queue != []
      invariant !success && goal.0 == Download(channel.Queue).0 && goal.2 == Download(channel.Queue).2
      invariant goal.1 == content + Download(channel.Queue).1
      decreases |channel.Queue|
    {
      var message := channel.Queue[0];
      ghost var queue := channel.Queue;
      channel.Queue := channel.Queue[1..];
      if !message.Results? {
        assert content + [] == content;
        return false, content;
      }
      if !message.eof { Associate(content, message.data, Download(channel.Queue).1); }
      content := content + message.data;
      if message.eof {
        success := true;
        return;
      }
    }
    assert content + [] == content;
  }

  /** A file arrives as it was sent, and nothing of what follows is touched. */
  lemma {:induction false} DownloadOfUpload(content: seq<byte>, rest: seq<Reply>)
    ensures Download(Chunks(content) + rest) == (true, content, rest)
    decreases |content|
  {
    var queue := Chunks(content) + rest;
    if |content| < MAX_DATA_LENGTH {
      assert queue[1..] == rest;
    } else {
      DownloadOfUpload(content[MAX_DATA_LENGTH..], rest);
      assert queue[1..] == Chunks(content[MAX_DATA_LENGTH..]) + rest;
      assert content[..MAX_DATA_LENGTH] + content[MAX_DATA_LENGTH..] == content;
    }
  }

  /** Exactly the last message has the EOF flag; a file of n bytes takes n / 1400 + 1 messages. */
  lemma {:induction false} ChunksEnd(content: seq<byte>)
    ensures var replies := Chunks(content);
      && |replies| == |content| / MAX_DATA_LENGTH + 1
      && forall i | 0 <= i < |replies| ::
           replies[i].Results? && |replies[i].data| <= MAX_DATA_LENGTH && (replies[i].eof <==> i == |replies| - 1)
    decreases |content|
  {
    if |content| >= MAX_DATA_LENGTH { ChunksEnd(content[MAX_DATA_LENGTH..]); }
  }
}
