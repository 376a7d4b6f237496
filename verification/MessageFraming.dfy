/** How a byte stream splits into messages: the state machine of src/messagereader.cc as a
    function on values, and the direct parse of the stream that it amounts to. */
module MessageFraming {

  type byte = x: int | 0 <= x < 256

  /** The bytes of the type, flags and length fields. */
  const HEADER_SIZE: nat := 4

  datatype Status = WaitingForHeader | PartialRead | StreamError

  /** What a socket remembers between two calls: `buffered` are the first `BytesRead` bytes
      of its message buffer. */
  datatype View = View(status: Status, messageSize: nat, buffered: seq<byte>)

  datatype Result =
    | Message(bytes: seq<byte>)
    | PartialMessage
    | StreamFailure
    | SocketFailure
    | Shutdown
    | BadSocket

  /** The length field, in network byte order. */
  function LengthField(s: seq<byte>): (n: nat)
    requires |s| >= HEADER_SIZE
    ensures n < 0x1_0000
  {
    (s[2] as int) * 256 + s[3] as int
  }

  predicate ValidView(v: View, capacity: nat) {
    match v.status
    case WaitingForHeader => |v.buffered| < HEADER_SIZE && v.messageSize == 0
    case PartialRead =>
      HEADER_SIZE <= |v.buffered| < v.messageSize <= capacity && v.messageSize == LengthField(v.buffered)
    case StreamError => |v.buffered| <= capacity
  }

  /** The number of bytes that the next call asks for. */
  function Wanted(v: View): int {
    match v.status
    case WaitingForHeader => HEADER_SIZE - |v.buffered|
    case PartialRead => v.messageSize - |v.buffered|
    case StreamError => 0
  }

  /** What a call does with the bytes it has received. */
  function Feed(v: View, chunk: seq<byte>, capacity: nat, bufferSize: nat): (View, Result)
    requires ValidView(v, capacity) && 0 < |chunk| <= Wanted(v)
  {
    var s := v.buffered + chunk;
    if v.status == WaitingForHeader && |s| < HEADER_SIZE then (View(WaitingForHeader, 0, s), PartialMessage) else
    var size := if v.status == WaitingForHeader then LengthField(s) else v.messageSize;
    if v.status == WaitingForHeader && (size < HEADER_SIZE || size > capacity) then (View(StreamError, size, s), StreamFailure)
    else if |s| < size then (View(PartialRead, size, s), PartialMessage)
    else if size > bufferSize then (View(StreamError, size, s), StreamFailure)
    else (View(WaitingForHeader, 0, []), Message(s))
  }

  // ----- The direct parse --------------------------------------------------------------------

  /** The complete messages of a stream, what follows them, and whether that is an error. */
  datatype Parsed = Parsed(messages: seq<seq<byte>>, rest: seq<byte>, failed: bool)

  function Parse(s: seq<byte>, capacity: nat, bufferSize: nat): Parsed
    decreases |s|
  {
    if |s| < HEADER_SIZE then Parsed([], s, false) else
    var size := LengthField(s);
    if size < HEADER_SIZE || size > capacity then Parsed([], s, true)
    else if |s| < size then Parsed([], s, false)
    else if size > bufferSize then Parsed([], s, true)
    else
      var p := Parse(s[size..], capacity, bufferSize);
      Parsed([s[..size]] + p.messages, p.rest, p.failed)
  }

  function Concat(messages: seq<seq<byte>>): seq<byte> {
    if messages == [] then [] else messages[0] + Concat(messages[1..])
  }

  lemma Associate<T>(a: seq<T>, b: seq<T>, c: seq<T>)
    ensures a + (b + c) == (a + b) + c
  {
  }

  lemma {:induction false} ConcatAppend(a: seq<seq<byte>>, b: seq<seq<byte>>)
    ensures Concat(a + b) == Concat(a) + Concat(b)
  {
    if a == [] {
      assert a + b == b;
    } else {
      ConcatAppend(a[1..], b);
      assert (a + b)[1..] == a[1..] + b;
      Associate(a[0], Concat(a[1..]), Concat(b));
    }
  }

  /** Nothing is lost: the messages and the rest are the stream. */
  lemma {:induction false} ParseConserves(s: seq<byte>, capacity: nat, bufferSize: nat)
    ensures var p := Parse(s, capacity, bufferSize); Concat(p.messages) + p.rest == s
    decreases |s|
  {
    if |s| >= HEADER_SIZE {
      var size := LengthField(s);
      if HEADER_SIZE <= size <= capacity && size <= |s| && size <= bufferSize {
        ParseConserves(s[size..], capacity, bufferSize);
        var q := Parse(s[size..], capacity, bufferSize);
        var p := Parse(s, capacity, bufferSize);
        assert p.messages[1..] == q.messages;
        assert s == s[..size] + s[size..];
        assert Concat(p.messages) + p.rest == s[..size] + (Concat(q.messages) + q.rest);
      }
    }
  }

  lemma LengthOfPrefix(s: seq<byte>, t: seq<byte>)
    requires |s| >= HEADER_SIZE
    ensures LengthField(s + t) == LengthField(s)
  {
  }

  /** A parse can be continued where it stopped. */
  lemma {:induction false} ParseContinues(s: seq<byte>, t: seq<byte>, capacity: nat, bufferSize: nat)
    requires !Parse(s, capacity, bufferSize).failed
    ensures var p := Parse(s, capacity, bufferSize);
      var q := Parse(p.rest + t, capacity, bufferSize);
      Parse(s + t, capacity, bufferSize) == Parsed(p.messages + q.messages, q.rest, q.failed)
    decreases |s|
  {
    var p := Parse(s, capacity, bufferSize);
    if p.messages != [] {
      var size := LengthField(s);
      LengthOfPrefix(s, t);
      ParseContinues(s[size..], t, capacity, bufferSize);
      assert (s + t)[size..] == s[size..] + t && (s + t)[..size] == s[..size];
      var p' := Parse(s[size..], capacity, bufferSize);
      var q := Parse(p.rest + t, capacity, bufferSize);
      Associate([s[..size]], p'.messages, q.messages);
    } else {
      var q := Parse(s + t, capacity, bufferSize);
      assert p.rest == s && [] + q.messages == q.messages;
    }
  }

  // ----- Independence of the chunks ------------------------------------------------------------

  /** The state that belongs to the end of a stream. */
  ghost predicate Reflects(v: View, p: Parsed, capacity: nat) {
    && ValidView(v, capacity) && v.buffered == p.rest && (v.status == StreamError <==> p.failed)
  }

  /** Bytes that are still to come cannot be read yet: what is buffered is never a whole message. */
  lemma {:induction false} RestIsIncomplete(s: seq<byte>, capacity: nat, bufferSize: nat)
    requires !Parse(s, capacity, bufferSize).failed
    ensures var rest := Parse(s, capacity, bufferSize).rest;
      Parse(rest, capacity, bufferSize) == Parsed([], rest, false)
    decreases |s|
  {
    if |s| >= HEADER_SIZE && LengthField(s) <= |s| {
      RestIsIncomplete(s[LengthField(s)..], capacity, bufferSize);
    }
  }

  /** One call advances the parse by exactly the received bytes. */
  lemma FeedParses(v: View, s: seq<byte>, chunk: seq<byte>, capacity: nat, bufferSize: nat)
    requires Reflects(v, Parse(s, capacity, bufferSize), capacity)
    requires HEADER_SIZE <= capacity && 0 < |chunk| <= Wanted(v)
    ensures var (v', result) := Feed(v, chunk, capacity, bufferSize);
      var p, p' := Parse(s, capacity, bufferSize), Parse(s + chunk, capacity, bufferSize);
      && Reflects(v', p', capacity)
      && p'.messages == p.messages + (if result.Message? then [result.bytes] else [])
      && (result == StreamFailure <==> p'.failed)
  {
    var p := Parse(s, capacity, bufferSize);
    ParseContinues(s, chunk, capacity, bufferSize);
    RestIsIncomplete(s, capacity, bufferSize);
    var t := p.rest + chunk;
    if |t| >= HEADER_SIZE {
      if v.status == PartialRead { LengthOfPrefix(p.rest, chunk); }
      var size := LengthField(t);
      if HEADER_SIZE <= size <= capacity && size <= |t| && size <= bufferSize {
        assert |t| == size && t[..size] == t && t[size..] == [];
      }
    }
  }

  /** The calls on one socket: each receives at least one byte and no more than it asked for. */
  ghost predicate Legal(v: View, chunks: seq<seq<byte>>, capacity: nat, bufferSize: nat)
    requires ValidView(v, capacity)
    decreases |chunks|
  {
    chunks != [] ==>
      && 0 < |chunks[0]| <= Wanted(v)
      && var v' := Feed(v, chunks[0], capacity, bufferSize).0;
      ValidView(v', capacity) && Legal(v', chunks[1..], capacity, bufferSize)
  }

  function Run(v: View, chunks: seq<seq<byte>>, capacity: nat, bufferSize: nat): (View, seq<seq<byte>>)
    requires ValidView(v, capacity) && Legal(v, chunks, capacity, bufferSize)
    decreases |chunks|
  {
    if chunks == [] then (v, []) else
    var (v', result) := Feed(v, chunks[0], capacity, bufferSize);
    var (v'', delivered) := Run(v', chunks[1..], capacity, bufferSize);
    (v'', (if result.Message? then [result.bytes] else []) + delivered)
  }

  const FRESH: View := View(WaitingForHeader, 0, [])

  lemma {:induction false} RunParses(v: View, s: seq<byte>, chunks: seq<seq<byte>>, capacity: nat, bufferSize: nat)
    requires HEADER_SIZE <= capacity && Reflects(v, Parse(s, capacity, bufferSize), capacity)
    requires Legal(v, chunks, capacity, bufferSize)
    ensures var (v', delivered) := Run(v, chunks, capacity, bufferSize);
      var p, p' := Parse(s, capacity, bufferSize), Parse(s + Concat(chunks), capacity, bufferSize);
      Reflects(v', p', capacity) && p'.messages == p.messages + delivered
    decreases |chunks|
  {
    hide Parse, Feed, Wanted;
    if chunks == [] {
      assert s + Concat(chunks) == s;
    } else {
      FeedParses(v, s, chunks[0], capacity, bufferSize);
      var v' := Feed(v, chunks[0], capacity, bufferSize).0;
      RunParses(v', s + chunks[0], chunks[1..], capacity, bufferSize);
      Associate(s, chunks[0], Concat(chunks[1..]));
    }
  }

  lemma NothingParsed(capacity: nat, bufferSize: nat)
    ensures Parse([], capacity, bufferSize) == Parsed([], [], false)
  {
  }

  /** However a stream is cut into chunks, the delivered messages are those of the direct
      parse, and delivered plus buffered bytes are the bytes received. */
  lemma ChunkingDoesNotMatter(chunks: seq<seq<byte>>, capacity: nat, bufferSize: nat)
    requires HEADER_SIZE <= capacity && Legal(FRESH, chunks, capacity, bufferSize)
    ensures var (v, delivered) := Run(FRESH, chunks, capacity, bufferSize);
      && delivered == Parse(Concat(chunks), capacity, bufferSize).messages
      && (v.status == StreamError <==> Parse(Concat(chunks), capacity, bufferSize).failed)
      && Concat(delivered) + v.buffered == Concat(chunks)
  {
    hide Parse, Concat, Run, Legal;
    NothingParsed(capacity, bufferSize);
    RunParses(FRESH, [], chunks, capacity, bufferSize);
    assert [] + Concat(chunks) == Concat(chunks);
    ParseConserves(Concat(chunks), capacity, bufferSize);
  }

  // ----- Well-formed messages --------------------------------------------------------------------

  ghost predicate WellFormed(m: seq<byte>, capacity: nat, bufferSize: nat) {
    HEADER_SIZE <= |m| <= capacity && |m| <= bufferSize && LengthField(m) == |m|
  }

  /** A stream of well-formed messages parses into exactly these messages. */
  lemma {:induction false} ParseOfConcat(messages: seq<seq<byte>>, capacity: nat, bufferSize: nat)
    requires forall m | m in messages :: WellFormed(m, capacity, bufferSize)
    ensures Parse(Concat(messages), capacity, bufferSize) == Parsed(messages, [], false)
  {
    if messages != [] {
      ParseOfConcat(messages[1..], capacity, bufferSize);
      var m, rest := messages[0], Concat(messages[1..]);
      assert m in messages;
      LengthOfPrefix(m, rest);
      assert (m + rest)[..|m|] == m && (m + rest)[|m|..] == rest;
      assert messages == [m] + messages[1..];
    }
  }

  /** A well-formed message at the front of a stream is its first message. */
  lemma FirstOfStream(m: seq<byte>, rest: seq<byte>, capacity: nat, bufferSize: nat)
    requires WellFormed(m, capacity, bufferSize)
    ensures var p := Parse(m + rest, capacity, bufferSize); p.messages != [] && p.messages[0] == m
  {
    LengthOfPrefix(m, rest);
    assert (m + rest)[..|m|] == m;
  }

  /** Messages are delivered only if they are well-formed, and what remains is the beginning of a
      message, or a header that cannot be one. */
  lemma {:induction false} ParseIsRight(s: seq<byte>, capacity: nat, bufferSize: nat)
    ensures var p := Parse(s, capacity, bufferSize);
      && (forall m | m in p.messages :: WellFormed(m, capacity, bufferSize))
      && (p.failed <==> |p.rest| >= 4 && (LengthField(p.rest) < 4 || LengthField(p.rest) > capacity
                                          || (LengthField(p.rest) <= |p.rest| && LengthField(p.rest) > bufferSize)))
      && (!p.failed ==> |p.rest| < 4 || |p.rest| < LengthField(p.rest))
    decreases |s|
  {
    if |s| >= HEADER_SIZE {
      var size := LengthField(s);
      if HEADER_SIZE <= size <= capacity && size <= |s| && size <= bufferSize {
        ParseIsRight(s[size..], capacity, bufferSize);
        assert LengthField(s[..size]) == size;
      }
    }
  }

  /** A broken stream stays broken, whatever follows, and delivers nothing more. */
  lemma {:induction false} ParseFailureSticks(s: seq<byte>, t: seq<byte>, capacity: nat, bufferSize: nat)
    requires Parse(s, capacity, bufferSize).failed
    ensures Parse(s + t, capacity, bufferSize).failed
    ensures Parse(s + t, capacity, bufferSize).messages == Parse(s, capacity, bufferSize).messages
    decreases |s|
  {
    var size := LengthField(s);
    LengthOfPrefix(s, t);
    if Parse(s, capacity, bufferSize).messages != [] {
      ParseFailureSticks(s[size..], t, capacity, bufferSize);
      assert (s + t)[size..] == s[size..] + t && (s + t)[..size] == s[..size];
    }
  }

  /** Sending and receiving: however much of the stream of some messages has arrived, in
      whatever chunks, the first of these messages have been delivered, and nothing else;
      when all has arrived, all of them have. */
  lemma MessagesArrive(messages: seq<seq<byte>>, chunks: seq<seq<byte>>, capacity: nat, bufferSize: nat)
    requires forall m | m in messages :: WellFormed(m, capacity, bufferSize)
    requires HEADER_SIZE <= capacity && Legal(FRESH, chunks, capacity, bufferSize)
    requires Concat(chunks) <= Concat(messages)
    ensures var (v, delivered) := Run(FRESH, chunks, capacity, bufferSize);
      && v.status != StreamError && delivered <= messages
      && (Concat(chunks) == Concat(messages) ==> delivered == messages && v == FRESH)
  {
    var all, some := Concat(messages), Concat(chunks);
    var missing := all[|some|..];
    assert all == some + missing;
    hide Parse, Run, Legal, Concat;
    ParseOfConcat(messages, capacity, bufferSize);
    ChunkingDoesNotMatter(chunks, capacity, bufferSize);
    RunParses(FRESH, [], chunks, capacity, bufferSize) by { NothingParsed(capacity, bufferSize); }
    assert [] + some == some;
    if Parse(some, capacity, bufferSize).failed {
      ParseFailureSticks(some, missing, capacity, bufferSize);
      assert false;
    }
    ParseContinues(some, missing, capacity, bufferSize);
  }
}
