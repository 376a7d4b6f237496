/** Reading whole messages from sockets: src/messagereader.cc. */
module MessageReaders {
  import opened MessageFraming

  /** Stream protocols (TCP, MPTCP, QUIC) against protocols whose reads are whole messages. */
  datatype Protocol = Stream | Datagram

  /** The kernel's side of a socket: the bytes that have not been read yet. */
  class Connection {
    var Unread: seq<byte>

    constructor (unread: seq<byte>)
      ensures Unread == unread
    {
      Unread := unread;
    }

    /** `recv`: an error, or as many bytes as are offered, wanted and there; zero bytes are
        the end of the stream. */
    method Recv(into: array<byte>, at: nat, wanted: nat, offered: int) returns (received: int)
      requires at + wanted <= into.Length
      modifies this, into
      ensures offered < 0 ==> received == -1 && Unread == old(Unread)
      ensures offered >= 0 ==> 0 <= received <= wanted && received <= |old(Unread)| && Unread == old(Unread)[received..]
      ensures offered > 0 && wanted > 0 && old(Unread) != [] ==> received > 0
      ensures into[..at] == old(into[..at])
      ensures received > 0 ==> into[at..at + received] == old(Unread)[..received]
      ensures received <= 0 ==> into[..] == old(into[..])
    {
      if offered < 0 {
        return -1;
      }
      received := if offered < wanted then offered else wanted;
      received := if received < |Unread| then received else |Unread|;
      forall i | 0 <= i < received { into[at + i] := Unread[i]; }
      assert into[at..at + received] == Unread[..received];
      Unread := Unread[received..];
    }
  }

  class Socket {
    const Protocol: Protocol
    const Input: Connection
    const MessageBuffer: array<byte>
    var Status: Status
    var UseCount: nat
    var MessageSize: nat
    var BytesRead: nat

    constructor (protocol: Protocol, input: Connection, maxMessageSize: nat)
      requires maxMessageSize >= HEADER_SIZE
      ensures Protocol == protocol && Input == input && MessageBuffer.Length == maxMessageSize && fresh(MessageBuffer)
      ensures UseCount == 1 && Valid() && Abstract() == FRESH
    {
      Protocol, Input := protocol, input;
      MessageBuffer := new byte[maxMessageSize];
      Status, UseCount, MessageSize, BytesRead := WaitingForHeader, 1, 0, 0;
    }

    ghost function Abstract(): View
      reads this, MessageBuffer
      requires BytesRead <= MessageBuffer.Length
    {
      View(Status, MessageSize, MessageBuffer[..BytesRead])
    }

    ghost predicate Valid()
      reads this, MessageBuffer
    {
      && MessageBuffer.Length >= HEADER_SIZE && UseCount > 0 && BytesRead <= MessageBuffer.Length
      && ValidView(Abstract(), MessageBuffer.Length)
    }

    /** The received bytes extend the buffered ones. */
    lemma Extended(v: View, chunk: seq<byte>)
      requires BytesRead + |chunk| <= MessageBuffer.Length && v.buffered == MessageBuffer[..BytesRead]
      requires MessageBuffer[BytesRead..BytesRead + |chunk|] == chunk
      ensures MessageBuffer[..BytesRead + |chunk|] == v.buffered + chunk
    {
    }

    /** The state machine, after `BytesRead` has been advanced over the received bytes. */
    method HandleReceived(buffer: array<byte>, bufferSize: nat, ghost v: View, ghost chunk: seq<byte>) returns (result: Result)
      requires ValidView(v, MessageBuffer.Length) && 0 < |chunk| <= Wanted(v) && UseCount > 0
      requires HEADER_SIZE <= MessageBuffer.Length && BytesRead <= MessageBuffer.Length && buffer != MessageBuffer
      requires Status == v.status && MessageSize == v.messageSize && MessageBuffer[..BytesRead] == v.buffered + chunk
      requires bufferSize <= buffer.Length
      modifies this`Status, this`MessageSize, this`BytesRead, buffer
      ensures Valid() && (Abstract(), result) == Feed(v, chunk, MessageBuffer.Length, bufferSize)
      ensures result.Message? ==> |result.bytes| <= bufferSize && buffer[..|result.bytes|] == result.bytes
      ensures !result.Message? ==> buffer[..] == old(buffer[..])
    {
      if Status == WaitingForHeader {
        if BytesRead >= HEADER_SIZE {
          MessageSize := (MessageBuffer[2] as int) * 256 + MessageBuffer[3] as int;
          assert MessageSize == LengthField(MessageBuffer[..BytesRead]);
          if MessageSize < HEADER_SIZE {
            Status := StreamError;
            return StreamFailure;
          } else if MessageSize > MessageBuffer.Length {
            Status := StreamError;
            return StreamFailure;
          }
          Status := PartialRead;
        } else {
          return PartialMessage;
        }
      }
      if BytesRead < MessageSize {
        return PartialMessage;
      }
      if MessageSize > bufferSize {
        Status := StreamError;
        return StreamFailure;
      }
      var size := MessageSize;
      assert size == BytesRead && MessageBuffer[..size] == v.buffered + chunk;
      forall i | 0 <= i < size { buffer[i] := MessageBuffer[i]; }
      result := Message(MessageBuffer[..size]);
      Status := WaitingForHeader;
      MessageSize := 0;
      BytesRead := 0;
      assert MessageBuffer[..BytesRead] == [];
      assert Feed(v, chunk, MessageBuffer.Length, bufferSize).1 == result;
      assert Feed(v, chunk, MessageBuffer.Length, bufferSize).0 == Abstract();
    }

    /** One call of `receiveMessage` for this socket. */
    method Receive(buffer: array<byte>, offered: int) returns (result: Result, ghost chunk: seq<byte>)
      requires Valid() && buffer != MessageBuffer
      modifies this, MessageBuffer, Input, buffer
      ensures Valid() && UseCount == old(UseCount) && old(Input.Unread) == chunk + Input.Unread
      ensures Protocol == Datagram ==>
        && Abstract() == old(Abstract()) && |chunk| <= buffer.Length
        && result == if offered < 0 then SocketFailure else if chunk == [] then Shutdown else Message(chunk)
      ensures Protocol == Stream ==>
        ReceivedBy(old(Abstract()), Abstract(), MessageBuffer.Length, chunk, offered, buffer.Length, result)
      ensures Protocol == Stream && offered > 0 && old(Input.Unread) != [] ==> chunk != [] || old(Status) == StreamError
      ensures result.Message? ==> |result.bytes| <= buffer.Length && buffer[..|result.bytes|] == result.bytes
    {
      ghost var v, unread := Abstract(), Input.Unread;
      chunk := [];
      if Protocol == Datagram {
        var received := Input.Recv(buffer, 0, buffer.Length, offered);
        if received < 0 {
          return SocketFailure, [];
        }
        chunk := unread[..received];
        return if received == 0 then Shutdown else Message(buffer[..received]), chunk;
      }
      var bytesToRead: nat;
      if Status == WaitingForHeader {
        bytesToRead := HEADER_SIZE - BytesRead;
      } else if Status == PartialRead {
        bytesToRead := MessageSize - BytesRead;
      } else {
        return StreamFailure, [];
      }
      var received := Input.Recv(MessageBuffer, BytesRead, bytesToRead, offered);
      if received > 0 {
        chunk := unread[..received];
        Extended(v, chunk);
        BytesRead := BytesRead + received;
        result := HandleReceived(buffer, buffer.Length, v, chunk);
      } else if received < 0 {
        return SocketFailure, [];
      } else {
        return Shutdown, [];
      }
    }
  }

  class MessageReader {
    var SocketMap: map<int, Socket>

    ghost function Footprint(): set<object>
      reads this, SocketMap.Values
    {
      {this} + SocketMap.Values + (set s | s in SocketMap.Values :: s.MessageBuffer as object)
    }

    ghost predicate Valid()
      reads Footprint()
    {
      && (forall sd | sd in SocketMap :: SocketMap[sd].Valid())
      && (forall a, b | a in SocketMap && b in SocketMap && a != b ::
           SocketMap[a] != SocketMap[b] && SocketMap[a].MessageBuffer != SocketMap[b].MessageBuffer)
    }

    /** How often a socket is in use. */
    ghost function Uses(sd: int): nat
      reads this, SocketMap.Values
    {
      if sd in SocketMap then SocketMap[sd].UseCount else 0
    }

    /** What the reader remembers of a socket. */
    ghost function State(sd: int): View
      requires Valid()
      reads Footprint()
    {
      if sd in SocketMap then SocketMap[sd].Abstract() else FRESH
    }

    constructor ()
      ensures Valid() && SocketMap == map[] && Footprint() == {this}
    {
      SocketMap := map[];
    }

    /** Registers a socket, or one more use of it; a socket that must be new must not be known. */
    method RegisterSocket(protocol: Protocol, sd: int, input: Connection, mustBeNew: bool, maxMessageSize: nat)
      requires Valid() && maxMessageSize >= HEADER_SIZE && (mustBeNew ==> sd !in SocketMap)
      modifies this, SocketMap.Values
      ensures Valid() && fresh(Footprint() - old(Footprint()))
      ensures forall x :: Uses(x) == old(Uses(x)) + if x == sd then 1 else 0
      ensures forall x :: State(x) == old(State(x))
      ensures sd in SocketMap && SocketMap == old(SocketMap)[sd := SocketMap[sd]]
      ensures sd in old(SocketMap) ==> SocketMap == old(SocketMap)
      ensures sd !in old(SocketMap) ==>
        && fresh(SocketMap[sd]) && fresh(SocketMap[sd].MessageBuffer) && SocketMap[sd].MessageBuffer.Length == maxMessageSize
        && SocketMap[sd].Protocol == protocol && SocketMap[sd].Input == input
    {
      hide ValidView;
      if sd !in SocketMap {
        var socket := new Socket(protocol, input, maxMessageSize);
        SocketMap := SocketMap[sd := socket];
      } else {
        var socket := SocketMap[sd];
        assert forall x | x in SocketMap && x != sd :: SocketMap[x] != socket;
        socket.UseCount := socket.UseCount + 1;
      }
    }

    /** Ends one use; the socket is forgotten with its last use. */
    method DeregisterSocket(sd: int) returns (gone: bool)
      requires Valid()
      modifies this, SocketMap.Values
      ensures Valid() && Footprint() <= old(Footprint())
      ensures gone <==> Uses(sd) == 0
      ensures SocketMap == if old(Uses(sd)) > 1 then old(SocketMap) else old(SocketMap) - {sd}
      ensures forall x :: Uses(x) == old(Uses(x)) - if x == sd && old(Uses(sd)) > 0 then 1 else 0
      ensures forall x :: State(x) == if Uses(x) > 0 then old(State(x)) else FRESH
    {
      hide ValidView;
      if sd in SocketMap {
        var socket := SocketMap[sd];
        assert forall x | x in SocketMap && x != sd :: SocketMap[x] != socket;
        socket.UseCount := socket.UseCount - 1;
        if socket.UseCount == 0 {
          SocketMap := SocketMap - {sd};
          return true;
        }
        return false;
      }
      return true;
    }

    /** The objects that a call for `sd` may change, besides the caller's buffer. */
    ghost function Touched(sd: int): set<object>
      reads this, SocketMap.Values
    {
      if sd in SocketMap then {SocketMap[sd], SocketMap[sd].MessageBuffer, SocketMap[sd].Input} else {}
    }

    /** Reads what is there of the current message, at most `offered` bytes.  `chunk` are the
        bytes taken from the connection. */
    method ReceiveMessage(sd: int, buffer: array<byte>, offered: int) returns (result: Result, ghost chunk: seq<byte>)
      requires Valid() && (forall x | x in SocketMap :: SocketMap[x].MessageBuffer != buffer)
      modifies Touched(sd), buffer
      ensures Valid()
      ensures forall x | x != sd :: State(x) == old(State(x))
      ensures sd !in SocketMap ==> result == BadSocket && State(sd) == old(State(sd))
      ensures sd in SocketMap ==> old(SocketMap[sd].Input.Unread) == chunk + SocketMap[sd].Input.Unread
      ensures sd in SocketMap && SocketMap[sd].Protocol == Datagram ==>
        && State(sd) == old(State(sd)) && |chunk| <= buffer.Length
        && result == if offered < 0 then SocketFailure else if chunk == [] then Shutdown else Message(chunk)
      ensures sd in SocketMap && SocketMap[sd].Protocol == Stream ==> Received(old(State(sd)), State(sd), sd, chunk, offered, buffer.Length, result)
      ensures sd in SocketMap && SocketMap[sd].Protocol == Stream && offered > 0 && old(SocketMap[sd].Input.Unread) != [] ==>
        chunk != [] || old(State(sd)).status == StreamError
      ensures result.Message? ==> |result.bytes| <= buffer.Length && buffer[..|result.bytes|] == result.bytes
    {
      if sd !in SocketMap {
        return BadSocket, [];
      }
      var socket := SocketMap[sd];
      result, chunk := socket.Receive(buffer, offered);
      assert forall x | x in SocketMap && x != sd :: SocketMap[x] != socket && SocketMap[x].MessageBuffer != socket.MessageBuffer;
    }

    /** What one call on a stream does to the state of its socket. */
    ghost predicate Received(v: View, v': View, sd: int, chunk: seq<byte>, offered: int, bufferSize: nat, result: Result)
      requires sd in SocketMap
      reads this
    {
      ReceivedBy(v, v', SocketMap[sd].MessageBuffer.Length, chunk, offered, bufferSize, result)
    }
  }

  ghost predicate ReceivedBy(v: View, v': View, capacity: nat, chunk: seq<byte>, offered: int, bufferSize: nat, result: Result) {
    if v.status == StreamError then chunk == [] && v' == v && result == StreamFailure
    else if chunk == [] then v' == v && result == if offered < 0 then SocketFailure else Shutdown
    else ValidView(v, capacity) && |chunk| <= Wanted(v) && (v', result) == Feed(v, chunk, capacity, bufferSize)
  }

  // ----- Calls in a row -----------------------------------------------------------------------------

  /** One call advances the parse of the bytes that have been taken from a stream. */
  lemma ReceivedParses(v: View, v': View, taken: seq<byte>, capacity: nat, chunk: seq<byte>, offered: int, bufferSize: nat, result: Result)
    requires HEADER_SIZE <= capacity && Reflects(v, Parse(taken, capacity, bufferSize), capacity)
    requires ReceivedBy(v, v', capacity, chunk, offered, bufferSize, result)
    ensures var p, p' := Parse(taken, capacity, bufferSize), Parse(taken + chunk, capacity, bufferSize);
      Reflects(v', p', capacity) && p'.messages == p.messages + if result.Message? then [result.bytes] else []
    ensures result.Message? ==> v' == FRESH
    ensures !result.Message? && result != PartialMessage ==> chunk == [] || v'.status == StreamError
  {
    hide Parse;
    if chunk == [] {
      assert taken + chunk == taken;
    } else {
      FeedParses(v, taken, chunk, capacity, bufferSize);
    }
  }

  /** Calls until there is a whole message, or an error, or the end of the stream.  `before` are
      the bytes taken so far, and `taken` those taken here. */
  method ReceiveWhole(reader: MessageReader, sd: int, buffer: array<byte>, offers: nat -> int, ghost before: seq<byte>)
    returns (result: Result, ghost taken: seq<byte>)
    requires reader.Valid() && sd in reader.SocketMap && reader.SocketMap[sd].Protocol == Stream
    requires forall x | x in reader.SocketMap :: reader.SocketMap[x].MessageBuffer != buffer
    requires var n := reader.SocketMap[sd].MessageBuffer.Length; Reflects(reader.State(sd), Parse(before, n, buffer.Length), n)
    modifies reader.Touched(sd), buffer
    ensures reader.Valid() && (forall x | x != sd :: reader.State(x) == old(reader.State(x)))
    ensures old(reader.SocketMap[sd].Input.Unread) == taken + reader.SocketMap[sd].Input.Unread && result != PartialMessage
    ensures var n := reader.SocketMap[sd].MessageBuffer.Length;
      && Reflects(reader.State(sd), Parse(before + taken, n, buffer.Length), n)
      && Parse(before + taken, n, buffer.Length).messages == Parse(before, n, buffer.Length).messages + if result.Message? then [result.bytes] else []
    ensures result.Message? ==> |result.bytes| <= buffer.Length && buffer[..|result.bytes|] == result.bytes
    ensures result.Message? ==> reader.State(sd) == FRESH
    ensures var n := reader.SocketMap[sd].MessageBuffer.Length;
      var done, all := Parse(before, n, buffer.Length).messages, Parse(before + old(reader.SocketMap[sd].Input.Unread), n, buffer.Length).messages;
      (forall k: nat :: offers(k) > 0) && |done| < |all| ==> result == Message(all[|done|])
  {
    hide Parse, Feed, Reflects;
    ghost var socket := reader.SocketMap[sd];
    ghost var n, m := socket.MessageBuffer.Length, Parse(before, socket.MessageBuffer.Length, buffer.Length).messages;
    result, taken := PartialMessage, [];
    var k := 0;
    assert before + taken == before && taken + socket.Input.Unread == socket.Input.Unread;
    while result == PartialMessage
      invariant reader.Valid() && (forall x | x != sd :: reader.State(x) == old(reader.State(x)))
      invariant old(socket.Input.Unread) == taken + socket.Input.Unread
      invariant Reflects(reader.State(sd), Parse(before + taken, n, buffer.Length), n)
      invariant Parse(before + taken, n, buffer.Length).messages == m + if result.Message? then [result.bytes] else []
      invariant result.Message? ==> |result.bytes| <= buffer.Length && buffer[..|result.bytes|] == result.bytes
      invariant result.Message? ==> reader.State(sd) == FRESH
      invariant (forall k: nat :: offers(k) > 0) && !result.Message? && result != PartialMessage ==>
        socket.Input.Unread == [] || reader.State(sd).status == StreamError
      decreases |socket.Input.Unread|, result == PartialMessage
    {
      ghost var v := reader.State(sd);
      ghost var chunk;
      result, chunk := reader.ReceiveMessage(sd, buffer, offers(k));
      ReceivedParses(v, reader.State(sd), before + taken, n, chunk, offers(k), buffer.Length, result);
      Associate(before, taken, chunk);
      Associate(taken, chunk, socket.Input.Unread);
      taken := taken + chunk;
      k := k + 1;
    }
    Associate(before, taken, socket.Input.Unread);
    if forall i: nat :: offers(i) > 0 { NextArrives(reader.State(sd), before, taken, socket.Input.Unread, n, buffer.Length, result); }
  }

  /** The next message of the stream has been read, unless the stream is at its end or broken. */
  lemma NextArrives(v: View, before: seq<byte>, taken: seq<byte>, unread: seq<byte>, capacity: nat, bufferSize: nat, result: Result)
    requires Reflects(v, Parse(before + taken, capacity, bufferSize), capacity)
    requires Parse(before + taken, capacity, bufferSize).messages ==
      Parse(before, capacity, bufferSize).messages + if result.Message? then [result.bytes] else []
    requires !result.Message? ==> unread == [] || v.status == StreamError
    ensures var done, all := Parse(before, capacity, bufferSize).messages, Parse((before + taken) + unread, capacity, bufferSize).messages;
      |done| < |all| ==> result == Message(all[|done|])
  {
    hide Parse;
    if Parse(before + taken, capacity, bufferSize).failed {
      ParseFailureSticks(before + taken, unread, capacity, bufferSize);
    } else {
      ParseContinues(before + taken, unread, capacity, bufferSize);
      if unread == [] { assert (before + taken) + unread == before + taken; }
    }
  }

  /** A socket is registered, and the first message on its connection is read: it arrives if it
      fits the size that the socket was registered with, and the buffer. */
  method ReceiveFirst(reader: MessageReader, sd: int, input: Connection, maxMessageSize: nat, buffer: array<byte>, offers: nat -> int,
                      ghost m: seq<byte>, ghost rest: seq<byte>)
    returns (result: Result)
    requires reader.Valid() && sd !in reader.SocketMap && input.Unread == m + rest
    requires HEADER_SIZE <= maxMessageSize && WellFormed(m, maxMessageSize, buffer.Length) && forall k: nat :: offers(k) > 0
    requires forall x | x in reader.SocketMap :: reader.SocketMap[x].MessageBuffer != buffer
    modifies reader, reader.SocketMap.Values, input, buffer
    ensures reader.Valid() && reader.SocketMap.Keys == old(reader.SocketMap.Keys) + {sd}
    ensures result == Message(m) && buffer[..|m|] == m && input.Unread == rest && reader.State(sd) == FRESH
  {
    hide Parse, Feed, Reflects, WellFormed;
    reader.RegisterSocket(Stream, sd, input, true, maxMessageSize);
    FreshReflects(maxMessageSize, buffer.Length);
    FirstOfStream(m, rest, maxMessageSize, buffer.Length);
    ghost var taken;
    assert [] + input.Unread == m + rest;
    result, taken := ReceiveWhole(reader, sd, buffer, offers, []);
    OneParsed([] + taken, m, maxMessageSize, buffer.Length);
    assert input.Unread == (m + rest)[|m|..];
  }

  lemma FreshReflects(capacity: nat, bufferSize: nat)
    ensures Reflects(FRESH, Parse([], capacity, bufferSize), capacity) && Parse([], capacity, bufferSize).messages == []
  {
  }

  /** What has been taken for one message is this message. */
  lemma OneParsed(taken: seq<byte>, m: seq<byte>, capacity: nat, bufferSize: nat)
    requires Parse(taken, capacity, bufferSize).messages == [m] && Reflects(FRESH, Parse(taken, capacity, bufferSize), capacity)
    ensures taken == m
  {
    ParseConserves(taken, capacity, bufferSize);
    hide Parse;
    assert Concat([m]) == m by { assert [m][1..] == []; }
  }

  /** One call each time there is something to read: the messages are those of a direct parse of
      the bytes taken. */
  method ReceiveAll(reader: MessageReader, sd: int, buffer: array<byte>, offers: seq<int>, ghost before: seq<byte>)
    returns (messages: seq<seq<byte>>, ghost taken: seq<byte>)
    requires reader.Valid() && sd in reader.SocketMap && reader.SocketMap[sd].Protocol == Stream
    requires forall x | x in reader.SocketMap :: reader.SocketMap[x].MessageBuffer != buffer
    requires var n := reader.SocketMap[sd].MessageBuffer.Length; Reflects(reader.State(sd), Parse(before, n, buffer.Length), n)
    modifies reader.Touched(sd), buffer
    ensures reader.Valid() && (forall x | x != sd :: reader.State(x) == old(reader.State(x)))
    ensures old(reader.SocketMap[sd].Input.Unread) == taken + reader.SocketMap[sd].Input.Unread
    ensures var n := reader.SocketMap[sd].MessageBuffer.Length;
      && Reflects(reader.State(sd), Parse(before + taken, n, buffer.Length), n)
      && Parse(before + taken, n, buffer.Length).messages == Parse(before, n, buffer.Length).messages + messages
  {
    hide Parse, Feed, Reflects;
    ghost var socket := reader.SocketMap[sd];
    ghost var n, m := socket.MessageBuffer.Length, Parse(before, socket.MessageBuffer.Length, buffer.Length).messages;
    messages, taken := [], [];
    assert before + taken == before && m + messages == m;
    for k := 0 to |offers|
      invariant reader.Valid() && (forall x | x != sd :: reader.State(x) == old(reader.State(x)))
      invariant old(socket.Input.Unread) == taken + socket.Input.Unread
      invariant Reflects(reader.State(sd), Parse(before + taken, n, buffer.Length), n)
      invariant Parse(before + taken, n, buffer.Length).messages == m + messages
    {
      ghost var v := reader.State(sd);
      var result;
      ghost var chunk;
      result, chunk := reader.ReceiveMessage(sd, buffer, offers[k]);
      ReceivedParses(v, reader.State(sd), before + taken, n, chunk, offers[k], buffer.Length, result);
      Associate(before, taken, chunk);
      Associate(taken, chunk, socket.Input.Unread);
      taken := taken + chunk;
      if result.Message? {
        Associate(m, messages, [result.bytes]);
        messages := messages + [result.bytes];
      }
    }
  }
}
