/** Buffered line reading: src/inputfile.cc. */
module InputFiles {
  import opened MessageFraming
  import opened FileTransfer

  const STORAGE_SIZE: nat := 16384
  const NEWLINE: byte := 10

  // ----- Lines of a text ---------------------------------------------------------------------------

  /** The position of the first newline, or the length. */
  function Newline(text: seq<byte>): (i: nat)
    ensures i <= |text| && (i < |text| ==> text[i] == NEWLINE)
    ensures forall k | 0 <= k < i :: text[k] != NEWLINE
  {
    if text == [] || text[0] == NEWLINE then 0 else 1 + Newline(text[1..])
  }

  /** The lines that are ended by a newline, and the rest of the text. */
  function Lines(text: seq<byte>): seq<seq<byte>>
    decreases |text|
  {
    var i := Newline(text);
    if i == |text| then [] else [text[..i]] + Lines(text[i + 1..])
  }

  function Unfinished(text: seq<byte>): seq<byte>
    decreases |text|
  {
    var i := Newline(text);
    if i == |text| then text else Unfinished(text[i + 1..])
  }

  /** The text that consists of these lines. */
  function Join(lines: seq<seq<byte>>): seq<byte> {
    if lines == [] then [] else lines[0] + [NEWLINE] + Join(lines[1..])
  }

  lemma {:induction false} LinesOfText(text: seq<byte>)
    ensures text == Join(Lines(text)) + Unfinished(text)
    decreases |text|
  {
    hide Lines, Newline, Join, Unfinished;
    var i := Newline(text);
    LinesStep(text);
    NothingJoined();
    if i < |text| {
      var rest := text[i + 1..];
      LinesOfText(rest);
      assert text == (text[..i] + [NEWLINE]) + rest;
      Associate(text[..i] + [NEWLINE], Join(Lines(rest)), Unfinished(rest));
      JoinFirst(text[..i], Lines(rest));
    }
  }

  lemma NothingJoined()
    ensures Join([]) == [] && forall t: seq<byte> :: [] + t == t
  {
  }

  lemma JoinFirst(line: seq<byte>, lines: seq<seq<byte>>)
    ensures Join([line] + lines) == line + [NEWLINE] + Join(lines)
  {
    assert ([line] + lines)[1..] == lines;
  }

  /** What is left of a line when full blocks of `capacity` bytes are dropped from its front. */
  function Trim(line: seq<byte>, capacity: nat): (r: seq<byte>)
    requires capacity > 0
    ensures |r| < capacity && (r == line <==> |line| < capacity)
    decreases |line|
  {
    if |line| < capacity then line else Trim(line[capacity..], capacity)
  }

  // ----- One call ------------------------------------------------------------------------------------

  datatype Result = Failure | EndOfFile | Line(bytes: seq<byte>)

  function Capacity(bufferSize: nat): nat
    requires bufferSize > 0
  {
    if STORAGE_SIZE < bufferSize - 1 then STORAGE_SIZE else bufferSize - 1
  }

  /** A call for a text of which nothing has been returned: what it returns and what it leaves. */
  function ReadFrom(text: seq<byte>, capacity: nat): (Result, seq<byte>)
    requires capacity > 0
    decreases |text|
  {
    var n := if |text| < capacity then |text| else capacity;
    if n == 0 then (EndOfFile, []) else
    var i := Newline(text[..n]);
    if i < n then (Line(text[..i]), text[i + 1..]) else ReadFrom(text[n..], capacity)
  }

  lemma NewlineOfPrefix(text: seq<byte>, n: nat)
    requires n <= |text|
    ensures if Newline(text) < n then Newline(text[..n]) == Newline(text)
            else Newline(text[..n]) == n && Newline(text[n..]) == Newline(text) - n
  {
    var i := Newline(text);
    if i < n {
      assert text[..n][i] == NEWLINE;
    } else {
      assert forall k | 0 <= k < |text| - n :: text[n..][k] == text[n + k];
      var j := Newline(text[n..]);
      if i < |text| { assert text[n..][i - n] == NEWLINE; }
      if j < |text| - n { assert text[n + j] == NEWLINE; }
    }
  }

  /** A call returns the next line, without the blocks that were too long for the buffer; text
      after the last newline is dropped. */
  lemma {:induction false} ReadFromNextLine(text: seq<byte>, capacity: nat)
    requires capacity > 0
    ensures var i := Newline(text);
      ReadFrom(text, capacity) == if i == |text| then (EndOfFile, []) else (Line(Trim(text[..i], capacity)), text[i + 1..])
    decreases |text|
  {
    hide Newline;
    var n := if |text| < capacity then |text| else capacity;
    var i := Newline(text);
    NewlineOfPrefix(text, n);
    if n > 0 && i >= n {
      ReadFromNextLine(text[n..], capacity);
      if i < |text| {
        assert text[n..][..i - n] == text[..i][n..];
        assert text[n..][i - n + 1..] == text[i + 1..];
      }
    }
  }

  class InputFile {
    const File: InputStream
    const Storage: array<byte>
    var StoragePos: nat
    var Line: nat

    ghost predicate Valid()
      reads this, File
    {
      File.Valid() && Storage.Length == STORAGE_SIZE && StoragePos < STORAGE_SIZE
    }

    /** The text that has not been returned: first what is stored, then the unread file. */
    ghost function Text(): seq<byte>
      requires Valid()
      reads this, File, Storage
    {
      Storage[..StoragePos] + File.Content[File.Position..]
    }

    constructor (content: seq<byte>)
      ensures Valid() && Text() == content && Line == 0 && fresh(File) && fresh(Storage)
    {
      File := new InputStream(content);
      Storage := new byte[STORAGE_SIZE];
      StoragePos, Line := 0, 0;
      new;
      assert content[0..] == content && Storage[..0] + content == content;
    }

    /** Fills the buffer with what is stored and what can be read. */
    method Fill(buffer: array<byte>, capacity: nat) returns (bytesRead: nat)
      requires Valid() && buffer != Storage && StoragePos <= capacity <= buffer.Length
      modifies File, buffer
      ensures Valid() && bytesRead == if |old(Text())| < capacity then |old(Text())| else capacity
      ensures buffer[..bytesRead] == old(Text())[..bytesRead] && File.Content[File.Position..] == old(Text())[bytesRead..]
    {
      ghost var text := Text();
      forall i | 0 <= i < StoragePos { buffer[i] := Storage[i]; }
      var data := File.Read(capacity - StoragePos);
      forall i | 0 <= i < |data| { buffer[StoragePos + i] := data[i]; }
      bytesRead := StoragePos + |data|;
      assert text == Storage[..StoragePos] + (data + File.Content[File.Position..]);
      assert buffer[..bytesRead] == Storage[..StoragePos] + data;
    }

    /** Looks for a newline in the first bytes of the buffer. */
    method FindNewline(buffer: array<byte>, bytesRead: nat) returns (i: nat)
      requires bytesRead <= buffer.Length
      ensures i == Newline(buffer[..bytesRead])
    {
      i := 0;
      while i < bytesRead && buffer[i] != NEWLINE
        invariant i <= bytesRead && forall k | 0 <= k < i :: buffer[k] != NEWLINE
      {
        i := i + 1;
      }
      assert forall k | 0 <= k < bytesRead :: buffer[..bytesRead][k] == buffer[k];
    }

    /** Keeps what follows the newline at position `i` for the next call; a line has been read. */
    method Keep(buffer: array<byte>, bytesRead: nat, i: nat, ghost text: seq<byte>)
      requires Valid() && buffer != Storage && i < bytesRead <= buffer.Length && bytesRead <= STORAGE_SIZE
      requires bytesRead <= |text| && buffer[..bytesRead] == text[..bytesRead] && File.Content[File.Position..] == text[bytesRead..]
      modifies this`StoragePos, this`Line, Storage
      ensures Line == old(Line) + 1
      ensures Valid() && Text() == text[i + 1..] && StoragePos == bytesRead - i - 1
      ensures buffer[..i] == text[..i]
    {
      assert buffer[..i] == buffer[..bytesRead][..i] == text[..bytesRead][..i];
      StoragePos := bytesRead - i - 1;
      forall k | 0 <= k < StoragePos { Storage[k] := buffer[i + 1 + k]; }
      assert forall k | 0 <= k < StoragePos :: Storage[k] == buffer[..bytesRead][i + 1 + k];
      assert Storage[..StoragePos] == text[i + 1..bytesRead];
      assert text[i + 1..] == text[i + 1..bytesRead] + text[bytesRead..];
      Line := Line + 1;
    }

    /** Forgets what has been read. */
    method Drop(bytesRead: nat, ghost text: seq<byte>)
      requires Valid() && bytesRead <= |text| && File.Content[File.Position..] == text[bytesRead..]
      modifies this`StoragePos
      ensures Valid() && Text() == text[bytesRead..] && StoragePos == 0
    {
      StoragePos := 0;
      assert Storage[..0] + text[bytesRead..] == text[bytesRead..];
    }

    /** Reads a line into the buffer, without the newline. */
    method ReadLine(buffer: array<byte>, bufferSize: nat) returns (result: Result)
      requires Valid() && buffer != Storage && bufferSize <= buffer.Length
      modifies this`StoragePos, this`Line, Storage, File, buffer
      ensures Valid()
      ensures bufferSize == 0 || old(StoragePos) >= bufferSize - 1 ==> result == Failure && Text() == old(Text())
      ensures 0 < bufferSize && old(StoragePos) < bufferSize - 1 ==>
        (result, Text()) == ReadFrom(old(Text()), Capacity(bufferSize)) && StoragePos < Capacity(bufferSize)
      ensures Line == old(Line) + if result.Line? then 1 else 0
      ensures result.Line? ==> |result.bytes| < bufferSize && buffer[..|result.bytes|] == result.bytes
    {
      hide ReadFrom, Newline, Text, Capacity;
      if bufferSize < 1 {
        return Failure;
      }
      if StoragePos >= bufferSize - 1 {
        return Failure;
      }
      var capacity := if STORAGE_SIZE < bufferSize - 1 then STORAGE_SIZE else bufferSize - 1;
      CapacityIs(bufferSize);
      ghost var goal := ReadFrom(Text(), capacity);
      while true
        invariant Valid() && StoragePos < capacity && Line == old(Line)
        invariant ReadFrom(Text(), capacity) == goal
        decreases |Text()|
      {
        ghost var text := Text();
        NextBlock(text, capacity);
        var bytesRead := Fill(buffer, capacity);
        if bytesRead == 0 {
          Drop(bytesRead, text);
          return EndOfFile;
        }
        var i := FindNewline(buffer, bytesRead);
        if i < bytesRead {
          Keep(buffer, bytesRead, i, text);
          result := Result.Line(buffer[..i]);
          return;
        }
        Drop(bytesRead, text);
      }
    }
  }

  lemma CapacityIs(bufferSize: nat)
    requires bufferSize > 0
    ensures Capacity(bufferSize) == if STORAGE_SIZE < bufferSize - 1 then STORAGE_SIZE else bufferSize - 1
  {
  }

  /** One round of a call. */
  lemma NextBlock(text: seq<byte>, capacity: nat)
    requires capacity > 0
    ensures var n := if |text| < capacity then |text| else capacity;
      && (n == 0 ==> ReadFrom(text, capacity) == (EndOfFile, []) && text[0..] == [])
      && (n > 0 ==> var i := Newline(text[..n]);
           ReadFrom(text, capacity) == if i < n then (Line(text[..i]), text[i + 1..]) else ReadFrom(text[n..], capacity))
  {
  }

  // ----- All lines ---------------------------------------------------------------------------------------

  function TrimAll(lines: seq<seq<byte>>, capacity: nat): (r: seq<seq<byte>>)
    requires capacity > 0
    ensures |r| == |lines|
  {
    seq(|lines|, i requires 0 <= i < |lines| => Trim(lines[i], capacity))
  }

  lemma TrimFirst(line: seq<byte>, lines: seq<seq<byte>>, capacity: nat)
    requires capacity > 0
    ensures TrimAll([line] + lines, capacity) == [Trim(line, capacity)] + TrimAll(lines, capacity)
  {
    hide Trim;
  }

  lemma LinesStep(text: seq<byte>)
    ensures var i := Newline(text); Lines(text) == if i == |text| then [] else [text[..i]] + Lines(text[i + 1..])
    ensures var i := Newline(text); Unfinished(text) == if i == |text| then text else Unfinished(text[i + 1..])
  {
    LinesNext(text);
    hide Newline, Lines;
  }

  lemma LinesNext(text: seq<byte>)
    ensures var i := Newline(text); Lines(text) == if i == |text| then [] else [text[..i]] + Lines(text[i + 1..])
  {
    hide Newline;
  }

  lemma ReadNext(text: seq<byte>, capacity: nat)
    requires capacity > 0
    ensures var (result, rest) := ReadFrom(text, capacity);
      && (result.EndOfFile? ==> Lines(text) == [] && rest == [])
      && (result.Line? ==> TrimAll(Lines(text), capacity) == [result.bytes] + TrimAll(Lines(rest), capacity) && |rest| < |text|)
      && !result.Failure?
  {
    hide ReadFrom, Lines, TrimAll, Trim, Newline;
    ReadFromNextLine(text, capacity);
    LinesStep(text);
    var i := Newline(text);
    if i < |text| { TrimFirst(text[..i], Lines(text[i + 1..]), capacity); }
  }

  /** Reads lines until the end of the file. */
  method ReadAllLines(file: InputFile, buffer: array<byte>, bufferSize: nat) returns (lines: seq<seq<byte>>)
    requires file.Valid() && buffer != file.Storage && 2 <= bufferSize <= buffer.Length && file.StoragePos < bufferSize - 1
    modifies file, file.Storage, file.File, buffer
    ensures file.Valid() && lines == TrimAll(Lines(old(file.Text())), Capacity(bufferSize))
    ensures file.Line == old(file.Line) + |lines| && file.Text() == []
  {
    lines := [];
    ghost var capacity := Capacity(bufferSize);
    ghost var goal := TrimAll(Lines(file.Text()), capacity);
    assert [] + goal == goal;
    hide ReadFrom, Lines, TrimAll;
    while true
      invariant file.Valid() && file.StoragePos < bufferSize - 1 && file.Line == old(file.Line) + |lines|
      invariant goal == lines + TrimAll(Lines(file.Text()), capacity)
      decreases |file.Text()|
    {
      ReadNext(file.Text(), capacity);
      ghost var text := file.Text();
      var result := file.ReadLine(buffer, bufferSize);
      match result
      case EndOfFile =>
        NoLines(capacity);
        assert lines + [] == lines;
        return;
      case Line(bytes) =>
        Associate(lines, [bytes], TrimAll(Lines(file.Text()), capacity));
        lines := lines + [bytes];
    }
  }

  lemma NoLines(capacity: nat)
    requires capacity > 0
    ensures TrimAll([], capacity) == []
  {
  }

  /** Reading all lines gives back the text if and only if every line fits into the buffer with
      its newline and the last one is finished. */
  lemma ReadAllIsSplit(text: seq<byte>, capacity: nat)
    requires capacity > 0
    ensures Join(TrimAll(Lines(text), capacity)) == text <==>
      Unfinished(text) == [] && forall i | 0 <= i < |Lines(text)| :: |Lines(text)[i]| + 1 <= capacity
    ensures TrimAll(Lines(text), capacity) == Lines(text) <==> forall i | 0 <= i < |Lines(text)| :: |Lines(text)[i]| + 1 <= capacity
  {
    var lines, read := Lines(text), TrimAll(Lines(text), capacity);
    LinesOfText(text);
    forall i | 0 <= i < |lines| ensures read[i] == lines[i] <==> |lines[i]| + 1 <= capacity {}
    if forall i | 0 <= i < |lines| :: |lines[i]| + 1 <= capacity {
      assert read == lines;
    } else {
      var i :| 0 <= i < |lines| && |lines[i]| + 1 > capacity;
      assert read[i] != lines[i];
    }
    TrimIsShorter(lines, capacity);
  }

  /** For a buffer: the line has to fit with its newline and the terminating zero, and with its
      newline into 16384 bytes. */
  lemma BufferFits(text: seq<byte>, bufferSize: nat)
    requires bufferSize >= 2
    ensures Join(TrimAll(Lines(text), Capacity(bufferSize))) == text <==>
      Unfinished(text) == [] && forall i | 0 <= i < |Lines(text)| :: |Lines(text)[i]| + 2 <= bufferSize && |Lines(text)[i]| + 1 <= 16384
  {
    hide Join, TrimAll, Lines, Unfinished;
    ReadAllIsSplit(text, Capacity(bufferSize));
  }

  /** Trimming shortens the text unless it changes nothing. */
  lemma {:induction false} TrimIsShorter(lines: seq<seq<byte>>, capacity: nat)
    requires capacity > 0
    ensures |Join(TrimAll(lines, capacity))| <= |Join(lines)|
    ensures |Join(TrimAll(lines, capacity))| == |Join(lines)| ==> TrimAll(lines, capacity) == lines
  {
    if lines != [] {
      var rest := lines[1..];
      TrimIsShorter(rest, capacity);
      TrimOfLine(lines[0], capacity);
      assert TrimAll(lines, capacity) == [Trim(lines[0], capacity)] + TrimAll(rest, capacity);
      JoinFirst(Trim(lines[0], capacity), TrimAll(rest, capacity));
    }
  }

  lemma {:induction false} TrimOfLine(line: seq<byte>, capacity: nat)
    requires capacity > 0
    ensures |Trim(line, capacity)| <= |line| && (|Trim(line, capacity)| == |line| ==> Trim(line, capacity) == line)
    decreases |line|
  {
    if |line| >= capacity { TrimOfLine(line[capacity..], capacity); }
  }
}
