/** streaming/: the loops that send and receive a file, over a stream, a source and a sink that may fail. */
module FileStreaming {
  import opened Wrappers
  import opened Streaming

  const BUFFER_SIZE := 4096

  /** A DuplexMessageStream: what it will receive, what was sent, and how many more sends succeed.
      `closeSend` says whether the stream has a CloseSend and whether that succeeds. */
  class Stream {
    var incoming: seq<Receipt>
    var sent: seq<Message>
    var budget: nat
    const closeSend: Option<bool>

    constructor (incoming: seq<Receipt>, budget: nat, closeSend: Option<bool>)
      ensures this.incoming == incoming && sent == [] && this.budget == budget && this.closeSend == closeSend
    {
      this.incoming, sent, this.budget, this.closeSend := incoming, [], budget, closeSend;
    }

    /** The message is serialised before the call returns, so it keeps no reference to the caller's buffer. */
    method Send(msg: Message) returns (ok: bool)
      modifies this`sent, this`budget
      ensures ok == (old(budget) > 0)
      ensures sent == (if ok then old(sent) + [msg] else old(sent))
      ensures budget == (if ok then old(budget) - 1 else old(budget))
    {
      ok := budget > 0;
      if ok { sent, budget := sent + [msg], budget - 1; }
    }

    method Recv() returns (r: Receipt)
      modifies this`incoming
      ensures r == Next(old(incoming))
      ensures incoming == (if old(incoming) == [] then [] else old(incoming)[1..])
    {
      if incoming == [] { return Eof; }
      r, incoming := incoming[0], incoming[1..];
    }

    /** Send the end marker, wait for any answer and close the sending side. */
    method Finish() returns (ok: bool)
      modifies this
      ensures sent == old(sent) + [FileEnd()] || (!ok && sent == old(sent))
      ensures ok <==> old(budget) > 0 && !Next(old(incoming)).Failure? && closeSend != Some(false)
    {
      ok := Send(FileEnd());
      if !ok { return; }
      var answer := Recv();
      if answer.Failure? { return false; }
      return if closeSend.Some? then closeSend.value else true;
    }
  }

  datatype ReadResult = Count(n: nat) | AtEnd | ReadFailed

  /** An open file: a read returns any positive number of bytes that are there, or fails. */
  class Source {
    const content: seq<byte>
    var pos: nat
    var failed: bool
    var closed: bool

    ghost predicate Valid()
      reads this
    {
      pos <= |content|
    }

    constructor (content: seq<byte>)
      ensures Valid() && pos == 0 && !failed && !closed && this.content == content
    {
      this.content, pos, failed, closed := content, 0, false, false;
    }

    method Read(buf: array<byte>) returns (r: ReadResult)
      requires Valid() && buf.Length > 0
      modifies this`pos, this`failed, buf
      ensures Valid() && failed == (old(failed) || r.ReadFailed?)
      ensures r.Count? ==> 0 < r.n <= buf.Length && pos == old(pos) + r.n && buf[..r.n] == content[old(pos)..pos]
      ensures !r.Count? ==> pos == old(pos)
      ensures r.AtEnd? ==> pos == |content|
    {
      if * {
        failed := true;
        return ReadFailed;
      }
      if pos == |content| { return AtEnd; }
      var n: nat :| 0 < n <= buf.Length && pos + n <= |content|;
      ghost var start := pos;
      for i := 0 to n
        invariant pos == start && failed == old(failed)
        invariant buf[..i] == content[pos..pos + i]
      {
        buf[i] := content[pos + i];
      }
      pos := pos + n;
      return Count(n);
    }
  }

  /** The file a receiver writes to, with room for `space` more bytes. */
  class Sink {
    var written: seq<byte>
    var space: nat
    var closed: bool

    constructor (space: nat)
      ensures written == [] && this.space == space && !closed
    {
      written, this.space, closed := [], space, false;
    }

    method Write(p: seq<byte>) returns (ok: bool)
      modifies this`written, this`space
      ensures ok == (|p| <= old(space))
      ensures written == old(written) + (if ok then p else p[..old(space)])
      ensures space == (if ok then old(space) - |p| else 0)
    {
      ok := |p| <= space;
      if ok { written, space := written + p, space - |p|; } else { written, space := written + p[..space], 0; }
    }
  }

  // ---------------------------------------------------------------- sending

  ghost predicate Buffered(chunks: seq<seq<byte>>) {
    forall i :: 0 <= i < |chunks| ==> 0 < |chunks[i]| <= 4096
  }

  /** A sender got through: every message was taken, an answer or EOF came back, the sending side was closed. */
  twostate predicate Delivered(stream: Stream, messages: nat)
    reads stream
  {
    old(stream.budget) >= messages && !Next(old(stream.incoming)).Failure? && stream.closeSend != Some(false)
  }

  /** `chunks` is how the reads happened to cut the file; one buffer serves all of them. */
  method WriteFile(stream: Stream, file: Option<Source>, bf: BeginFile) returns (ok: bool, ghost chunks: seq<seq<byte>>)
    requires file.Some? ==> file.value.Valid() && file.value.pos == 0 && !file.value.failed
    modifies stream, set f | file == Some(f) :: f
    ensures Buffered(chunks) && old(stream.sent) <= stream.sent <= old(stream.sent) + Transcript(bf, chunks)
    ensures file.Some? ==> file.value.closed && Concat(chunks) <= file.value.content
    ensures ok <==> file.Some? && !file.value.failed && Delivered(stream, |chunks| + 2)
    ensures ok ==> stream.sent == old(stream.sent) + Transcript(bf, chunks) && Concat(chunks) == file.value.content
  {
    if file.None? { return false, []; }
    ok, chunks := SendFile(stream, file.value, bf);
    file.value.closed := true;
  }

  /** `chunks` are the first `pos` bytes of the file, and have been put on the stream. */
  ghost predicate SentSoFar(
    content: seq<byte>, pos: nat, bf: BeginFile, chunks: seq<seq<byte>>, before: seq<Message>, sent: seq<Message>)
  {
    && Buffered(chunks) && pos <= |content| && Concat(chunks) == content[..pos]
    && sent == before + Begun(bf, chunks)
  }

  lemma NothingSent(content: seq<byte>, bf: BeginFile, before: seq<Message>)
    ensures SentSoFar(content, 0, bf, [], before, before + [ToMessage(bf)])
  {
    BegunMore(bf, [], []);
  }

  lemma SentMore(
      content: seq<byte>, pos: nat, bf: BeginFile, chunks: seq<seq<byte>>, before: seq<Message>, sent: seq<Message>,
      chunk: seq<byte>)
    requires SentSoFar(content, pos, bf, chunks, before, sent) && 0 < |chunk| <= BUFFER_SIZE
    requires pos + |chunk| <= |content| && chunk == content[pos..pos + |chunk|]
    ensures SentSoFar(content, pos + |chunk|, bf, chunks + [chunk], before, sent + [BytesBody(chunk)])
  {
    hide Concat, Begun;
    ConcatMore(chunks, chunk);
    BegunMore(bf, chunks, chunk);
  }

  /** What has been sent is a prefix of a transcript, complete but for the end marker. */
  lemma SentIsPrefix(
      content: seq<byte>, pos: nat, bf: BeginFile, chunks: seq<seq<byte>>, before: seq<Message>, sent: seq<Message>)
    requires SentSoFar(content, pos, bf, chunks, before, sent)
    ensures Buffered(chunks) && before <= sent <= before + Transcript(bf, chunks) == sent + [FileEnd()]
    ensures Concat(chunks) <= content && (pos == |content| ==> Concat(chunks) == content)
  {
    hide Concat, ToMessage, FileEnd;
  }

  method SendFile(stream: Stream, f: Source, bf: BeginFile) returns (ok: bool, ghost chunks: seq<seq<byte>>)
    requires f.Valid() && f.pos == 0 && !f.failed
    modifies stream, f`pos, f`failed
    ensures Buffered(chunks) && old(stream.sent) <= stream.sent <= old(stream.sent) + Transcript(bf, chunks)
    ensures Concat(chunks) <= f.content
    ensures ok <==> !f.failed && Delivered(stream, |chunks| + 2)
    ensures ok ==> stream.sent == old(stream.sent) + Transcript(bf, chunks) && Concat(chunks) == f.content
  {
    hide Concat, ToMessage, FileEnd, Transcript, SentSoFar, Buffered;
    chunks := [];
    assert Concat<byte>([]) == [] && Buffered([]) by { NothingSent(f.content, bf, []); }
    ghost var before := stream.sent;
    ok := stream.Send(ToMessage(bf));
    if !ok { return; }
    var buf := new byte[BUFFER_SIZE](_ => 0);
    NothingSent(f.content, bf, before);
    while true
      invariant f.Valid() && !f.failed && fresh(buf) && buf.Length == BUFFER_SIZE
      invariant SentSoFar(f.content, f.pos, bf, chunks, before, stream.sent)
      invariant stream.budget == old(stream.budget) - 1 - |chunks| && stream.incoming == old(stream.incoming)
      decreases |f.content| - f.pos
    {
      SentIsPrefix(f.content, f.pos, bf, chunks, before, stream.sent);
      ghost var pos, sent := f.pos, stream.sent;
      var r := f.Read(buf);
      if r.ReadFailed? { return false, chunks; }
      if r.AtEnd? { break; }
      ok := stream.Send(BytesBody(buf[..r.n]));
      if !ok { return; }
      SentMore(f.content, pos, bf, chunks, before, sent, buf[..r.n]);
      chunks := chunks + [buf[..r.n]];
    }
    ok := stream.Finish();
  }

  /** fileStreamWriter; `base` and `written` record what was on the stream before and what was written. */
  class FileStreamWriter {
    const stream: Stream
    const beginFile: BeginFile
    ghost const base: seq<Message>
    ghost var written: seq<seq<byte>>

    ghost predicate Valid()
      reads this, stream
    {
      stream.sent == base + Begun(beginFile, written)
    }

    constructor (stream: Stream, bf: BeginFile, ghost base: seq<Message>)
      requires stream.sent == base + [ToMessage(bf)]
      ensures Valid() && this.stream == stream && beginFile == bf && this.base == base && written == []
    {
      this.stream, beginFile, this.base, written := stream, bf, base, [];
    }

    static method New(stream: Stream, bf: BeginFile) returns (w: FileStreamWriter?)
      modifies stream
      ensures w != null <==> old(stream.budget) > 0
      ensures w == null ==> stream.sent == old(stream.sent)
      ensures w != null ==> fresh(w) && w.Valid() && w.stream == stream && w.beginFile == bf
      ensures w != null ==> w.base == old(stream.sent) && w.written == []
    {
      ghost var base := stream.sent;
      var ok := stream.Send(ToMessage(bf));
      if !ok { return null; }
      w := new FileStreamWriter(stream, bf, base);
    }

    method Write(p: seq<byte>) returns (n: nat, ok: bool)
      requires Valid()
      modifies this`written, stream
      ensures Valid() && ok == (old(stream.budget) > 0)
      ensures n == (if ok then |p| else 0)
      ensures written == (if ok then old(written) + [p] else old(written))
      ensures stream.incoming == old(stream.incoming)
    {
      ok := stream.Send(BytesBody(p));
      if !ok { return 0, false; }
      written := written + [p];
      return |p|, true;
    }

    method Close() returns (ok: bool)
      requires Valid()
      modifies stream
      ensures base <= stream.sent <= base + Transcript(beginFile, written)
      ensures ok <==> Delivered(stream, 1)
      ensures ok ==> stream.sent == base + Transcript(beginFile, written)
    {
      ok := stream.Finish();
    }
  }

  // ---------------------------------------------------------------- receiving

  /** The error of the answer, or of reading; `Answered(false)` is a failed answer. */
  datatype Result = Stopped(end: End) | Answered(ok: bool)

  /** The factory yields a file or an error or both; a file without an error is required. */
  method ReadFile(stream: Stream, file: Sink?, factoryFails: bool, sendResponse: bool)
    returns (begin: Option<BeginFile>, result: Result)
    requires factoryFails || file != null
    modifies stream, file
    ensures var reading := ReadStream(old(stream.incoming), factoryFails, if file == null then 0 else old(file.space));
      && begin == reading.begin
      && (file != null ==> file.written == old(file.written) + reading.written)
      && (file != null && begin.Some? ==> file.closed)
      && result == (if reading.end.Complete? && sendResponse then Answered(old(stream.budget) > 0)
                    else Stopped(reading.end))
      && stream.sent == (if result == Answered(true) then old(stream.sent) + [ToMessage(begin.value)]
                         else old(stream.sent))
  {
    hide ToMessage, IsEndOfFile, ReadLoop, Recover;
    var r := stream.Recv();
    if !r.Arrival? { return None, Stopped(RecvFailed); }
    var bf, ok := FromMessage(NO_FILE, r.msg);
    if !ok { return None, Stopped(NotBegin); }
    begin := Some(bf);
    if factoryFails {
      if file != null { file.closed := true; }
      return begin, Stopped(FactoryFailed);
    }
    var end := Receive(stream, file);
    if end.Complete? && sendResponse {
      ok := stream.Send(ToMessage(bf));
      result := Answered(ok);
    } else {
      result := Stopped(end);
    }
    file.closed := true;
  }

  method Receive(stream: Stream, file: Sink) returns (end: End)
    modifies stream`incoming, file`written, file`space
    ensures var (written, reason) := ReadLoop(old(stream.incoming), old(file.space));
      file.written == old(file.written) + written && end == reason
  {
    while true
      invariant var (written, reason) := ReadLoop(old(stream.incoming), old(file.space));
        var (more, reason') := ReadLoop(stream.incoming, file.space);
        old(file.written) + written == file.written + more && reason == reason'
      decreases |stream.incoming|
    {
      var r := stream.Recv();
      if r.Eof? || (r.Arrival? && IsEndOfFile(r.msg)) { return Complete; }
      if r.Failure? || !r.msg.BytesBody? { return ExpectedBytes; }
      var ok := file.Write(r.msg.bytes);
      if !ok { return WriteFailed; }
    }
  }
}
