/** streaming/: a file as a begin record, byte chunks and an end marker on a message stream. */
module Streaming {
  import opened Arithmetic
  import opened Numbers
  import opened Wrappers
  import opened GoValues
  import opened Codec

  newtype byte = b: int | 0 <= b < 256

  /** isp.Message; `NoBody` also stands for a nil message and for nil bytes. */
  datatype Message =
    | StructBody(fields: map<string, Value>)
    | ListBody(values: seq<Value>)
    | NullBody
    | BytesBody(bytes: seq<byte>)
    | NoBody

  datatype BeginFile = BeginFile(
    fileName: string, formDataName: string, contentType: string, contentLength: int, formData: Option<map<string, Go>>)

  // ---------------------------------------------------------------- the begin record

  function FormValue(formData: Option<map<string, Go>>): Go {
    if formData.None? then NilMap else StrMap(formData.value)
  }

  function BeginRecord(bf: BeginFile): Go {
    StrMap(map[
      "fileName" := Str(bf.fileName),
      "formDataName" := Str(bf.formDataName),
      "contentType" := Str(bf.contentType),
      "contentLength" := Int(bf.contentLength),
      "formData" := FormValue(bf.formData)])
  }

  function ToMessage(bf: BeginFile): Message {
    StructBody(EncodeEntries(BeginRecord(bf)))
  }

  function GetStringValue(v: Value): string {
    if v.StringValue? then v.text else ""
  }

  function GetNumberValue(v: Value): Float {
    if v.NumberValue? then v.number else Finite(0.0)
  }

  predicate HasProperties(msg: Message) {
    msg.StructBody? && {"fileName", "formDataName", "contentType", "contentLength"} <= msg.fields.Keys
  }

  /** `start` with what the record says; form data that is not a struct leaves the old one. */
  function Recover(start: BeginFile, fields: map<string, Value>): BeginFile
    requires HasProperties(StructBody(fields))
  {
    BeginFile(
      GetStringValue(fields["fileName"]),
      GetStringValue(fields["formDataName"]),
      GetStringValue(fields["contentType"]),
      IntOfFloat(GetNumberValue(fields["contentLength"])),
      if "formData" in fields && fields["formData"].StructValue? then Some(DecodeAll(fields["formData"].fields))
      else start.formData)
  }

  method FromMessage(start: BeginFile, msg: Message) returns (bf: BeginFile, ok: bool)
    ensures ok <==> HasProperties(msg)
    ensures ok ==> bf == Recover(start, msg.fields)
    ensures !ok ==> bf.contentLength == start.contentLength && bf.formData == start.formData
    ensures !ok && (!msg.StructBody? || "fileName" !in msg.fields) ==> bf == start
  {
    bf := start;
    if !msg.StructBody? { return bf, false; }
    var fields := msg.fields;
    if "fileName" !in fields { return bf, false; }
    bf := bf.(fileName := GetStringValue(fields["fileName"]));
    if "formDataName" !in fields { return bf, false; }
    bf := bf.(formDataName := GetStringValue(fields["formDataName"]));
    if "contentType" !in fields { return bf, false; }
    bf := bf.(contentType := GetStringValue(fields["contentType"]));
    if "contentLength" !in fields { return bf, false; }
    bf := bf.(contentLength := IntOfFloat(GetNumberValue(fields["contentLength"])));
    if "formData" in fields && fields["formData"].StructValue? {
      bf := bf.(formData := Some(DecodeAll(fields["formData"].fields)));
    }
    return bf, true;
  }

  /** A property of another kind counts as empty or zero; form data that is missing or no struct is not set. */
  lemma OtherKinds(start: BeginFile, fields: map<string, Value>)
    requires {"fileName", "formDataName", "contentType", "contentLength"} <= fields.Keys
    ensures HasProperties(StructBody(fields))
    ensures var bf := Recover(start, fields);
      && bf.fileName == (if fields["fileName"].StringValue? then fields["fileName"].text else "")
      && bf.formDataName == (if fields["formDataName"].StringValue? then fields["formDataName"].text else "")
      && bf.contentType == (if fields["contentType"].StringValue? then fields["contentType"].text else "")
      && (!fields["contentLength"].NumberValue? ==> bf.contentLength == 0)
      && ("formData" !in fields || !fields["formData"].StructValue? ==> bf.formData == start.formData)
  {
    TruncatesTowardZero(0.0, 0);
  }

  /** What the receiver gets: the length through a float64, the form data in its dynamic form. */
  function Arrived(bf: BeginFile): BeginFile {
    bf.(contentLength := IntOfFloat(FloatOfInt(bf.contentLength)), formData := Some(PlainForm(bf.formData)))
  }

  /** The form data as the receiver sees it; missing form data arrives empty. */
  function PlainForm(formData: Option<map<string, Go>>): map<string, Go> {
    if formData.None? then map[] else PlainEntries(StrMap(formData.value))
  }

  lemma BeginRecovered(bf: BeginFile, start: BeginFile)
    ensures HasProperties(ToMessage(bf)) && Recover(start, ToMessage(bf).fields) == Arrived(bf)
  {
    hide Itoa, FloatOfInt, IntOfFloat, Plain, Decode, Recover, Arrived, DecodeAll, PlainForm;
    BeginFields(bf);
    EncodeForm(bf.formData);
    RecoverArrived(bf, start, ToMessage(bf).fields);
  }

  lemma BeginFields(bf: BeginFile)
    ensures var fields := ToMessage(bf).fields;
      && fields.Keys == {"fileName", "formDataName", "contentType", "contentLength", "formData"}
      && fields["fileName"] == StringValue(bf.fileName)
      && fields["formDataName"] == StringValue(bf.formDataName)
      && fields["contentType"] == StringValue(bf.contentType)
      && fields["contentLength"] == NumberValue(FloatOfInt(bf.contentLength))
      && fields["formData"] == Encode(FormValue(bf.formData))
  {
    hide FloatOfInt, FormValue;
    EncodeScalars(bf.fileName, bf.contentLength);
    EncodeScalars(bf.formDataName, 0);
    EncodeScalars(bf.contentType, 0);
    var record := BeginRecord(bf).entries;
    assert record.Keys == {"fileName", "formDataName", "contentType", "contentLength", "formData"};
    assert record["fileName"] == Str(bf.fileName) && record["formDataName"] == Str(bf.formDataName);
    assert record["contentType"] == Str(bf.contentType) && record["contentLength"] == Int(bf.contentLength);
  }

  lemma EncodeScalars(s: string, i: int)
    ensures Encode(Str(s)) == StringValue(s) && Encode(Int(i)) == NumberValue(FloatOfInt(i))
  {
  }

  lemma RecoverArrived(bf: BeginFile, start: BeginFile, fields: map<string, Value>)
    requires fields.Keys == {"fileName", "formDataName", "contentType", "contentLength", "formData"}
    requires fields["fileName"] == StringValue(bf.fileName)
    requires fields["formDataName"] == StringValue(bf.formDataName)
    requires fields["contentType"] == StringValue(bf.contentType)
    requires fields["contentLength"] == NumberValue(FloatOfInt(bf.contentLength))
    requires fields["formData"].StructValue? && DecodeAll(fields["formData"].fields) == PlainForm(bf.formData)
    ensures HasProperties(StructBody(fields)) && Recover(start, fields) == Arrived(bf)
  {
    hide FloatOfInt, IntOfFloat, DecodeAll, PlainForm;
  }

  lemma EncodeForm(formData: Option<map<string, Go>>)
    ensures Encode(FormValue(formData)).StructValue?
    ensures DecodeAll(Encode(FormValue(formData)).fields) == PlainForm(formData)
  {
    if formData.Some? { DecodeEncodeEntries(FormValue(formData)); }
  }

  /** A length arrives unchanged exactly when the bits below its 53 leading ones are zero; so does
      every length within 2^53, also the -1 of an unknown one. */
  lemma LengthArrives(bf: BeginFile)
    ensures var length, arrived := bf.contentLength, Arrived(bf).contentLength;
      && (IsInt64(RoundInt(length)) ==>
           (arrived == length <==> Magnitude(length) % Pow2(ExcessBits(Magnitude(length))) == 0))
      && (-EXACT <= length <= EXACT ==> arrived == length)
  {
    hide RoundInt, FloatOfInt, IntOfFloat, Pow2, ExcessBits;
    var length := bf.contentLength;
    RoundIntKeeps(length);
    if -EXACT <= length <= EXACT { RoundIntExact(length); }
    if IsInt64(RoundInt(length)) { IntThroughFloat(length); }
  }

  /** One byte more than 2^53 arrives as 2^53. */
  lemma LongLengthDrifts(bf: BeginFile)
    requires bf.contentLength == 0x20_0000_0000_0001
    ensures Arrived(bf).contentLength == 0x20_0000_0000_0000
  {
    assert ExcessBits(EXACT + 1) == 1;
    assert RoundMagnitude(EXACT + 1) == EXACT;
    IntThroughFloat(EXACT + 1);
  }

  // ---------------------------------------------------------------- form data getters

  /** None is the validation error "Required int value". */
  function GetIntValue(formData: Option<map<string, Go>>, field: string): Option<int> {
    var val :=
      if formData.None? || field !in formData.value then 0
      else match formData.value[field]
        case Float(f) => IntOfFloat(f)
        case Str(s) => if Atoi(s).Some? then Atoi(s).value else 0
        case _ => 0;
    if val == 0 then None else Some(val)
  }

  /** A value is required that is not zero: a number with its fraction cut off, or the text of an int64. */
  lemma IntValueExactly(formData: map<string, Go>, field: string)
    ensures GetIntValue(None, field) == None
    ensures field !in formData ==> GetIntValue(Some(formData), field) == None
    ensures field in formData && !formData[field].Float? && !formData[field].Str? ==>
      GetIntValue(Some(formData), field) == None
    ensures field in formData && formData[field].Str? ==>
      var number := Atoi(formData[field].text);
      GetIntValue(Some(formData), field) == if number == Some(0) then None else number
    ensures forall r: real, i: int :: field in formData && formData[field] == Float(Finite(r)) && CutsTo(r, i) ==>
      GetIntValue(Some(formData), field) == if i == 0 then None else Some(i)
  {
    hide Atoi, IntOfFloat;
    forall r: real, i: int | CutsTo(r, i) ensures IntOfFloat(Finite(r)) == i { TruncatesTowardZero(r, i); }
  }

  /** `i` is an int64 and `r` without its fraction. */
  predicate CutsTo(r: real, i: int) {
    && -0x8000_0000_0000_0000 <= i < 0x8000_0000_0000_0000
    && if r < 0.0 then i as real - 1.0 < r <= i as real else i as real <= r < i as real + 1.0
  }

  /** A number put into the form data, up to 2^53 in size, or any int64 put there as text is read back
      on the other side, unless it is zero. */
  lemma FormIntArrives(bf: BeginFile, field: string, i: int)
    requires bf.formData.Some? && field in bf.formData.value
    requires || (bf.formData.value[field] == Int(i) && -EXACT <= i <= EXACT)
             || (bf.formData.value[field] == Str(Itoa(i)) && IsInt64(i))
    ensures GetIntValue(Arrived(bf).formData, field) == if i == 0 then None else Some(i)
  {
    hide RoundInt, Itoa, Atoi;
    if -EXACT <= i <= EXACT {
      RoundIntExact(i);
      IntThroughFloat(i);
    }
    AtoiOfItoa(i);
    assert Arrived(bf).formData.value[field] == Plain(bf.formData.value[field]);
  }

  // ---------------------------------------------------------------- the end marker

  const END_FILE_SEQ := "end&"

  function FileEnd(): Message {
    StructBody(EncodeEntries(StrMap(map["end" := Str(END_FILE_SEQ)])))
  }

  predicate IsEndOfFile(msg: Message) {
    msg.StructBody? && "end" in msg.fields && GetStringValue(msg.fields["end"]) == END_FILE_SEQ
  }

  /** The end marker is a struct with one entry, and anything with that entry is taken for one. */
  lemma EndMarker(msg: Message)
    ensures FileEnd() == StructBody(map["end" := StringValue("end&")])
    ensures IsEndOfFile(msg) <==>
      msg.StructBody? && "end" in msg.fields && msg.fields["end"] == StringValue("end&")
  {
    assert EncodeEntries(StrMap(map["end" := Str("end&")])) == map["end" := Encode(Str("end&"))];
  }

  /** The end marker is recognised; begin records and chunks are not taken for it. */
  lemma OnlyTheEndEnds(bf: BeginFile, chunk: seq<byte>)
    ensures IsEndOfFile(FileEnd()) && !IsEndOfFile(ToMessage(bf)) && !IsEndOfFile(BytesBody(chunk))
    ensures !HasProperties(FileEnd())
  {
    assert FileEnd().fields["end"] == Encode(Str(END_FILE_SEQ));
    assert "fileName" !in FileEnd().fields;
  }

  // ---------------------------------------------------------------- what a sender puts on the stream

  function Concat<T>(chunks: seq<seq<T>>): seq<T> {
    if chunks == [] then [] else Concat(chunks[..|chunks| - 1]) + chunks[|chunks| - 1]
  }

  function ChunkMessages(chunks: seq<seq<byte>>): seq<Message> {
    seq(|chunks|, i requires 0 <= i < |chunks| => BytesBody(chunks[i]))
  }

  /** The begin record and the chunks so far. */
  function Begun(bf: BeginFile, chunks: seq<seq<byte>>): seq<Message> {
    [ToMessage(bf)] + ChunkMessages(chunks)
  }

  function Transcript(bf: BeginFile, chunks: seq<seq<byte>>): seq<Message> {
    Begun(bf, chunks) + [FileEnd()]
  }

  lemma BegunMore(bf: BeginFile, chunks: seq<seq<byte>>, chunk: seq<byte>)
    ensures Begun(bf, chunks + [chunk]) == Begun(bf, chunks) + [BytesBody(chunk)]
    ensures Begun(bf, []) == [ToMessage(bf)]
  {
    hide ToMessage;
    assert ChunkMessages(chunks + [chunk]) == ChunkMessages(chunks) + [BytesBody(chunk)];
  }

  lemma ConcatMore<T>(chunks: seq<seq<T>>, chunk: seq<T>)
    ensures Concat(chunks + [chunk]) == Concat(chunks) + chunk
    ensures Concat<T>([]) == []
  {
    assert (chunks + [chunk])[..|chunks|] == chunks;
  }

  lemma {:induction false} ConcatSplit<T>(a: seq<seq<T>>, b: seq<seq<T>>)
    ensures Concat(a + b) == Concat(a) + Concat(b)
  {
    hide Concat;
    if b == [] {
      ConcatMore<T>([], []);
      assert a + b == a;
    } else {
      var front, last := b[..|b| - 1], b[|b| - 1];
      ConcatSplit(a, front);
      ConcatMore(a + front, last);
      ConcatMore(front, last);
      assert a + b == a + front + [last] && b == front + [last];
    }
  }

  lemma ConcatFirst<T>(chunk: seq<T>, chunks: seq<seq<T>>)
    ensures Concat([chunk] + chunks) == chunk + Concat(chunks)
  {
    hide Concat;
    ConcatSplit([chunk], chunks);
    ConcatMore([], chunk);
    assert [] + [chunk] == [chunk];
  }

  // ---------------------------------------------------------------- what a receiver makes of a stream

  datatype Receipt = Arrival(msg: Message) | Eof | Failure

  datatype End = RecvFailed | NotBegin | FactoryFailed | ExpectedBytes | WriteFailed | Complete

  datatype Reading = Reading(begin: Option<BeginFile>, written: seq<byte>, end: End)

  function Next(rs: seq<Receipt>): Receipt {
    if rs == [] then Eof else rs[0]
  }

  predicate IsLast(r: Receipt) {
    r.Eof? || (r.Arrival? && IsEndOfFile(r.msg))
  }

  predicate IsChunk(r: Receipt) {
    r.Arrival? && r.msg.BytesBody?
  }

  /** What the receive loop writes to a file with room for `space` more bytes, and why it stops. */
  function ReadLoop(rs: seq<Receipt>, space: nat): (seq<byte>, End) {
    if IsLast(Next(rs)) then ([], Complete)
    else if !IsChunk(rs[0]) then ([], ExpectedBytes)
    else
      var bytes := rs[0].msg.bytes;
      if |bytes| > space then (bytes[..space], WriteFailed)
      else
        var (rest, end) := ReadLoop(rs[1..], space - |bytes|);
        (bytes + rest, end)
  }

  const NO_FILE := BeginFile("", "", "", 0, None)

  function ReadStream(rs: seq<Receipt>, factoryFails: bool, space: nat): Reading {
    var first := Next(rs);
    if !first.Arrival? then Reading(None, [], RecvFailed)
    else if !HasProperties(first.msg) then Reading(None, [], NotBegin)
    else
      var bf := Recover(NO_FILE, first.msg.fields);
      if factoryFails then Reading(Some(bf), [], FactoryFailed)
      else
        var (written, end) := ReadLoop(rs[1..], space);
        Reading(Some(bf), written, end)
  }

  /** Nothing is written before a begin record has come and the file was made for it; form data that does
      not come stays unset. */
  lemma BeforeTheFile(rs: seq<Receipt>, factoryFails: bool, space: nat)
    ensures var reading := ReadStream(rs, factoryFails, space);
      if rs == [] || !rs[0].Arrival? then reading == Reading(None, [], RecvFailed)
      else if !rs[0].msg.StructBody? then reading == Reading(None, [], NotBegin)
      else if !({"fileName", "formDataName", "contentType", "contentLength"} <= rs[0].msg.fields.Keys) then
        reading == Reading(None, [], NotBegin)
      else
        && reading.begin.Some?
        && ("formData" !in rs[0].msg.fields ==> reading.begin.value.formData == None)
        && (factoryFails ==> reading.written == [] && reading.end == FactoryFailed)
  {
  }

  /** How many receipts are chunks before the first other one. */
  function Leading(rs: seq<Receipt>): (n: nat)
    ensures n <= |rs| && forall i :: 0 <= i < n ==> IsChunk(rs[i])
    ensures n < |rs| ==> !IsChunk(rs[n])
  {
    if rs == [] || !IsChunk(rs[0]) then 0 else 1 + Leading(rs[1..])
  }

  function ChunkBytes(rs: seq<Receipt>): seq<seq<byte>>
    requires forall i :: 0 <= i < |rs| ==> IsChunk(rs[i])
  {
    seq(|rs|, i requires 0 <= i < |rs| && IsChunk(rs[i]) => rs[i].msg.bytes)
  }

  /** The bytes of the chunks before the first other receipt. */
  function LeadingBytes(rs: seq<Receipt>): seq<byte> {
    Concat(ChunkBytes(rs[..Leading(rs)]))
  }

  lemma LeadingMore(rs: seq<Receipt>)
    requires rs != [] && IsChunk(rs[0])
    ensures LeadingBytes(rs) == rs[0].msg.bytes + LeadingBytes(rs[1..])
    ensures rs[Leading(rs)..] == rs[1..][Leading(rs[1..])..]
  {
    hide Concat;
    var n := Leading(rs);
    assert rs[..n] == [rs[0]] + rs[1..][..n - 1];
    assert ChunkBytes(rs[..n]) == [rs[0].msg.bytes] + ChunkBytes(rs[1..][..n - 1]);
    ConcatFirst(rs[0].msg.bytes, ChunkBytes(rs[1..][..n - 1]));
  }

  /** The loop writes the leading chunks as far as they fit, and succeeds exactly when they all fit and
      an end marker or the end of the stream follows them. */
  lemma {:induction false} ReadLoopExactly(rs: seq<Receipt>, space: nat)
    ensures var all := LeadingBytes(rs);
      && ReadLoop(rs, space).0 == (if |all| <= space then all else all[..space])
      && ReadLoop(rs, space).1 ==
        if |all| > space then WriteFailed else if IsLast(Next(rs[Leading(rs)..])) then Complete else ExpectedBytes
  {
    hide LeadingBytes;
    if rs != [] && IsChunk(rs[0]) {
      LeadingMore(rs);
      var bytes, others := rs[0].msg.bytes, LeadingBytes(rs[1..]);
      if |bytes| <= space {
        ReadLoopExactly(rs[1..], space - |bytes|);
        assert |bytes + others| > space ==> (bytes + others)[..space] == bytes + others[..space - |bytes|];
      } else {
        assert |bytes + others| > space && (bytes + others)[..space] == bytes[..space];
      }
    } else {
      assert rs[0..] == rs;
      assert LeadingBytes(rs) == [] by { NoLeading(rs); }
    }
  }

  lemma NoLeading(rs: seq<Receipt>)
    requires rs == [] || !IsChunk(rs[0])
    ensures LeadingBytes(rs) == []
  {
  }

  function Arrivals(msgs: seq<Message>): seq<Receipt> {
    seq(|msgs|, i requires 0 <= i < |msgs| => Arrival(msgs[i]))
  }

  lemma LeadingChunks(chunks: seq<seq<byte>>, rest: seq<Receipt>)
    requires !IsChunk(Next(rest))
    ensures var rs := Arrivals(ChunkMessages(chunks)) + rest;
      Leading(rs) == |chunks| && rs[|chunks|..] == rest && LeadingBytes(rs) == Concat(chunks)
  {
    hide Concat;
    var rs := Arrivals(ChunkMessages(chunks)) + rest;
    assert forall i :: 0 <= i < |chunks| ==> rs[i] == Arrival(BytesBody(chunks[i]));
    assert rs[|chunks|..] == rest;
    LeadingIs(rs, |chunks|);
    assert ChunkBytes(rs[..|chunks|]) == chunks;
  }

  lemma {:induction false} LeadingIs(rs: seq<Receipt>, n: nat)
    requires n <= |rs| && !IsChunk(Next(rs[n..])) && forall i :: 0 <= i < n ==> IsChunk(rs[i])
    ensures Leading(rs) == n
  {
    if n > 0 {
      assert rs[1..][n - 1..] == rs[n..];
      LeadingIs(rs[1..], n - 1);
    }
  }

  /** Every file arrives whole, however it was cut into chunks and whatever follows the end marker. */
  lemma FileArrives(bf: BeginFile, chunks: seq<seq<byte>>, more: seq<Receipt>, space: nat)
    requires |Concat(chunks)| <= space
    ensures ReadStream(Arrivals(Transcript(bf, chunks)) + more, false, space) ==
      Reading(Some(Arrived(bf)), Concat(chunks), Complete)
  {
    var rest := [Arrival(FileEnd())] + more;
    CutAnywhere(bf, chunks, rest, space);
    BeginArrives(bf, ChunkMessages(chunks), rest);
    assert Arrivals(Transcript(bf, chunks)) + more == Arrivals(Begun(bf, chunks)) + rest;
    OnlyTheEndEnds(bf, []);
  }

  lemma CutAnywhere(bf: BeginFile, chunks: seq<seq<byte>>, rest: seq<Receipt>, space: nat)
    requires |Concat(chunks)| <= space && !IsChunk(Next(rest))
    ensures var rs := [Arrival(ToMessage(bf))] + (Arrivals(ChunkMessages(chunks)) + rest);
      ReadStream(rs, false, space) ==
        Reading(Some(Arrived(bf)), Concat(chunks), if IsLast(Next(rest)) then Complete else ExpectedBytes)
  {
    hide IsEndOfFile, ToMessage, HasProperties, Recover, Arrived, Concat, LeadingBytes, ReadLoop, Leading;
    var tail := Arrivals(ChunkMessages(chunks)) + rest;
    var rs := [Arrival(ToMessage(bf))] + tail;
    BeginRecovered(bf, NO_FILE);
    LeadingChunks(chunks, rest);
    ReadLoopExactly(tail, space);
    assert rs[1..] == tail;
  }

  /** A stream that breaks off after `k` chunks leaves the first `k` of them, a prefix of the file.
      It counts as a success exactly when it ended in an EOF. */
  lemma BrokenOff(bf: BeginFile, chunks: seq<seq<byte>>, k: nat, rest: seq<Receipt>, space: nat)
    requires k <= |chunks| && |Concat(chunks)| <= space && !Next(rest).Arrival?
    ensures var rs := Arrivals(Transcript(bf, chunks)[..k + 1]) + rest;
      && Concat(chunks[..k]) <= Concat(chunks)
      && ReadStream(rs, false, space) ==
        Reading(Some(Arrived(bf)), Concat(chunks[..k]), if Next(rest).Eof? then Complete else ExpectedBytes)
  {
    hide IsEndOfFile, Arrived, ReadStream, Concat, Transcript, Arrivals, ChunkMessages;
    ConcatSplit(chunks[..k], chunks[k..]);
    assert chunks[..k] + chunks[k..] == chunks;
    CutAnywhere(bf, chunks[..k], rest, space);
    TranscriptPrefix(bf, chunks, k);
    BeginArrives(bf, ChunkMessages(chunks[..k]), rest);
  }

  lemma TranscriptPrefix(bf: BeginFile, chunks: seq<seq<byte>>, k: nat)
    requires k <= |chunks|
    ensures Transcript(bf, chunks)[..k + 1] == Begun(bf, chunks[..k])
  {
    hide ToMessage, FileEnd;
  }

  lemma BeginArrives(bf: BeginFile, msgs: seq<Message>, rest: seq<Receipt>)
    ensures Arrivals([ToMessage(bf)] + msgs) + rest == [Arrival(ToMessage(bf))] + (Arrivals(msgs) + rest)
  {
    hide ToMessage;
  }
}
