# Verified models of the microservice support library

The library lets a Go module announce itself to a configuration service, receive its remote
configuration, exchange protobuf messages, stream files and process resource files. This project models
the parts of it that carry an algorithm or a state machine and proves what they promise:

- **Schema dereferencing** (`SchemaTree`, `Dereference`): references to definitions are inlined over a
  heap of mutable nodes, with a memo cache and a stack of names that cuts cycles. The result is compared
  with a meaning function (expansion to any depth) and with inlining that uses no cache.
- **Protobuf codec** (`GoValues`, `Numbers`, `Arithmetic`, `Codec`, `WireForms`, `TypedCodec`, `Merging`,
  `EmbeddedFields`, `CodecMethods`): Go values of a deep embedded type universe, their encoding as
  `google.protobuf.Value` trees, and the dynamic and the type-directed decoder. Round trips are proved in
  both directions, up to a normal form that is spelled out, and so is what a target keeps that already
  holds something.
- **Module handshake** (`ModuleRunner`): the event loop with its readiness flags and the background
  worker that applies configurations, as a transition system over all interleavings.
- **Record pipeline** (`LineScanner`, `LineFiles`, `DecoderPool`, `Pipeline`, `Batching`): the scanner of numbered
  files, the pool of concurrent decoders, the batcher and the CSV reader.
- **File streaming** (`Streaming`, `FileStreaming`): begin record, byte chunks and end marker; two
  senders and one receiver over a stream that may fail.
- **Tokens** (`TokenGenerator`, `TokenUniformity`): rejection sampling on chunks of 63-bit draws, and why
  it favours no token.
- **Routing table, database client, round-robin dialling** (`Routing`, `DbClient`, `RoundRobin`).

Loops that change things in place are methods of classes or methods with loop invariants, each specified
by a function or relation; the lemmas are about those. Map iteration order, the interleaving of
goroutines, the outcome of handlers, reads and connections and the sizes of file reads are left open, so
every statement holds for all of them.

Some statements one might expect are false of the code; the exact condition is proved instead:

- Closed, acyclic definitions do not make it safe to drop the definitions: a definition that is itself a
  mere reference to another one is never followed (`SchemaTree.AliasDangles`). Dropping them keeps the
  meaning exactly when every reachable definition avoids itself and is not such a reference
  (`SchemaTree.DroppingDefinitions`).
- A file length arrives unchanged exactly when it is a 53-bit number followed by zeros
  (`Streaming.LengthArrives`, `Streaming.LongLengthDrifts`).
- A transfer that breaks off in an EOF is reported as complete (`Streaming.BrokenOff`).
- With no decoder goroutines the output closes at once and the input is never read
  (`DecoderPool.ClosedIsComplete`).
- A tolerated batch failure leaves a full buffer: the next row is written past its end, and without one
  the batch is handed over twice (`Batching.RefusalPanics`, `Batching.RefusalRepeats`). Every row is handed
  over once exactly when all full batches are taken and all read errors tolerated
  (`Batching.HandedOverExactly`).
- The scanner loses lines without a trace: it stops at a line that fills its buffer and at a read error,
  and its own error is not looked at after the loop. As many lines are sent or counted as are due exactly
  when each one shows some text before that happens (`LineScanner.NothingLostExactly`,
  `LineScanner.LongLineVanishes`); what is sent are always whole lines (`LineScanner.SentAreLines`).
- A struct that embeds a scalar or a slice, or a pointer to one, cannot be decoded, not even from its own
  encoding. Embedded maps and interfaces absorb the other fields, which an embedded map may not be able to
  hold (`EmbeddedFields.OwnEncodingDecodesExactly`, `EmbeddedFields.EmbeddedMapAbsorbs`).
- The event loop can block for ever on its own ready signal, whatever the module declares
  (`ModuleRunner.SticksExactly`, `ModuleRunner.EveryModuleCanStick`), and on handing over a configuration
  after a shutdown, exactly when the slot is taken and the worker has left
  (`ModuleRunner.EveryModuleCanHang`, `ModuleRunner.DeliversOtherwise`).
- A nil embedded pointer comes back allocated, and so does every embedded pointer below it
  (`TypedCodec.RoundTrip`, function `Untouched`).

`dafny verify dfyconfig.toml` checks the whole project.

## Model

| member | source | states |
|---|---|---|
| Dereference.SchemaDocument.DereferenceSchema | config/schema/schema2.go:29-34 | The dereferenced schema means what the original meant at every depth, what is left of its references is justified, and after the definitions are dropped it still means the same exactly when everything it reaches is inlinable (if definitions that are references carry no sub-schemas). |
| Dereference.Resolver.DereferenceType | config/schema/schema2.go:36-91 | Terminates for any definitions; the stack is as on entry, definition nodes are not written, nodes handed out earlier keep their trees, and the result is an admissible dereferencing of the argument although the cache holds entries computed under other stacks. |
| Dereference.Resolver.DereferenceReference | config/schema/schema2.go:37-62 | A reference on the stack or without a definition is returned as it is; a cached or inlined one is a shallow copy with the notes of the reference site. |
| Dereference.Resolver.DereferenceDefinition | config/schema/schema2.go:56-78 | A fresh deep copy of the definition whose children are all dereferenced. |
| Dereference.Resolver.DereferenceChildren | config/schema/schema2.go:64-78 | Every child slot is overwritten with an admissible result, for every order of the slots. |
| Dereference.Resolver.PutChild | config/schema/schema2.go:93-105 | Overwriting one slot keeps the finished and the waiting children as they were. |
| Dereference.Resolver.ShallowCopy | config/schema/schema2.go:83-87 | A new node that shares the children of a cached one and differs from it in title, description and default only. |
| Dereference.Resolver.Remember | config/schema/schema2.go:81 | The new cache entry is its definition with all children dereferenced, so the cache stays valid. |
| Dereference.DeepCopy | config/schema/schema2.go:60 | A fresh unshared tree of nodes that denotes the same schema. |
| SchemaTree.NamesByText | config/schema/schema2.go:38 | The text `#/definitions/X` names X, and any text that does not start so names itself. |
| SchemaTree.ReferenceBecomesDefinition | config/schema/schema2.go:56-88 | For the reference text `#/definitions/X` and a definition X without cycles that is no reference itself, every admissible result has no reference, the keywords and child slots of X and the notes of the site. |
| SchemaTree.PlainNodeStays | config/schema/schema2.go:64-78 | A node without a reference keeps its keywords, notes and child slots. |
| SchemaTree.KeptReference | config/schema/schema2.go:39-41 | Keeping an undefined or self-referring reference is an admissible result. |
| SchemaTree.InlineNode | config/schema/schema2.go:64-78 | A node whose children are dereferenced is dereferenced. |
| SchemaTree.InlinedReference | config/schema/schema2.go:80-88 | Replacing a reference by its processed definition under the notes of the site keeps the meaning, justifies the leftovers and, without cycles, equals cache-free inlining. |
| SchemaTree.InlineIgnoresStack | config/schema/schema2.go:47-54 | Without cycles, inlining does not depend on the names on the stack, so entries cached under any stack agree. |
| SchemaTree.PushLeads | config/schema/schema2.go:43 | Entering a definition keeps every stacked name leading to what comes next. |
| SchemaTree.ResolveStep | config/schema/schema2.go:38-59 | A reference stands for whatever its definition stands for, along chains of references. |
| SchemaTree.AloneWithoutDefinitions | config/schema/schema2.go:32 | A schema without references to definitions means the same with and without them. |
| SchemaTree.DefinedLeftoverShows | config/schema/schema2.go:32 | Any remaining reference to a definition is visible at some depth once the definitions are gone. |
| SchemaTree.DroppingDefinitions | config/schema/schema2.go:29-34 | When dropping the definitions keeps the meaning: sufficient for all definitions, and exact when references carry no sub-schemas. |
| SchemaTree.ClosedAcyclicLeavesNoReference | config/schema/schema2.go:29-34 | With closed acyclic definitions, none of them a mere reference, no reference remains. |
| SchemaTree.AliasDangles | config/schema/schema2.go:56-61 | A concrete schema with closed acyclic definitions whose meaning is lost, because a reference at the root of a definition is not followed. |
| CodecMethods.ConvertInterfaceToGrpcStruct | utils/go_to_grpc_coding.go:41-126 | The encoder computes the specified encoding, following one pointer at most. |
| CodecMethods.ConvertFields | utils/go_to_grpc_coding.go:71-90 | The field loop: embedded structs are flattened, later fields override earlier ones. |
| CodecMethods.ConvertNumbered | utils/go_to_grpc_coding.go:91-105 | Integer-keyed entries under their decimal text, none lost, for every iteration order. |
| CodecMethods.ConvertGrpcStructToInterface | utils/grpc_to_go_coding.go:24-56 | The dynamic decoder computes the specified decoding. |
| CodecMethods.GrpcToGoInner | utils/grpc_to_go_coding.go:71-232 | The typed decoder ends in a result its relation allows, for every iteration order, target and error; what that relation means is proved in `WireForms`, `Merging` and `TypedCodec`. |
| CodecMethods.DecodeStruct | utils/grpc_to_go_coding.go:96-131 | Field by field, in the relation that `Merging.NotMentionedKeeps` and `Merging.StructFieldMerges` speak of; embedded fields are decoded from the whole struct; after an error the earlier fields are written and the later ones untouched. |
| CodecMethods.DecodeSlice | utils/grpc_to_go_coding.go:172-197 | One element per wire element; null elements stay zero. |
| CodecMethods.DecodeTextMap | utils/grpc_to_go_coding.go:135-168 | Exactly the entries that are not null. |
| CodecMethods.DecodeIntMap | utils/grpc_to_go_coding.go:145-168 | Every key comes from a wire key that parses to it; an unparsable key is an error unless its value is null. |
| Merging.NotMentionedKeeps | utils/grpc_to_go_coding.go:105-116 | For every target: a field without a wire name, or whose name is absent from the data or null there, holds exactly what it held, also when another field fails. |
| Merging.StructFieldMerges | utils/grpc_to_go_coding.go:110-122 | A named or embedded struct that is mentioned is decoded into what the field holds, not into a fresh value. |
| Merging.UnmentionedStays | utils/grpc_to_go_coding.go:96-131 | At any depth, through named and embedded structs: what the data does not mention stays as it was. |
| Merging.MentionedReplaces | utils/grpc_to_go_coding.go:135-227 | Data that is there replaces everything but a struct: the result does not depend on what was held. |
| Merging.NothingMentioned | utils/grpc_to_go_coding.go:96-131 | Data with none of the names of a struct, such as an empty one, leaves every value of it as it is, if no pointer is embedded. |
| WireForms.OtherKindsFail | utils/grpc_to_go_coding.go:71-232 | Data of another kind is an error that leaves the target alone; null leaves it alone without one. |
| WireForms.NumberIntoInt | utils/grpc_to_go_coding.go:213-218 | A number fills an integer field with its whole part, cut off toward zero, when that fits the width. |
| WireForms.ScalarsFromWire | utils/grpc_to_go_coding.go:201-226 | Booleans, floats, texts and interfaces receive what the data carries. |
| WireForms.NullElementIsZero | utils/grpc_to_go_coding.go:181-191 | A null element of a list leaves the zero value at its place. |
| WireForms.ScalarsOnWire | utils/go_to_grpc_coding.go:41-125 | Which value goes out as which kind; integers up to 2^53 in size exactly. |
| WireForms.ContainersOnWire | utils/go_to_grpc_coding.go:91-113 | Lists and string-keyed maps element by element, nil ones as empty ones; one pointer is followed and no second one. |
| WireForms.IntKeysOnWire | utils/go_to_grpc_coding.go:91-105 | Integer-keyed entries go out under the decimal text of their keys and nothing else does. |
| WireForms.LastFieldWins | utils/go_to_grpc_coding.go:71-90 | Under each name goes what the last field contributes that has it, embedded structs included, and no other name is used. |
| WireForms.DynamicForms | utils/grpc_to_go_coding.go:24-56 | Which kind becomes which dynamic value. |
| WireForms.DynamicExactly | utils/grpc_to_go_coding.go:24-56 | Exactly the values made of nils, booleans, floats, texts, lists and string-keyed maps come back from the dynamic decoder as they were. |
| WireForms.RoundTripExactly | utils/grpc_to_go_coding.go:71-232 | A value of a supported type comes back unchanged exactly when it is canonical: 53-bit integers, dynamic interfaces, no nil slice, map or embedded pointer, no null map entries, zero fields where there is no wire name. |
| Codec.EncodeDecode | utils/grpc_to_go_coding.go:24-56 | Encoding the dynamic decoding of a tree gives back the tree exactly when every value in it has a kind. |
| Codec.DecodeEncode | utils/go_to_grpc_coding.go:41-126 | Decoding an encoding dynamically gives the value with its static types forgotten: floats for numbers, decimal keys, flattened structs, one pointer followed. |
| Codec.EncodeEmbedded | utils/go_to_grpc_coding.go:78-82 | An embedded struct contributes exactly its own fields. |
| Codec.WithTextKeys | utils/go_to_grpc_coding.go:98-104 | Decimal keys never collide. |
| Numbers.AtoiOfItoa | utils/grpc_to_go_coding.go:153-158 | Every int64 key survives the trip through text. |
| Numbers.ItoaInjective | utils/go_to_grpc_coding.go:98-99 | Different keys have different texts. |
| Numbers.RoundsToNearest | utils/go_to_grpc_coding.go:118-119 | The conversion to a float64 is at least as near as any number with a 53-bit significand. |
| Numbers.RoundsToSignificand | utils/go_to_grpc_coding.go:118-119 | It yields a number with a 53-bit significand, an even one when two are equally near. |
| Numbers.TruncatesTowardZero | utils/grpc_to_go_coding.go:213-215 | The conversion back cuts off a fraction on either side of zero. |
| Numbers.KeepsLowBits | utils/grpc_to_go_coding.go:213-215 | A narrower field keeps the number modulo two to its width, within its range. |
| Numbers.WidthsAre | utils/grpc_to_go_coding.go:213-215 | The ranges of the four widths. |
| Numbers.TextsOfNumbers | utils/grpc_to_go_coding.go:153-158 | Signs, empty texts, lone signs, letters and blanks in keys. |
| Numbers.DigitsExactly | utils/grpc_to_go_coding.go:153-158 | Exactly the non-empty rows of decimal digits are numbers. |
| Numbers.LeadingDigit | utils/grpc_to_go_coding.go:153-158 | The value of a row of digits, from its first digit on. |
| Numbers.KeysInRange | utils/grpc_to_go_coding.go:153-158 | A key outside int64 is refused, the least int64 is not. |
| TypedCodec.RoundTrip | utils/grpc_to_go_coding.go:71-232 | For every supported type and every value of it, decoding the encoding into a zero slot succeeds with the normal form, whatever the map order. |
| TypedCodec.StructRoundTrip | utils/grpc_to_go_coding.go:96-131 | A struct is recovered from any wire struct that agrees with its encoding on its own names. |
| TypedCodec.FieldSurvives | utils/go_to_grpc_coding.go:71-90 | With distinct flattened names no field is overridden by another. |
| TypedCodec.IntMapRoundTrip | utils/grpc_to_go_coding.go:145-168 | Integer-keyed maps come back under their own keys, without their null entries. |
| TypedCodec.TextMapRoundTrip | utils/grpc_to_go_coding.go:145-168 | String-keyed maps come back without their null entries. |
| TypedCodec.SliceRoundTrip | utils/grpc_to_go_coding.go:172-197 | Slices come back element by element. |
| TypedCodec.PointerRoundTrip | utils/grpc_to_go_coding.go:141-166 | A pointer slot gets a fresh target with the normal form of the old one. |
| TypedCodec.IntRoundTrip | utils/grpc_to_go_coding.go:213-218 | A signed integer comes back as rounded by float64, if its field can hold that. |
| TypedCodec.UntouchedRoundTrip | utils/grpc_to_go_coding.go:96-131 | A struct with no name on the wire decodes to zero fields, except that embedded pointers are allocated. |
| EmbeddedFields.EmbeddedNonStructFails | utils/grpc_to_go_coding.go:110-125 | A struct that embeds a scalar or slice, or a pointer to one, cannot be decoded from any wire struct. |
| EmbeddedFields.OwnEncodingDecodesExactly | utils/grpc_to_go_coding.go:96-131 | The encoding of a struct can be decoded exactly when every embedded field is a struct or an interface, or a map that every field of the struct fits, each perhaps behind a pointer. |
| EmbeddedFields.NotBoth | utils/grpc_to_go_coding.go:71-232 | Whether data can be decoded depends neither on the order of maps nor on what the target holds. |
| EmbeddedFields.NoForeignNoError | utils/grpc_to_go_coding.go:135-168 | A map can fail on nothing but an entry that is no value for it or whose name is no key for it. |
| EmbeddedFields.EmbeddedMapAbsorbs | utils/grpc_to_go_coding.go:110-114 | An embedded map receives every field of the struct that is not null; one that does not fit it makes the struct undecodable. |
| EmbeddedFields.EmbeddedInterfaceAbsorbs | utils/grpc_to_go_coding.go:110-114 | An embedded interface receives the whole struct in dynamic form. |
| EmbeddedFields.EmbeddedMapAlone | utils/go_to_grpc_coding.go:78-82 | A struct that consists of an embedded map comes back like the map. |
| ModuleRunner.Runner.Reset | bootstrap/module_runner.go:479-490 | The fields after a reset are the initial state. |
| ModuleRunner.Runner.AllMustConnected | bootstrap/module_runner.go:211-218 | The scan with early exit says whether all must-connect modules are connected. |
| ModuleRunner.Runner.Process | bootstrap/module_runner.go:180-278 | One event: the history grows by it, and flags, listed addresses and messages stay what the history makes of them. |
| ModuleRunner.Runner.React | bootstrap/module_runner.go:180-278 | What each message does to the flags and to the listed addresses, and what is sent in the background because of it. |
| ModuleRunner.Runner.Connected | bootstrap/module_runner.go:205-232 | A consumed connect event adds its module, the readiness of the required modules is decided anew, and the addresses of a connected module are listed. |
| ModuleRunner.SentAtEvent | bootstrap/module_runner.go:127-274 | Each message goes out at its event: the configuration schema at the start and after each reconnection, the requirements after each configuration applied before the ready signal of the epoch, the declaration when the signal is taken, and nothing otherwise. |
| ModuleRunner.SentCounts | bootstrap/module_runner.go:127-274 | Over any events: as many requirements as configurations were applied before the ready signal of their epoch, as many declarations as signals were taken, one configuration schema more than there were reconnections. |
| ModuleRunner.ListedExactly | bootstrap/module_runner.go:205-232 | Listed for a module are the addresses of its latest connect event, also after a disconnect, or none if it was not connected then; other modules are not listed. |
| ModuleRunner.InitialReadiness | bootstrap/module_runner.go:487 | The comparison of sizes says exactly whether no module must connect. |
| ModuleRunner.FlagsAreHistory | bootstrap/module_runner.go:173-274 | After any events the flags say exactly what was processed since the last disconnect; in particular the required-modules flag holds exactly when all must-connect modules are connected. |
| ModuleRunner.CanSendExactly | bootstrap/module_runner.go:81-86 | A ready signal is due exactly when the handshake of this epoch is complete and not yet signalled. |
| ModuleRunner.RunsAreSafe | bootstrap/module_runner.go:133-278 | In every state of every run: ready signals are justified, the loop never waits with one due, signals and consumed signals balance; accepted configurations are applied, in progress, queued (at most one) and being sent, in order; a callback gets the previous configuration as the old one; a token is pending exactly while an application has not been noticed. |
| ModuleRunner.ReadyAfterHandshake | bootstrap/module_runner.go:175-178 | Before each ready signal everything it waits for was processed since the last disconnect, and the latest routes were accepted. |
| ModuleRunner.ReadyOncePerEpoch | bootstrap/module_runner.go:175-178 | Two ready signals are separated by a processed disconnect. |
| ModuleRunner.ReadyNotMissed | bootstrap/module_runner.go:173-180 | While the loop waits, a completed handshake has been signalled. |
| ModuleRunner.ReadinessIsStable | bootstrap/module_runner.go:205-219 | Within an epoch the connected set only grows and its readiness is never lost. |
| ModuleRunner.SticksExactly | bootstrap/module_runner.go:175-178 | The loop blocks on its ready signal exactly when the handshake is complete and unsignalled in this epoch while an earlier signal has not been taken. |
| ModuleRunner.StuckForever | bootstrap/module_runner.go:175-178 | Once blocked it stays so: no message is taken, not even the end of the context. |
| ModuleRunner.EveryModuleCanStick | bootstrap/module_runner.go:173-278 | Whatever a module declares, some run blocks for ever on its ready signal. |
| ModuleRunner.HungForever | bootstrap/module_runner.go:187-190 | After a shutdown, once the worker has left and the slot is taken, a configuration being handed over blocks the loop for ever. |
| ModuleRunner.DeliversOtherwise | bootstrap/module_runner.go:135-163 | In every other reachable state a configuration being handed over can still be delivered. |
| ModuleRunner.EveryModuleCanHang | bootstrap/module_runner.go:135-190 | Whatever a module declares, some run hangs that way after the shutdown. |
| ModuleRunner.HandshakeStep | bootstrap/module_runner.go:173-278 | Every step of the system keeps the handshake invariant. |
| ModuleRunner.ConfigStep | bootstrap/module_runner.go:133-197 | Every step keeps the chain of configurations and the lossy token consistent. |
| DecoderPool.RunsKeepInv | resources/pipeline.go:134-166 | In every interleaving each item is waiting, in one worker's hands or finished exactly once, the output and the errors are those of the finished items, and nothing is sent after the close. |
| DecoderPool.ClosedIsComplete | resources/pipeline.go:134-166 | When the output closes, the output is the decodings of all decodable items as a multiset, exactly if there is a decoder or nothing to decode. |
| DecoderPool.OneWorkerOutput | resources/pipeline.go:134-166 | With one worker the output is always a prefix of the decodings in input order, and all of them at the close. |
| DecoderPool.OrderIrrelevant | resources/pipeline.go:140-155 | The results as a multiset depend on the items as a multiset only. |
| DecoderPool.StepsUseUpWork | resources/pipeline.go:134-166 | Every step uses up work, so every run is finite. |
| DecoderPool.NeverStuck | resources/pipeline.go:160-163 | Until the output is closed some step is possible. |
| DecoderPool.EachItem | resources/pipeline.go:140-155 | A byte slice is decoded or reported by the outcome of decoding it, anything else is reported, and an absent item is passed over. |
| LineScanner.ScanFile | resources/pipeline.go:61-90 | The tokens of one file after skipping what is left to skip: those without an error are sent, the others counted. `LineFiles.RowsAreSent` says what that is in terms of the rows of the file. |
| LineScanner.RunScanner | resources/pipeline.go:39-92 | Exactly the non-empty tokens of the readable files that carry no error, minus the first `skipLines` tokens overall, are sent, with one report per readable file. `LineFiles.RowsAreSent` says what that is in terms of the rows of the files. |
| LineScanner.LinesOfPrefix | resources/pipeline.go:62-65 | What is read before an error has the first lines of the file, whole except perhaps the last one. |
| LineScanner.TokensAreLines | resources/pipeline.go:65-86 | A token without an error is the line of the file at its place, whole. |
| LineScanner.SentAreLines | resources/pipeline.go:39-92 | What is sent are lines that are due, whole, in order and each once; all due lines are sent exactly when none is lost and none counted as an error. |
| LineScanner.WholeFilesAreSent | resources/pipeline.go:39-92 | If every readable file can be read to its end and has only lines shorter than the buffer, exactly the due lines are sent and no error is counted. |
| LineScanner.DeliveredExactly | resources/pipeline.go:61-69 | A file yields as many tokens with text as it has lines with text exactly when each of these shows some text before reading stops and no line up to it is too long for the buffer. |
| LineScanner.WholeFile | resources/pipeline.go:61-69 | A file that can be read to its end loses no line exactly when no line with text comes with or after one that fills the buffer; for a buffer of two bytes or more, when all its lines are shorter. Then its tokens are its lines. |
| LineScanner.LongLineVanishes | resources/pipeline.go:61-88 | A concrete file whose first line fills the buffer: nothing is sent and no error counted. |
| LineScanner.SentOrReported | resources/pipeline.go:66-90 | Every token that is not skipped is sent or counted as an error. |
| LineScanner.NothingLostExactly | resources/pipeline.go:39-92 | The lines sent and the errors counted are as many as the lines due exactly when every file delivers all its lines, or all were to be skipped. |
| LineFiles.WrittenBack | resources/pipeline.go:61-69 | A file written row by row, each ended by a newline or by a carriage return and a newline, the last one perhaps by none, has exactly those rows as its lines. |
| LineFiles.RowsAreLines | resources/pipeline.go:61-65 | The pieces between newlines are the rows as they were spelled. |
| LineFiles.EveryFile | resources/pipeline.go:61-69 | Every file can be written as rows, with what a read error leaves unread. |
| LineFiles.RowsAreSent | resources/pipeline.go:39-92 | For all files: sent are the texts of their rows in order, without empty rows, the first `skip` ones, a row cut off by a read error and everything from a row on that fills the buffer; every readable file reports its rows and whether the last one failed. |
| LineFiles.ShortRowsAreSent | resources/pipeline.go:39-92 | If no reading breaks off and all rows are shorter than the buffer, the texts of all rows after the first `skip` ones are sent. |
| Batching.MapBatches | resources/pipeline.go:196-222 | Batches concatenate to the input, all full but possibly the last, none empty, and no batch is overwritten after it was sent. |
| Batching.ReadAllLines | resources/utils.go:23-61 | Every call before the last has a full batch and the running sum, the last one the remaining rows, in number the total modulo the batch size; an abort withholds less than a batch and comes at the first error that is not tolerated; a refused but tolerated batch leads to a panic at the next row, or is handed over a second time at the end. |
| Batching.HandedOverExactly | resources/utils.go:23-61 | Every row is handed over exactly once exactly when all full batches that the rows make are taken and all read errors are tolerated. |
| Batching.RefusalPanics | resources/utils.go:44-53 | Two rows in batches of one, refused and tolerated: a panic at the second row. |
| Batching.RefusalRepeats | resources/utils.go:47-60 | One row in a batch of one, refused and tolerated: it is handed over twice. |
| Pipeline.EveryLineOnce | resources/pipeline.go:39-166 | Scanner and decoders together: when the output closes, output and reported items are the decodings and the failures of what was sent, as multisets; what was sent are due lines, whole and in order, and all of them if the files are whole; with the read errors they are as many as the due lines exactly when no file lost one, or all were to be skipped. |
| Pipeline.DecodedOrReported | resources/pipeline.go:145-154 | Each byte slice is either decoded or reported. |
| Pipeline.EveryRowOnce | resources/pipeline.go:39-166 | For such files, output and reported items are the decodings and the failures of exactly these texts. |
| Streaming.FromMessage | streaming/streaming.go:52-95 | Succeeds exactly when the four required properties are present, and then sets every field from the record; a failure leaves length and form data as they were. |
| Streaming.BeginFields | streaming/streaming.go:38-50 | The begin record on the wire: five properties, by name, kind and value. |
| Streaming.OtherKinds | streaming/streaming.go:58-92 | A property of another kind counts as empty or zero; form data that is missing or no struct is not set. |
| Streaming.BeginRecovered | streaming/streaming.go:38-95 | The receiver gets the begin record back: texts unchanged, the length through a float64, the form data in dynamic form. |
| Streaming.LengthArrives | streaming/streaming.go:79-81 | Which lengths arrive unchanged, negative ones included; all up to 2^53 in size do. |
| Streaming.LongLengthDrifts | streaming/streaming.go:79-81 | The length 2^53 + 1 arrives as 2^53. |
| Streaming.FormIntArrives | streaming/streaming.go:97-116 | A number up to 2^53 in size, or any int64 as text, put into the form data is read back on the other side unless it is zero. |
| Streaming.IntValueExactly | streaming/streaming.go:97-116 | A whole number or the text of an int64 is the value unless it is zero; missing fields, other kinds and other texts are refused. |
| Streaming.OnlyTheEndEnds | streaming/streaming.go:134-148 | The end marker is recognised; no begin record and no chunk is taken for it, nor it for a begin record. |
| Streaming.EndMarker | streaming/streaming.go:134-148 | The end marker is the struct {end: "end&"}, and exactly the structs with that entry are taken for one. |
| Streaming.BeforeTheFile | streaming/utils.go:19-35 | Nothing is written before a begin record has come and the file was made for it; each failure before has its own outcome. |
| Streaming.ReadLoopExactly | streaming/utils.go:37-56 | The receive loop writes the leading chunks as far as they fit, and why it stops, for every stream. |
| Streaming.FileArrives | streaming/utils.go:18-102 | For every file and every way of cutting it into chunks, the receiver writes exactly the file. |
| Streaming.BrokenOff | streaming/utils.go:37-49 | A stream that breaks off leaves a prefix of the file, and counts as a success exactly when it ended in an EOF. |
| FileStreaming.WriteFile | streaming/utils.go:59-102 | On success the begin record, chunks of at most 4096 bytes that concatenate to the file, and the end marker were sent; on failure a prefix of that; when it succeeds; the file is closed. |
| FileStreaming.SendFile | streaming/utils.go:68-102 | The loop with the reused buffer, for every way the reads cut the file. |
| FileStreaming.Stream.Finish | streaming/writer.go:26-41 | The end marker is sent and success means an answer or EOF and a successful close. |
| FileStreaming.FileStreamWriter.New | streaming/writer.go:47-54 | The begin record is sent before any chunk, or there is no writer. |
| FileStreaming.FileStreamWriter.Write | streaming/writer.go:18-24 | Each write is one chunk, and is reported as written in full or not at all. |
| FileStreaming.FileStreamWriter.Close | streaming/writer.go:26-41 | After a successful close the stream carries the begin record, all chunks and the end marker. |
| FileStreaming.ReadFile | streaming/utils.go:18-57 | The receiver does what the reading of the stream says, closes the file and answers with the begin record only if asked to. |
| FileStreaming.Receive | streaming/utils.go:37-56 | The receive loop against its specification, with the space left in the file. |
| TokenGenerator.Generator.constructor | token-gen/utils.go:28-41 | The chunk width is the number of binary digits of the alphabet length, so 2^(bits-1) <= length <= mask; the chunks of a draw are as many as 63 bits hold, and no more. |
| TokenGenerator.Generator.Next | token-gen/utils.go:47-66 | The token is the reversed first letters among the accepted chunks of the draw stream, cut from low to high; no token if the draws do not suffice. |
| TokenGenerator.BinaryDigitsBound | token-gen/utils.go:31 | The number of binary digits brackets the length between powers of two. |
| TokenGenerator.BitsFitDraw | token-gen/utils.go:38-39 | Every draw holds at least one chunk, and its chunks fit into 63 bits, where one more does not. |
| TokenGenerator.ChunksAreUniform | token-gen/utils.go:55-61 | Over the draws of a given width each chunk takes each value equally often: over the 2^63 draws exactly 2^(63-bits) times. |
| TokenGenerator.ChunksArePacked | token-gen/utils.go:55-60 | A draw is cut into given chunks exactly when its low bits are those chunks packed together. |
| TokenGenerator.VectorsAreUniform | token-gen/utils.go:51-61 | All chunks of a draw together take any values in exactly 2^(63-bits*max) of the 2^63 draws, so they are independent of each other. |
| TokenUniformity.WaysAreCompletions | token-gen/utils.go:47-66 | How many sequences of further draws complete a token depends only on how many of its letters are missing, and is given by a recurrence. |
| TokenUniformity.TokensAreUniform | token-gen/utils.go:47-66 | For distinct letters and any number of draws, all tokens of a length come from the same number of sequences of draws. |
| TokenUniformity.GeneratorIsUniform | token-gen/utils.go:28-66 | In particular for the chunk width and count that a generator computes, over 63-bit draws. |
| TokenUniformity.FirstChunk | token-gen/utils.go:55-60 | The lowest digit of a draw is its first chunk, the rest is cut into the others. |
| TokenGenerator.MoreDrawsSameToken | token-gen/utils.go:51-61 | A token depends on the draws up to its last letter only. |
| TokenGenerator.NextLetter | token-gen/utils.go:55-60 | One round of the loop masks off the next chunk and puts its letter, if it has one, in front. |
| Routing.RoutingConfig.AddAddressOrUpdate | structure/routing.go:76-93 | What a declaration does to any table, and that it reports a change unless all entries for its address encode equally. |
| Routing.UpdatedExactly | structure/routing.go:76-93 | Entry by entry: other addresses stay, an entry with equally encoded endpoints stays, every other one becomes the declaration, which is appended when its address is new. |
| Routing.UpToDateExactly | structure/routing.go:60-74 | Nothing changes exactly when the address is there and all its entries encode as the declaration does, which can be encoded. |
| Routing.TableIsLatest | structure/routing.go:60-93 | A table built by declarations has one entry per declared address, in first-declared order, with endpoints that encode as those last declared for it. |
| Routing.UnchangedExactly | structure/routing.go:76-93 | A declaration changes nothing exactly when the map from addresses to latest encodings stays the same and it can be encoded. |
| DbClient.RxDbClient.ReceiveConfiguration | database/rx_client.go:46-110 | The steps of a reconfiguration against the transition function. |
| DbClient.RxDbClient.Close | database/rx_client.go:112-123 | The handle is closed, the client made inactive and the error of closing returned. |
| DbClient.RxDbClient.Visit | database/rx_client.go:125-134 | Calls the visitor with the current handle and returns its error, or reports that there is no handle. |
| DbClient.RunsKeepInv | database/rx_client.go:46-123 | Handles are closed in the order in which they were installed, all but the current one, and a closed client has none. |
| DbClient.ClosedExactlyOnce | database/rx_client.go:97-106 | Over any run every installed handle but the current one has been closed exactly once, the current one never. |
| DbClient.ReplacedExactly | database/rx_client.go:50-108 | Over any run, a reconfiguration replaces the handle exactly when the client is open, the configuration differs from the last one, and the schema check (if on and asked for), the migrations (if on) and the connection succeed; otherwise at most an error is reported. |
| DbClient.ReplacedBy | database/rx_client.go:84-107 | A replacement makes a fresh pool with the schema if injected and all hooks, closes the old one and announces the new handle. |
| DbClient.ReportedExactly | database/rx_client.go:57-83 | The error handler, if there is one, hears exactly of the first step that fails, by its name. |
| DbClient.DeadAfterClose | database/rx_client.go:50-52 | After a close no call installs, closes or initialises anything. |
| DbClient.RunsKeepConnected | database/rx_client.go:102-107 | The current handle was made from the last configuration, each installation was announced once, and an open client stays connected once it was. |
| RoundRobin.RoundRobinStrings.Get | bootstrap/util.go:197-208 | The first call returns the address drawn, the k-th one the address k-1 places further on, going round. |
| RoundRobin.EachExactlyOnce | bootstrap/util.go:197-208 | Any n consecutive calls over n addresses return each position exactly once. |
| RoundRobin.OneRound | bootstrap/util.go:201-206 | Within a round the index runs to the end and then on from the start. |
| RoundRobin.GoesRound | bootstrap/util.go:201-206 | The index after any number of calls is the first one plus that number, modulo the number of addresses. |

## Left out

- Schema nodes: the nine child fields are one map keyed by slot, visited in any order; nil and empty maps and slices are not told apart, and all keywords but title, description and default are one opaque text.
- Schema input: the root must be an unshared tree of nodes apart from those of the definitions, which is what the reflector and JSON decoding produce; keywords beside a reference have no meaning (section 8.3 of the JSON Schema core specification, draft 7).
- SchemaTree.DroppingDefinitions: the exact condition is proved for definitions whose references carry no sub-schemas; with such sub-schemas the result may depend on the order of the slots, so only sufficiency is stated.
- SchemaTree.KeptReference: a remaining reference is justified by being undefined, by referring to itself, or by being the whole of a reached definition; the third case exists because definition roots are not followed.
- Codec types: time.Time, float32, Go arrays, unsigned and complex kinds, pointers to pointers and to interfaces, unexported fields, integer keys other than int64, recursive types and the marshaler and unmarshaler hooks; wire names are given, so the name derivation from tags is not modelled.
- Codec values: floats are exact reals or one of three special values, so negative zero and NaN payloads are not told apart; a float outside int64 converts to a value the language leaves open and nothing relies on it.
- EmbeddedFields.OwnEncodingDecodesExactly: the names inside embedded maps and interfaces are distinct from those of the other fields; a clash overrides a field, which is then decoded from the wrong value.
- TypedCodec.RoundTrip: a 64-bit integer that rounds to 2^63 is excluded, because converting it back is left open by the language.
- CodecMethods.GrpcToGoInner: returns what the target holds afterwards instead of writing through a pointer, so aliasing of targets is not captured; error texts are not modelled.
- Module runner: sockets, timers, back-off, heartbeats, metrics, shutdown handlers, panics and the preparation of remote configurations; they are events whose outcome is open. A stop is possible at any wait of the loop; that every handshake gets completed is not claimed.
- ModuleRunner.Runner.Process: closing the client after a failed acknowledgement is not modelled; a disconnect includes a successful reconnection.
- DecoderPool.RunsKeepInv: channels are queues without capacity, so back-pressure and a consumer that stops reading are not modelled; decoding is a total function.
- LineScanner.RunScanner: the reader reports its end or error in a call that returns no bytes; the texts of read errors and their line numbers, file names and the copying of scanned bytes are not modelled, nor is an endless sequence of files.
- Batching.ReadAllLines: the batch handler sees the filled prefix of the buffer by value; whether it may keep the buffer is not captured.
- Streaming: an empty chunk is received as empty and not as nil bytes, as protobuf decoding delivers it; a stream that keeps the sender's buffer instead of serialising it is not modelled.
- Streaming.FormIntArrives: the validation error details of the getters are one error value, and the text getter is left out.
- FileStreaming.Stream.Finish: the source writes this sequence out twice, at the end of the file sender and in the writer's close.
- TokenGenerator.Generator.Next: masking and shifting are remainder and quotient by a power of two; the draws are a finite sequence, so that a generator with an empty alphabet never finishes shows as no token for any of them; negative lengths, which panic, are left out.
- TokenUniformity.TokensAreUniform: counts sequences of draws; that the source of randomness is uniform is not part of this model.
- Routing.RoutingConfig.AddAddressOrUpdate: JSON encoding is an arbitrary function that may fail.
- DbClient.RxDbClient.ReceiveConfiguration: locking is replaced by calls that do not overlap; failed connection attempts leave no handle.
- RoundRobin.RoundRobinStrings.Get: calls from several goroutines at once are not modelled.
- Servers, clients, metrics, scripts, environment overrides, schema generation and the generated protobuf code: thin wiring over libraries, or easy members that would add little.
