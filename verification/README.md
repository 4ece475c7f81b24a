# image-resize-rust: the protocol layer, in Dafny

This project models the protocol layer of an image-resize server. Clients send JSON commands,
one per line. The server:

- reads them as `find` or `resize` commands;
- answers with JSON events (`found`, `not_found`, `resize_completed`, `resize_failed`);
- merges the stream of incoming commands with the stream of outgoing events.

The model is functional: immutable datatypes and pure functions over finite sequences. Each
codec is a function from a buffer (`seq<char>`) to what one `decode` call returns, together with
the buffer left after it. A stream is the finite sequence of what its successive polls yield.

Modules, in the order of the source:

- `CommandParser` (`src/command_parser.rs`): a JSON value becomes a `Command`.
  - The discriminator key is a parameter. It is `"type"` in `parse_json_string` and `"command"`
    where the line codec calls `create_command`.
  - Size triples are filtered and their numbers cut to 32 bits.
- `NewCommands` (`src/new_commands.rs`): the trait-based redesign.
  - `merge_with` and `hash_key` for the three command structs.
  - The factory, which reads the `"command"` key.
- `Events` (`src/events.rs`): the four events and `to_string`, which writes compact JSON with
  keys in serde_json's sorted-map order.
- `JsonCodec` (`src/json_codec.rs`): one JSON value per `decode`, read the way serde_json's
  stream deserializer reads it. `encode` appends compact JSON and a newline.
- `LinesCodec` and `CommandsCodec` (`src/codec.rs`): tokio's line framing, with
  `create_command` applied to each line and `Event::to_string` written as one line.
- `JsonStream` (`src/json_stream.rs`) and `Connection` (`src/connection.rs`): the stream
  mergers, over finite streams that are always ready.
  - `Connection` models futures 0.1's `Select` as a poll machine whose flag flips on every poll.
  - It proves that machine equal to a plain alternation that starts with the input side.
- Support modules:
  - `Json`, `JsonText` and `JsonRoundTrip`: the JSON subset serde_json handles here. This
    covers null, booleans, integers, strings, arrays, and objects kept as key-sorted member
    lists. It provides a compact writer and a reader, and proves the round trip between them.
    The reader keeps serde_json's nesting limit: at most 127 arrays and objects inside one
    another are read, and deeper text is malformed.
  - `Results`: `Option` and `Result`.
  - `Streams`: `collect`.
  - `Framing`: `io::Error` and the outcome of one `decode` call.
  - `Machine`: `u32` and `as u32`.
  - `Text`: one sequence lemma.

Where the code panics (an `unwrap` on a missing value), the model states a precondition that
excludes that input. The functions are total on every other input, error paths included. The
JSON reader leaves out floating-point numbers and surrogate escapes, which it reports as
malformed (see "Left out").

## Model

| member | source | states |
|---|---|---|
| CommandParser.ParseSizeItem | src/command_parser.rs:49-64 | A value yields a size exactly when it is an array of three elements shaped `[string, number, number]`. The target is the string. Width and height agree with the numbers modulo 2^32, and equal them when they are below 2^32. |
| CommandParser.SizeItems | src/command_parser.rs:41-44 | The kept sizes are never more than the elements of the list. |
| CommandParser.CollectImageSizes | src/command_parser.rs:39-47 | A missing or non-array `sizes` gives no sizes. Otherwise the sizes are the filtered elements of the array (`SizeItems`, characterised by `SizeItemsSelects`), at most one per element. |
| CommandParser.SizeItemsAppend | src/command_parser.rs:41-44 | Filtering distributes over concatenation: each element is judged on its own. |
| CommandParser.SizeItemsSelects | src/command_parser.rs:39-60 | The sizes are exactly the size triples of the list, in order. The k-th size is read from the k-th triple, positions strictly increase, and every triple of the list contributes one size. |
| CommandParser.SizeValuesRoundTrip | src/command_parser.rs:49-60 | Writing sizes as `[target, width, height]` triples and reading them back gives the same sizes. |
| CommandParser.CreateCommand | src/command_parser.rs:23-37 | The result is `FindImage` exactly when the discriminator is `"find"` and `path` is a string, and it carries that path. It is `ResizeImage` exactly when the discriminator is `"resize"`, carrying `source` and the collected sizes. A missing or non-string discriminator, a non-object, any other name, and `find` without a string path all give `WrongCommand`. |
| CommandParser.ParseCommandText | src/command_parser.rs:16-21 | Text that is not one JSON document is a wrong command. Text that is one is the command `create_command` makes of the parsed document. Any command other than a wrong one comes from a document whose discriminator is a string. |
| CommandParser.ParseJsonString | src/command_parser.rs:16-21 | Unparseable text is `WrongCommand`. Parseable text is `create_command` of its document read under `type`. A find or resize command comes from a document whose `type` is `"find"` or `"resize"` respectively. |
| CommandParser.CommandJsonRoundTrip | src/command_parser.rs:23-37 | Reading the JSON object that describes a command, under any discriminator key other than a field name, gives that command back. |
| CommandParser.CommandTextRoundTrip | src/command_parser.rs:16-37 | Reading the serialized text of that object gives the command back. |
| CommandParser.WrittenCommand | src/command_parser.rs:16-18 | A request written with the same blank after every `,` and `:`, its members in any order and nested less deeply than the limit, is read as the command of the object serde_json builds from it. |
| CommandParser.CommandJsonDepth | src/command_parser.rs:23-37 | The object that describes a command nests at most three deep, far below serde_json's limit. |
| CommandParser.SizeListDepth | src/command_parser.rs:39-47 | A list of size triples nests two deep. |
| CommandParser.FindRequest | src/command_parser.rs:70-80 | `{"type":"find","path":"/path/to/file"}` is `FindImage("/path/to/file")`. |
| CommandParser.UnknownTypeRequest | src/command_parser.rs:82-90 | `{"type":"something"}` is `WrongCommand`. |
| CommandParser.EmptyRequest | src/command_parser.rs:92-97 | `{}` is `WrongCommand`. |
| CommandParser.FindWithoutPathRequest | src/command_parser.rs:99-104 | `{"type": "find"}` is `WrongCommand`. |
| CommandParser.NormalizeReversed | src/command_parser.rs:17 | Three members written in descending key order are stored in ascending order. |
| CommandParser.WrittenResize | src/command_parser.rs:31-34 | A request written as `type`, `source`, `sizes` is the resize of its source to the size triples of its list. |
| CommandParser.OneSizeResizeRequest | src/command_parser.rs:106-125 | The one-triple resize request gives that one size. |
| CommandParser.ResizeRequest | src/command_parser.rs:127-151 | The three-item resize request keeps the first and third items and drops the two-element middle one. |
| CommandParser.EmptyResizeRequest | src/command_parser.rs:153-170 | An empty `sizes` list gives a resize without sizes. |
| CommandParser.MalformedRequest | src/command_parser.rs:172-175 | `{daasdas}` is `WrongCommand`. |
| CommandParser.SmallSizeItem | src/command_parser.rs:52-55 | A triple whose numbers fit in 32 bits is read as exactly those numbers. |
| CommandParser.SizeItemsSkipMiddle | src/command_parser.rs:41-44 | In a triple, non-triple, triple list, the two triples are kept, in order. |
| CommandParser.ExampleSizes | src/command_parser.rs:127-151 | The size list of the invalid-item example is safe to read and gives the two well-formed sizes. |
| NewCommands.WrongMergeWith | src/new_commands.rs:49-52 | Merging into a wrong command keeps its own reason. |
| NewCommands.FindMergeWith | src/new_commands.rs:65-68 | Merging into a find command keeps its own path and ignores the other's. |
| NewCommands.ResizeMergeWith | src/new_commands.rs:81-90 | The merged resize keeps its own path. Its targets are its own followed by the other's, so the target count is the sum of both. |
| NewCommands.MergeWith | src/new_commands.rs:5-6 | Merging two commands of one kind gives a command of that kind. |
| NewCommands.HashKey | src/new_commands.rs:54-94 | The key is the kind's prefix (`WrongCommand::`, `FindImageCommand::`, `ResizeImageCommand::`) followed by the reason or the path. |
| NewCommands.MergeKeepsHashKey | src/new_commands.rs:81-94 | A merged command has the hash key of the command merged into. |
| NewCommands.HashKeyInjective | src/new_commands.rs:54-94 | Two commands share a hash key exactly when they are of the same kind and have the same reason or path. |
| NewCommands.ResizeMergeAssociative | src/new_commands.rs:81-90 | Merging resize commands is associative. |
| NewCommands.ResizeMergeNoTargets | src/new_commands.rs:81-90 | Merging in a resize without targets changes nothing. |
| NewCommands.AbsorbingMerge | src/new_commands.rs:49-68 | A wrong or find command is unchanged by any merge. |
| NewCommands.CreateCommandFromValue | src/new_commands.rs:105-121 | The result is a find command exactly when `command` is `"find"` and `path` is a string, carrying that path. Everything else, `resize` included, is a wrong command with an empty reason. |
| NewCommands.CreateCommandFromJsonString | src/new_commands.rs:97-103 | Unparseable text is a wrong command with an empty reason. Parseable text is what the factory makes of the document. The factory never builds a resize command. |
| NewCommands.FactoryAgreesOnFind | src/new_commands.rs:105-113 | On `find` the factory agrees with the line protocol's parser read under the same key. Where that parser builds a resize, the factory builds a wrong command. |
| NewCommands.FindRequestRoundTrip | src/new_commands.rs:97-113 | The serialized request for a find command is read back as that find command. |
| NewCommands.MergeExamples | src/new_commands.rs:128-200 | The three merge examples: each absorbing kind keeps its own command, and resize concatenates the targets. |
| NewCommands.FactoryWrongExamples | src/new_commands.rs:219-245 | `{,}` and `{"command":"something"}` are wrong commands, with the empty reason the code passes. |
| NewCommands.FactoryFindExample | src/new_commands.rs:227-235 | `{"command":"find","path":"/path/to/file"}` is a find command for that path. |
| Events.Found | src/events.rs:21-23 | Builds `ImageFound` holding the path unchanged. |
| Events.NotFound | src/events.rs:25-27 | Builds `ImageNotFound` holding the path unchanged. |
| Events.ResizeComplete | src/events.rs:29-31 | Builds `ImageResizeComplete` holding the target unchanged. |
| Events.ResizeFailed | src/events.rs:33-35 | Builds `ImageResizeFailed` holding the target and the reason unchanged. |
| Events.ToJson | src/events.rs:38-56 | The object `json!` builds is well-formed. Its members are the literal's, except that a failed resize lists `reason` before `target`, in key order. |
| Events.FieldsInserted | src/events.rs:38-56 | Inserting the literal's fields into serde_json's map gives them in sorted key order. |
| Events.ToString | src/events.rs:37-59 | The text of an event is a JSON document that `from_str` reads back as the event's object. |
| Events.ToJsonDepth | src/events.rs:38-56 | An event's object holds only strings, so it nests one deep. |
| Events.ToStringShape | src/events.rs:37-96 | The exact text of each event: `event` first, then its fields in key order, with no whitespace and no newline. |
| Events.FromJson | src/events.rs:38-56 | The event a client reads from an object names the kind found under `event`. |
| Events.FromJsonInverse | src/events.rs:38-56 | Reading an event's object gives the event back. |
| Events.EventRoundTrip | src/events.rs:37-59 | An event's text parses back to its object, and that object reads back as the event. |
| Events.ToStringInjective | src/events.rs:37-59 | Two events have the same text exactly when they are equal. |
| JsonCodec.Decode | src/json_codec.rs:26-42 | A buffer of only whitespace, including the empty buffer, yields nothing and is consumed. What remains is always a suffix of the buffer. A decoded value is the reader's value at the front of the buffer, and the buffer is advanced exactly past it. Every error is `InvalidData` with the one fixed message. After an error the buffer stands at the start of the malformed text, or just past a value followed by a stray character. |
| JsonCodec.Encode | src/json_codec.rs:49-55 | The old content is kept, followed by the value's compact text and exactly one newline. |
| JsonCodec.EncodeAll | src/json_codec.rs:49-55 | Repeated encodes never alter what the buffer already held. |
| JsonCodec.DecodeAll | src/json_codec.rs:26-42 | Decoding until nothing is returned stops at an error or at an empty buffer. |
| JsonCodec.EncodeAllAppends | src/json_codec.rs:147-169 | Encoding several values leaves the old content followed by one frame per value, in order. |
| JsonCodec.DecodeAfterBlank | src/json_codec.rs:98-105 | Leading whitespace does not change what is decoded. |
| JsonCodec.DecodeWritten | src/json_codec.rs:26-42 | A value written with the same blank after every `,` and `:`, and nested less deeply than the limit, is decoded as serde_json builds it. The buffer is advanced exactly past it. |
| JsonCodec.DecodeTooDeep | src/json_codec.rs:32-39 | A value nested as deep as the limit or deeper is the parse error, and the buffer does not move. |
| JsonCodec.DecodeFrame | src/json_codec.rs:26-55 | One encoded frame decodes to its value, leaving the newline and what follows. |
| JsonCodec.DecodeAllFrames | src/json_codec.rs:86-96 | Back-to-back frames decode in order, to exactly their values, and then leave the buffer empty. |
| JsonCodec.EncodeDecodeRoundTrip | src/json_codec.rs:26-55 | Decoding what encoding wrote gives the values back. |
| JsonCodec.WrittenArrays | src/json_codec.rs:77-105 | An array decodes alone, after leading blanks, and ahead of a second array. The second array is what remains, and the next call returns it. |
| JsonCodec.ArrayExamples | src/json_codec.rs:77-105 | `[1, 2, 3]` decodes alone, after five spaces, and ahead of `[4, 5, 6]`, which the next call returns. |
| JsonCodec.MalformedBlocks | src/json_codec.rs:32-39 | After text that is not JSON the buffer does not move. Decoding again gives the same error, so nothing behind it is reached. |
| JsonCodec.InvalidObjectBlocks | src/json_codec.rs:107-128 | `{invalid}` is the parse error, and whatever follows it is never decoded. |
| JsonCodec.WriteNoNewline | src/json_codec.rs:50 | The compact text of a value never contains a newline. |
| JsonCodec.FrameIsOneLine | src/json_codec.rs:49-54 | Each encoded frame is exactly one line. |
| LinesCodec.FindNewline | src/codec.rs:28 | Finds the first line feed of the buffer, or reports that there is none. |
| LinesCodec.WithoutCarriageReturn | src/codec.rs:28 | Drops exactly one trailing carriage return, and nothing else. |
| LinesCodec.Decode | src/codec.rs:28 | Returns nothing while no line feed has arrived, leaving the buffer as it was. Otherwise it returns the text before the first line feed, without a trailing carriage return, and advances past the line feed. |
| LinesCodec.DecodeEof | src/codec.rs:36 | A complete line is decoded as by `Decode`. Otherwise the unterminated rest is flushed, unless it is empty or a lone carriage return. |
| LinesCodec.Encode | src/codec.rs:49 | The old content, the line, and one line feed. |
| LinesCodec.EncodeDecode | src/codec.rs:48-50 | Reading what `encode` wrote gives the line back and leaves what followed. |
| LinesCodec.DrainJoin | src/codec.rs:118-141 | Lines come out in the order written. An unterminated last line is flushed when the connection ends. |
| CommandsCodec.CreateCommand | src/codec.rs:29 | A line that is not JSON is a wrong command. Otherwise the result is the command parser's result for the document, read under `command`. |
| CommandsCodec.Lift | src/codec.rs:28-32 | A line becomes its command. Nothing and errors pass through unchanged, and the buffer is left as the line codec left it. |
| CommandsCodec.Decode | src/codec.rs:27-33 | Nothing while no line feed has arrived. Otherwise the command of the first line, with the buffer advanced past its line feed. |
| CommandsCodec.DecodeEof | src/codec.rs:35-41 | The command of a complete line. Otherwise the command of the unterminated rest, unless that rest is empty or a lone carriage return. |
| CommandsCodec.Encode | src/codec.rs:48-50 | The old content, then the event's text and a line feed. A line reader gets that text back, with nothing left over. |
| CommandsCodec.EncodedEventReads | src/codec.rs:48-50 | A client reading that line gets back the event's object, and from it the event. |
| CommandsCodec.DecodeRequest | src/codec.rs:27-33 | A request object written on one line, with the same blank after every `,` and `:`, any member order, and nested less deeply than the limit, decodes to its command. The buffer is advanced to just after its line feed. |
| CommandsCodec.DecodeEofRequest | src/codec.rs:35-41 | The same request without a line feed is read when the connection ends. |
| CommandsCodec.EmptyBufferDecodesNothing | src/codec.rs:58-65 | An empty buffer holds no command. The same exchange is at tests/codec_test.rs:8-15. |
| CommandsCodec.EmptyObjectLine | src/codec.rs:67-75 | `{}` and a line feed is a wrong command. The same exchange is at tests/codec_test.rs:17-25. |
| CommandsCodec.FindLine | src/codec.rs:77-90 | `{"command": "find", "path": p}` and a line feed is a find command for `p`. The same exchange is at tests/codec_test.rs:27-40. |
| CommandsCodec.TwoFindLines | src/codec.rs:92-141 | Two find lines decode in order, one per call. A second line without a line feed is returned by `decode_eof`. The same exchanges are at tests/codec_test.rs:42-91. |
| CommandsCodec.FindEof | src/codec.rs:118-141 | A find request without its line feed is read by `decode_eof`. |
| CommandsCodec.FoundEventLine | src/codec.rs:143-150 | The found event for a path with nothing to escape is written as `{"event":"found","path":"<path>"}` and a line feed. |
| CommandsCodec.DrainCommands | src/codec.rs:27-41 | The commands a connection yields are `create_command` of its lines, in order. |
| CommandsCodec.RequestsRoundTrip | src/codec.rs:27-41 | Commands a client writes, one per line, reach the server as the same commands in the same order. |
| JsonStream.MergeItem | src/json_stream.rs:17-18 | An item becomes `InputCommand` and an error becomes `InputError`, each holding what it held. The merged item is never an error. |
| JsonStream.MergedInput | src/json_stream.rs:14-19 | One merged item per input item, at the same position. |
| JsonStream.CollectMerged | src/json_stream.rs:14-19 | Collecting never fails. The collection has the input's length, and each element tells what the input yielded at that position. |
| JsonStream.EmptyInput | src/json_stream.rs:28-37 | An empty input collects to an empty `Ok`. |
| JsonStream.CommandsOnly | src/json_stream.rs:39-57 | Two commands collect to two `InputCommand`s. |
| JsonStream.CommandsAndErrors | src/json_stream.rs:59-86 | Errors keep their places among the commands, and later items still follow. |
| Connection.InputItem | src/connection.rs:18-19 | An input item becomes `Input` and an input error becomes `Output`. Neither ends the stream. |
| Connection.OutputItem | src/connection.rs:21-23 | An output item becomes `Output`. An output error becomes `ConnectionError`. |
| Connection.InputSide | src/connection.rs:18-19 | The input side, item by item. |
| Connection.OutputSide | src/connection.rs:21-23 | The output side, item by item. |
| Connection.Poll | src/connection.rs:20-24 | One `select` poll ends the merged stream only when both sides have ended. Every other poll takes exactly one item. |
| Connection.Interleave | src/connection.rs:20-24 | The alternation holds as many elements as both sides together. |
| Connection.SelectInterleaves | src/connection.rs:20-24 | Collecting the poll machine gives the alternation of the two sides, including where an error cuts it short. |
| Connection.Merge | src/connection.rs:13-25 | The merged stream alternates, input first, and the longer side's rest comes last. It fails exactly when the output side has an error, and then with `ConnectionError`. Otherwise it has one element per item of both sides. |
| Connection.InterleaveElements | src/connection.rs:20-24 | The alternation holds every element of both sides, as often as they do. |
| Connection.CollectFailsOnOutputError | src/connection.rs:20-25 | Collecting the alternation fails exactly when the output side has an error. |
| Connection.MergeKeepsInputs | src/connection.rs:13-25 | The input side's commands reach the merged stream, all of them and in order. |
| Connection.EmptyStreams | src/connection.rs:36-46 | Two empty sides give `Ok([])`. |
| Connection.InputsOnly | src/connection.rs:48-67 | Input items alone arrive as `Input`, in order. |
| Connection.InputErrorsOnly | src/connection.rs:69-91 | Input errors alone arrive as `Output`, in order. |
| Connection.OutputOnly | src/connection.rs:93-114 | Output items alone arrive as `Output`, in order. |
| Connection.RoundRobin | src/connection.rs:116-146 | The round-robin example, with the input error in its turn as an `Output` and the last input at the end. |
| Streams.Collect | src/connection.rs:45 | `collect` succeeds exactly when every item is `Ok`, and then has the items in order. Otherwise its error is the first error. |
| Machine.TruncateU32 | src/command_parser.rs:54-55 | `as u32` keeps the value modulo 2^32, which is the value itself below 2^32. |
| Json.Insert | src/events.rs:38-56 | Inserting into serde_json's map makes the key hold the new value and leaves every other key as it was. |
| JsonRoundTrip.SerializeRoundTrip | src/json_codec.rs:49-50 | Parsing the compact text of a well-formed value nested less deeply than the limit gives the value back, and leaves what follows untouched. |
| JsonRoundTrip.WrittenTextParses | src/command_parser.rs:17 | `from_str` on text written with the same blank after every `,` and `:`, and nested less deeply than the limit, gives the object as serde_json builds it: keys sorted, the last duplicate winning. |
| JsonRoundTrip.NestingLimit | src/command_parser.rs:17 | `from_str` reads written text exactly when the value nests less deeply than the limit. |
| JsonRoundTrip.ValueSuffix | src/json_codec.rs:27-39 | The reader only ever stops inside the text it was given: what it leaves is a suffix. |

## Left out

- `src/main.rs` (TCP listener, tokio runtime, `spawn`, `println!`) and `src/lib.rs` (re-exports only): I/O plumbing, outside the protocol logic.
- `src/commands.rs` is not part of this model. The `create_command` that `src/codec.rs` calls is modelled as `src/command_parser.rs`'s logic reading the `command` key, which the codec's examples use.
- Futures readiness: `NotReady`, wakeups, and the re-flip of `Select` when its first stream is not ready. The streams modelled are finite and always ready, which is how the examples drive them with `wait()`.
- Floating-point numbers: fractions, exponents and `-0` are reported as malformed. Integers are not bounded at 64 bits in the reader, whereas serde_json would read larger ones as floats. Size triples are required to hold unsigned 64-bit numbers anyway.
- `\u` escapes naming a surrogate code unit are reported as malformed. serde_json would pair them into one character.
- UTF-8 decoding in `LinesCodec`, and `BytesMut` capacity and `reserve` growth: buffers are character sequences, so an encoding error cannot arise and capacity has no effect.
- Panics: a `resize` without a string `source`, and a size triple whose width or height is not an unsigned 64-bit integer, make the code panic through `unwrap`. `CommandParser.CommandSafe` and `CommandParser.SizeItemSafe` exclude them as preconditions.
- `src/new_commands.rs` does not compile as written: `impl Commands::WrongCommand` (line 43), `WrongCommand::new` (line 120), and the trait's `Box<Self>` return type (line 6). The model gives each struct the evident semantics, and `MergeWith` is offered only between commands of the same kind.
- The `Event` trait of `src/new_commands.rs` (lines 14-16) is declared but never used. The commented-out `process_handler` (lines 10-11) has no behaviour.
- NewCommands.FactoryWrongExamples: the factory examples at `src/new_commands.rs:219-245` expect reason strings, and a Debug text with a typo, that the code never produces. The code passes `""`, and the model states the code's behaviour.
- JsonCodec.InvalidObjectBlocks: the example at `src/json_codec.rs:117-128` expects decoding to resume after a malformed frame. It is not marked as a test, and the code advances only by the offset the deserializer reached, so no resynchronisation is modelled.
- JsonRoundTrip.WrittenTextParses, and with it `JsonCodec.DecodeWritten`, `CommandParser.WrittenCommand` and `CommandsCodec.DecodeRequest`, cover text written with one blank string after every `,` and `:` and none elsewhere. The reader skips whitespace at every other place too, but those spacings are not proved.
- CommandParser.ResizeRequest, CommandParser.OneSizeResizeRequest and CommandParser.EmptyResizeRequest state the documented requests with the same blank after every `,` and `:`. The source's texts mix spacing, which the reader skips either way.
- The literal encoder examples at `src/json_codec.rs:137-169` are covered by `JsonCodec.EncodeAllAppends` and `JsonCodec.Encode` for all values, and not as literal texts.
- The literal hash keys at `src/new_commands.rs:139-144`, `162-170` and `202-208` are covered by `NewCommands.HashKey` for all commands, and not as literal texts.
- Events.ToStringShape: the events are written through `JsonText.Quote`, so the literal texts at `src/events.rs:66-96` follow for values with nothing to escape. Only the found event's literal text is spelled out, by `CommandsCodec.FoundEventLine`.
