# Soulseek.NET message core in Dafny

This project models part of the core of Soulseek.NET, a C# client library for the Soulseek peer-to-peer file sharing network. It covers:

- **Codec**: the message codec. A reader moves a cursor over a byte buffer. It reads a byte, a 4-byte little-endian integer, an 8-byte little-endian long and a length-prefixed string. It can also seek to an absolute position and decompress the bytes it has not yet read. A builder appends a code and strings, then frames the body with its 4-byte length. Failures are values: a code mismatch (`MessageException`), a read or seek out of range (`MessageReadException`) and a decompression failure (`MessageCompressionException`).
- **Messages**: the peer `EnqueueDownloadRequest`. Its `FromByteArray` checks the `QueueDownload` code and then reads the filename. Its `ToByteArray` writes the same layout back.
- **Responses**: `SearchResponseSlim.Parse`.
  1. It checks the `PeerSearchResponse` code and decompresses the payload.
  2. It reads the username, the token and the file count from the front.
  3. It seeks to 17 bytes before the end and reads a one-byte free slot count, a 4-byte upload speed and an 8-byte queue length.
  4. It seeks back to the end of the header and keeps the reader there, so the file list can be parsed later.
- **Search**: `SearchOptions`, its documented defaults, and the response and file qualification its documentation defines.
- **Trackers**: the transfer tracker of the web API example. It is a dictionary from direction, to username, to filename, to (transfer, cancellation token source). It supports `AddOrUpdate` and `TryRemove`. `TryRemove` without a filename drops every transfer of that user in that direction.
- **Common**: the `Directory` record, as its unit tests describe it.

Both `Codec.MessageReader` and `Codec.MessageBuilder` are classes whose methods update their fields. Each reader method is proved against a pure function on a `Codec.Cursor` value. Each builder method is proved to append the encoding of its argument. The two messages are decoded by functions (`Messages.Decode`, `Responses.Decode`). The methods `Messages.FromByteArray` and `Responses.Parse` drive the reader, and each is proved to equal its decoding function. The properties are lemmas about those functions. `Trackers.TransferTracker` is a class holding the registry. Its methods are proved against the pure updates `Trackers.Upsert` and `Trackers.Remove`.

Integers are modelled with their widths: `int32` and `int64` are subset types of `int`. Encoding is little-endian two's complement. Strings are raw byte sequences, and a 4-byte length prefix bounds their length. The zlib inflater is passed in as a function parameter: `None` means a malformed stream, `Some(bytes)` the inflated bytes.

## Model

| member | source | states |
|---|---|---|
| Codec.MessageError.Class | src/Soulseek.NET/Common/Exceptions/MessageException.cs:24-122 | every codec error is a MessageException. Only code mismatches are plain MessageExceptions, and only decompression failures are MessageCompressionExceptions. Read and seek failures are MessageReadExceptions |
| Codec.Cursor.ReadBytes | src/Soulseek.NET/Messaging/Responses/SearchResponseSlim.cs:55 | succeeds exactly when 0 <= count <= remaining bytes. It then yields the next count bytes and advances by count, and otherwise reports the position, the count and the length |
| Codec.Cursor.ReadByte | src/Soulseek.NET/Messaging/Responses/SearchResponseSlim.cs:62 | succeeds exactly when a byte remains, yields the byte at the position and advances by one. Otherwise it is a read exception |
| Codec.Cursor.ReadInteger | src/Soulseek.NET/Messaging/Responses/SearchResponseSlim.cs:56-57 | succeeds exactly when 4 bytes remain. It yields their little-endian signed value and advances by 4. Otherwise it is a read exception |
| Codec.Cursor.ReadLong | src/Soulseek.NET/Messaging/Responses/SearchResponseSlim.cs:64 | succeeds exactly when 8 bytes remain. It yields their little-endian signed value and advances by 8. Otherwise it is a read exception |
| Codec.Cursor.ReadString | src/Soulseek/Messaging/Messages/EnqueueDownloadRequest.cs:51 | succeeds exactly when a 4-byte length n is present, n is non-negative and n bytes follow. It yields those n bytes and advances past them. Otherwise it is a read exception |
| Codec.Cursor.Seek | src/Soulseek.NET/Messaging/Responses/SearchResponseSlim.cs:60 | succeeds exactly when the target lies in [0, length] and then moves there. Otherwise it reports the target and the length |
| Codec.Cursor.Decompress | src/Soulseek.NET/Messaging/Responses/SearchResponseSlim.cs:53 | succeeds exactly when the unread bytes inflate. Reading then restarts at position 0 of the inflated bytes. Otherwise it is a compression exception |
| Codec.Frame | src/Soulseek/Messaging/Messages/EnqueueDownloadRequest.cs:64 | a frame is 4 bytes longer than its body: the body prefixed with its length, as a string is |
| Codec.Unframe | src/Soulseek/Messaging/Messages/EnqueueDownloadRequest.cs:43 | accepts exactly the inputs with a 4-byte length L where 0 <= L <= the bytes that follow, and yields those L bytes |
| Codec.UnframeFrame | src/Soulseek/Messaging/Messages/EnqueueDownloadRequest.cs:64 | unframing a framed body gives the body back |
| Codec.ReadIntegerAfterWrite | src/Soulseek/Messaging/Messages/EnqueueDownloadRequest.cs:62 | reading an integer where one was written yields that value, and the cursor lands right after it |
| Codec.ReadLongAfterWrite | src/Soulseek.NET/Messaging/Responses/SearchResponseSlim.cs:64 | reading a long where one was written yields that value, and the cursor lands right after it |
| Codec.ReadByteAfterWrite | src/Soulseek.NET/Messaging/Responses/SearchResponseSlim.cs:62 | reading a byte where one was written yields that byte, and the cursor lands right after it |
| Codec.ReadStringAfterWrite | src/Soulseek/Messaging/Messages/EnqueueDownloadRequest.cs:63 | reading a string where one was written yields those bytes, and the cursor lands right after them |
| Codec.MessageReader.constructor | src/Soulseek.NET/Messaging/Responses/SearchResponseSlim.cs:46 | a new reader is at position 0 of the given bytes |
| Codec.MessageReader.ReadCode | src/Soulseek/Messaging/Messages/EnqueueDownloadRequest.cs:44 | the result and the new state are those of an integer read from the old state |
| Codec.MessageReader.ReadString | src/Soulseek/Messaging/Messages/EnqueueDownloadRequest.cs:51 | the result and the new state are those of a string read from the old state. A failed read leaves the position unchanged |
| Codec.MessageReader.ReadInteger | src/Soulseek.NET/Messaging/Responses/SearchResponseSlim.cs:56-57 | the result and the new state are those of an integer read from the old state |
| Codec.MessageReader.ReadByte | src/Soulseek.NET/Messaging/Responses/SearchResponseSlim.cs:62 | the result and the new state are those of a byte read from the old state |
| Codec.MessageReader.ReadLong | src/Soulseek.NET/Messaging/Responses/SearchResponseSlim.cs:64 | the result and the new state are those of a long read from the old state |
| Codec.MessageReader.Seek | src/Soulseek.NET/Messaging/Responses/SearchResponseSlim.cs:60 | the new position is that of a seek from the old state, unchanged on failure |
| Codec.MessageReader.Decompress | src/Soulseek.NET/Messaging/Responses/SearchResponseSlim.cs:53 | the new buffer is the inflated unread bytes at position 0, unchanged on failure |
| Codec.MessageBuilder.constructor | src/Soulseek/Messaging/Messages/EnqueueDownloadRequest.cs:61 | a new builder holds no bytes |
| Codec.MessageBuilder.WriteCode | src/Soulseek/Messaging/Messages/EnqueueDownloadRequest.cs:62 | appends exactly the 4 little-endian bytes of the code |
| Codec.MessageBuilder.WriteString | src/Soulseek/Messaging/Messages/EnqueueDownloadRequest.cs:63 | appends exactly the 4-byte length and then the bytes |
| Codec.MessageBuilder.Build | src/Soulseek/Messaging/Messages/EnqueueDownloadRequest.cs:64 | the message is the body prefixed with its length, and unframing it gives the body back |
| Messages.Decode | src/Soulseek/Messaging/Messages/EnqueueDownloadRequest.cs:41-53 | a success means the following. Bytes 4-7 hold QueueDownload and bytes 8-11 hold the filename length. The filename is that many bytes from offset 12, inside both the declared frame and the message. A code mismatch names QueueDownload as expected |
| Messages.DecodeAccepts | src/Soulseek/Messaging/Messages/EnqueueDownloadRequest.cs:41-53 | parsing succeeds exactly when the message has at least 12 bytes, a declared frame of at least 8 bytes within them, the QueueDownload code in bytes 4-7, and a filename length in bytes 8-11 that fits inside the frame |
| Messages.TrailingBytesIgnored | src/Soulseek/Messaging/Messages/EnqueueDownloadRequest.cs:43 | once the declared frame lies within the message, bytes appended after the message change neither the result nor the error |
| Messages.Encode | src/Soulseek/Messaging/Messages/EnqueueDownloadRequest.cs:59-65 | an encoded request is 12 bytes longer than its filename |
| Messages.FromByteArray | src/Soulseek/Messaging/Messages/EnqueueDownloadRequest.cs:41-53 | the reader-driven parse returns or raises exactly what Messages.Decode does |
| Messages.ToByteArray | src/Soulseek/Messaging/Messages/EnqueueDownloadRequest.cs:59-65 | the builder-driven bytes are exactly Messages.Encode of the request |
| Messages.RoundTrip | src/Soulseek/Messaging/Messages/EnqueueDownloadRequest.cs:41-65 | parsing the bytes of any request, the empty filename included, gives the same request back |
| Messages.EncodingLayout | src/Soulseek/Messaging/Messages/EnqueueDownloadRequest.cs:61-64 | bytes 0-3 hold 8 + the filename length, bytes 4-7 the QueueDownload code, bytes 8-11 the filename length, and the filename follows |
| Messages.CodeMismatchFailsFast | src/Soulseek/Messaging/Messages/EnqueueDownloadRequest.cs:44-51 | a well-framed body with any other code raises a MessageException naming QueueDownload and the code received, whatever follows |
| Messages.MismatchReportsCodes | src/Soulseek/Messaging/Messages/EnqueueDownloadRequest.cs:46-49 | every code mismatch reports QueueDownload as expected and the bytes 4-7 of the message as received, and the two differ |
| Messages.TruncatedMessageFails | src/Soulseek/Messaging/Messages/EnqueueDownloadRequest.cs:43-51 | every proper prefix of an encoded request is rejected with a read exception |
| Messages.TruncatedBodyFails | src/Soulseek/Messaging/Messages/EnqueueDownloadRequest.cs:43-51 | a correctly framed but truncated body is rejected with a read exception, never a partial request |
| Responses.Decode | src/Soulseek.NET/Messaging/Responses/SearchResponseSlim.cs:44-70 | a success implies the PeerSearchResponse code. A code mismatch is raised exactly when the code differs, and it names PeerSearchResponse and the code received |
| Responses.DecodeInflated | src/Soulseek.NET/Messaging/Responses/SearchResponseSlim.cs:55-69 | a success keeps the inflated buffer in the retained reader, and that buffer has at least 17 bytes |
| Responses.HeaderFields | src/Soulseek.NET/Messaging/Responses/SearchResponseSlim.cs:55-57 | the header reads leave a valid cursor on the same buffer |
| Responses.DecodeTrailer | src/Soulseek.NET/Messaging/Responses/SearchResponseSlim.cs:59-66 | a success leaves the retained reader exactly where the header reads ended, in a buffer of at least 17 bytes |
| Responses.TrailerFields | src/Soulseek.NET/Messaging/Responses/SearchResponseSlim.cs:62-64 | the byte, integer and long come from the 13 bytes at the cursor, at offsets 0, 1-4 and 5-12 |
| Responses.Parse | src/Soulseek.NET/Messaging/Responses/SearchResponseSlim.cs:44-70 | the reader-driven parse returns or raises exactly what Responses.Decode does |
| Responses.ParseInflated | src/Soulseek.NET/Messaging/Responses/SearchResponseSlim.cs:55-69 | the reader steps after decompression return or raise exactly what Responses.DecodeInflated does, and on success the reader is left where the retained reader stands |
| Responses.ReadHeader | src/Soulseek.NET/Messaging/Responses/SearchResponseSlim.cs:55-57 | the three header reads on the reader succeed exactly when Responses.HeaderFields does. They give its fields and leave the reader at its cursor |
| Responses.ParseTrailer | src/Soulseek.NET/Messaging/Responses/SearchResponseSlim.cs:59-69 | the seek, trailer reads and seek back on the reader return or raise exactly what Responses.DecodeTrailer does, and on success the reader is back just after the header, where the retained reader stands |
| Responses.ReadTrailer | src/Soulseek.NET/Messaging/Responses/SearchResponseSlim.cs:62-64 | the three trailer reads on the reader give Responses.TrailerFields of the old state and advance it by 13 |
| Responses.DecodeLayout | src/Soulseek.NET/Messaging/Responses/SearchResponseSlim.cs:46-69 | parsing succeeds exactly when the code matches, the payload inflates, the header fits and the inflated payload has at least 17 bytes. A success carries the header fields from the front and the trailer fields from 17 bytes before the end, with the reader just after the header |
| Responses.InflatedLayout | src/Soulseek.NET/Messaging/Responses/SearchResponseSlim.cs:55-69 | after decompression to d, parsing succeeds exactly when the header fits and d has at least 17 bytes, and then every field is where the layout says |
| Responses.TrailerLayout | src/Soulseek.NET/Messaging/Responses/SearchResponseSlim.cs:59-66 | the trailer phase succeeds exactly when at least 17 bytes are present. It then keeps the header fields, reads the trailer fields from the last 17 bytes and returns the reader to the end of the header |
| Responses.HeaderReads | src/Soulseek.NET/Messaging/Responses/SearchResponseSlim.cs:55-57 | the header reads succeed exactly when the username fits with 8 more bytes, and they yield the fields at their offsets |
| Responses.TrailerOffsets | src/Soulseek.NET/Messaging/Responses/SearchResponseSlim.cs:60-64 | free slots sit at byte L-17, the upload speed at bytes L-16 to L-13 and the queue length at bytes L-12 to L-5 (inclusive) of an inflated payload of length L |
| Responses.CodeMismatchFailsFast | src/Soulseek.NET/Messaging/Responses/SearchResponseSlim.cs:48-51 | any other code raises a MessageException with both codes before decompression, whatever the inflater |
| Responses.CompressionFailureReported | src/Soulseek.NET/Messaging/Responses/SearchResponseSlim.cs:53 | a payload that does not inflate raises a compression exception |
| Responses.ShortPayloadFails | src/Soulseek.NET/Messaging/Responses/SearchResponseSlim.cs:55-64 | with the PeerSearchResponse code, an inflated payload that is shorter than 17 bytes or whose header does not fit is always rejected with a read exception |
| Responses.FreeUploadSlotsIsAByte | src/Soulseek.NET/Messaging/Responses/SearchResponseSlim.cs:62 | a parsed free slot count lies in [0, 255] |
| Responses.TrailerIndependence | src/Soulseek.NET/Messaging/Responses/SearchResponseSlim.cs:59-64 | two PeerSearchResponse messages whose inflated payloads have a fitting header, at least 17 bytes, the same header and the same last 17 bytes both parse, to the same fields, whatever lies between |
| Responses.LastFourBytesUnread | src/Soulseek.NET/Messaging/Responses/SearchResponseSlim.cs:60-64 | changing the last 4 inflated bytes changes neither success nor any field other than the retained buffer |
| Responses.InflatedLastFourBytesUnread | src/Soulseek.NET/Messaging/Responses/SearchResponseSlim.cs:55-69 | the same property for the steps after decompression, stated on the decompressed payloads |
| Responses.LaidOutDetermines | src/Soulseek.NET/Messaging/Responses/SearchResponseSlim.cs:55-64 | two responses laid out over payloads with the same header and the same first 13 trailer bytes differ at most in the retained buffer |
| Search.Defaults | src/Soulseek/SearchOptions.cs:45-58 | omitted arguments give timeout 15, response limit 100, filtering on, at least 1 file, at least 0 free slots, a queue of at most 1000000, speed at least 0, file limit 10000, and no username, filters or callbacks |
| Search.Qualifies | src/Soulseek/SearchOptions.cs:85-108 | a response qualifies when responses are not filtered, or when it has at least the minimum files, free slots and upload speed and at most the maximum queue |
| Search.QualificationRules | src/Soulseek/SearchOptions.cs:85-108 | with filtering on, missing any single threshold disqualifies a response and meeting all of them qualifies it. With filtering off every response qualifies |
| Search.StricterOptionsQualifyFewer | src/Soulseek/SearchOptions.cs:90-108 | raising a minimum or lowering the maximum queue never admits a response that looser options rejected |
| Search.DefaultQualification | src/Soulseek/SearchOptions.cs:45-58 | under the defaults, a parsed response qualifies exactly when it has a file, a non-negative speed and a queue of at most 1000000 |
| Search.FreeSlotFilterSwitch | src/Soulseek/SearchOptions.cs:85-98 | a peer with no free slots, under a minimum of one, is rejected when filtering and accepted when not |
| Search.IncludesFile | src/Soulseek/SearchOptions.cs:75-78 | without a file filter every file is included, and with one its verdict decides |
| Search.IncludesResponse | src/Soulseek/SearchOptions.cs:110-114 | without a response filter every response is included, and with one its verdict decides |
| Search.FilterFiles | src/Soulseek/SearchOptions.cs:75-78 | keeps no more files than given, a file occurs in the result exactly when it occurs in the input and is included, and without a filter the list is unchanged |
| Search.FilterFilesCounts | src/Soulseek/SearchOptions.cs:75-78 | each included file is kept as many times as it occurs, and each excluded file never |
| Search.FilterFilesAppend | src/Soulseek/SearchOptions.cs:75-78 | filtering keeps the original order: the files kept from a + b are those kept from a, followed by those kept from b |
| Trackers.Upsert | examples/Web/api/Trackers/ITransferTracker.cs:17-21 | afterwards the event's (direction, username, filename) holds its transfer and token source, and every other key is unchanged |
| Trackers.Remove | examples/Web/api/Trackers/ITransferTracker.cs:23-27 | afterwards the given filename, or with none every filename, of that user and direction is untracked, and every other key is unchanged |
| Trackers.UpdateReplaces | examples/Web/api/Trackers/ITransferTracker.cs:15-21 | updating a tracked transfer does not change the number of that user's entries |
| Trackers.RemoveUntracked | examples/Web/api/Trackers/ITransferTracker.cs:23-27 | removing what is not tracked leaves the registry as it was |
| Trackers.TransferTracker.constructor | examples/Web/api/Trackers/ITransferTracker.cs:15 | a new tracker tracks nothing |
| Trackers.TransferTracker.AddOrUpdate | examples/Web/api/Trackers/ITransferTracker.cs:21 | the new registry is Trackers.Upsert of the old one |
| Trackers.TransferTracker.TryRemove | examples/Web/api/Trackers/ITransferTracker.cs:27 | the new registry is Trackers.Remove of the old one, with the filename optional |
| Common.NewDirectory | tests/Soulseek.NET.Tests.Unit/Common/DirectoryTests.cs:24-53 | name and count are stored as given. No list gives an empty one, and a given list is kept element for element |
| Common.InstantiatesWithGivenData | tests/Soulseek.NET.Tests.Unit/Common/DirectoryTests.cs:24-30 | the directory keeps the given name and file count |
| Common.InstantiatesWithEmptyFileListGivenNoList | tests/Soulseek.NET.Tests.Unit/Common/DirectoryTests.cs:34-40 | without a list the file list is empty |
| Common.InstantiatesWithGivenFileList | tests/Soulseek.NET.Tests.Unit/Common/DirectoryTests.cs:44-53 | a one-file list gives a single file equal to the one given, whatever count is declared |
| Primitives.UnsignedRoundTrip | src/Soulseek.NET/Messaging/Responses/SearchResponseSlim.cs:56-64 | reading back n little-endian bytes of any value below 256^n gives that value |

## Left out

- zlib: decompression is the `inflate` parameter. The inflater's own format is not modelled.
- Text encoding: strings are their raw bytes. The UTF-8 or code-page conversion of the C# strings is not modelled, and filenames and usernames compare byte for byte.
- The numeric values of the message codes come from an enumeration that is not part of this model. `QueueDownload` is 43 and `PeerSearchResponse` is 9, as in the Soulseek protocol. The properties hold for any values.
- `MessageReader`, `MessageBuilder` and `MessageCode` are not modelled here. Their behaviour is inferred from how the two messages call them.
  - A read past the end, a negative string length and a seek outside [0, length] fail, and a failed operation leaves the position unchanged.
  - The outer 4-byte length prefix is checked to lie within the bytes present, and bytes beyond it are ignored (`Messages.TrailingBytesIgnored`).
  - The writes neither message uses (byte, integer, long, raw bytes) are left out.
- `Responses.Message`: the received message is given as its code and payload. How the reader splits a raw frame into the two is not modelled.
- File-list parsing from the retained reader, and the full `SearchResponse` parsing, are not part of this model. The retained reader is a value, holding its buffer and position, rather than a shared object.
- The search session itself is left out: timeouts, response and file limits, state changes and callbacks. `SearchOptions` stores the limits and callbacks, and the callbacks are opaque handles that are never invoked.
- `Search.Qualifies`: the options' documentation defines the thresholds, but the code that applies them is not part of this model. The predicate follows the documented meaning. The byte-valued free slot count is compared as a number.
- Concurrency: the tracker's concurrent dictionaries are a `map` updated by one caller at a time. Cancellation token sources are opaque handles, and nothing cancels them.
- `Trackers.Transfer` keeps only the fields used for tracking: direction, username, filename, size, bytes transferred and state.
- Lengths: filenames are limited to what fits the 4-byte length prefix of the whole message. `ToByteArray` requires this, and the source's `int` lengths would overflow beyond it.
- The comment on the trailer seek in `SearchResponseSlim.Parse` speaks of 8 unused bytes at the end. The code reads 13 bytes starting 17 bytes before the end, which leaves 4 bytes unread. The model follows the code, as `Responses.LastFourBytesUnread` states.
- `Responses.LastFourBytesUnread` assumes that a header which fits ends before the last 4 bytes. Otherwise the header reads depend on those bytes too.
