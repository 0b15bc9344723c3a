# Webdis: a verified model of its protocol engines

Webdis is an HTTP and WebSocket server in front of Redis. This project models, in Dafny, the parts
of it (and of the libraries in its tree) that carry state across calls, and proves what they promise
over whole runs. `dafny verify dfyconfig.toml` checks all of it.

Each component is modelled in the form of its source. Code that updates fields or buffers step by
step is a class or a method with loops, proved against a function of values; the properties are then
lemmas about those functions, or the contracts of `Run` methods that perform arbitrary sequences of
operations and events.

| component | files | main result |
|---|---|---|
| RESP reader (`src/hiredis/read.c`) | RespGrammar, RespReader, RespWire | a stack machine fed in arbitrary pieces emits the replies and the error of a recursive grammar on the whole stream |
| Command formatter (`src/hiredis/hiredis.c`, `sds.c`) | RespFormat | two formatters produce the same bytes, and the reader and the argument scanner undo them |
| Asynchronous context (`src/hiredis/async.c`) | CallbackList, Async | the k-th reply reaches the k-th command, none is lost but by a free or a surplus; every callback is served exactly once |
| Subscriptions (`src/hiredis/async.c`) | PubSub | counters cover the confirmations outstanding, messages find the callback registered last, in every run against an in-order server |
| Callback dictionary (`src/hiredis/dict.c`) | Dict | every sequence of operations agrees with a map |
| JSON objects (`src/jansson/src/hashtable.c`) | HashTable | every sequence of operations agrees with an insertion-ordered map, through in-place rehashes |
| JSON text (`src/jansson/src/dump.c`, `load.c`, `utf.c`) | Utf8, JsonString, JsonLex, JsonValue, JsonSound, JsonText, JsonDocument, JsonReader, JsonWriter | load undoes dump, for every layout, exactly for the values that a load can return; every spelling of a JSON text loads as the value meant |
| Key hash (`src/jansson/src/lookup3.h`) | Lookup3 | the hash does not depend on alignment or on the bytes behind the key |
| HTTP parser (`src/http-parser/http_parser.c`) | HttpMachine, HttpParser | marks and bulk skips refine a byte-at-a-time machine, so any cut of a stream gives the same callbacks |
| HTTP requests (`src/http-parser/http_parser.c`) | HttpLine, HttpHeader, HttpRequest, HttpWire | the text of every request, alone or pipelined, is read back as its target, headers and body, and determines them |
| Chunks (`src/http.c`) | HttpChunk | formatted chunks are read back as the concatenated body |
| WebSocket (`src/websocket.c`) | WsFrame, WebSocket, WsWire | messages handled, answers and output follow from the pieces read and the events in every run; frames in pieces are all handled exactly when none comes after a close frame's piece |
| Connection pool (`src/pool.c`) | Pool | attempts, connections and timers are conserved; slots hold distinct connections that were made and not lost since, read off the events |
| Request paths (`src/cmd.c`) | Cmd | a path is split back into the command it was made from |
| Digests (`src/md5`, `src/sha1`) | BlockHash, Md5, Sha1 | any sequence of appends is the compression folded over the padded concatenation |

The modules RespWire, HttpWire and WsWire, and JsonText and JsonDocument, state the protocols on literal bytes,
independently of the tables the code goes by.

Bytes holds byte strings and the notations of numbers shared by all.

Some laws do not hold of the code in full, and the model keeps the code as it is. For each the exact
condition is proved.

- A server frame of 65536 bytes is written with a zero length (`WsFrame.DecodeServerFrame`,
  `WebSocket.WireDecodes`).
- Frames that arrive in a piece after that of a close frame are dropped, while those in the same piece
  are handled (`WebSocket.FramesTaken`, `WebSocket.LateFrame`).
- A subscribe command that names a new channel after one already awaited leaves its counter too high
  (`PubSub.IssuedExact`, `PubSub.CounterTooHigh`).
- A request body is dropped for a lone command name and put before an empty last argument
  (`Cmd.PrepareJoin`, `Cmd.LoneName`); a numeric command name is taken for a database
  (`Cmd.NumericName`).
- An argument or a name at the end of a path loses an ending that looks like an extension
  (`Cmd.PlainPath`).
- A pool search never looks at the slot right after its cursor (`Pool.FoundNone`).
- A key that is not UTF-8 is printed in part and the dump succeeds (`JsonWriter.DoDump`,
  `JsonValue.BadKey`).

What the surroundings do is a parameter. Hash functions, the mixing and compression rounds and the
acceptance of floating-point text are function parameters. Callbacks, executions and socket events
are sequences given to a run, over which every result is quantified.

## Model

| member | source | states |
|---|---|---|
| `RespGrammar.ParseNumberExact` | src/hiredis/read.c:163-224 | a text is accepted as an integer with value v if and only if it is the canonical decimal notation of v and v fits 64 bits |
| `RespGrammar.ParseReplyExtend` | src/hiredis/read.c:528-603 | a reply or an error found in a prefix of the input stays the same whatever bytes follow |
| `RespGrammar.ParseManyExtend` | src/hiredis/read.c:449-526 | the elements of an aggregate found in a prefix stay the same whatever bytes follow |
| `RespGrammar.ParseStreamCut` | src/hiredis/read.c:688-739 | the replies and the error of a stream can be found by parsing a prefix and going on from what it left over |
| `RespReader.SeekNewline` | src/hiredis/read.c:125-149 | the first CRLF, or none |
| `RespReader.String2LL` | src/hiredis/read.c:163-224 | digit-by-digit conversion with its overflow tests computes the grammar's number, and refuses everything else |
| `RespReader.Reader.constructor` | src/hiredis/read.c:605-635 | an idle reader with nothing pending |
| `RespReader.Reader.SetError` | src/hiredis/read.c:53-75 | an error drops the partial reply and the buffer and is remembered |
| `RespReader.Reader.ReadLine` | src/hiredis/read.c:226-239 | the line up to the first CRLF is consumed, or nothing is |
| `RespReader.Reader.Store` | src/hiredis/hiredis.c:121-286 | a created object is put in its place in the reply tree, the rest of the tree unchanged |
| `RespReader.Reader.MoveToNextTask` | src/hiredis/read.c:241-267 | finishing an element closes every aggregate it completes and leaves the stack at the next element to read |
| `RespReader.Reader.ProcessLineItem` | src/hiredis/read.c:269-349 | one line item takes the machine one step along the recursive grammar, with the same value or error |
| `RespReader.Reader.ProcessBulkItem` | src/hiredis/read.c:351-421 | one bulk item takes the machine one step along the grammar, waits for its bytes, or fails with the grammar's error |
| `RespReader.Reader.ProcessAggregateItem` | src/hiredis/read.c:449-526 | an aggregate header is nil, empty, opened on the stack, or the grammar's error |
| `RespReader.Reader.Grow` | src/hiredis/read.c:423-446 | growing the task stack changes no task |
| `RespReader.Reader.ProcessItem` | src/hiredis/read.c:528-603 | each step keeps the machine on the path of the recursive grammar and makes progress |
| `RespReader.Reader.Feed` | src/hiredis/read.c:657-686 | the fed bytes are appended to what is pending, however the buffer is reallocated; a failed reader refuses |
| `RespReader.Reader.Compact` | src/hiredis/read.c:721-727 | dropping the consumed part of the buffer leaves the unread bytes alone |
| `RespReader.Reader.GetReply` | src/hiredis/read.c:688-739 | one call gives exactly what the recursive grammar gives on the pending bytes: a reply and the rest, nothing yet, or the error |
| `RespReader.Reader.Drain` | src/hiredis/async.c:504-592 | repeated calls give the whole list of replies of the pending bytes, in order |
| `RespReader.Session` | src/hiredis/read.c:657-739 | for every stream and every way of cutting it into feeds, the replies in order and the eventual error are those of the grammar on the whole stream |
| `RespFormat.ParseEncode` | src/hiredis/read.c:528-603 | parsing the text of any printable reply gives it back, whatever follows |
| `RespFormat.ParseStreamEncode` | src/hiredis/read.c:688-739 | a list of replies written one after another is read back as that list with nothing left over |
| `RespFormat.LongToString` | src/hiredis/sds.c:431-460 | digit generation and reversal produce the decimal notation, for every 64-bit value |
| `RespFormat.ReverseInPlace` | src/hiredis/sds.c:450-458 | the buffer is reversed |
| `RespFormat.CountDigits` | src/hiredis/hiredis.c:288-298 | the number of decimal digits |
| `RespFormat.BulkLen` | src/hiredis/hiredis.c:301-303 | the exact length of one formatted argument |
| `RespFormat.FormatCommandArgv` | src/hiredis/hiredis.c:625-661 | the buffer of the precomputed length is filled exactly with the command's text |
| `RespFormat.FormatSdsCommandArgv` | src/hiredis/hiredis.c:568-614 | the appending formatter produces the same bytes, of the length computed beforehand |
| `RespFormat.ParseCommand` | src/hiredis/hiredis.c:568-661 | the reader parses a formatted command to an array of its arguments, for arbitrary bytes |
| `RespFormat.Echo` | src/hiredis/read.c:657-739 | a formatted command fed in any pieces comes out as one array of its arguments |
| `RespFormat.NextArgumentOf` | src/hiredis/async.c:720-732 | from any argument's start the scanner yields that argument and the start of the next |
| `RespFormat.NoMoreArguments` | src/hiredis/async.c:720-732 | after the last argument the scanner ends |
| `RespFormat.ListArguments` | src/hiredis/async.c:720-797 | scanning a formatted command enumerates exactly its arguments |
| `RespWire.StatusLine` | src/hiredis/read.c:536-541 | a line that begins with a plus sign is a status with the text of the line, on literal bytes |
| `RespWire.ErrorLine` | src/hiredis/read.c:536-541 | a line that begins with a minus sign is an error with the text of the line |
| `RespWire.IntegerLine` | src/hiredis/read.c:276-287 | a line that begins with a colon is the integer v exactly if its text is the decimal notation of a 64-bit v, and an error otherwise |
| `RespWire.DoubleLine` | src/hiredis/read.c:288-317 | a line that begins with a comma is a double, unless it has 326 bytes or more or is no number |
| `RespWire.NilLine` | src/hiredis/read.c:318-322 | a line that begins with an underscore is nil |
| `RespWire.BoolLine` | src/hiredis/read.c:323-328 | a line that begins with a hash is true exactly if its text begins with a t in either case |
| `RespWire.StringPayload` | src/hiredis/read.c:351-421 | a dollar sign, a length and that many bytes are a string of those bytes; the two bytes behind it are skipped unread |
| `RespWire.VerbatimPayload` | src/hiredis/read.c:387-400 | an equals sign announces a format of three bytes, a colon and a text, and anything else is refused |
| `RespWire.NoPayload` | src/hiredis/read.c:371-383 | the length -1 announces nil, and other negative lengths are refused |
| `RespWire.AggregateHeader` | src/hiredis/read.c:449-526 | an asterisk, a tilde, a greater-than sign and a percent sign announce that many elements of an array, a set, a push and that many pairs of a map; -1 is nil |
| `RespWire.AggregateRange` | src/hiredis/read.c:470-478 | any other number of elements is refused |
| `RespWire.BadLength` | src/hiredis/read.c:364-369 | a length that is no number is refused, with the error of its kind |
| `RespWire.OtherByte` | src/hiredis/read.c:572-574 | no other byte announces a reply |
| `RespWire.ReadAnswer` | src/hiredis/read.c:657-739 | however the bytes are cut, a plus line comes out of the reader as a status and a minus line as an error |
| `RespWire.ReadIntegers` | src/hiredis/read.c:657-739 | however the bytes are cut, colon lines come out as their numbers in order |
| `Bytes.DigitsPlaces` | src/hiredis/sds.c:431-460 | the digits are ASCII, no zero in front, and their place values add up to the number |
| `HashTable.LookupPut` | src/jansson/src/hashtable.c:224-255 | in the insertion-ordered map, a put changes the looked-up value of its own key only |
| `HashTable.LookupRemove` | src/jansson/src/hashtable.c:93-123 | a removal forgets its own key only |
| `HashTable.ListInsert` | src/jansson/src/hashtable.c:42-47 | a node is linked before another in a ring, the other links kept |
| `HashTable.ListRemove` | src/jansson/src/hashtable.c:49-52 | a node is taken out of a ring |
| `HashTable.SegmentedInsert` | src/jansson/src/hashtable.c:58-66 | inserting into a bucket keeps every bucket one contiguous segment of the list |
| `HashTable.SegmentedDrop` | src/jansson/src/hashtable.c:93-123 | removing a pair keeps every bucket one contiguous segment, with the right ends |
| `HashTable.Table.constructor` | src/jansson/src/hashtable.c:171-188 | an empty table |
| `HashTable.Table.InsertToBucket` | src/jansson/src/hashtable.c:58-66 | the new member comes to stand in its bucket's segment |
| `HashTable.Table.FindPair` | src/jansson/src/hashtable.c:68-90 | the pair of the key if it is in the table at all, otherwise none |
| `HashTable.Table.Relink` | src/jansson/src/hashtable.c:161-166 | one step of the rehash moves one pair and leaves every link not yet visited untouched |
| `HashTable.Table.Rehash` | src/jansson/src/hashtable.c:137-169 | the rehash relinks every pair exactly once; contents and order are unchanged |
| `HashTable.Table.Grow` | src/jansson/src/hashtable.c:224-235 | growing changes the bucket array only |
| `HashTable.Table.Set` | src/jansson/src/hashtable.c:224-255 | the table's entries become the map's put, an overwritten key keeping its position; the old value is released |
| `HashTable.Table.Get` | src/jansson/src/hashtable.c:257-270 | the map's lookup |
| `HashTable.Table.Del` | src/jansson/src/hashtable.c:93-123 | the map's removal, and the value released |
| `HashTable.Table.Clear` | src/jansson/src/hashtable.c:277-289 | no entries are left, and the values released are exactly those that were there |
| `HashTable.Table.IterNext` | src/jansson/src/hashtable.c:310-315 | the next entry in insertion order |
| `HashTable.Table.IterAt` | src/jansson/src/hashtable.c:295-308 | the position of a key in insertion order |
| `HashTable.Table.IterSet` | src/jansson/src/hashtable.c:332-337 | the value at the iterator is replaced in place |
| `HashTable.Table.Iterate` | src/jansson/src/hashtable.c:291-315 | iteration lists all entries, once each, in insertion order |
| `HashTable.SamePairs` | src/jansson/src/hashtable.c:125-135 | the hash list and the ordered list hold the same pairs |
| `HashTable.Perform` | src/jansson/src/hashtable.c:224-315 | every operation keeps the table's invariant and does to it what it does to the insertion-ordered map |
| `HashTable.Run` | src/jansson/src/hashtable.c:171-315 | every sequence of set, get, delete, clear and iterate gives the answers of the insertion-ordered map, for any hash function |
| `Dict.NextPower` | src/hiredis/dict.c:334-343 | the least power of two at or above the size |
| `Dict.Dict.constructor` | src/hiredis/dict.c:82-98 | an empty dictionary |
| `Dict.Dict.Expand` | src/hiredis/dict.c:100-146 | every entry is moved exactly once into the larger table; contents unchanged |
| `Dict.Dict.MoveNext` | src/hiredis/dict.c:120-139 | one entry moves from the old table to the bucket its hash selects in the new one |
| `Dict.Dict.ExpandIfNeeded` | src/hiredis/dict.c:323-331 | the table is grown when it is full, contents unchanged |
| `Dict.Dict.Search` | src/hiredis/dict.c:268-279 | the cell of the key in its bucket's chain, or none if the map lacks the key |
| `Dict.Dict.KeyIndex` | src/hiredis/dict.c:348-365 | room is made first; the bucket for a new key, or none if and only if the key is there |
| `Dict.Dict.Find` | src/hiredis/dict.c:266-280 | the entry of the key if and only if the map has it |
| `Dict.Dict.Add` | src/hiredis/dict.c:149-171 | a new key is added, an existing one refused and left alone |
| `Dict.Dict.Replace` | src/hiredis/dict.c:178-201 | the map's update, and whether the key was new |
| `Dict.Dict.Delete` | src/hiredis/dict.c:204-232 | the map's removal, or failure when the key is absent |
| `Dict.Iterator.Next` | src/hiredis/dict.c:295-313 | the next entry in table order, whether or not the entry returned before is still in the table |
| `Dict.Iterator.DeleteCurrent` | src/hiredis/dict.c:305-309 | deleting the entry just returned leaves what is still to be visited the same |
| `Dict.IterateAll` | src/hiredis/dict.c:282-313 | iteration visits every entry exactly once |
| `Dict.Prune` | src/hiredis/dict.c:204-313 | an iteration that deletes entries as it meets them visits every entry of the map exactly once and removes exactly those to be dropped |
| `Dict.Perform` | src/hiredis/dict.c:149-280 | every operation keeps the invariant (no duplicate keys, every entry in the bucket its hash selects, size a power of two, used the number of entries) and does what it does to a map |
| `Dict.Run` | src/hiredis/dict.c:100-365 | every sequence of add, replace, delete and find gives the answers of a map, for any hash function |
| `HttpParser.RunCut` | src/http-parser/http_parser.c:309-1552 | the byte-at-a-time machine can be stopped after any prefix and gone on with |
| `HttpParser.SwitchSound` | src/http-parser/http_parser.c:358-1533 | every step keeps the indices within the names being matched and the state consistent with its header state |
| `HttpParser.SwitchAgrees` | src/http-parser/http_parser.c:627-1318 | in every state the marks set and callbacks made are those that the spans open before and after the byte call for |
| `HttpParser.SpanStep` | src/http-parser/http_parser.c:31-66 | marking late and flushing at the end of a span deliver what naming each byte delivers |
| `HttpParser.SwitchStep` | src/http-parser/http_parser.c:358-1533 | one byte through the switch has the effect of one step of the byte machine, callbacks included |
| `HttpParser.BulkRun` | src/http-parser/http_parser.c:1416-1515 | skipping a run of body bytes at once equals that many steps of the byte machine |
| `HttpParser.RunGood` | src/http-parser/http_parser.c:309-1552 | the invariant holds after every accepted stream |
| `HttpParser.RunStops` | src/http-parser/http_parser.c:1549-1552 | a refused prefix refuses every stream that begins with it, at the same byte |
| `HttpParser.HttpParser.constructor` | src/http-parser/http_parser.c:1582-1591 | the initial state of a request parser |
| `HttpParser.HttpParser.Turn` | src/http-parser/http_parser.c:358-1533 | one turn of the loop follows the byte machine, by one byte or by a run of body bytes |
| `HttpParser.HttpParser.Skip` | src/http-parser/http_parser.c:1416-1515 | a run of body bytes is reported and counted down |
| `HttpParser.HttpParser.Finish` | src/http-parser/http_parser.c:1535-1547 | spans still open are reported up to the end of the buffer |
| `HttpParser.HttpParser.Execute` | src/http-parser/http_parser.c:309-1552 | one call equals the byte machine on its buffer: same state, same callback data, same place of refusal |
| `HttpChunk.FormatChunk` | src/http.c:218-234 | the size in hexadecimal, CRLF, the data, CRLF |
| `HttpChunk.RunHex` | src/http-parser/http_parser.c:1438-1471 | the hexadecimal digits of a number are read back as that number |
| `HttpChunk.RunChunk` | src/http-parser/http_parser.c:1438-1527 | one formatted chunk delivers its data as body and returns to the chunk-size state |
| `HttpChunk.RunChunks` | src/http-parser/http_parser.c:1438-1527 | the chunks of any non-empty pieces deliver exactly their concatenation as body |
| `HttpChunk.RunLastChunk` | src/http-parser/http_parser.c:1484-1496 | the empty chunk ends the message |
| `HttpChunk.Receive` | src/http-parser/http_parser.c:309-1552 | however a request stream is cut into pieces, the callback data, the completions and the final state are those of one call on the whole |
| `HttpLine.MethodGoes` | src/http-parser/http_parser.c:586-625 | each character of a method's name leads from the candidate so far to the candidate that the name then calls for |
| `HttpLine.ReadsVerb` | src/http-parser/http_parser.c:552-625 | the name of each of the 23 methods and a space begin a message with that method |
| `HttpWire.Verbs` | src/http-parser/http_parser.c:76-101 | the 23 names of the methods |
| `HttpLine.PathByteIs` | src/http-parser/http_parser.c:157-191 | the table of URL characters holds exactly the characters of sections 2 and 3.3 of RFC 3986 with the percent sign, and the other printable ones but for the hash and the question mark |
| `HttpLine.AlphaLetter` | src/http-parser/http_parser.c:649-727 | the letters and digits of a schema, host or port are the ASCII ones |
| `HttpWire.UrlRefuses` | src/http-parser/http_parser.c:728-907 | in a path, query or fragment a byte is refused exactly if it is none of these and does not end the target |
| `HttpWire.TargetRefused` | src/http-parser/http_parser.c:728-907 | a target is refused at the first byte that is none of its own |
| `HttpLine.FoldTarget` | src/http-parser/http_parser.c:627-907 | a schema, a host, a port, a path, a query and a fragment are told apart, also a host without a schema; leading separators of a query or a fragment are not reported |
| `HttpLine.ReadsTarget` | src/http-parser/http_parser.c:627-907 | a target behind any number of spaces is reported whole as the URL, and its path, query and fragment each on their own |
| `HttpLine.ReadsVersion` | src/http-parser/http_parser.c:909-1002 | the version numbers are read back as written, whatever version came before |
| `HttpLine.ReadsLine` | src/http-parser/http_parser.c:552-1002 | every request line, with any spacing, CRLF or LF, and also without a version, is read back as its method, target and version |
| `HttpHeader.KnownName` | src/http-parser/http_parser.c:1004-1178 | the scanner's five matchers, which share their first letters, recognise a name if and only if it is the known one but for case and trailing spaces |
| `HttpHeader.NameByteIs` | src/http-parser/http_parser.c:110-142 | the table of token characters holds exactly the tokens of section 2.2 of RFC 2616 and the space, the double quote, the slash and the right brace |
| `HttpWire.NameRefuses` | src/http-parser/http_parser.c:1004-1178 | in a header name a byte is refused exactly if it is none of these and does not end the name |
| `HttpHeader.KnownValue` | src/http-parser/http_parser.c:1180-1318 | a value is recognised if and only if it is the text looked for under that header, but for case and trailing spaces |
| `HttpHeader.HeaderMeans` | src/http-parser/http_parser.c:1180-1341 | what the scanners leave in the flags and the content length is what the header line says |
| `HttpHeader.ReadsHeader` | src/http-parser/http_parser.c:1004-1341 | every header line, with any spaces before the value and CRLF or LF, is read back as its name and value, with its meaning for framing and keep-alive |
| `HttpHeader.ReadsHeaders` | src/http-parser/http_parser.c:1004-1341 | so is every list of header lines, in order |
| `HttpHeader.HeadersMean` | src/http-parser/http_parser.c:1004-1341 | the flags and the length after all headers are those the headers say one after another |
| `HttpRequest.ReadsHeadersEnd` | src/http-parser/http_parser.c:1343-1414 | the blank line leads to chunks, to a body of the given length, or to the end of the message |
| `HttpRequest.ReadsRequest` | src/http-parser/http_parser.c:309-1580 | the text of every request, with a plain or chunked body, delivers its target, headers, body and completion once, and leaves the parser ready if and only if the connection is kept |
| `HttpRequest.ReadsPipelined` | src/http-parser/http_parser.c:309-1580 | pipelined requests are delivered one after another; the parser is dead afterwards exactly if the last one closes |
| `HttpRequest.ReceivePipelined` | src/http-parser/http_parser.c:309-1580 | receiving the stream of pipelined requests in any pieces succeeds and delivers each of them in turn |
| `HttpRequest.Unambiguous` | src/http-parser/http_parser.c:309-1580 | requests with the same text have the same method, version, target text, path, query, fragment, header names and values, and body data |
| `HttpWire.HeadCounts` | src/http-parser/http_parser.c:360-364 | every byte of a header is counted until the header ends, and none is read beyond 81920 |
| `HttpWire.HeadBounded` | src/http-parser/http_parser.c:360-364 | no accepted stream has a header of more than 81920 bytes |
| `HttpWire.RunSize` | src/http-parser/http_parser.c:1438-1482 | a chunk size in digits of either case, with any zeros in front, is read as the number |
| `HttpWire.ReadsGet` | src/http-parser/http_parser.c:330-1540 | a plain GET on literal bytes is read as such, with its path whatever escapes it has, and keeps the connection |
| `HttpWire.ReceiveGet` | src/http-parser/http_parser.c:330-1540 | the same however the bytes are cut |
| `Utf8.IterateEncoded` | src/jansson/src/utf.c:116-138 | decoding undoes encoding for every Unicode scalar value, whatever follows |
| `Utf8.EncodedBytes` | src/jansson/src/utf.c:11-36 | the bytes of a character range over and add up to what the table of section 3 of RFC 3629 says |
| `Utf8.EncodedIterate` | src/jansson/src/utf.c:116-138 | whatever is accepted is the encoding of the scalar value reported |
| `Utf8.CheckFullLoop` | src/jansson/src/utf.c:69-114 | the loop accepts exactly well-formed, shortest, non-surrogate sequences |
| `Utf8.DecodeEncodeAll` | src/jansson/src/utf.c:11-36 | a list of scalar values survives encoding and decoding |
| `Utf8.EncodeAllDecode` | src/jansson/src/utf.c:140-159 | a valid byte string survives decoding and encoding |
| `Utf8.CheckString` | src/jansson/src/utf.c:140-159 | exactly the valid byte strings are accepted |
| `JsonString.DumpString` | src/jansson/src/dump.c:94-196 | runs copied whole and characters escaped one by one add up to what is written, up to the first byte that is not UTF-8; it fails if and only if there is one |
| `JsonString.WrittenLiteral` | src/jansson/src/dump.c:94-196 | what is written of a UTF-8 string is its literal |
| `JsonString.CharForms` | src/jansson/src/dump.c:94-189 | which characters are copied and what is written for the others, on literal characters, by the two flags |
| `JsonString.AsciiOnly` | src/jansson/src/dump.c:94-189 | with JSON_ENSURE_ASCII nothing but printable ASCII is written |
| `JsonString.DecodeUnicodeEscape` | src/jansson/src/load.c:279-299 | the value of four hexadecimal digits |
| `Bytes.HexLaw` | src/jansson/src/load.c:279-299 | a hexadecimal digit has its value in either case, and nothing else is one |
| `JsonText.FourValue` | src/jansson/src/load.c:279-299 | four digits in any mixture of cases decode to the number they write |
| `JsonString.ReadUnicode` | src/jansson/src/load.c:376-419 | an escape or a surrogate pair gives its scalar value; a lone surrogate fails |
| `JsonString.Unescape` | src/jansson/src/load.c:356-462 | the decoded text is always shorter than its source |
| `JsonString.DecodeText` | src/jansson/src/load.c:356-462 | the second pass, into a buffer of the source's length, never overruns it and computes the decoding |
| `JsonString.EscapeYields` | src/jansson/src/dump.c:137-191 | any escape written, surrogate pairs included, is decoded to its character |
| `JsonString.UnescapeLiteral` | src/jansson/src/dump.c:94-196 | for every valid string and every combination of ENSURE_ASCII and ESCAPE_SLASH, decoding the printed literal gives the string back |
| `JsonLex.UngetNext` | src/jansson/src/load.c:215-229 | a character read and put back leaves the stream where it was |
| `JsonLex.ScanInteger` | src/jansson/src/load.c:476-518 | the decimal notation of any 64-bit integer scans to that integer and stops before what follows |
| `JsonLex.ScanReal` | src/jansson/src/load.c:476-567 | the text of a real, with fraction, exponent or both, is scanned as that real |
| `JsonLex.ScanLiteral` | src/jansson/src/load.c:301-462 | the printed literal of any valid string scans to that string |
| `JsonText.ScanSpelled` | src/jansson/src/load.c:301-442 | however a string is spelled, each character as it is, by a letter, by its number in any case or by two surrogates, it scans as that string |
| `JsonLex.ScanWord` | src/jansson/src/load.c:602-625 | true, false and null scan to their tokens |
| `JsonLex.ScanBlank` | src/jansson/src/load.c:569-580 | blanks before a token do not matter |
| `JsonValue.ParseValue` | src/jansson/src/load.c:781-853 | parsing never moves the stream backwards |
| `JsonValue.PutNext` | src/jansson/src/load.c:715-718 | members with distinct keys are appended in the order they are read |
| `JsonValue.ValueBack` | src/jansson/src/load.c:781-853 | the text of any loadable value, at any nesting and with anything that may follow, parses to it if and only if it is not too deep |
| `JsonValue.LoadDump` | src/jansson/src/dump.c:215-424 | loading the dump of a loadable value gives the value back with its keys in the same order, for every layout, if and only if it is nested at most 2048 deep |
| `JsonValue.BadKey` | src/jansson/src/dump.c:392-401 | a key that is not UTF-8 does not make the printer fail, and its text lacks a closing quote |
| `JsonValue.DumpPair` | src/jansson/src/dump.c:263-303 | the text of a list of two numbers on literal characters: compact, with blanks, and indented |
| `JsonValue.LayoutForms` | src/jansson/src/dump.c:71-91 | the blanks of every layout, on literal characters |
| `JsonSound.ScanFine` | src/jansson/src/load.c:569-663 | every string token is UTF-8, every integer token in range, every real token the text of a real |
| `JsonSound.UnescapeValid` | src/jansson/src/load.c:301-474 | decoding the escapes of UTF-8 text gives UTF-8 |
| `JsonSound.LoadLoadable` | src/jansson/src/load.c:667-903 | every value a load returns has UTF-8 strings, integers in range, distinct keys without NUL, and a depth of at most 2048 |
| `JsonSound.LoadDumpExactly` | src/jansson/src/load.c:667-903 | every value the printer takes comes back from its text if and only if it is of that kind |
| `JsonReader.Source.Get` | src/jansson/src/load.c:156-213 | the cached stream gives the characters of the abstract stream, validating UTF-8 |
| `JsonReader.Source.Fill` | src/jansson/src/load.c:162-190 | one whole character is cached if and only if the input starts with one |
| `JsonReader.Source.Unget` | src/jansson/src/load.c:215-229 | the character read last is put back; a NUL is lost |
| `JsonReader.Lexer.GetWhile` | src/jansson/src/load.c:491-494 | reading on while a test holds takes and saves exactly that run |
| `JsonReader.Lexer.ScanChars` | src/jansson/src/load.c:309-354 | the scanning pass accepts exactly the string texts and saves them |
| `JsonReader.Lexer.ScanString` | src/jansson/src/load.c:301-462 | the token is the decoded string, or invalid |
| `JsonReader.Lexer.ScanNumber` | src/jansson/src/load.c:476-567 | the token is the integer or the text of the real, or invalid |
| `JsonReader.Lexer.Scan` | src/jansson/src/load.c:569-634 | the token and the stream after it are those of the abstract scanner |
| `JsonReader.Lexer.ParseArray` | src/jansson/src/load.c:744-779 | the loop reads the elements the recursive parser reads |
| `JsonReader.Lexer.ParseObject` | src/jansson/src/load.c:667-742 | the loop reads the members the recursive parser reads |
| `JsonReader.Lexer.ParseValue` | src/jansson/src/load.c:781-853 | the value, the stream after it and the restored depth of the recursive parser |
| `JsonReader.Lexer.ParseJson` | src/jansson/src/load.c:855-888 | the whole-document result |
| `JsonReader.LoadBuffer` | src/jansson/src/load.c:948-971 | loading a buffer is the abstract load |
| `JsonDocument.LoadDocument` | src/jansson/src/load.c:855-897 | every JSON text of distinct keys, with blanks around any token and any spelling of strings, loads as the value meant, exactly up to depth 2048 |
| `JsonDocument.ReadDocument` | src/jansson/src/load.c:948-967 | the same of the buffer the reader is given |
| `JsonWriter.DumpIndent` | src/jansson/src/dump.c:71-92 | blanks written in runs of 32 add up to the padding |
| `JsonWriter.DoDump` | src/jansson/src/dump.c:215-424 | the output is the value's text if every string value is UTF-8, and a failure otherwise |
| `JsonWriter.DumpArray` | src/jansson/src/dump.c:263-303 | brackets, elements, commas and padding in their places |
| `JsonWriter.DumpObject` | src/jansson/src/dump.c:305-418 | braces, keys, separators, values and padding in their places |
| `JsonWriter.DumpAndLoad` | src/jansson/src/dump.c:426-440 | a run of the printer followed by a run of the reader gives the value back if and only if its strings are UTF-8, it can be loaded and it is not too deep |
| `CallbackList.Queue.Push` | src/hiredis/async.c:245-265 | the callback is appended to the queue |
| `CallbackList.Queue.Shift` | src/hiredis/async.c:267-281 | the oldest callback is taken, or the queue is empty |
| `Async.PairedUp` | src/hiredis/async.c:301-361 | the callbacks served and those queued are the accepted ones in issue order, so that the k-th of them has the k-th reply; with an empty queue all have been served |
| `Async.Context.Command` | src/hiredis/async.c:737-816 | a command is refused exactly when the context is disconnecting or freeing; otherwise its callback is queued last |
| `Async.Context.AsyncFree` | src/hiredis/async.c:363-368 | inside a callback the free is only noted; outside, the context is gone and nobody is left waiting |
| `Async.Context.AsyncDisconnect` | src/hiredis/async.c:404-412 | inside a callback or with replies pending the disconnect is only noted; otherwise the context is gone |
| `Async.Context.RunCallback` | src/hiredis/async.c:283-290 | the function is called once, and whatever it does the context is not freed under it |
| `Async.Context.Play` | src/hiredis/async.c:283-290 | what a callback does to the context, command by command: each is accepted or refused as at the top level, and frees and disconnects are only noted |
| `Async.Context.DoFree` | src/hiredis/async.c:301-358 | every pending callback gets a NULL reply in order, none is added, and the disconnect callback runs at most once |
| `Async.Context.DoDisconnect` | src/hiredis/async.c:371-396 | a clean disconnect finds no callback pending; a failed one refuses new commands and frees unless told not to |
| `Async.Context.Dispatch` | src/hiredis/async.c:537-586 | with a callback queued the answer goes to the oldest one, and a free asked for meanwhile is carried out after it; with none queued an error reply fails the connection and any other answer stops the process |
| `Async.Context.Deliver` | src/hiredis/async.c:571-585 | the callback is called with its answer; processing goes on unless it frees the context |
| `Async.Context.Unsolicited` | src/hiredis/async.c:539-569 | an answer that no command waits for: an error reply disconnects, any other stops the process |
| `Async.Context.ProcessCallbacks` | src/hiredis/async.c:504-592 | every answer read is given out in order, unless a callback frees the context or there is an answer too many; only a malformed stream or a refusal sets the error; the deferred disconnect happens when its time has come |
| `Async.Context.HandleRead` | src/hiredis/async.c:627-655 | the batch is added to what was read and all its answers are given out with the same exceptions; the error is set only by a failed connect or read, a malformed stream or a refusal |
| `Async.Context.HandleWrite` | src/hiredis/async.c:657-688 | the output shrinks by what was sent, or the connection fails |
| `Async.Context.HandleTimeout` | src/hiredis/async.c:690-716 | a timeout gives every pending callback a NULL reply, those issued meanwhile included, and disconnects |
| `Async.Run` | src/hiredis/async.c:245-816 | in every run, whatever the events and whatever callbacks do: the k-th answer goes to the k-th accepted command; every answer read has been given out unless a callback freed the context or there are more answers than commands; a fault of the connection ends it and a request to free is carried out; only a fault among the events or a refusal by the server sets the error, only an answer too many stops the process, and nothing frees the context unasked; by the time it is freed every accepted callback has been served exactly once; and as long as the connection holds and nobody frees the context, the commands accepted, the answers given out and an answer too many are those of the course that events and scripts prescribe |
| `Async.CleanRun` | src/hiredis/async.c:245-816 | without faults, disconnects and frees, whether there is an answer too many can be read off the events and the scripts; if there is none, the commands accepted are those of the course, and exactly the answers that the events bring have been given to the first of them, in order |
| `Async.CourseAccepts` | src/hiredis/async.c:245-816 | the commands accepted in a course are those of the events and those issued by the callbacks called, each once, as long as nobody disconnects; and as many answers are given out as the events bring |
| `Async.NeverStuck` | src/hiredis/async.c:539-569 | if every answer comes after a command of its own among the events, there is never one too many |
| `Async.Context.Handle` | src/hiredis/async.c:642-735 | one event does what it is for: a free frees, a disconnect with nothing pending frees, a fault or a timeout fails the connection, commands and replies are added, and nothing else happens unasked |
| `PubSub.Subscriptions.Send` | src/hiredis/async.c:766-797 | a subscribe command registers all its names and sets the flag, and without names is an ordinary command; an unsubscribe is refused unless subscribed |
| `PubSub.Subscriptions.Find` | src/hiredis/async.c:414-478 | a confirmation, a removal or a message is looked up and counted as the table says |
| `PubSub.RegisterCounts` | src/hiredis/async.c:769-790 | a name's counter grows by at least one for every time a command names it |
| `PubSub.DeliveredFinds` | src/hiredis/async.c:440-447 | a confirmation or a message finds the entry of its name |
| `PubSub.RunFn` | src/hiredis/async.c:769-790 | in every run the entry of a name holds the callback of the last subscribe command that named it |
| `PubSub.StepGood` | src/hiredis/async.c:414-797 | every step of client, server and wires keeps: awaited and live names have entries, counters cover what is awaited, an entry that awaits nothing was confirmed, and subscribed means exactly that a table is non-empty |
| `PubSub.EveryRun` | src/hiredis/async.c:414-797 | all of this in every run from the start; the next confirmation or message finds its entry, and in it the callback of the last subscribe command that named it |
| `PubSub.Quiet` | src/hiredis/async.c:414-797 | with exact counters and nothing in flight, the entries of the client are exactly the names the server has subscribed |
| `PubSub.Refusals` | src/hiredis/async.c:737-816 | a command is refused exactly if it unsubscribes while nothing is subscribed |
| `PubSub.IssuedUp` | src/hiredis/async.c:737-816 | every name of a command that is not refused is sent, in order |
| `PubSub.Settles` | src/hiredis/async.c:414-483 | once what was issued has been served and its replies delivered, the server holds exactly the names whose last command subscribes, and so does the client if its counters are exact |
| `PubSub.TidyAdds` | src/hiredis/async.c:769-790 | a command adds exactly its own names to the counters if and only if no new name follows one that left a counter above 1 |
| `PubSub.IssuedExact` | src/hiredis/async.c:769-790 | a subscribe command keeps counters exact if and only if it is tidy in this sense |
| `PubSub.RunExact` | src/hiredis/async.c:414-797 | with one name a subscribe command, every counter equals the confirmations outstanding, throughout every run |
| `PubSub.CounterTooHigh` | src/hiredis/async.c:784-789 | a run of two commands after which a counter is one too high |
| `Pool.AllUsed` | src/pool.c:48-53 | slots all in use hold as many connections as there are slots |
| `Pool.ProbeReaches` | src/pool.c:232-246 | a search looks at every slot but the one right after the cursor |
| `Pool.FoundNone` | src/pool.c:232-246 | no connection is found if and only if every slot but the one right after the cursor is empty |
| `Pool.Pool.constructor` | src/pool.c:15-26 | an empty pool |
| `Pool.Pool.Connect` | src/pool.c:167-194 | an attempt that fails at once leaves a timer, any other attached one a connection being made |
| `Pool.Pool.Startup` | src/worker.c:149-158 | after start-up the attempts and timers add up to the size of the pool |
| `Pool.Pool.CanConnect` | src/pool.c:66-76 | a timer that runs out is replaced by an attempt or by another timer |
| `Pool.Pool.OnConnect` | src/pool.c:37-54 | a connection made takes the first free slot, one that failed leaves a timer; nothing is lost |
| `Pool.Pool.OnDisconnect` | src/pool.c:94-124 | its slot is emptied, the others are untouched, and a timer replaces it |
| `Pool.Pool.GetContext` | src/pool.c:232-246 | the search ends and gives the first connection met, which is alive and in a slot |
| `Pool.Handle` | src/pool.c:36-246 | event by event the new state: a failed attempt leaves the slots alone and a timer behind, one that succeeds fills the first free slot, a disconnect empties its slot and leaves a timer, a timer makes an attempt, a search gives the first connection it meets; an event about a connection that is not there changes nothing |
| `Pool.Run` | src/pool.c:36-246 | in every run connections, attempts, timers and slots are those that the first attempts and the events prescribe, and every search gives what it should; attempts, connections and timers add up to the pool size plus the number of detached attempts that failed at once, and without such the slots hold every connection |
| `Pool.LiveExactly` | src/pool.c:37-124 | a connection is held exactly if its attempt succeeded and it was not disconnected since |
| `Pool.MadeExactly` | src/pool.c:66-76 | a connection is being made exactly from the attempt that started it until it fails or is made |
| `Pool.NeverAgain` | src/pool.c:37-124 | a connection that failed or was disconnected never stands in a slot again |
| `Pool.GivenLive` | src/pool.c:232-246 | what a client is given was made and not disconnected since |
| `Pool.Started` | src/worker.c:149-158 | the first attempts that did not fail are numbered from 0, the others leave a timer each |
| `WsFrame.MaskedTwice` | src/websocket.c:364-382 | unmasking undoes masking |
| `WsWire.XorBit` | src/websocket.c:375-377 | a bit of the exclusive or is set exactly if the two bits differ |
| `WsFrame.PeekExtend` | src/websocket.c:393-503 | a whole or refused frame stays so whatever bytes follow |
| `WsFrame.PeekClientFrame` | src/websocket.c:393-503 | any masked final frame, in any of the three length forms and with any mask, is read back with its own payload |
| `WsWire.PeekShort` | src/websocket.c:392-506 | a frame of at most 125 bytes on literal bytes, its payload unmasked bit by bit |
| `WsWire.PeekMiddle` | src/websocket.c:392-506 | the same with a length in two bytes |
| `WsWire.PeekLong` | src/websocket.c:392-506 | the same with a length in eight bytes |
| `WsWire.PeekUnmasked` | src/websocket.c:421-430 | a frame without a mask is refused |
| `WsWire.PeekHello` | src/websocket.c:392-506 | the masked Hello of section 5.7 of RFC 6455 is read as Hello |
| `WsFrame.PeekPartFrame` | src/websocket.c:393-503 | any proper part of a frame is waited on |
| `WsFrame.ExtractCut` | src/websocket.c:509-547 | bytes that arrive later go on from what was left over; behind a refused frame they change nothing |
| `WsFrame.WholeReaches` | src/websocket.c:393-503 | a frame is whole within the first n bytes if and only if they reach its end |
| `WsFrame.Extract` | src/websocket.c:509-547 | every message extracted drains at least six bytes |
| `WsFrame.ExtractFrames` | src/websocket.c:393-547 | the first n bytes of any stream of masked final frames give exactly the unmasked payloads of the frames they hold whole, in order, and are never refused |
| `WsFrame.DecodeServerFrame` | src/websocket.c:550-601 | a decoder of section 5.2 of RFC 6455 reads back the server's own frame if and only if its payload is not of 65536 bytes, and reads nothing if it is |
| `WsWire.ServerForms` | src/websocket.c:549-600 | the first two forms of the server's frames on literal bytes, and a payload of 65536 bytes announced as empty |
| `WsWire.ServerLong` | src/websocket.c:549-600 | the third form, its length in eight bytes |
| `WebSocket.MsgAdd` | src/websocket.c:364-382 | the data is appended and unmasked in place |
| `WebSocket.ProcessExtracts` | src/websocket.c:509-547 | processing the input handles its messages in order up to the first that cannot be executed, with their answers, and then refuses an unmasked frame |
| `WebSocket.HandleJoin` | src/websocket.c:509-547 | handling two lists of messages one after the other is handling their concatenation, unless the first one fails |
| `WebSocket.HandleAllOk` | src/websocket.c:509-547 | while execution succeeds every message is handled |
| `WebSocket.TakenIs` | src/websocket.c:613-635 | the input looked at is that of the pieces up to the first after which the client listens no more |
| `WebSocket.FramesTaken` | src/websocket.c:509-635 | frames that can all be executed are all handled, in whatever pieces they come, if and only if whenever the pieces so far hold a close frame they hold all the frames; otherwise a prefix of them is |
| `WebSocket.LateFrame` | src/websocket.c:624-626 | a frame behind a close frame is handled when both come in one piece and dropped when it comes in the next |
| `WebSocket.WireDecodes` | src/websocket.c:550-601 | the frames written one after another are read back in order if and only if none has a payload of 65536 bytes |
| `WebSocket.BuildFrame` | src/websocket.c:550-589 | the frame in its three length forms |
| `WebSocket.Client.constructor` | src/websocket.c:91-234 | a client whose handshake waits for its write event |
| `WebSocket.Client.PeekInput` | src/websocket.c:393-503 | the frame at the front of the input; an unmasked one is answered with a close frame |
| `WebSocket.Client.FrameAndSend` | src/websocket.c:550-601 | the frame is put behind the handshake and the frames before it, and a write event is outstanding |
| `WebSocket.Client.HandleMessage` | src/websocket.c:521-534 | text is executed, a ping answered, a close echoed, anything else ignored |
| `WebSocket.Client.ProcessReadData` | src/websocket.c:509-547 | the loop handles what the recursive reading of the input says |
| `WebSocket.Client.ScheduleWrite` | src/websocket.c:665-673 | at most one write event is outstanding |
| `WebSocket.Client.MonitorInput` | src/websocket.c:675-683 | at most one read event is outstanding |
| `WebSocket.Client.CloseIfAble` | src/websocket.c:603-611 | the client is freed if and only if no event is outstanding |
| `WebSocket.Client.CanRead` | src/websocket.c:613-635 | after a read event something is still outstanding or the client is gone, and the messages handled and frames written follow from the events so far; data that comes when the client is closing is dropped |
| `WebSocket.Client.CanWrite` | src/websocket.c:637-663 | the bytes written leave the output in order; looking at the input once more handles nothing twice; the next event is scheduled or the client is gone |
| `WebSocket.Client.Reply` | src/formats/common.c:69-71 | a reply is framed and has a write event |
| `WebSocket.Run` | src/websocket.c:603-683 | over all interleavings of reads, writes and replies: exactly the events that are outstanding fire; the messages handled are exactly those of the input that arrived while the client listened, up to the first that cannot be executed; what it sent and what waits are the handshake, the answers and the replies, in order; it is closing if and only if it has met a close frame, an unmasked frame, a failed execution or a broken connection, and freed exactly then with no event outstanding |
| `WebSocket.Handle` | src/websocket.c:603-683 | one event fires if and only if it is outstanding, and leads to the state its handler prescribes |
| `WebSocket.Listens` | src/websocket.c:637-683 | once all that waited has been written, every piece that arrives is read until the client is closing |
| `WsWire.EffectKinds` | src/websocket.c:508-546 | messages by their number: 0 and 1 are executed, 8 is echoed and closes, 9 is answered by a 10 with the same payload, others are ignored |
| `WsWire.Exchange` | src/websocket.c:508-663 | from the bytes of a ping or close frame to the bytes sent back: a pong or a close frame with the same payload |
| `WsWire.ExchangeUnmasked` | src/websocket.c:421-430 | a frame without a mask gets a close frame with the code 1002 back and closes the client |
| `WebSocket.Feed` | src/websocket.c:613-663 | the same for a client whose handshake is written and which then reads pieces one after another |
| `WebSocket.FeedFrames` | src/websocket.c:509-663 | a client given frames in pieces, all of which it can execute, handles all of them if and only if none comes in a piece after that of a close frame |
| `Lookup3.PlusPlus` | src/jansson/src/lookup3.h:203-388 | 32-bit additions one after another add up |
| `Lookup3.Partial` | src/jansson/src/lookup3.h:257-272 | a masked word, two half words or single bytes give the same number, whatever lies behind the key |
| `Lookup3.Tail32` | src/jansson/src/lookup3.h:257-272 | the masked words add the last block of the key |
| `Lookup3.Tail16` | src/jansson/src/lookup3.h:311-341 | half words and bytes, falling through, add the last block of the key |
| `Lookup3.Tail8` | src/jansson/src/lookup3.h:366-383 | bytes, falling through, add the last block of the key |
| `Lookup3.HashLittle` | src/jansson/src/lookup3.h:203-388 | all three paths compute the hash of the key alone, for every key and seed |
| `Lookup3.SameHash` | src/jansson/src/lookup3.h:203-388 | two copies of a key hash alike, however aligned and whatever lies behind them |
| `Lookup3.HashNothing` | src/jansson/src/lookup3.h:203-388 | the hash of an empty key |
| `Lookup3.HashShort` | src/jansson/src/lookup3.h:203-388 | a key of twelve bytes is three little-endian numbers added to the initial state and mixed |
| `BlockHash.FoldAppend` | src/md5/md5.c:352-354 | folding over whole blocks can be done in parts |
| `BlockHash.Completes` | src/md5/md5.c:340-350 | data that completes the block in hand compresses it once |
| `BlockHash.PaddingBytes` | src/sha1/sha1.c:326-372 | the padding byte by byte: 0x80 and as few zeros as fill the blocks |
| `Md5.CarryCount` | src/md5/md5.c:334-338 | the two-word count with its carry is the length in bits modulo 2^64 |
| `Md5.PadLength` | src/md5/md5.c:377-377 | the pad length formula brings the message to 56 bytes modulo 64 |
| `Md5.PaddedBytes` | src/md5/md5.c:362-382 | what is hashed is the message, its padding and the number of bits in eight bytes, the least significant first |
| `Md5.Starts` | src/md5/md5.c:314-321 | the initial words are those of section 3.3 of RFC 1321 |
| `Md5.State.constructor` | src/md5/md5.c:314-321 | the initial state, with nothing appended |
| `Md5.State.Append` | src/md5/md5.c:324-359 | the data is appended to the message: count, buffer and digest are those of the longer message |
| `Md5.State.Finish` | src/md5/md5.c:362-382 | the digest bytes are those of the compression folded over the message padded as sections 3.1 and 3.2 of RFC 1321 say |
| `Md5.HashPieces` | src/md5/md5.c:324-382 | any sequence of appends gives the digest of the concatenation |
| `Sha1.Context.constructor` | src/sha1/sha1.c:71-86 | the initial state, with nothing taken in |
| `Sha1.PaddedBytes` | src/sha1/sha1.c:326-372 | what is hashed is the message, its padding and the number of bits in eight bytes, the most significant first |
| `Sha1.Context.CountByte` | src/sha1/sha1.c:163-176 | the context becomes corrupted exactly when the length in bits reaches 2^64 |
| `Sha1.Context.Input` | src/sha1/sha1.c:143-185 | the data is appended to the message, or the context is corrupted because it is finished or too long |
| `Sha1.Context.PadMessage` | src/sha1/sha1.c:326-371 | the message is padded as section 4 of FIPS 180-1 says, in one block or in two, and compressed |
| `Sha1.Context.Result` | src/sha1/sha1.c:104-119 | the digest is computed once; a corrupted context fails |
| `Sha1.HashPieces` | src/sha1/sha1.c:104-185 | any sequence of inputs gives the digest of the concatenation if and only if it is shorter than 2^61 bytes |
| `Cmd.DecodeEncoded` | src/cmd.c:84-108 | a text is decoded to an argument and contains no slash or question mark if and only if it writes the argument byte by byte: escapes in either case, plus signs for spaces, anything else as it is |
| `Cmd.EscapeAllEncodes` | src/cmd.c:84-108 | every argument has such a text without dots, in lower, upper and mixed case |
| `Cmd.DecodeUri` | src/cmd.c:84-108 | the loop decodes exactly the text of the argument |
| `Cmd.SplitJoin` | src/cmd.c:264-281 | segments joined by slashes are split back |
| `Cmd.CountParams` | src/cmd.c:173-175 | the counting loop's count |
| `Cmd.CountSegments` | src/cmd.c:173-175 | the count is the number of segments, one less after a leading slash |
| `Cmd.SelectFormat` | src/cmd.c:310-385 | the length of the path without a recognised extension |
| `Cmd.StripExtension` | src/cmd.c:346-384 | a recognised extension is taken off and nothing else |
| `Cmd.KnownExactly` | src/cmd.c:325-346 | the extensions, on literal bytes |
| `Cmd.JsonTaken` | src/cmd.c:310-384 | a .json at the end of any path is taken off |
| `Cmd.NoExtension` | src/cmd.c:346-384 | a path whose last segment has no dot keeps its length |
| `Cmd.DetectDb` | src/cmd.c:199-207 | whether the first segment is all digits, and its value |
| `Cmd.SplitArguments` | src/cmd.c:264-281 | every argument from here on is decoded into the next slot, a trailing empty one excepted |
| `Cmd.Run` | src/cmd.c:169-287 | database, arguments and count of the command sent, for every path, query and body |
| `Cmd.PrepareJoin` | src/cmd.c:169-287 | a command name and percent-encoded arguments joined by slashes, after a database number or not, with any recognised extension and query behind, are split back into exactly that database and those arguments; a body comes last if and only if there is more than a command name and the path does not end in an empty argument |
| `Cmd.PlainPath` | src/cmd.c:169-287 | without an extension the command is read back if and only if the path does not end in a recognised one |
| `Cmd.ExtensionTaken` | src/cmd.c:310-384 | a recognised ending of the last argument or of the name is taken off, so that another command is sent |
| `Cmd.LoneName` | src/cmd.c:169-287 | the body of a request for a lone command name is dropped |
| `Cmd.NumericName` | src/cmd.c:198-223 | a numeric name with arguments and no database is taken for the database, so the round trip fails |

## Left out

- Sockets, libevent, TLS, DNS, threads, logging, configuration, access control and reply formatting are not modelled; their effects are the events and parameters above.
- Out-of-memory branches are not modelled.
- Source assertions are taken as disabled where they concern reply types (a nil, boolean or double inside a RESP3 push), and as ending the process where a reply arrives that no callback waits for (`Async.Context.Dispatch`).
- RESP reader: replies are values placed along a path of indices instead of linked objects; buffers and lines are taken to be shorter than 2^31 bytes, as the source's `int` lengths demand; error texts are not modelled; the element limit is the default one; element indices are not wrapped to the source's `int`, which differs beyond 2^31 elements.
- RESP doubles: whether a text is a number is a parameter, since it is decided by the C library.
- HashTable.Table and Dict.Dict: the bucket array is a sequence; masking a hash with a power of two less one is written as a remainder; reference counts are shown only as the values handed back.
- Dict.Run: sequences of fewer than 2^59 operations, since the source's table sizes stop at the largest long integer; the source holds bucket indices in an `int`, so that beyond 2^31 buckets, which are out of reach in practice, it differs.
- HTTP parser: the request side only, in strict mode, with callbacks returning 0; responses, upgrades and what callbacks have received when a stream is refused are not specified; a content length beyond 64 bits is not wrapped; reading past a method name ends the run.
- HttpRequest.ReadsRequest: headers without a colon, chunk extensions and trailers, CONNECT and upgrades, which are handed over to another protocol, are in the byte machine but not in these texts; that a text in other forms is refused is not claimed.
- JsonDocument.LoadDocument: texts with a key written twice in one object, and a negative zero, are in the parser but not in these texts.
- JSON: error positions and texts, JSON_SORT_KEYS, JSON_EMBED, JSON_DECODE_INT_AS_REAL, the circular-reference check and the top-level type check of the printer are not modelled.
- JSON reals: a real is the text of its token; its conversion and the range check belong to the C library.
- JsonLex.Scan: after an invalid token the stream position is not followed, since nothing more is read.
- JsonWriter.DoDump: what is written before a failure is not specified, since the text is then discarded.
- Async.Run: push replies are dropped, as without a push handler; connect, disconnect and cleanup callbacks do not touch the context; a failed connection attempt is taken to set the error; MONITOR is not modelled.
- PubSub.EveryRun: commands are given as their names; unsubscribing from everything at once, ordinary commands while subscribed, and commands after a disconnect are not modelled.
- Pool: contexts are numbers; TLS negotiation failures, authentication and database selection are not modelled.
- WebSocket: the handshake text and the execution of commands are not modelled; replies after the client is freed are outside the model; events are always registered successfully.
- Cmd.Run: database numbers are not wrapped to an `int`; the sending of the command, mime types and the optional msgpack extension are not modelled.
- Md5.State.Append and Sha1.Context.Input: the compression of a block is a parameter; a shift of a length of 2^28 bytes or more is taken to wrap.
- Lookup3.HashLittle: the mixing rounds are parameters; the byte-wise tail used under memory checkers is not modelled separately.
- Query-string options (`src/client.c`), base64 and the output formats of `src/formats` are straightforward and not modelled.
