# mcpkit-c: a verified model

mcpkit-c is a C library for servers and clients of the Model Context Protocol.
This project models its algorithmic core in Dafny and proves what the code is
for: a JSON parser that accepts exactly RFC 8259, framers that do not care how
bytes arrive, templates whose matching undoes their expansion, signed tokens,
and two concurrent components whose counters and lifetimes are exact in every
interleaving.

- `Bytes`, `Decimals`, `Blocks`: octets, C strings, decimal digits, memory blocks.
- `Utf8`: the validation automaton against RFC 3629.
- `JsonValue`, `JsonGrammar`, `JsonParser`, `JsonText`, `JsonStrings`,
  `JsonReader`, `JsonWriter`: values, the grammar as syntax trees, the parser as
  a function and as the code's cursor, strings character by character, the
  serializer, and the round trip.
- `Sse`, `SseText`, `Delivery`: the event stream parser, event streams as they
  are written, and the path from a value to the event that carries it.
- `UriSyntax`, `UriMatch`, `UriVariables`, `UriExpand`, `UriLists`,
  `UriRoundTrip`: URI templates, their expansion and matching in the words of
  RFC 6570, and the round trip.
- `Base64Url`, `Sha256`, `Sha256Vector`, `Token`: request-state tokens.
- `WsFrame`, `WsConnection`, `WsReading`: WebSocket frames, message reassembly and
  the read buffer.
- `ThreadPool`: the pool as a transition system over its critical sections.
- `MessageQueue`, `Reactor`: the message ring and the sorted registry beside the
  poll array.
- `RefCounts`, `AsyncServer`, `AsyncServerInvariant`, `AsyncServerRuns`,
  `AsyncServerStreams`: connection and session lifetimes in the async server.

Code that updates state in place is a class or a method with the source's
loops, proved against a function; what the source promises is proved about
that function. Threads are modelled as transition systems whose steps are the
atomic operations and critical sections of the code. Calls into libraries are
parameters: `FloatLib` stands for `strtod` and `%.17g`, with the assumption
that printing a finite double and reading it back is the identity stated where
it is needed (`Faithful`, which `JsonWriter.FaithfulLibraryExists` shows can be met); `NumberFormat` stands for `%g` in URI expansion; the
clock is an argument of `Token.Unpack`.

Where documentation and code disagree the code is modelled:

- src/runtime/threadpool.c:7-8 says that destruction discards pending tasks
  without running them. The code runs every task that was submitted before the
  stop (`ThreadPool.DestroyRunsEverything`).
- A token with a time to live is meant to last until issue time plus time to
  live. The code adds in 64 bits, so a sum of 2^64 or more wraps around and the
  token expires early (`Token.ExpiryExact`, `Token.EndlessTokenExpires`).
- RFC 6455 asks for the shortest length form. The parser accepts longer forms
  as well (`WsFrame.EncodeParsed`, `WsFrame.LongerFormAccepted`).
- Whether a WebSocket connection survives a frame larger than 4255744 bytes
  depends on how its bytes arrive (`WsReading.ReadsAreExact`).
- Destruction of the async server waits for pending tasks and then for the
  reactor's loop, so that no worker may outlive the server. A task submitted
  between the two waits is not waited for (`AsyncServerRuns.ReleaseIsExact`).

## Model

| member | source | states |
|---|---|---|
| `Utf8.DfaAcceptsExactlyRfc3629` | src/json/builtin.c:93-127 | The table-driven automaton accepts a byte string exactly when it is a sequence of the octet patterns of section 4 of RFC 3629. |
| `Utf8.CheckValid` | src/json/builtin.c:119-127 | The validation loop answers whether the automaton ends in its accepting state. |
| `Utf8.CharAccepted` | src/json/builtin.c:129-150 | Every single character of RFC 3629, in particular every encoded scalar, takes the automaton from accept to accept. |
| `Utf8.DecodeEncode` | src/json/builtin.c:129-150 | Encoding a scalar value and decoding the octets gives the scalar back, so the encoder is injective. |
| `Utf8.EncodeDecode` | src/json/builtin.c:129-150 | Every well-formed character is the encoding of the scalar it decodes to, so the encoder is onto. |
| `Utf8.EncodeLayout` | src/json/builtin.c:129-150 | One byte below 0x80, two below 0x800, three below 0x10000, else four; each byte is its marker bits and one base-64 digit of the scalar. |
| `Utf8.EncodePreservesOrder` | src/json/builtin.c:129-150 | At the first byte where two encodings differ the smaller scalar has the smaller byte, so no other encoder fits the grammar. |
| `JsonValue.ObjectStore.Set` | src/json/builtin.c:294-345 | Setting a key replaces the value in place if the key is present and appends otherwise; a key that is not UTF-8 is refused and nothing changes. |
| `JsonValue.ObjectGet` | src/json/builtin.c:347-360 | Lookup finds a value exactly when the key is present, and it is the value at the key's position. |
| `JsonValue.SetAllMeaning` | src/json/builtin.c:294-345 | After any sequence of sets every key stands where it first appeared and carries the value it was last given. |
| `JsonValue.SetAllKeepsStore` | src/json/builtin.c:294-345 | Sets keep keys unique and the value well formed. |
| `JsonValue.ValueEqual` | src/json/schema.c:203-257 | Comparison answers yes exactly when both values mean the same (objects as maps), hence it is an equivalence relation although it walks one side only. |
| `JsonValue.DoublesDiffer` | src/json/schema.c:217-222 | As numbers two finite doubles are equal exactly when they are the same double or both zero, and the sign says on which side of zero one lies. |
| `JsonValue.SameKeys` | src/json/schema.c:240-253 | Pigeonhole: two duplicate-free key lists of one length, one contained in the other, have the same keys. |
| `JsonValue.Clone` | src/json/api.c:150-212 | Cloning yields an identical value, so also an identical serialization. |
| `JsonReader.Parser.SkipWhite` | src/json/builtin.c:427-432 | The cursor stops at the first byte that is not JSON white space. |
| `JsonReader.Parser.ScanNumber` | src/json/builtin.c:445-487 | The scanner accepts exactly the longest number of section 6 of RFC 8259 at the cursor and returns its end. |
| `JsonReader.Parser.ParseNumber` | src/json/builtin.c:489-509 | A number is taken exactly when it scans and converts to a finite double. |
| `JsonReader.Parser.ParseHex4` | src/json/builtin.c:541-562 | Four hexadecimal digits are read with their value, or nothing is consumed. |
| `JsonReader.Parser.ParseUnicodeEscape` | src/json/builtin.c:564-589 | An escape succeeds exactly when it is a scalar or a paired surrogate, and yields the UTF-8 of the scalar; which scalar the digits spell is fixed by `JsonStrings.CharacterReads`. |
| `JsonReader.Parser.ParseStringRaw` | src/json/builtin.c:591-666 | A string is taken exactly when the grammar reads one and its decoded text is UTF-8; depth is unchanged. |
| `JsonReader.Parser.ParseArray` | src/json/builtin.c:668-718 | An array is taken exactly as the grammar reads it within the remaining depth; depth is restored on every return. |
| `JsonReader.Parser.ParseObject` | src/json/builtin.c:720-793 | An object is taken exactly as the grammar reads it, members set in order; depth is restored on every return. |
| `JsonReader.Parser.ParseValue` | src/json/builtin.c:795-822 | A value is taken exactly as the grammar reads it within the remaining depth; depth is restored on every return. |
| `JsonReader.BuiltinParse` | src/json/builtin.c:824-840 | The cursor-based parser computes the functional parser on every text. |
| `JsonText.ParserAcceptsExactlyTheGrammar` | src/json/builtin.c:427-840 | A text is accepted exactly when it is UTF-8 and some syntax tree of RFC 8259 within the depth limit, with paired surrogates and finite numbers, spells it; the result is the value of that tree. |
| `JsonStrings.FourDigitsValue` | src/json/builtin.c:541-562 | Four hexadecimal digits of either case, most significant first, are worth the number they spell. |
| `JsonStrings.PairIs` | src/json/builtin.c:564-589 | For every scalar above 0xFFFF, 0xD800 plus its high ten bits and 0xDC00 plus its low ten bits are a high and a low surrogate and combine to that scalar. |
| `JsonStrings.CharacterReads` | src/json/builtin.c:541-666 | Every way section 7 of RFC 8259 allows to write a character (raw, eight short escapes, one or two escapes of four digits) parses to a string with exactly the UTF-8 of that character. |
| `JsonStrings.StringReads` | src/json/builtin.c:591-666 | A quoted sequence of characters, each written in any allowed way, parses to the concatenated UTF-8 of those characters, up to the first NUL. |
| `JsonText.PaddingIsIgnored` | src/json/builtin.c:427-432 | Spaces, tabs, line feeds and carriage returns in front of an accepted text change nothing. |
| `JsonText.DerivationUnique` | src/json/builtin.c:427-840 | A text has at most one syntax tree, so its value is unambiguous. |
| `JsonText.TooDeepIsRejected` | src/json/builtin.c:668-822 | A text nested deeper than the limit is rejected. |
| `JsonText.SecondUtf8CheckNeverFails` | src/json/builtin.c:653-657 | Once the whole text is UTF-8, the check on an unescaped string cannot fail. |
| `JsonText.ParseWellFormed` | src/json/builtin.c:824-840 | Whatever is parsed has unique keys and NUL-free UTF-8 strings. |
| `JsonWriter.WriteString` | src/json/builtin.c:846-886 | Appends the quoted and escaped string and nothing else. |
| `JsonWriter.WriteValue` | src/json/builtin.c:888-932 | Appends the serialization of a value and nothing else. |
| `JsonWriter.BuiltinSerialize` | src/json/builtin.c:934-952 | The appending writer produces the functional serialization. |
| `JsonWriter.SerializeValid` | src/json/builtin.c:846-932 | Serializations are UTF-8. |
| `JsonWriter.SerializePrintable` | src/json/builtin.c:846-886 | Serializations contain no byte below 0x20. |
| `JsonWriter.FaithfulLibraryExists` | src/json/builtin.c:489-509 | The assumption of the round trip about printing and reading finite doubles can be met. |
| `JsonWriter.SerializeParseRoundTrip` | src/json/builtin.c:824-932 | Parsing a serialization gives the value back when its depth is within the limit and nothing otherwise, for every well-formed value over finite binary64 numbers. |
| `Sse.Parser.Feed` | src/transport/sse.c:175-224 | Feeding a chunk to the buffering parser has the effect of the byte-at-a-time automaton, for every chunk. |
| `Sse.Parser.ProcessLine` | src/transport/sse.c:90-156 | A finished line updates the event being built, or dispatches it if the line is empty and it has data; how a line spells a field is fixed by `SseText.FieldRead`. |
| `Sse.ChunkingIrrelevant` | src/transport/sse.c:175-224 | Any chunking of a stream emits the same events and ends in the same state as one feed. |
| `Sse.RunFollowsLines` | src/transport/sse.c:175-224 | The automaton splits exactly at CRLF, CR and LF, also when CRLF straddles two chunks. |
| `Sse.DispatchOf` | src/transport/sse.c:90-156 | A blank line dispatches what the lines before it describe: the data values joined by LF, the last event name and id, the last legal retry time; nothing without data. |
| `Sse.LinesMakeEvents` | src/transport/sse.c:90-156 | Whatever the lines, the events are those of the blocks that a blank line ends, in order. |
| `Sse.StreamMakesEvents` | src/transport/sse.c:90-224 | A whole stream in any chunks emits exactly the events that its lines describe. |
| `SseText.FieldRead` | src/transport/sse.c:113-122 | For a NUL-free value and a non-empty name without NUL or colon: name, colon, space, value is that field; name, colon, value is that field when the value does not start with a space; a bare name is a field with an empty value. |
| `SseText.FieldNamed` | src/transport/sse.c:108-122 | Comments are no field, and a field has exactly the name it is written with. |
| `SseText.TextSplits` | src/transport/sse.c:175-224 | A text of lines ended by LF, CR or CRLF splits into exactly those lines. |
| `SseText.BlockMeans` | src/transport/sse.c:90-156 | A block of written fields and comments means one event with its data lines joined by LF, its last event name or "message", its last id and its last numeric retry time (at most 2^63 - 1), or nothing without data. |
| `SseText.TextMakesEvents` | src/transport/sse.c:90-224 | Any chunks of a text of blocks, each ended by a blank line and with any line terminators, emit exactly the events the blocks mean. |
| `Delivery.WrappedRun` | src/transport/streamable_http.c:52-65 | A wrapped text without bytes below 0x20 yields exactly one message event carrying that text. |
| `Delivery.WrappedValueArrives` | src/transport/streamable_http.c:52-65 | Serialize, wrap, feed in any chunks: exactly one message event arrives, and its data parses back to the value. |
| `UriSyntax.ScanVarExpr` | src/protocol/uri_template.c:100-165 | The scanner computes the variable expression between braces, or rejects it. |
| `UriSyntax.ParsePrefixLength` | src/protocol/uri_template.c:143-156 | A prefix length is accepted exactly when it is digits worth 1 to 999999. |
| `UriSyntax.ExprRoundTrip` | src/protocol/uri_template.c:100-165 | Every legal operator character, name, colon with 1 to 999999 or star is read as what it spells. |
| `UriSyntax.ExprSpelled` | src/protocol/uri_template.c:100-165 | Whatever is accepted between braces has such a legal spelling. |
| `UriSyntax.SegmentsSpelled` | src/protocol/uri_template.c:284-306 | Braces delimit expressions, and every byte other than an opening brace stands for itself. |
| `UriMatch.MatchStep` | src/protocol/uri_template.c:167-271 | The recursive matcher with its capture stack computes the functional search, and leaves the stack as it was when it fails. |
| `UriMatch.MatchIsSoundCompleteAndLeast` | src/protocol/uri_template.c:167-271 | A match is found exactly when some assignment of at most 64 values fits the operators and rebuilds the URI, and the one found is the lexicographically shortest. |
| `UriMatch.LeastIsUnique` | src/protocol/uri_template.c:167-271 | There is only one lexicographically shortest assignment. |
| `UriVariables.DecodeUrl` | src/protocol/uri_template.c:65-86 | The percent-decoding loop computes the decoded string. |
| `UriVariables.ExplodeValue` | src/protocol/uri_template.c:334-384 | An exploded value is split at its delimiter and decoded piece by piece into an array; which list that is, is fixed by `UriLists.SplitExploded` and `UriRoundTrip.MatchSplitsList`. |
| `UriLists.SplitExploded` | src/protocol/uri_template.c:334-384 | Encodings without the separator (slash for the slash operator, dot for dot, ampersand for query, comma for the rest), joined as expansion joins them, split back into those encodings, for a query each but the first behind its repeated name. |
| `UriLists.DecodedByte` | src/protocol/uri_template.c:65-86 | A percent sign and two hexadecimal digits of either case stand for that byte; every other byte stands for itself. |
| `UriLists.ValueLimits` | src/protocol/uri_template.c:167-271 | Which bytes and how many a captured value may have, operator by operator. |
| `UriVariables.UriTemplateMatch` | src/protocol/uri_template.c:273-403 | Matching reports a bad pattern, no match, or an object with the decoded variables, in the order the code checks; without an output parameter it reports the match alone. |
| `UriExpand.AppendEncoded` | src/protocol/uri_template.c:430-478 | Appends the percent-encoding of a string, cut to the prefix length first. |
| `UriExpand.UriTemplateExpand` | src/protocol/uri_template.c:480-685 | The expansion loop computes the expansion of the template; what one variable expands to is fixed by `UriLists.ExpandedList` and `UriLists.ExpandedScalar`. |
| `UriLists.ExpandedList` | src/protocol/uri_template.c:536-642 | A list expands to the operator's first character (hash, slash, dot, question mark with name and equals sign, or none) and the encodings of its items, joined by a comma, or when exploded by slash, dot, ampersand with name and equals sign, or comma. |
| `UriLists.ExpandedScalar` | src/protocol/uri_template.c:531-682 | A string or number expands to the operator's first character and its encoding; other values and empty lists expand to nothing. |
| `UriLists.EncodedString` | src/protocol/uri_template.c:430-478 | Byte by byte: unreserved characters of RFC 3986 stay, reserved ones stay for plus and hash, everything else becomes a percent sign and two upper-case hexadecimal digits. |
| `UriLists.FirstCharacters` | src/protocol/uri_template.c:430-478 | The prefix of length n of a UTF-8 text is the encoding of its first n characters. |
| `UriRoundTrip.DecodeEncode` | src/protocol/uri_template.c:65-86 | Percent-decoding undoes percent-encoding in both modes, for every byte string. |
| `UriRoundTrip.NoShorterSolution` | src/protocol/uri_template.c:167-271 | For separated variables no other assignment that rebuilds the expansion is as short as the encoded values. |
| `UriRoundTrip.MatchInvertsExpand` | src/protocol/uri_template.c:273-685 | For distinct, separated variables (strings, strings within their prefix length, exploded lists of strings whose encodings lack the separator), matching the expansion returns exactly the variables if there are at most 64 of them, and no match otherwise. |
| `UriRoundTrip.MatchSplitsList` | src/protocol/uri_template.c:273-403 | For every operator, a lone exploded variable matches the first character and the joined encodings of a non-empty list of strings as exactly that list. |
| `UriRoundTrip.AdjacentVariablesCollide` | src/protocol/uri_template.c:480-685 | Separation is needed: for any two adjacent plain variables and any string, moving the string from one to the other keeps the expansion, so nothing could invert it. |
| `Base64Url.EncodeLoop` | src/protocol/mrtr_state.c:252-282 | The encoding loop spells the bytes six bits at a time without padding. |
| `Base64Url.DecodeLoop` | src/protocol/mrtr_state.c:284-330 | The decoding loop is exact although its 32-bit accumulator overflows; lengths of 1 modulo 4, leftover bits and foreign characters are rejected. |
| `Base64Url.DecodeEncode` | src/protocol/mrtr_state.c:252-330 | Decoding an encoding gives every byte string back. |
| `Base64Url.EncodeDecode` | src/protocol/mrtr_state.c:252-330 | Every accepted text encodes back to its canonical form. |
| `Base64Url.CanonicalCharacters` | src/protocol/mrtr_state.c:242-250 | The canonical form drops padding and maps the plus sign and the slash to their URL-safe counterparts. |
| `Sha256.Transform` | src/protocol/mrtr_state.c:108-147 | The in-place schedule and rotating variables compute the compression function of section 6.2.2 of FIPS 180-4. |
| `Sha256Vector.ConstantsAreCubeRoots` | src/protocol/mrtr_state.c:77-94 | Each round constant is the first 32 bits of the fraction of the cube root of its prime, as an inequality between integers. |
| `Sha256Vector.InitialIsSquareRoots` | src/protocol/mrtr_state.c:96-106 | Each initial value is the first 32 bits of the fraction of the square root of its prime. |
| `Sha256Vector.DigestOfAbc` | src/protocol/mrtr_state.c:66-188 | The digest of "abc" is the one that the standard gives, followed round by round. |
| `Sha256.Context.Update` | src/protocol/mrtr_state.c:149-165 | Buffering keeps the chaining value of all full blocks and the unfinished block, for any data. |
| `Sha256.Context.Final` | src/protocol/mrtr_state.c:167-188 | Finishing yields the hash of everything absorbed: the fold of the compression function over the padded message of section 5.1.1 of FIPS 180-4. |
| `Sha256.HashParts` | src/protocol/mrtr_state.c:149-188 | Any split of a message over updates gives the same digest. |
| `Sha256.LastBlocks` | src/protocol/mrtr_state.c:167-188 | Padding adds one block or two, exactly as the code branches. |
| `Sha256.HmacSha256` | src/protocol/mrtr_state.c:201-233 | The code computes HMAC as section 2 of RFC 2104 defines it, for every key length. |
| `Token.ParseUint64` | src/protocol/mrtr_state.c:336-347 | Accepts exactly the strings of 1 to 20 digits worth less than 2^64, with their value. |
| `Token.PrintedParses` | src/protocol/mrtr_state.c:380-382 | Every printed 64-bit number parses back. |
| `Token.SplitExact` | src/protocol/mrtr_state.c:462-477 | A text splits into four fields exactly when it is four dot-free texts joined by dots. |
| `Token.SubtleEqual` | src/protocol/mrtr_state.c:46-54 | The comparison that never stops early answers equality. |
| `Token.CheckSignature` | src/protocol/mrtr_state.c:487-506 | A keyed signature must decode to the HMAC of the signed part, an unkeyed one must be the word for unsigned; the separate test for that word under a key is redundant. |
| `Token.PackRaw` | src/protocol/mrtr_state.c:359-434 | Packing yields payload, times and signature joined by dots. |
| `Token.UnsignedText` | src/protocol/mrtr_state.c:359-434 | Without a key the token is payload, issue time, time to live and the word "unsigned", joined by dots. |
| `Token.UnpackRaw` | src/protocol/mrtr_state.c:447-528 | Unpacking computes the functional verdict: format, signature, skew, expiry, payload, in this order. |
| `Token.UnpackPacked` | src/protocol/mrtr_state.c:359-528 | For every content, pair of keys and time, unpacking a packed token gives the permission status if the signatures differ (always when only one key is present), the skew status for an issue time more than 10000 ms ahead, the expiry status after the deadline in 64 bits, and the content otherwise. |
| `Token.SignedPartInjective` | src/protocol/mrtr_state.c:378-397 | The signed part determines content, issue time and time to live. |
| `Token.AcceptedIsPacked` | src/protocol/mrtr_state.c:447-528 | Whatever is accepted is signed and inside its window, and in canonical spelling it is exactly what packing its content yields. |
| `Token.ExpiryExact` | src/protocol/mrtr_state.c:508-517 | The expiry test agrees with issue time plus time to live at every moment exactly when that sum fits in 64 bits. |
| `Token.EndlessTokenExpires` | src/protocol/mrtr_state.c:508-517 | A concrete token whose deadline overflows is refused the moment it is issued. |
| `WsFrame.ParseFrame` | src/transport/ws.c:51-162 | The parser computes the functional verdict: need more, malformed, or a frame with the bytes it took. |
| `WsFrame.EncodeFrame` | src/transport/ws.c:164-227 | The encoder produces header, extended length, key and masked payload. |
| `WsFrame.ReadFromWire` | src/transport/ws.c:51-162 | On the received buffer: final bit, opcode, mask bit and length are read from their octets, and payload octet i is the wire octet, xor the key octet i modulo 4 if masked. |
| `WsFrame.LengthOctets` | src/transport/ws.c:99-118 | The length is seven bits, or a big-endian number of two or eight octets. |
| `WsFrame.RefusedFromWire` | src/transport/ws.c:51-118 | Refused exactly: reserved bits, unknown opcodes, fragmented or long control frames, lengths with the top bit. |
| `WsFrame.EncodedSize` | src/transport/ws.c:164-227 | Two octets of header, two or eight more above 125 and 65535 bytes, four for a key. |
| `WsFrame.ParseEncode` | src/transport/ws.c:51-227 | Every legal frame is parsed back whatever follows it, consuming exactly its encoding. |
| `WsFrame.PrefixNeedsMore` | src/transport/ws.c:51-162 | Every strict prefix of an encoded frame asks for more. |
| `WsFrame.ParseStable` | src/transport/ws.c:51-162 | A frame or an error, once decided, is unchanged by further bytes. |
| `WsFrame.ParsedIsLegal` | src/transport/ws.c:51-162 | Whatever parses is a legal frame. |
| `WsFrame.EncodeParsed` | src/transport/ws.c:51-227 | The bytes of a parsed frame are its encoding exactly when the length is in its shortest form. |
| `WsFrame.LongerFormAccepted` | src/transport/ws.c:99-118 | A frame of one byte announced in the two-octet form is accepted. |
| `WsConnection.CutAppend` | src/transport/async_server.c:886-900 | Bytes that arrive later are cut into frames as if they had been there from the start. |
| `WsConnection.CutEncoded` | src/transport/async_server.c:886-900 | A concatenation of encoded frames is cut into those frames. |
| `WsReading.Connection.HandleFrame` | src/transport/async_server.c:901-1019 | One complete frame changes fragments, messages, replies and the connection as specified. |
| `WsConnection.OpenRunDecomposes` | src/transport/async_server.c:901-1019 | While a connection is open its data frames are fragmented messages in the sense of section 5.4 of RFC 6455, and it delivered exactly those that are complete. |
| `WsConnection.DecompositionIsDelivered` | src/transport/async_server.c:901-1019 | Whenever the data frames decompose into fragmented messages, exactly these are delivered and every ping is answered. |
| `WsConnection.ClosesAtFirstViolation` | src/transport/async_server.c:901-1019 | A connection closes at its first close frame or at the first frame after which the data frames no longer decompose; it delivered what came before. |
| `WsConnection.ControlFramesAreTransparent` | src/transport/async_server.c:1001-1014 | Pings and pongs between any frames change no message and no fragment. |
| `WsConnection.PongOnTheWire` | src/transport/async_server.c:1001-1014 | A ping is answered with 0x8A, the length and the payload. |
| `WsConnection.MessageLimit` | src/transport/async_server.c:954-960 | A continuation closes the connection exactly when the message would exceed 4194304 bytes. |
| `WsConnection.ReassembledWithinLimit` | src/transport/async_server.c:954-960 | Whatever frames arrive, a delivered message that is not the payload of one final frame has at most 4 MiB. |
| `WsConnection.SentIsDelivered` | src/transport/async_server.c:886-1019 | The bytes of encoded fragmented messages mean those messages, whole and in order. |
| `WsReading.Connection.Receive` | src/transport/async_server.c:840-1019 | A read event closes a connection whose buffer is exhausted, otherwise grows the buffer, takes a chunk and handles every complete frame. |
| `WsReading.RoomToRead` | src/transport/async_server.c:841-858 | A read is refused exactly with more than 4255744 unparsed bytes; otherwise the grown buffer has room for 4096 more. |
| `WsReading.ReadsAreExact` | src/transport/async_server.c:840-1019 | A connection is what the bytes it received make of it exactly when no read was refused; a read is refused exactly when it finds more than 4255744 unparsed bytes; otherwise the connection is what all the bytes make of it. |
| `WsReading.ChunkingIrrelevant` | src/transport/async_server.c:840-1019 | As long as no read is refused, chunking makes no difference. |
| `WsReading.ReadToTheEnd` | src/transport/async_server.c:841-858 | A large frame read in steps up to the limit and then to its end is delivered. |
| `WsReading.ReadPastTheLimit` | src/transport/async_server.c:841-858 | The same bytes with one more read just past the limit close the connection. |
| `WsReading.SentIsDelivered` | src/transport/async_server.c:840-1019 | Fragmented messages in frames of at most 4255745 bytes are delivered whole and in order, in whatever chunks they arrive. |
| `ThreadPool.StepKeeps` | src/runtime/threadpool.c:39-156 | Every critical section of workers, submitters, waiting threads and the destroying thread keeps the invariant. |
| `ThreadPool.CountsAndOrder` | src/runtime/threadpool.c:39-113 | In every run the pending count is the queue length, the active count is the number of running tasks, and tasks are taken in submission order, each at most once. |
| `ThreadPool.WaitReturnsIdle` | src/runtime/threadpool.c:115-130 | Waiting returns only when every task submitted so far has finished. |
| `ThreadPool.WokenExactlyWhenIdle` | src/runtime/threadpool.c:58-66 | Apart from spurious wakeups, a waiting thread is woken by exactly the steps that leave nothing pending and nothing active. |
| `ThreadPool.WakeupsReachEveryRun` | src/runtime/threadpool.c:42-67 | No wakeup is lost: while a worker sleeps there is an awake idle worker for every queued task, and no thread waits on an idle pool. |
| `ThreadPool.DestroyRunsEverything` | src/runtime/threadpool.c:132-156 | Every task submitted before the stop has finished before the pool is freed; only tasks submitted after it can be freed without running, and nothing is lost or run twice. |
| `ThreadPool.OnTimeExact` | src/runtime/threadpool.c:140-143 | The tasks counted as on time are exactly those submitted before the stop. |
| `ThreadPool.LateTaskDiscarded` | src/runtime/threadpool.c:147-151 | A run in which a task submitted too late is freed without being run. |
| `ThreadPool.JoinTerminates` | src/runtime/threadpool.c:140-146 | After the stop some worker can always move until all have exited, and each move leaves less to do. |
| `AsyncServerInvariant.StepKeeps` | src/transport/async_server.c:192-521 | Every atomic step of the reactor thread, of any worker and of the destroying thread keeps the invariant: exact counts, list, event streams, reaping batch and pending counter. |
| `AsyncServerRuns.CountsAreExact` | src/transport/async_server.c:192-521 | In every interleaving the count of a connection or session is the number of its holders, and freed memory is never touched. |
| `AsyncServerRuns.CountsBetweenHandlers` | src/transport/async_server.c:192-521 | Between handlers a connection has one reference if not detached, one per queued response and those of running tasks; pending is the number of running tasks. |
| `AsyncServerRuns.FreedOnceWhenUnheld` | src/transport/async_server.c:196-319 | What was created either exists and is held, or was freed exactly once and has no holder. |
| `AsyncServerRuns.RegistryIsExact` | src/transport/async_server.c:223-382 | The connection list has no repeats, is counted exactly and holds the open connections; the reaper never collects more than 32 streams. |
| `AsyncServerStreams.ReapedStreamIsClosed` | src/transport/async_server.c:352-382 | In every run, reaping a session with an event stream closes that connection: it is open in no later state between handlers. |
| `AsyncServerStreams.ReapHandsOver` | src/transport/async_server.c:366-380 | The end of a reaping pass hands the streams of all sessions it took to the closing loop. |
| `AsyncServerStreams.SubscriberDoesNotOutlive` | src/transport/async_server.c:352-382 | A connection subscribed to a session that is later reaped, with no other subscriber in between, is closed by the time the reactor is back in its loop. |
| `AsyncServerStreams.ScheduledIsClosed` | src/transport/async_server.c:223-382 | Whatever is on a list of connections to close is closed in every later state between handlers. |
| `AsyncServerStreams.ClosingCloses` | src/transport/async_server.c:223-260 | A connection whose closing begins, on its own or after a fatal reply, is closed for good. |
| `AsyncServerStreams.RequestBecomesTask` | src/transport/async_server.c:694-762 | Every request for a worker, on a new session, a session that was found or a WebSocket connection, is a new task on its own connection and session by the time the reactor is back in its loop. |
| `AsyncServerRuns.CalmDestroyReleases` | src/transport/async_server.c:1271-1306 | Destruction that begins with no task pending frees every connection and session ever created, once, and no worker uses the freed server. |
| `AsyncServerRuns.ReleaseIsExact` | src/transport/async_server.c:1251-1263 | When the second wait ends, every continuation of destruction releases everything exactly when no task is pending at that moment. |
| `AsyncServerRuns.PendingTaskOutlives` | src/transport/async_server.c:1251-1306 | With a task pending at that moment there is a continuation in which a worker uses the freed server. |
| `AsyncServerRuns.SubmittedBetweenTheWaits` | src/transport/async_server.c:1251-1263 | A run that gets there: a WebSocket message is submitted after the first wait has ended. |
| `AsyncServerRuns.DestroyNeverStuck` | src/transport/async_server.c:1271-1293 | While destruction is under way the destroying thread can always go on. |
| `AsyncServerRuns.DestroyAdvances` | src/transport/async_server.c:1271-1293 | Every step of destruction and of workers beside it leaves less to do, so destruction ends. |
| `MessageQueue.Queue.Compact` | src/server/queue.c:48-60 | Compaction moves the items to the front without losing or reordering one; it is a left shift because the ring never wraps. |
| `MessageQueue.Queue.Grow` | src/server/queue.c:44-89 | Growing keeps the contents whichever reallocation fails, and succeeds exactly when there is room or both succeed. |
| `MessageQueue.Queue.Push` | src/server/queue.c:91-107 | Pushing appends, or fails exactly when the queue is at its limit or cannot grow, and then changes nothing. |
| `MessageQueue.Queue.Pop` | src/server/queue.c:109-123 | Popping removes the oldest item, or reports an empty queue. |
| `MessageQueue.Queue.Destroy` | src/server/queue.c:32-42 | Destruction releases every queued message once, in order. |
| `Reactor.Poller.FindIdx` | src/runtime/reactor.c:104-125 | The binary search finds a descriptor exactly when it is registered, and otherwise the place to insert it. |
| `Reactor.Poller.Reserve` | src/runtime/reactor.c:282-316 | Growing keeps entries, poll slots and the snapshots of a batch in progress. |
| `Reactor.Poller.DoAdd` | src/runtime/reactor.c:265-358 | Adding keeps the arrays sorted and aligned and has the effect and status of adding to a map. |
| `Reactor.Poller.DoModify` | src/runtime/reactor.c:360-400 | Modifying keeps the arrays aligned and has the effect and status of modifying a map. |
| `Reactor.Poller.DoRemove` | src/runtime/reactor.c:402-429 | Removing closes the gap in both arrays and has the effect and status of removing from a map. |
| `Reactor.MaskInside` | src/runtime/reactor.c:62-86 | The mask a callback gets lies inside the events it registered for. |
| `Reactor.RequestedBits` | src/runtime/reactor.c:49-61 | Interest in reading requests POLLIN and POLLRDHUP, interest in writing POLLOUT, and nothing else is requested. |
| `Reactor.ReportedBits` | src/runtime/reactor.c:63-86 | Bit by bit when a descriptor is reported readable, writable or in error. |
| `Reactor.AcceptedExactly` | src/runtime/reactor.c:265-429 | Adding, modifying and removing succeed exactly for descriptors from 0 on, masks below 8, a callback, no wakeup descriptor, and a descriptor that is absent or present as the operation needs. |
| `Reactor.Poller.Step` | src/runtime/reactor.c:507-539 | A step dispatches its snapshots against the registry as it is at each moment, whatever callbacks add, modify or remove. |
| `Reactor.CallsAreCurrent` | src/runtime/reactor.c:520-539 | Every callback goes to a descriptor registered at that moment, with its current entry and a non-empty mask inside its current events, for a condition that fired, once and in ascending order. |
| `Reactor.StepCallsAreCurrent` | src/runtime/reactor.c:511-539 | The snapshots of a sorted, aligned registry ascend, so this holds for every step. |
| `Reactor.NothingSkipped` | src/runtime/reactor.c:520-539 | If callbacks leave the registry alone, everything that is due is called. |

## Left out

- Sockets, TLS, the wakeup descriptor and the epoll back end of the reactor, HTTP parsing, stdio and client transports: foreign calls and glue. In `AsyncServer` any open connection may receive any request at any time.
- Allocation failure, except in `MessageQueue`: no other operation of the model runs out of memory. Buffer capacities and their growth are therefore not modelled; growing buffers are sequences.
- Linked lists (task queue, response queue, connection and session lists) are sequences; relinking their nodes is not modelled.
- WebSocket frames that arrive in the same read as the upgrade request wait for the next read event; the model starts with an empty buffer.
- Floating-point conversion: numbers are finite binary64 values, but how `strtod` and `%.17g` compute is left to `FloatLib`.
- UriRoundTrip.MatchInvertsExpand: states the law for separated variables whose values the template keeps; adjacent variables (`UriRoundTrip.AdjacentVariablesCollide`), values cut by a prefix, lists that are not exploded and list items that contain the separator lose information and have no inverse.
- Response bytes, session contents and message dispatch in the async server: only lifetimes and counts are modelled; WebSocket input is modelled separately in `WsConnection`.
- The pool's partially failed creation (src/runtime/threadpool.c:71-83), which repeats the stop and join of destruction.
- JSON Schema validation, routes, message builders, plugins, tasks, logging and command-line tools: many small facts.
- Timing: `Token.SubtleEqual` is proved to answer equality; that it takes the same time for all inputs is not stated.
