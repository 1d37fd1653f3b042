# Wadi, modelled in Dafny

Wadi pushes camera video over WebRTC. This project models the parts of the repository that hold
real logic and proves what they promise, over every input, every run or every interleaving:

- the HTTP/1.1 client codec of `include/HTTPRequest/Request.hpp`: the incremental chunked-body decoder and the
  receive loop around it, the status line and header field parsers with obsolete folding, the header and
  request printers, the URI splitter and the streaming Base64 encoder;
- the SDP codec filter `WHIPSession::SDPForceCodecs` of `src/whip.cpp`;
- the containers that may be changed while they are iterated: `ObserverList` and `CallbackList`;
- two concurrent protocols as state machines over their atomic steps: `ObserverListThreadSafe` and
  `GetOrCreateLazyPointer`;
- reference counting through `scoped_refptr`, and big-endian reads and writes.

Code that changes fields in place is a class or a method with loops, and each is proved equal to a
specification function on values. The theorems are then about those functions. `dafny verify dfyconfig.toml` checks
the whole project.

| files | component |
|---|---|
| Bytes, Numbers | octet strings, substring search, cuts, numerals read modulo 2^64 |
| ChunkedBody | the chunked-body decoder |
| HeaderFields, MessageHead, Response | header fields, where a head ends, the receive loop |
| Uri, Base64, RequestFraming | URI splitting, Base64, the request printer |
| SdpLines, SdpFilter, SdpIdempotence, SdpTheorems, SdpText | the SDP codec filter, and what it does to texts |
| ObserverSlots, ObserverPass, ObserverList | slots with removal marks, passes over them, the classes |
| CallbackSpec, CallbackList | nodes with a list cursor, `Notify`, the classes |
| ThreadSafeNotify, ThreadSafeReturn, ThreadSafePolicy, ThreadSafeList | notification across sequences, registering again, catching up, the class |
| LazyPointer | lazy creation |
| RefCounts, ScopedRefptr | reference conservation, the handle classes |
| BigEndian | byte order |

## How the inputs are modelled

- Octets are characters below 256. `std::size_t` is a number below 2^64 and wraps; the status code wraps at 2^16.
- `recv` is a parameter: the response arrives as a list of non-empty pieces, cut anywhere, and the list ending is
  the peer closing the connection. `Response.Fits` says which pieces the buffer of 4096 octets can hold. Exceptions are `Err` results with the message of the source.
- What a re-entrant callback does is a parameter: each visit of a pass is followed by an arbitrary list of operations,
  nested passes included.
- Task runners deliver in posting order. The order in which `Notify` walks its hash map is a parameter.
- `NeedsLazyInstance` and `CompleteLazyInstance` are modelled by the contracts written beside their declarations,
  and steps are sequentially consistent.

## Where the code and its promises differ

Each of these has a lemma about failing inputs and a theorem that says, for all inputs, exactly when the promise holds.

- The response depends on how its octets are cut. The receive loop leaves on its first piece when that piece does not
  hold the whole head, and a body of announced length is taken in whole pieces. `Response.CutsMatterExactly` gives the
  condition for every response; `Response.CutHeadIsLost` is a complete response that is lost.
- A head longer than the receive buffer of 4096 octets is always lost: `Response.LongHeadIsLost`, for printed
  responses `Response.LongPrintedHeadIsLost`, and `Response.HeadMustFit` for the exact bound. The round trips of whole responses put the head in the first piece, so
  they describe what the code can receive for heads within that bound.
- A body of announced length may come back longer than announced. `Response.LengthNeedsCut` says exactly when;
  `Response.LengthIsExceeded` is a case.
- The URI splitter keeps an `@` in a host after an empty user part, which the reassembled text then loses.
  `Uri.ReassemblyExactly` gives the condition, `Uri.ReassemblyFails` a case.
- A method or target with an empty line ends the head of its own request early, and the URI splitter accepts such a
  path. `RequestFraming.FramedExactly` gives the condition, `RequestFraming.BlankTargetBreaksFraming` a case.
- The SDP filter is not idempotent on lines when a media line does not survive being cut.
  `SdpIdempotence.IdempotentExactly` gives the condition on the sections of the input, for every input
  (`SdpFilter.Decompose`), `SdpIdempotence.IdempotenceFails` a case, and `SdpIdempotence.FilterIsIdempotent` the standard
  media lines of section 5.14 of RFC 4566.
- Removing an observer from an `ObserverListThreadSafe` does not abort what is queued for it when it is registered
  again: the check asks for the observer, not for the registration. `ThreadSafeReturn.ReturnExactly` and
  `ThreadSafeReturn.EveryRegistration` give the condition, `ThreadSafeReturn.AbortedIsDelivered` a run.
- The SDP filter reads lines up to the line feed and writes CR LF, so every pass over a text adds a carriage return to
  each copied line. `SdpTheorems.TextIdempotentExactly` proves for all texts that filtering twice changes nothing
  exactly when the filter writes nothing, `SdpTheorems.TextIdempotenceFails` is a case, and
  `SdpTheorems.TextIdempotentUpToReturns` is what does hold of written lines.

Three more, where the code is followed and its language or its effect is stated exactly:

- Chunk sizes wrap modulo 2^64 and chunk extensions are refused, so the accepted language is that of
  `ChunkedBody.EncodesBody`, not that of section 4.1 of RFC 7230.
- The SDP filter throws exactly on a line that is `a=rtpmap` and nothing else.
- A callback appended to a `CallbackList` while its last callback runs is not run: the cursor is already at the end.
  `CallbackSpec.NotifyRunsExactly` states what runs in terms of the nodes at the moment the cursor reached the end.

## Model

| member | source | states |
|---|---|---|
| Bytes.SearchFinds | include/HTTPRequest/Request.hpp:1217-1218 | `std::search` finds an occurrence, and the first one |
| Bytes.SearchIsStable | include/HTTPRequest/Request.hpp:1217-1218 | an occurrence that was found is found at the same place after more octets arrive |
| Bytes.Find | include/HTTPRequest/Request.hpp:740-745 | the search loop for one character cuts a text at its first occurrence |
| Bytes.CutUndoesJoin | include/HTTPRequest/Request.hpp:740-794 | cutting a joined text gives back the two parts and whether the delimiter was there |
| Bytes.JoinUndoesCut | include/HTTPRequest/Request.hpp:740-794 | joining the parts of a cut gives back the text, and the head has no delimiter |
| Numbers.ReadUint | include/HTTPRequest/Request.hpp:987-1005 | both number readers return the denoted value modulo 2^64, and throw exactly on a text with a foreign character |
| Numbers.DigitExactly | include/HTTPRequest/Request.hpp:694-711 | a character denotes `d` if and only if it stands at place `d` of "0123456789abcdef" or of its upper-case form, below the radix |
| Numbers.PrintReadsBack | include/HTTPRequest/Request.hpp:987-1005 | a printed number denotes itself, in both radices |
| ChunkedBody.ChunkReceiver.constructor | include/HTTPRequest/Request.hpp:1195-1201 | the initial decoder state |
| ChunkedBody.ChunkReceiver.Feed | include/HTTPRequest/Request.hpp:1211-1308 | the loop in place, on one received piece, reaches the state and outcome of the specification |
| ChunkedBody.AgainShrinks | include/HTTPRequest/Request.hpp:1269-1306 | every turn that does not leave the loop shrinks the buffer |
| ChunkedBody.IterateWithMore | include/HTTPRequest/Request.hpp:1269-1306 | what one turn decides does not change when more octets follow |
| ChunkedBody.DrainSplit | include/HTTPRequest/Request.hpp:1266-1308 | from every state, feeding a then b is feeding a+b; done and invalid are absorbing |
| ChunkedBody.DrainTwice | include/HTTPRequest/Request.hpp:1266-1308 | a decoder that waits has nothing left to do |
| ChunkedBody.ReceiveIgnoresCuts | include/HTTPRequest/Request.hpp:1204-1308 | body, buffer and outcome do not depend on how the octets are cut into pieces |
| ChunkedBody.DrainKeepsConsistent | include/HTTPRequest/Request.hpp:1271-1298 | a pending chunk excludes a pending CRLF, the body only grows, and the pending size stays below the word bound |
| ChunkedBody.DecodesMessage | include/HTTPRequest/Request.hpp:1266-1308 | the wire form of any chunks, with any size text that denotes their size, decodes to their data |
| ChunkedBody.DecodedWasMessage | include/HTTPRequest/Request.hpp:1266-1308 | whatever decodes was the wire form of chunks with exactly that data |
| ChunkedBody.DecodesExactly | include/HTTPRequest/Request.hpp:1266-1308 | a stream decodes to a body if and only if it is the wire form of chunks with that data |
| ChunkedBody.ThrowsExactly | include/HTTPRequest/Request.hpp:1284-1299 | the decoder throws if and only if, after whole chunks, a size line has a foreign character or chunk data is not followed by CRLF |
| ChunkedBody.FaultIsFound | include/HTTPRequest/Request.hpp:1284-1299 | however the malformed stream is cut it is refused, and the decoder is left waiting for CRLF exactly when chunk data was not followed by it |
| ChunkedBody.ChunkedRoundTrip | include/HTTPRequest/Request.hpp:1266-1308 | non-empty chunks below the word bound, printed and cut anywhere, come back as their concatenation |
| ChunkedBody.PrefixOfMessage | include/HTTPRequest/Request.hpp:1266-1308 | on every prefix of a message: no error, a body that is a prefix of the data, and all of it once done |
| HeaderFields.SkipWhiteSpaces | include/HTTPRequest/Request.hpp:682-691 | the loop stops after the longest run of white space |
| HeaderFields.ParseToken | include/HTTPRequest/Request.hpp:862-875 | the longest run of token characters, or the error on none |
| HeaderFields.ParseFieldValue | include/HTTPRequest/Request.hpp:878-893 | the longest run of field text, without white space at its end |
| HeaderFields.ParseFieldContent | include/HTTPRequest/Request.hpp:896-926 | the loop over obsolete folds meets its specification |
| HeaderFields.LowerCase | include/HTTPRequest/Request.hpp:608-619 | the in-place loop adds 32 to the code of every capital letter and changes nothing else, so that no capital is left |
| HeaderFields.CaseIsDropped | include/HTTPRequest/Request.hpp:608-619 | two texts lower-case to the same text if and only if they are equal up to the case of their letters |
| HeaderFields.ClassesAre | include/HTTPRequest/Request.hpp:621-680 | the character classes by their members |
| HeaderFields.ParseHeaderField | include/HTTPRequest/Request.hpp:929-952 | field, position after it and every error as specified; the name is the text up to the colon with its capital letters replaced by small ones |
| HeaderFields.CheckEach | include/HTTPRequest/Request.hpp:1022-1028 | the loop over the characters of a name or a value |
| HeaderFields.EncodeHeaderFields | include/HTTPRequest/Request.hpp:1014-1034 | prints all fields if and only if all are acceptable; otherwise the error of the first that is not |
| HeaderFields.ParsesTransmitted | include/HTTPRequest/Request.hpp:896-952 | any transmitted form of a field (any padding, any folds) parses to the lower-cased name and the unfolded value |
| HeaderFields.ParsedWasTransmitted | include/HTTPRequest/Request.hpp:896-952 | whatever parses was such a form, followed by exactly the unread rest |
| HeaderFields.ParsesExactly | include/HTTPRequest/Request.hpp:896-952 | both directions: the parser's language and its meaning |
| HeaderFields.RefusesExactly | include/HTTPRequest/Request.hpp:929-952 | a text is refused if and only if it is no transmitted form, with one message when it starts without a name and the other otherwise |
| HeaderFields.CaseIsIgnored | include/HTTPRequest/Request.hpp:929-952 | names that differ only in case read alike, whatever follows them |
| HeaderFields.FieldsRoundTrip | include/HTTPRequest/Request.hpp:929-952 | parsing a printed non-empty list consumes it exactly and gives the fields with names lower-cased and values trimmed at both ends |
| HeaderFields.NormalFormIsFixed | include/HTTPRequest/Request.hpp:1014-1034 | that normal form is a fixed point of another round |
| MessageHead.FieldsEnd | include/HTTPRequest/Request.hpp:1014-1034 | the first CRLF CRLF in printed fields is the one that ends them |
| MessageHead.HeadEnds | include/HTTPRequest/Request.hpp:1215-1222 | the first CRLF CRLF of a start line, fields and a rest is the end of the fields, and what is before and after it |
| Response.ParseStatusCode | include/HTTPRequest/Request.hpp:833-846 | the longest run of digits; three of them denote the code without overflow |
| Response.ParseReasonPhrase | include/HTTPRequest/Request.hpp:849-859 | the longest run of field text |
| Response.ParseStatusLine | include/HTTPRequest/Request.hpp:955-984 | status, rest and every error as specified |
| Response.ReadsStatusLine | include/HTTPRequest/Request.hpp:799-859 | every status line with a three-digit code reads back, with the text after it untouched |
| Response.StatusLineWas | include/HTTPRequest/Request.hpp:955-984 | every text that is read was the status line of what was read, followed by exactly the rest |
| Response.StatusLineExactly | include/HTTPRequest/Request.hpp:955-984 | both directions: which texts are read as a status line, and to what |
| Response.StatusLineFaults | include/HTTPRequest/Request.hpp:955-984 | which message a text gets that is no status line, by how far it agrees with one |
| Response.ReadHeaderFields | include/HTTPRequest/Request.hpp:1229-1257 | the field loop succeeds if and only if the text is a list of fields, every transfer-encoding is "chunked" and every content-length a decimal numeral; it then returns the fields and what they announce: chunked if any transfer-encoding is there, the last content-length modulo 2^64 or none |
| Response.ReadFieldsIs | include/HTTPRequest/Request.hpp:1229-1257 | the loop reads the fields that the field parser reads, and the framing is theirs taken one by one |
| Response.InterpretAllIs | include/HTTPRequest/Request.hpp:1237-1255 | for every list of fields and every framing known before it: understood if and only if each field is, with the framing described above, and otherwise the message of the first field that is not |
| Response.FramingExactly | include/HTTPRequest/Request.hpp:1229-1257 | for every text: the loop returns these fields and this framing if and only if the text is those fields, all are understood, and the framing is what they announce; otherwise the error is that of the first field not understood |
| Response.ReceiveResponse | include/HTTPRequest/Request.hpp:1191-1322 | the whole receive loop on any pieces equals its specification; what that answers is stated by the round trips and refusals below |
| Response.ReadHeadIsStable | include/HTTPRequest/Request.hpp:1213-1261 | a head that was read, or refused, is the same when more octets follow |
| Response.ChunkedIgnoresCuts | include/HTTPRequest/Request.hpp:1204-1308 | once the first piece holds the head, a chunked response does not depend on the cuts |
| Response.CutsMatterExactly | include/HTTPRequest/Request.hpp:1203-1321 | for every response: it equals that of the uncut stream if and only if no empty line arrives at all, or the first piece holds it and the head is bad, or chunked, or the announced length is not reached before the last piece |
| Response.PlainTakesAll | include/HTTPRequest/Request.hpp:1309-1317 | an unchunked body is everything that arrives if and only if only the last piece may reach the announced length |
| Response.CutHeadIsLost | include/HTTPRequest/Request.hpp:1213-1219 | a concrete response: answered when it arrives at once, lost when it is cut in its head |
| Response.LongHeadIsLost | include/HTTPRequest/Request.hpp:1191-1219 | a head longer than the receive buffer is lost, for all pieces the buffer can hold |
| Response.LongPrintedHeadIsLost | include/HTTPRequest/Request.hpp:1191-1219 | every printed response whose head is longer than the buffer is lost |
| Response.HeadMustFit | include/HTTPRequest/Request.hpp:1191-1219 | some pieces within the buffer get an answer if and only if the head fits the buffer |
| Response.ReadsPrintedFields | include/HTTPRequest/Request.hpp:1229-1257 | printed fields that are all understood are read back in normal form, with the framing they announce |
| Response.ReadsPrintedHead | include/HTTPRequest/Request.hpp:1215-1261 | a printed head of understood fields is read back whole, with the framing its fields announce, and leaves exactly what follows it |
| Response.FaultyHeadIsRefused | include/HTTPRequest/Request.hpp:1237-1255 | a printed head with a field that is not understood makes the response an error with the message of the first such field |
| Response.ChunkedResponseRoundTrip | include/HTTPRequest/Request.hpp:1204-1308 | with a transfer-encoding among the printed fields, status, fields and chunk data come back, cut anywhere after the head, whatever lengths are announced beside it |
| Response.FaultyChunksAreRefused | include/HTTPRequest/Request.hpp:1284-1299 | a chunked body that is malformed after whole chunks is refused, cut anywhere, with "Invalid hex digit" for a bad size line and "Invalid chunk" for a missing CRLF |
| Response.PlainTakesWholePieces | include/HTTPRequest/Request.hpp:1309-1317 | without chunks the body is the pieces up to the first at which the announced length is reached |
| Response.PlainIsExact | include/HTTPRequest/Request.hpp:1309-1317 | a body of the announced length is returned whole, for all cuts |
| Response.LengthResponseRoundTrip | include/HTTPRequest/Request.hpp:1204-1322 | with no transfer-encoding and a last content-length equal to the size of what follows, status, fields and body come back, cut anywhere after the head |
| Response.CloseResponseRoundTrip | include/HTTPRequest/Request.hpp:1309-1322 | with neither of the two fields, everything up to the disconnect is the body |
| Response.PlainLengthNeedsCut | include/HTTPRequest/Request.hpp:1309-1317 | when more arrives, the body has the announced length if and only if some piece ends there |
| Response.LengthNeedsCut | include/HTTPRequest/Request.hpp:1204-1322 | for a response with a printed head that announces a length: its body has that length if and only if some piece ends there |
| Response.LengthIsExceeded | include/HTTPRequest/Request.hpp:1309-1317 | a response that announces one octet and arrives with two comes back with both |
| Uri.ParseAuthority | include/HTTPRequest/Request.hpp:766-794 | the searches for `@` and `:` split the authority as specified |
| Uri.ParseScheme | include/HTTPRequest/Request.hpp:719-734 | the scheme loop and its three errors |
| Uri.ParseUri | include/HTTPRequest/Request.hpp:714-797 | the searches after the scheme split a URI as specified, with the scheme errors |
| Uri.SplitsText | include/HTTPRequest/Request.hpp:714-797 | print then parse is the identity on components that avoid their delimiters, whichever empty delimiters are printed |
| Uri.SplitWasText | include/HTTPRequest/Request.hpp:714-797 | every accepted string is such a print of its components |
| Uri.SplitsExactly | include/HTTPRequest/Request.hpp:714-797 | both directions: which strings split into which components |
| Uri.CanonicalDropsEmpty | include/HTTPRequest/Request.hpp:736-797 | the accepted string and the canonical print differ only in an inserted "/" and dropped empty delimiters |
| Uri.ReassemblyExactly | include/HTTPRequest/Request.hpp:766-794 | the canonical print splits back if and only if there are credentials or no `@` in host and port |
| Uri.ReassemblyFails | include/HTTPRequest/Request.hpp:766-794 | `http://@a@b` splits, and its canonical print splits otherwise |
| Base64.EmitGroup | include/HTTPRequest/Request.hpp:1055-1062 | the masks and shifts on three octets give the four symbols of their 24 bits |
| Base64.EmitRest | include/HTTPRequest/Request.hpp:1065-1078 | the last one or two octets with their padding |
| Base64.EncodeBase64 | include/HTTPRequest/Request.hpp:1037-1081 | the streaming accumulator equals the group-wise definition of section 4 of RFC 4648 |
| Base64.DecodeUndoesEncode | include/HTTPRequest/Request.hpp:1037-1081 | a specification decoder inverts the encoding of every octet string |
| Base64.EncodeUndoesDecode | include/HTTPRequest/Request.hpp:1037-1081 | every text the decoder accepts is the encoding of what it returns |
| Base64.EncodedShape | include/HTTPRequest/Request.hpp:1077-1080 | length 4*ceil(n/3), padding exactly at the end and exactly as much as is due, alphabet symbols elsewhere |
| Base64.KnownAnswers | include/HTTPRequest/Request.hpp:1037-1081 | three answers of section 10 of RFC 4648 |
| RequestFraming.EncodeHtml | include/HTTPRequest/Request.hpp:1083-1115 | the request text if and only if the scheme is http and fields and host are acceptable; otherwise which error; what the text tells a server is stated by `RequestFraming.ServerIsTold` |
| RequestFraming.Cast | include/HTTPRequest/Request.hpp:1052-1054 | the casts to octets before Base64 keep every value |
| RequestFraming.BlankInRequestLine | include/HTTPRequest/Request.hpp:1008-1011 | a request line holds CRLF CRLF exactly when its method or its target does |
| RequestFraming.FramedExactly | include/HTTPRequest/Request.hpp:1107-1114 | what follows the head is the body octet for octet, and the first CRLF CRLF is the end of the head if and only if method and target hold none |
| RequestFraming.BlankTargetBreaksFraming | include/HTTPRequest/Request.hpp:1091-1092 | a URI with an empty line in its path is accepted, and the first CRLF CRLF of its request is not the end of the head |
| RequestFraming.RequestReadsBack | include/HTTPRequest/Request.hpp:1083-1115 | the printed request reads back as its request line, its fields in normal form and its body |
| RequestFraming.LengthReadsBack | include/HTTPRequest/Request.hpp:1097-1098 | the added Content-Length denotes the body size and is the last one, so that the field loop of the client gets the size modulo 2^64 from the whole list, whatever lengths the caller gave |
| RequestFraming.CredentialsReadBack | include/HTTPRequest/Request.hpp:1100-1105 | the Authorization value decodes to user, colon, password, and splits back if and only if the user has no colon |
| RequestFraming.TargetReadsBack | include/HTTPRequest/Request.hpp:1091-1092 | path and query come back from the target, the query with its question mark only when it is not empty, if and only if the path has no question mark |
| RequestFraming.ParsedTargetReadsBack | include/HTTPRequest/Request.hpp:714-797 | they come back for every URI string that is accepted |
| RequestFraming.LineReadsBack | include/HTTPRequest/Request.hpp:1008-1011 | the method, then the target with " HTTP/1.1" behind it, come back from the request line if and only if the method has no space |
| RequestFraming.FieldsAreTold | include/HTTPRequest/Request.hpp:1094-1105 | the fields sent are the caller's, then host, then the length of the body, then the credentials exactly when there is a user or a password |
| RequestFraming.ServerIsTold | include/HTTPRequest/Request.hpp:1083-1115 | end to end: a server that takes the request apart finds the method, path, query, all those fields and the body |
| SdpLines.WrittenReadsBack | src/whip.cpp:245-293 | written lines are read back with the carriage return of their terminator attached |
| SdpLines.KindIgnoresReturns | src/whip.cpp:246-273 | the class of a line of standard shape, its identifier and its codec ignore carriage returns at its end |
| SdpLines.MediaLineReadsBack | src/whip.cpp:273-282 | a written m=video line is a media line again, with the same part before its formats |
| SdpFilter.WriteFormats | src/whip.cpp:278-281 | the loop writes all allowed identifiers |
| SdpLines.PrefixCutsAtSpaces | src/whip.cpp:274-277 | what the three searches keep, by the number of spaces: all of the line with none or two, the part before the only one, the part before the third otherwise |
| SdpFilter.FindFrom | src/whip.cpp:274-276 | `find` from a position, with the miss that restarts at zero |
| SdpFilter.CutFormats | src/whip.cpp:274-277 | the three searches keep exactly that part of the media line |
| SdpFilter.CopyLine | src/whip.cpp:273-293 | a line that is no media or codec line: flush, hold back or copy, as specified |
| SdpFilter.ReadLine | src/whip.cpp:245-294 | one turn of the loop on the three streams equals one step; it throws exactly on a bare a=rtpmap; which lines count as what is stated by `SdpText.MapLineIsRead`, `SdpText.AboutLineIsRead` and `SdpText.KindExactly` |
| SdpFilter.ForceCodecs | src/whip.cpp:234-296 | the whole filter equals its specification on every text, the throw on a bare a=rtpmap included; what is written is stated by `SdpText.TextMeetsSpecification` |
| SdpFilter.RunSegments | src/whip.cpp:245-294 | on lines given as flushed sections and a rest, the output is the declared rearrangement of each |
| SdpFilter.Decompose | src/whip.cpp:245-294 | every input is such lines |
| SdpFilter.FilterMeetsSpecification | src/whip.cpp:245-294 | for every input: copied lines in order, each flushed m=video line with all identifiers allowed so far, its other lines, then its kept codec lines, then a=ssrc; an unflushed section is lost |
| SdpIdempotence.SecondPass | src/whip.cpp:245-294 | filtering written lines of standard shape, with any carriage returns attached, writes the rewritten sections again |
| SdpIdempotence.IdempotentIfStable | src/whip.cpp:245-294 | filtering the written lines again changes nothing if and only if each written section reads back as itself |
| SdpIdempotence.IdempotentExactly | src/whip.cpp:245-294 | for every input, given as its sections and the lines behind them: filtering twice is filtering once if and only if each section of the input gives a media line that is cut at the same place, or an ordinary line and no codec line |
| SdpIdempotence.FilterIsIdempotent | src/whip.cpp:245-294 | with standard media lines and any other lines, with many or unflushed sections, filtering twice is filtering once |
| SdpIdempotence.IdempotenceFails | src/whip.cpp:274-282 | three lines on which the second filtering drops a codec line |
| SdpTheorems.TextSecondPass | src/whip.cpp:245-294 | on texts the second pass adds one carriage return to each line but rewritten m=video lines |
| SdpTheorems.TextIdempotentUpToReturns | src/whip.cpp:245-294 | filtering a text twice gives the lines of filtering it once, up to carriage returns at their ends |
| SdpTheorems.WritesNothingExactly | src/whip.cpp:273-293 | nothing is written if and only if every copied line follows a media line and none is an a=ssrc line |
| SdpTheorems.RunAccounts | src/whip.cpp:273-293 | conservation: every copied line is in the output or still in its section, in order, and sections written never outnumber media lines read |
| SdpTheorems.WrittenNeverThrows | src/whip.cpp:251-252 | what the filter wrote never makes it throw |
| SdpTheorems.TextIdempotentExactly | src/whip.cpp:245-295 | for every text the filter does not throw on: the second filtering does not throw either, and equals the first if and only if nothing is written |
| SdpTheorems.TextIdempotenceFails | src/whip.cpp:293 | a one-line text whose second filtering differs |
| SdpTheorems.FilterIsSound | src/whip.cpp:250-284 | each section is written at an a=ssrc line, and every identifier on it and every codec line in it is justified by an rtpmap line with an allowed codec before that line, for rtcp-fb and fmtp lines also before the line itself |
| SdpTheorems.FilterIsMonotone | src/whip.cpp:250-288 | a larger allow-list turns kept codec lines and identifiers into supersequences and leaves all other output as it is |
| SdpText.MapLineIsRead | src/whip.cpp:250-254 | a line `a=rtpmap:` id, space, codec, slash announces that identifier and that codec |
| SdpText.MapLineWithoutSlash | src/whip.cpp:250-254 | without the slash the codec is the rest of the line, without the space as well it is the whole line |
| SdpText.AboutLineIsRead | src/whip.cpp:262-266 | a line `a=fmtp:` or `a=rtcp-fb:` id, space speaks about that identifier |
| SdpText.AboutLineWithoutSpace | src/whip.cpp:262-266 | without the space the identifier is all that follows the colon |
| SdpText.KindExactly | src/whip.cpp:246-273 | media, codec, a=ssrc and copied lines by the patterns they hold anywhere |
| SdpText.WrittenIsJustified | src/whip.cpp:250-284 | with standard media lines, every codec line written is justified by the input |
| SdpText.AboutLinesAreAllowed | src/whip.cpp:250-272 | an a=fmtp or a=rtcp-fb line that is written was in the input, behind an rtpmap line that gives its identifier to an allowed codec |
| SdpText.MapLinesAreAllowed | src/whip.cpp:250-260 | an rtpmap line that is written was in the input, and its codec is allowed |
| SdpText.WordsOfMedia | src/whip.cpp:278-281 | the last words of a written media line are the identifiers, in order |
| SdpText.FormatsAreAllowed | src/whip.cpp:273-281 | those identifiers were given to allowed codecs by rtpmap lines before the a=ssrc line |
| SdpText.TextMeetsSpecification | src/whip.cpp:245-295 | the text written for every text, line by line, without reference to the streams |
| SdpText.LinesExactly | src/whip.cpp:245 | the lines read are the text cut at its line feeds, and only the last may lack one |
| ObserverSlots.CompactKeepsContents | include/webrtc/base/observer_list.h:324-330 | compaction keeps the observers in order and leaves no mark |
| ObserverSlots.StepRefines | include/webrtc/base/observer_list.h:138-163 | every operation keeps the invariant (no mark without a live iterator, cursors in bounds, no duplicate) and acts on the observers as on a plain sequence |
| ObserverSlots.RunRefines | include/webrtc/base/observer_list.h:268-330 | over every run, in any interleaving with iterators, the observers are what a plain duplicate-free sequence would hold |
| ObserverSlots.OthersStay | include/webrtc/base/observer_list.h:138-141 | an iterator that goes away leaves the slots and the cursors of the others alone |
| ObserverSlots.WithoutIs | include/webrtc/base/observer_list.h:279-293 | taking an observer out of a plain sequence leaves what stood before and behind it, in order, and does nothing if it is not there |
| ObserverSlots.CopyContinues | include/webrtc/base/observer_list.h:143-163 | a copied or assigned iterator stands where the original does, and the original stays |
| ObserverPass.StepLeavesOthers | include/webrtc/base/observer_list.h:268-330 | no operation moves another live iterator, its policy limit or a slot under it |
| ObserverPass.RunLeavesOthers | include/webrtc/base/observer_list.h:268-330 | the same over every run |
| ObserverPass.PassFromHere | include/webrtc/base/observer_list.h:172-221 | from any settled iterator on: strictly increasing slots, and a slot is visited if and only if it holds an observer when it is reached |
| ObserverPass.PassVisitsExactly | include/webrtc/base/observer_list.h:125-221 | one whole pass under arbitrary re-entrant callbacks: which slots are visited, both directions, under both policies |
| ObserverPass.PassVisitsSurvivors | include/webrtc/base/observer_list.h:125-221 | everything that survives the pass is visited, additions included under ALL and never under EXISTING_ONLY |
| ObserverList.List.constructor | include/webrtc/base/observer_list.h:244-248 | an empty list |
| ObserverList.List.HasObserver | include/webrtc/base/observer_list.h:296-305 | true exactly for observers present and not marked |
| ObserverList.List.FindObserver | include/webrtc/base/observer_list.h:281-285 | the search loop finds the slot of an observer |
| ObserverList.List.AddObserver | include/webrtc/base/observer_list.h:268-275 | appends once; a second add of the same observer changes nothing |
| ObserverList.List.RemoveObserver | include/webrtc/base/observer_list.h:279-293 | erases or marks, depending on live iterators; either way exactly that observer is gone |
| ObserverList.List.Clear | include/webrtc/base/observer_list.h:308-316 | erases or marks every slot; no observer is left |
| ObserverList.List.CompactList | include/webrtc/base/observer_list.h:324-330 | the erasing loop equals compaction |
| ObserverList.List.BeginPass | include/webrtc/base/observer_list.h:237-240 | an unlinked iterator for an empty list, otherwise one that starts a pass |
| ObserverList.List.Destroy | include/webrtc/base/observer_list.h:250-260 | every live iterator is unlinked, the observers stay, and the list is compacted exactly when it checks for emptiness |
| ObserverList.Iter.Detached | include/webrtc/base/observer_list.h:123 | an iterator on no list |
| ObserverList.Iter.Link | include/webrtc/base/observer_list_internal.h:117-122 | linking appends to the live iterators and keeps the list valid |
| ObserverList.Iter.StartOn | include/webrtc/base/observer_list.h:125-136 | starts at the first slot with an observer, with the limit of the policy |
| ObserverList.Iter.CopyOf | include/webrtc/base/observer_list.h:143-147 | a copy is one more live iterator at the same place |
| ObserverList.Iter.EnsureValidIndex | include/webrtc/base/observer_list.h:208-215 | moves to the next slot with an observer, or to the end |
| ObserverList.Iter.IsEnd | include/webrtc/base/observer_list.h:217-221 | at the end exactly when unlinked or at its clamped limit |
| ObserverList.Iter.Increment | include/webrtc/base/observer_list.h:172-178 | one step of the pass |
| ObserverList.Iter.Release | include/webrtc/base/observer_list.h:138-141 | compacts when it is the only live iterator, then unlinks |
| ObserverList.Iter.AssignFrom | include/webrtc/base/observer_list.h:149-163 | assignment within a list, between lists and to itself |
| CallbackSpec.StepRefines | include/webrtc/base/callback_list.h:83-107 | every operation keeps the invariant (no null node without an active iterator, the counter counts the iterators, cursors on nodes) and acts as on a plain sequence |
| CallbackSpec.SignalsExactly | include/webrtc/base/callback_list.h:83-189 | the removal callback runs at exactly the operations that make the list shorter, once at each |
| CallbackSpec.DuplicateContinues | include/webrtc/base/callback_list.h:131-135 | a copied iterator finds next what the original would find |
| CallbackSpec.RunRefines | include/webrtc/base/callback_list.h:83-153 | the same over every run |
| CallbackSpec.RunLeavesOthers | include/webrtc/base/callback_list.h:123-158 | no run of other operations moves an active cursor or a node under it |
| CallbackSpec.NotifyRunsExactly | include/webrtc/base/callback_list.h:212-218 | a whole Notify under arbitrary re-entrant callbacks runs, once and in order, exactly the callbacks subscribed when reached among the nodes present when the cursor came to the end |
| CallbackSpec.NotifyOfNothing | include/webrtc/base/callback_list.h:143-153 | a Notify of an empty list runs nothing, whatever is added |
| CallbackList.List.constructor | include/webrtc/base/callback_list.h:160 | an empty list |
| CallbackList.List.Add | include/webrtc/base/callback_list.h:103-107 | appends one node |
| CallbackList.List.Locate | include/webrtc/base/callback_list.h:77-81 | the node a subscription stands for |
| CallbackList.List.Cancel | include/webrtc/base/callback_list.h:83-91 | resets the node under an active iterator, otherwise erases it and signals the removal |
| CallbackList.List.CompactList | include/webrtc/base/callback_list.h:175-189 | the erasing loop equals compaction, and signals exactly when something was erased |
| CallbackList.Iterator.constructor | include/webrtc/base/callback_list.h:125-129 | a cursor at the first node, counted as active |
| CallbackList.Iterator.CopyOf | include/webrtc/base/callback_list.h:131-135 | a copy is one more active iterator at the same node |
| CallbackList.Iterator.Next | include/webrtc/base/callback_list.h:143-153 | skips reset nodes, returns the next callback and moves behind it; an end position stays the end |
| CallbackList.Iterator.Release | include/webrtc/base/callback_list.h:137-141 | the last active iterator compacts |
| ThreadSafeNotify.StepTracks | include/webrtc/base/observer_list_threadsafe.h:101-215 | every step of every sequence keeps the account of an observer: delivered, checked and queued notifications are those owed, in order |
| ThreadSafeNotify.RunTracks | include/webrtc/base/observer_list_threadsafe.h:101-215 | the same over every interleaving |
| ThreadSafeNotify.OwedIsARange | include/webrtc/base/observer_list_threadsafe.h:157-169 | what is owed is the catch-up notification and an unbroken range of the Notify history, up to the removal |
| ThreadSafeNotify.DeliveriesAreInOrder | include/webrtc/base/observer_list_threadsafe.h:157-215 | deliveries are a prefix of what is owed, on the observer's own sequence; without removal nothing is lost |
| ThreadSafeNotify.OwedHasNoDuplicates | include/webrtc/base/observer_list_threadsafe.h:115-131 | what is owed is strictly increasing, the catch-up included |
| ThreadSafeNotify.SilentAfterRemoval | include/webrtc/base/observer_list_threadsafe.h:134-142 | once removed with no check passed, no delivery starts until the observer is registered again |
| ThreadSafeNotify.RemovedOnItsSequence | include/webrtc/base/observer_list_threadsafe.h:134-142 | a removal on the own sequence stops every delivery until the observer is registered again |
| ThreadSafeNotify.RemovedElsewhere | include/webrtc/base/observer_list_threadsafe.h:186-210 | a removal on another sequence lets at most the one checked notification through, until the observer is registered again |
| ThreadSafeNotify.UnknownStays | include/webrtc/base/observer_list_threadsafe.h:101-215 | nothing happens to an observer before it is added |
| ThreadSafeNotify.WholeRun | include/webrtc/base/observer_list_threadsafe.h:101-215 | from the empty list, for an observer added once: deliveries strictly increasing, a prefix of the history, on its sequence, and all of it when never removed and its queue is drained |
| ThreadSafeNotify.WholeRunWithRemoval | include/webrtc/base/observer_list_threadsafe.h:134-142 | from the empty list, over every interleaving up to the next registration: after removal on the own sequence nothing is delivered, after removal elsewhere at most the one checked notification |
| ThreadSafeReturn.QuietReturn | include/webrtc/base/observer_list_threadsafe.h:101-142 | with nothing left over, a new registration gets its own notifications, in order, on its sequence, and all of them when never removed and drained |
| ThreadSafeReturn.Drain | include/webrtc/base/observer_list_threadsafe.h:186-210 | running what waits on a sequence delivers all that waits there for a registered observer |
| ThreadSafeReturn.ReturnExactly | include/webrtc/base/observer_list_threadsafe.h:134-142 | a registration gets its own notifications and no others, whatever happens until the next one, if and only if none is queued or past its check when it is made |
| ThreadSafeReturn.EveryRegistration | include/webrtc/base/observer_list_threadsafe.h:134-142 | the same for every registration of every run from the empty list, repeated ones included |
| ThreadSafeReturn.AbortedIsDelivered | include/webrtc/base/observer_list_threadsafe.h:134-142 | a run in which a notification queued at the removal is delivered after all |
| ThreadSafePolicy.CallbacksNest | include/webrtc/base/observer_list_threadsafe.h:198-215 | when the callbacks that began on a sequence have returned, the sequence is inside the same callbacks as before, nested dispatching included |
| ThreadSafePolicy.InnermostIsCaughtUp | include/webrtc/base/observer_list_threadsafe.h:115-131 | from the empty list under ALL: an observer registered inside a callback, whatever began and returned there since, gets the notification of that callback first and then all later ones |
| ThreadSafePolicy.OnlyLaterOnes | include/webrtc/base/observer_list_threadsafe.h:115-131 | under EXISTING_ONLY, and under ALL when every callback on the sequence has returned, it gets exactly the notifications issued from its registration on |
| ThreadSafeList.List.constructor | include/webrtc/base/observer_list_threadsafe.h:96-98 | the initial state |
| ThreadSafeList.List.Add | include/webrtc/base/observer_list_threadsafe.h:101-132 | registers on the current sequence and posts the notification being dispatched there under ALL; does nothing without a task runner; which notification that is, told from the run, is `ThreadSafePolicy.InnermostIsCaughtUp` and `ThreadSafePolicy.OnlyLaterOnes` |
| ThreadSafeList.List.Remove | include/webrtc/base/observer_list_threadsafe.h:139-142 | erases the observer |
| ThreadSafeList.List.NotifyAll | include/webrtc/base/observer_list_threadsafe.h:157-169 | the loop posts one task per observer to its sequence |
| ThreadSafeList.List.CheckNext | include/webrtc/base/observer_list_threadsafe.h:186-196 | the first task of a queue is dropped unless its observer is registered |
| ThreadSafeList.List.BeginCallback | include/webrtc/base/observer_list_threadsafe.h:204-210 | the checked notification becomes the current one and is delivered |
| ThreadSafeList.List.FinishCallback | include/webrtc/base/observer_list_threadsafe.h:212-215 | the previous notification is current again |
| LazyPointer.StepKeepsInv | include/webrtc/base/lazy_instance_helpers.h:58-95 | at most one thread holds the creating state, every place agrees with the word, and the word only moves 0 to creating to pointer (or back to 0 for a null creator) |
| LazyPointer.RunKeepsInv | include/webrtc/base/lazy_instance_helpers.h:58-95 | over every interleaving of any number of threads; a stored instance stays and nothing is created after it |
| LazyPointer.InstanceEndsCreation | include/webrtc/base/lazy_instance_helpers.h:66-78 | once an instance is stored, no step changes the word or calls the creator |
| LazyPointer.CreatedAtMostOnce | include/webrtc/base/lazy_instance_helpers.h:58-95 | with a creator that never returns null it runs at most once, and every thread that returns gets that one pointer |
| RefCounts.StepConserves | include/webrtc/api/scoped_refptr.h:76-156 | every operation keeps count = handles + references handed out, uses no deleted object, deletes exactly on the step that takes the last reference, and leaves a new object alive |
| RefCounts.RunConserves | include/webrtc/api/scoped_refptr.h:76-156 | over every run of enabled operations: the account, no use of a deleted object, and what is deleted stays deleted |
| RefCounts.DeadExactly | include/webrtc/api/ref_counted_base.h:23-36 | over every run: an object is deleted in it if and only if it was referenced at some moment and is not at the end |
| RefCounts.WholeLife | include/webrtc/api/scoped_refptr.h:76-156 | from nothing, over every run: each live object's count is its handles and references handed out, and exactly the objects once referenced and no longer are deleted |
| RefCounts.StepIsPlain | include/webrtc/api/scoped_refptr.h:76-156 | every operation leaves the handles where plain pointers would be, and what is owed is what was handed out and not given back |
| RefCounts.RunIsPlain | include/webrtc/api/scoped_refptr.h:76-156 | over every run the handles point where plain pointers would |
| RefCounts.NothingLeaks | include/webrtc/api/ref_counted_base.h:23-36 | an object once referenced that has no reference at the end of a run was deleted |
| RefCounts.ReferencedIsAlive | include/webrtc/api/ref_counted_base.h:23-36 | an object with a reference is not deleted |
| RefCounts.MoveConserves | include/webrtc/api/scoped_refptr.h:95-98 | a move changes no total and deletes nothing |
| RefCounts.SwapConserves | include/webrtc/api/scoped_refptr.h:150-156 | a swap changes no total and deletes nothing, also with itself |
| RefCounts.SelfAssign | include/webrtc/api/scoped_refptr.h:120-132 | assigning a handle its own pointer changes nothing and deletes nothing |
| RefCounts.AssignMoveConserves | include/webrtc/api/scoped_refptr.h:139-142 | move assignment through a temporary empties the source and conserves; moving to itself changes nothing |
| ScopedRefptr.Counted.IncRef | include/webrtc/api/ref_counted_base.h:23 | one more reference |
| ScopedRefptr.Counted.DecRef | include/webrtc/api/ref_counted_base.h:24-30 | one reference less; deleted exactly when none is left |
| ScopedRefptr.World.constructor | include/webrtc/api/ref_counted_base.h:19-36 | before anything is constructed the account holds |
| ScopedRefptr.World.Create | include/webrtc/api/ref_counted_base.h:21 | a new object starts without references and keeps the account |
| ScopedRefptr.World.GiveBackReference | include/webrtc/api/ref_counted_base.h:24-30 | the owner of a reference handed out releases it, on an object that is alive |
| ScopedRefptr.Handle.constructor | include/webrtc/api/scoped_refptr.h:78-92 | construction from a pointer, null included |
| ScopedRefptr.Handle.Destruct | include/webrtc/api/scoped_refptr.h:100-103 | the destructor gives up the reference of a live object |
| ScopedRefptr.Handle.ReleasePointer | include/webrtc/api/scoped_refptr.h:114-118 | the reference moves to the caller |
| ScopedRefptr.Handle.Exchange | include/webrtc/api/scoped_refptr.h:121-125 | the new pointer is counted before the old one is released |
| ScopedRefptr.Handle.AssignRaw | include/webrtc/api/scoped_refptr.h:120-128 | assignment from a pointer, also its own |
| ScopedRefptr.Handle.AssignCopy | include/webrtc/api/scoped_refptr.h:130-137 | assignment from a handle, also itself |
| ScopedRefptr.Handle.SwapWith | include/webrtc/api/scoped_refptr.h:150-156 | the two handles exchange pointers, also with itself |
| ScopedRefptr.Handle.Moved | include/webrtc/api/scoped_refptr.h:95-98 | the move constructor |
| ScopedRefptr.Handle.AssignMoved | include/webrtc/api/scoped_refptr.h:139-148 | move, swap and destruction of the temporary, also from itself |
| BigEndian.Read | include/webrtc/base/big_endian.h:21-29 | the loop with its signed first byte reads the unsigned value of the bytes, at every width |
| BigEndian.Write | include/webrtc/base/big_endian.h:33-39 | the loop writes the digits and nothing behind them |
| BigEndian.FirstWeighsMost | include/webrtc/base/big_endian.h:21-39 | the first byte counts 256^n for n bytes behind it |
| BigEndian.WriteThenRead | include/webrtc/base/big_endian.h:21-39 | writing then reading gives the value back |
| BigEndian.ReadUndoesWrite | include/webrtc/base/big_endian.h:21-39 | the digits of every value that fits n bytes denote it |
| BigEndian.WriteUndoesRead | include/webrtc/base/big_endian.h:21-39 | the digits of what n bytes denote are those bytes |
| BigEndian.SignVanishes | include/webrtc/base/big_endian.h:23-28 | the sign extension of the first byte is shifted out modulo 256^n |

## Left out

- Sockets, name resolution, timeouts and the Winsock error table: foreign calls; `recv` is a parameter and `send` is not modelled.
- `response.body.reserve` throwing on a huge Content-Length: memory is unbounded in the model.
- The rest of `src/whip.cpp`, `src/v4l.cpp`, the Jetson encoder and `src/main.cpp`: device and peer-connection plumbing over code that is not in the repository, and start-up code with a small argument loop.
- `CheckedObserverAdapter`, sequence checkers and debug checks: the unchecked adapter is modelled, and what a debug check demands of callers is a precondition or a refused step.
- What a pass does after its `ObserverList` was destroyed: `ObserverList.List.Destroy` leaves its iterators at their end, and passes are stated for a list that lives.
- `Iter` comparison operators and post-increment: they read positions and combine the copy and the increment that are modelled.
- The removal callback of a `CallbackList` is a counter of signals; what it does when run is not modelled.
- Thread-local notifications of other lists in `ObserverListThreadSafe`: one list is modelled.
- Weak memory orderings: steps of the concurrent protocols are sequentially consistent.
- The bodies of `NeedsLazyInstance` and `CompleteLazyInstance`, and the registration of destructors at exit: they are not in the repository.
- `GetOrCreateLazyPointer` is modelled as steps of a state machine on values, so its update of the state word in place is a new state.
- `swap(T**)` on raw pointers outside a handle, and objects that own handles themselves: destruction is one step and releases nothing else.
- Signed integers in big-endian form, and the one-byte specialisations: unsigned integers of every width are modelled.
- `bits.h`, the bind and callback macros and the interface-only headers: fixed-width facts, template mechanics or declarations without bodies.
- SdpTheorems.TextIdempotentUpToReturns: stated for lines of standard shape, because a media line may lose its `m=video` when it is cut and a codec name without its slash takes in the carriage return; equality of texts and of lines has its exact condition in `SdpTheorems.TextIdempotentExactly` and `SdpIdempotence.IdempotentExactly`.
- RequestFraming.RequestReadsBack: stated for a method and a target without carriage returns; `RequestFraming.FramedExactly` gives the framing for all.
- RequestFraming.ServerIsTold: stated for a method and a target that can be told apart in the request line; `RequestFraming.LineReadsBack`, `RequestFraming.TargetReadsBack` and `RequestFraming.FramedExactly` give the exact condition for each part.
- SdpText.AboutLinesAreAllowed: stated for media and rtpmap lines of standard form, because a written media line may otherwise look like a codec line and a misplaced separator gives another identifier; `SdpTheorems.FilterIsSound` holds for all lines.
