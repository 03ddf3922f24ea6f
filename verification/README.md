# Verified models of the OPeNDAP service's HTTP framing, caches and text transformations

This project models, in Dafny 4.11, the parts of the repository whose correctness is hardest to see
from reading one function: the incremental parsers and the concurrency of `cpp-httplib`, the three
caches of `bes_utils`, and the text transformations that come in pairs. `dafny verify dfyconfig.toml`
checks everything.

Each algorithm appears twice: as a specification on values (functions), about which the properties
are proved as lemmas, and, where the program works by changing things step by step, as a method or a
class with the program's own loops and fields, proved to compute that specification. The concurrent
protocols are state machines: a run is any sequence of atomic steps of any number of processes or
threads, and the theorems hold in every state of every run.

## What is modelled

- **Multipart form data.** `Multipart` has the five-state parser and the serializer, `MultipartParser`
  the class with the sliding buffer, `MultipartLayout` the round trip under any chunking for parts with any
  header lines, `MultipartProof` the one for the lines that the serializer prints, `MultipartLost` the
  runs that miss the opening line, `MultipartHeaders` and `MultipartNames` the printed header lines,
  `MultipartFields` all other header fields, `MultipartRefusals` the ways in which a parse fails.
- **Chunked transfer coding** (section 7.1 of RFC 9112). `Chunked` and `ChunkedIO`: the writer and its
  sink, the reader, the line reader with its fixed buffer, and streams that read and write less than
  asked for; `ChunkedRuns` is about where a run of the writer ends, `ChunkedForms` and `ChunkedSizes` about
  the messages of other senders, and the ones that are refused.
- **Thread pool and client socket.** `ThreadPool` and `ClientSocket`, as atomic steps between lock
  acquisitions.
- **Byte ranges** (sections 14.1.2 and 14.2 of RFC 9110), **Base 64** (section 4 of RFC 4648), the
  **query codec**, **header fields** and **route patterns**: `Ranges`, `RangesReader`, `Base64`, `Base64Table`,
  `UrlCodec`, `QueryCodec`, `QueryForms`, `QueryOrder`, `QueryPrograms`, `Fields`, `FieldForms`, `Routes`.
- **Caches.** `FileCache*` is the multi-process file cache. A step is a system call, or a read or
  write of the recorded size; calls between which no other process can tell a difference (creating or
  opening a file and locking it; removing a file in a purge, noting its size and closing it) are one.
  A run (`IsRun`) has any number of puts, gets, deletions and purges; `clear` is in `FileCacheClear`
  (`Clears`), and the end of every operation in `FileCacheProgress`. What a whole operation does, from taking
  the cache lock to giving it back, is in `FileCacheOperations` (`del`, `get`), `FileCachePuts` and
  `FileCachePurgeRuns`. `ObjMemCache*` is the LRU cache with two maps; `MemoryCache` the FIFO cache.
- **Text.** `Explode`, `XmlEscape` with a reader of XML text (`XmlReader`), and `XmlBase`.

## Where code and documentation part

The model follows the code. Where a promise is false of it, there is an input that shows it and a
theorem that says exactly when it holds.

- A chunk that ends inside the opening multipart delimiter line makes the parser lose parts
  (`DeliversAllIffOpeningWhole`, `CutOpeningLosesParts`). Names with a separator, and illegal ones, do not
  come back from the header lines (`HeaderLinesIff`, `SemicolonLost`). The length limit of header lines is
  applied only to the line that begins the buffer when a chunk arrives (`LongHeaderRefused`,
  `LaterLineNotMeasured`), and behind a delimiter that neither a line end nor two dashes follow the parser
  accepts everything and comes to no end (`StuckForEver`).
- `FileCache::clear` does not rewrite the recorded size, although its comment says so. The size stays
  right exactly when it was zero and no PutItem was open (`ClearConservesIff`, `ClearUnderPutItem`).
  Nor does it ask for the locks of the files: it unlinks all of them, also those that others have locked
  (`ClearRemovesAll`, `ClearUnderPutItem`). `FileCacheSteps.ReachableInv`, `RecordedSizeIsConserved`,
  `UpdatesNeverWrap`, `RemovalRespectsLocks` and `PurgeIsLeastRecentlyUsed` are therefore about runs
  without `clear`.
- A `get` or `del` that is ready to wait for a file whose PutItem is open never ends, and keeps the cache
  lock, because the destructor of the PutItem needs that lock too (`PutItemBlocksForEver`,
  `GetUnderPutItem`). Nothing else stops an operation inside the cache lock for good (`CanStepIff`).
- `FileCache::purge` has no special case for a maximum of 0, although a comment calls that unlimited: it
  returns at once exactly when the recorded size is below the maximum (`PurgeReturnsAtOnceIff`,
  `ZeroMaximumPurges`).
- `ObjMemCache::add` of a key that is still cached makes the two maps inconsistent, and the number of
  entries can exceed the threshold by more than one (`Add`, `AddTwice`, `SizeBoundIsReached`). Destroying an entry
  destroys its object, whatever the comments in the .cc file say.
- `MemoryCache` with `purge_items` above `max_items` can forget the key it has just put (`JustPut`,
  `JustPutForgotten`), and
  exactly above `max_items + 1` some run looks at the front of an empty queue (`PutFailsIff`,
  `SomeRunFailsIff`).
- A suffix range longer than the content is refused, where the standard selects all of it
  (`NormalizationIff`, `LongSuffixRefused`).
- `explode` gives two empty values for the empty string (`ExplodeThenImplode`).
- `xml2id` does not invert `id2xml` on texts that already contain some entities (`XmlEscape.RoundTripIff`).
- `insert_xml_base` drops the tag exactly when the buffer holds neither its end nor a literal that the
  scan sees; the scan does not see one that starts inside a failed match, as in `xxml:base`
  (`TagLostIff`, `NowhereIff`, `HiddenLiteralLosesTag`). A tag that ends in a bare `xml:base` breaks the last-value-wins law
  (`LastWinsIff`, `BareTagKeepsFirst`).
- A request that begins after a `stop`, as a redirect followed inside another request does, makes the
  client forget it: a connection that the request would keep is closed exactly when none has begun
  (`ScopeExitKeepsIff`, `NestedRequestForgetsStop`).
- A chunked message is read back whole exactly when the content provider ends it and writes no data
  afterwards; a write of no bytes stops the provider's calls before it does (`ChunkedIO.RoundTripIff`,
  `EmptyWriteTruncates`).
- `strncmp` ends at a NUL, so that a route whose pattern has a NUL inside a fragment accepts other paths
  (`NulAcceptsMoreIff`).

Characters stand for the bytes of a C++ `char`. Widths are written out where they matter: the wrap of
`unsigned long long` sizes, the saturation of `strtoul`, the 32-bit accumulator, the truncated age.

## Model

| member | source | states |
|---|---|---|
| Fields.FieldRoundTrip | external/cpp-httplib/httplib.h:4288-4327 | a printed header field is parsed back unchanged if and only if its name is a token, its value is a legal field value, and percent-decoding leaves the value alone or the name is one that is never decoded |
| Fields.TokenCharIff | external/cpp-httplib/httplib.h:4288-4327 | a token may have exactly the visible characters that are no delimiters of section 5.6.2 of RFC 9110 |
| Fields.FieldVcharIff | external/cpp-httplib/httplib.h:4288-4327 | a field value may have every character but controls, and blanks only inside |
| Fields.FieldValueIff | external/cpp-httplib/httplib.h:4288-4327 | the three cases of the check accept exactly the trimmed texts of such characters |
| FieldForms.SpaceAroundValue | external/cpp-httplib/httplib.h:4288-4327 | the optional white space of section 5 of RFC 9112 around a value, or its absence, makes no difference |
| FieldForms.NamelessLineRefused | external/cpp-httplib/httplib.h:4288-4302 | a line without a colon or without a name is refused |
| QueryForms.EncodedFieldRead | external/cpp-httplib/httplib.h:4288-4327 | an encoded value of any bytes is handed out decoded, but for the fields Location and Referer, in any case of their names |
| UrlCodec.DecodeIdentity | external/cpp-httplib/httplib.h:2924-2959 | decoding leaves a text alone if and only if no position starts an escape and, in queries, it has no plus sign |
| QueryForms.UnicodeEscapeRead | external/cpp-httplib/httplib.h:2924-2959 | an escape of four hexadecimal digits becomes the bytes of its character |
| QueryForms.Utf8Decodes | external/cpp-httplib/httplib.h:2752-2784 | the bytes emitted for a code are those that section 3 of RFC 3629 has for it, in the shortest form, and none for what is no character |
| QueryForms.LowerCaseDigits | external/cpp-httplib/httplib.h:2711-2723 | hexadecimal digits mean the same in any case |
| QueryForms.PlusRead | external/cpp-httplib/httplib.h:2924-2959 | a plus sign is a space in queries, and only there |
| QueryCodec.DecodeEncoded | external/cpp-httplib/httplib.h:2871-2890 | decoding an encoded value gives it back for every byte string and both treatments of plus |
| QueryForms.EncodedSameIff | external/cpp-httplib/httplib.h:2871-2890 | encoding leaves a text alone if and only if it has only letters, digits and the marks of section 2.3 of RFC 2396 |
| QueryCodec.ParseInvertsQuery | external/cpp-httplib/httplib.h:4850-4883 | parsing the query text of a multimap of distinct parameters with plain keys gives the multimap back, in its order, through trimming, splitting and the removal of duplicates |
| QueryCodec.SingleParamIff | external/cpp-httplib/httplib.h:4862-4883 | one parameter comes back if and only if its key is not empty, starts with no blank, has no ampersand, equals sign, plus or escape |
| QueryCodec.UnreservedPlain | external/cpp-httplib/httplib.h:2871-2890 | non-empty keys of unreserved characters satisfy that condition |
| QueryForms.BareKeysAreRead | external/cpp-httplib/httplib.h:4862-4883 | the multimap comes back too if any of its parameters without a value are written without the equals sign |
| QueryForms.KeylessDropped | external/cpp-httplib/httplib.h:4862-4883 | a piece that begins with an equals sign gives nothing |
| QueryForms.RepetitionIgnored | external/cpp-httplib/httplib.h:4862-4883 | any query text, repeated, gives the same parameters once |
| QueryOrder.AnyOrderIsRead | external/cpp-httplib/httplib.h:4862-4883 | distinct parameters with plain keys, written in any order, come back in the order of their keys, each key's values in the order written |
| QueryPrograms.EncodeQueryParam | external/cpp-httplib/httplib.h:2871-2890 | the loop computes the encoding |
| QueryPrograms.FromHexToI | external/cpp-httplib/httplib.h:2725-2740 | the digit loop gives the value of exactly that many hexadecimal digits, or fails if one is missing |
| QueryPrograms.Decode | external/cpp-httplib/httplib.h:2924-2959 | the index loop computes the decoding, with its two escape forms |
| QueryPrograms.TrimRange | external/cpp-httplib/httplib.h:2970-2979 | both loops stop at a character that is not blank, even when that lies outside the piece |
| QueryPrograms.TrimPiece | external/cpp-httplib/httplib.h:3024-3030 | what is handed to the callback is the trimmed piece, and nothing for a blank one |
| QueryPrograms.Split | external/cpp-httplib/httplib.h:3019-3039 | the scanning loop hands out exactly the trimmed non-empty pieces between separators, in order |
| QueryPrograms.ReadPair | external/cpp-httplib/httplib.h:4869-4880 | dividing at the first equals sign and decoding both sides; a piece without a key is dropped |
| QueryPrograms.ParseQueryText | external/cpp-httplib/httplib.h:4862-4883 | the loop over pieces computes the parsed multimap, skipping pieces seen before |
| QueryPrograms.ParamsToQueryStr | external/cpp-httplib/httplib.h:4850-4860 | the loop over the multimap prints the query text |
| MultipartProof.SerializeShape | external/cpp-httplib/httplib.h:5257-5300 | the serialized form is the opening delimiter line followed by the parts and the closing delimiter, in the shape the parser reads |
| MultipartLayout.HeaderStep | external/cpp-httplib/httplib.h:5007-5076 | whatever prefix of the header lines has arrived, the header state consumes complete lines only and keeps its place |
| MultipartLayout.BodyEnds | external/cpp-httplib/httplib.h:5078-5100 | with the delimiter in the buffer the content in front of it completes the part |
| MultipartLayout.BodyGoesOn | external/cpp-httplib/httplib.h:5078-5100 | without the delimiter everything but a possible start of one is handed out, and nothing that belongs to a delimiter |
| MultipartLayout.Advance | external/cpp-httplib/httplib.h:4992-5122 | one call of `parse` on one more chunk keeps the place in the text, from any of the five states |
| MultipartLayout.ParseInvertsWith | external/cpp-httplib/httplib.h:4987-5122 | for every chunking that does not cut the opening delimiter line, and whatever header lines each part has, as long as the header reader makes its description of them, all chunks are accepted, the parser ends valid, and exactly the parts are delivered |
| MultipartProof.ParseInvertsSerialize | external/cpp-httplib/httplib.h:4987-5122 | for every chunking that does not cut the opening delimiter line, all chunks are accepted, the parser ends valid, and the delivered parts are the serialized ones |
| MultipartLost.DrainTurns | external/cpp-httplib/httplib.h:5003-5117 | what every single turn of the parser's states keeps, a whole call keeps, and between calls at most a delimiter's length of content is held back |
| MultipartLost.MapOfText | external/cpp-httplib/httplib.h:5257-5300 | where in the serialized text each content lies: a delimiter follows it, and none begins between there and the next content |
| MultipartLost.LateTurn | external/cpp-httplib/httplib.h:5003-5117 | a parser that reads a part from behind its place stays behind at every turn, or has delivered what can no longer become the parts |
| MultipartLost.DeliversAllIffOpeningWhole | external/cpp-httplib/httplib.h:4994-5001 | for any parts the format carries, whatever their contents look like, and any chunking, all the parts are delivered if and only if the opening delimiter line is not cut |
| MultipartLost.CutOpeningLosesParts | external/cpp-httplib/httplib.h:4994-5001 | every form that is cut behind its first byte loses parts |
| MultipartProof.DeliversSuffix | external/cpp-httplib/httplib.h:4994-5001 | under any chunking every chunk is accepted and a suffix of the parts is delivered, without the first one if and only if the opening delimiter line is cut |
| MultipartHeaders.ParametersRead | external/cpp-httplib/httplib.h:4900-4923 | the parameters of a Content-Disposition line are read back as name and file name |
| MultipartNames.DispositionIff | external/cpp-httplib/httplib.h:4900-4923 | the parameters of a disposition line are read back as name and file name if and only if neither has a semicolon or an equals sign |
| MultipartNames.HeaderLinesIff | external/cpp-httplib/httplib.h:5019-5070 | the header lines of a part are read back as its description if and only if its name and file name are legal in a header field and have no separator, and its content type is a legal field value |
| MultipartFields.OtherFieldIgnored | external/cpp-httplib/httplib.h:5022-5073 | a legal header field, of any name but Content-Type, and but a Content-Disposition of form data, in any case, leaves the description as it is, and parsing goes on |
| MultipartFields.IllegalRefused | external/cpp-httplib/httplib.h:5022-5028 | a line that is no legal header field ends the parse |
| MultipartFields.TypeFieldRead | external/cpp-httplib/httplib.h:5030-5034 | the content type is the value of its field, in any case of the name |
| MultipartFields.DispositionFieldRead | external/cpp-httplib/httplib.h:5035-5043 | a disposition of form data, in any case of its labels, is read for its parameters |
| MultipartFields.OtherFieldsChangeNothing | external/cpp-httplib/httplib.h:5007-5076 | such fields, put anywhere among the ones that describe the parts, change nothing: under any chunking that does not cut the opening delimiter line exactly the parts are delivered |
| MultipartFields.ExtendedNameRead | external/cpp-httplib/httplib.h:5056-5069 | an extended file name in UTF-8, in any case of that label, is decoded, and any other ends the parse |
| MultipartFields.ExtendedNameRoundTrip | external/cpp-httplib/httplib.h:5056-5069 | a file name of any bytes, sent in extended form, comes back |
| MultipartFields.NamelessRefused | external/cpp-httplib/httplib.h:5045-5051 | a disposition of form data without a name ends the parse |
| MultipartFields.WhichParamCounts | external/cpp-httplib/httplib.h:5045-5064 | of several parameters of a name the first counts, and an extended file name counts more than a plain one, wherever it stands |
| MultipartFields.RepeatedPieceIgnored | external/cpp-httplib/httplib.h:4900-4906 | a parameter text that has been seen makes no difference |
| MultipartFields.LastSideCounts | external/cpp-httplib/httplib.h:4908-4919 | of several equals signs in a parameter, what follows the last one is its value |
| MultipartFields.OneQuoteStays | external/cpp-httplib/httplib.h:2986-2991 | a quote at one end only belongs to the value |
| MultipartRefusals.RefusalEndsParse | external/cpp-httplib/httplib.h:5007-5100 | whatever is fed: every callback but the last was answered with yes, and if the last one was refused the parse has failed and is not valid |
| MultipartRefusals.LongHeaderRefused | external/cpp-httplib/httplib.h:5007-5009 | a header line that begins the buffer and does not end within the limit ends the parse |
| MultipartRefusals.LaterLineNotMeasured | external/cpp-httplib/httplib.h:5007-5074 | a header line that has come together with the one in front of it is read however long it is |
| MultipartRefusals.StuckForEver | external/cpp-httplib/httplib.h:5101-5117 | behind a delimiter that neither a line end nor two dashes follow, every chunk is accepted without a callback and without an end |
| MultipartNames.SemicolonLost | external/cpp-httplib/httplib.h:4900-4923 | a name with a semicolon comes back as another name |
| MultipartNames.WellFormedIff | external/cpp-httplib/httplib.h:5019-5070 | the conditions on a part that a caller can check are necessary and sufficient for the ones the parser's round trip needs of the real header reader |
| MultipartHeaders.FormDataRoundTrip | external/cpp-httplib/httplib.h:4987-5300 | the round trip with the real header reader, for a valid boundary and parts a caller can check |
| MultipartParser.MultipartFormDataParser.StartWith | external/cpp-httplib/httplib.h:5153-5160 | the comparison loop decides whether the live bytes from a position start with the text |
| MultipartParser.MultipartFormDataParser.BufFind | external/cpp-httplib/httplib.h:5172-5193 | the two nested loops find the leftmost occurrence in the live bytes, or give the size of the buffer |
| MultipartParser.MultipartFormDataParser.BufAppend | external/cpp-httplib/httplib.h:5195-5211 | sliding in place, growing and copying append the chunk to the live bytes |
| MultipartParser.MultipartFormDataParser.BufErase | external/cpp-httplib/httplib.h:5213 | erasing drops the first live bytes |
| MultipartParser.MultipartFormDataParser.InitialBoundary | external/cpp-httplib/httplib.h:4994-5001 | state 0 computes one turn of the specification, including what it erases |
| MultipartParser.MultipartFormDataParser.ParseHeaders | external/cpp-httplib/httplib.h:5007-5076 | the header loop computes the specification of complete lines |
| MultipartParser.MultipartFormDataParser.Body | external/cpp-httplib/httplib.h:5078-5100 | state 3 computes one turn of the specification |
| MultipartParser.MultipartFormDataParser.Boundary | external/cpp-httplib/httplib.h:5101-5117 | state 4 computes one turn of the specification: next part, end, or wait |
| MultipartParser.MultipartFormDataParser.Parse | external/cpp-httplib/httplib.h:4987-5122 | the class over its sliding buffer computes the specified outcome for every chunk, and terminates |
| Chunked.HexRoundTrip | external/cpp-httplib/httplib.h:2742-2750 | a printed chunk length is read back by `strtoul`, which saturates above the largest value |
| Chunked.ScanWholeLine | external/cpp-httplib/httplib.h:3067-3105 | a line without an inner CRLF is read as it is |
| Chunked.ReadInvertsWrite | external/cpp-httplib/httplib.h:4422-4486 | the reader delivers the concatenated data and the trailer fields of any chunked text and leaves the bytes behind it |
| Chunked.ChunkedRoundTrip | external/cpp-httplib/httplib.h:4716-4812 | the round trip with the real trailer reader: token names, trimmed values that decoding leaves alone |
| Chunked.UnfinishedMessage | external/cpp-httplib/httplib.h:4430-4452 | chunks without the end of the message are delivered, and then the reader fails |
| ChunkedForms.AnySenderRead | external/cpp-httplib/httplib.h:4422-4486 | size lines with digits in any case, zeros in front and extensions behind are read as their sizes: the message of any sender is delivered whole, with its trailer |
| ChunkedForms.NoFinalLine | external/cpp-httplib/httplib.h:4446-4463 | the empty line at the end may be missing |
| ChunkedForms.NoSizeRefused | external/cpp-httplib/httplib.h:4422-4438 | where there is no size, what has come is delivered and reading fails |
| ChunkedForms.LargestRefused | external/cpp-httplib/httplib.h:4422-4438 | so with the largest length |
| ChunkedForms.CutChunkRefused | external/cpp-httplib/httplib.h:4440-4442 | the beginning of a chunk that is cut off is delivered, and reading fails |
| ChunkedForms.WrongSizeRefused | external/cpp-httplib/httplib.h:4444-4450 | reading fails if the data does not end where its size says |
| ChunkedForms.IllegalLineSkipped | external/cpp-httplib/httplib.h:4465-4483 | a trailer line that is no legal field is passed over |
| ChunkedForms.LongLineRefused | external/cpp-httplib/httplib.h:4465-4466 | one that is too long ends the reading |
| ChunkedForms.CutTrailerRefused | external/cpp-httplib/httplib.h:4465-4483 | and so does a trailer that breaks off |
| ChunkedForms.LastLine | external/cpp-httplib/httplib.h:3067-3105 | the line that a stream ends in is read as it is, and one that it breaks in is lost |
| ChunkedForms.LongLineGivenUp | external/cpp-httplib/httplib.h:3067-3105 | a line that does not end within the limit is given up there |
| ChunkedSizes.PrintedSize | external/cpp-httplib/httplib.h:2742-2750 | a length is printed with lower-case digits and without zeros in front |
| ChunkedSizes.AnySizeRead | external/cpp-httplib/httplib.h:4433-4439 | the size is read behind white space, a sign and a prefix; it saturates, and with a minus sign it is taken from 2^64 |
| ChunkedIO.CompleteRunRoundTrip | external/cpp-httplib/httplib.h:4716-4812 | from the calls of the content provider to the bytes delivered: a complete run of non-empty writes is read back, with its trailer |
| ChunkedIO.RoundTripIff | external/cpp-httplib/httplib.h:4716-4812 | whatever the content provider does, what was written before the first end of the message is delivered, and that is all if and only if no data was written after it; with a first trailer that a header field can carry, the reader succeeds if and only if the provider ended the message |
| ChunkedIO.OpsReadBack | external/cpp-httplib/httplib.h:4422-4486 | the same for any sequence of operations on the sink and any trailer; if the first trailer can be carried, its fields are delivered and the bytes behind the message left unread |
| ChunkedIO.EmptyWriteTruncates | external/cpp-httplib/httplib.h:4724-4746 | an empty write ends the run as a success without the end of the message, so that the reader fails behind the data |
| ChunkedRuns.ShutdownEndsRun | external/cpp-httplib/httplib.h:4797-4811 | a shutdown ends the run as a success, before the next call of the content provider |
| ChunkedRuns.LastCallDecides | external/cpp-httplib/httplib.h:4797-4811 | a call that fails, or leaves no data available, is the last one; what it wrote is sent, and the run succeeds if and only if the call did |
| ChunkedRuns.EveryRunEnds | external/cpp-httplib/httplib.h:4797-4811 | there is no third way in which a run ends |
| ChunkedIO.InStream.Read | external/cpp-httplib/httplib.h:4373-4393 | a read gives some prefix of what is left, of any positive length up to the maximum; the end is a zero or an error |
| ChunkedIO.StreamLineReader.Append | external/cpp-httplib/httplib.h:3107-3118 | a character is added to the line, across the spill from the fixed buffer to the growable one |
| ChunkedIO.StreamLineReader.GetLine | external/cpp-httplib/httplib.h:3067-3105 | the line that is read does not depend on the size of the fixed buffer |
| ChunkedIO.ChunkedReader.ReadContentWithLength | external/cpp-httplib/httplib.h:4373-4393 | short reads add up to exactly the length, or the stream ended |
| ChunkedIO.ChunkedReader.ReadContentChunked | external/cpp-httplib/httplib.h:4422-4486 | the loops over chunks and trailer lines compute the specified outcome |
| ChunkedIO.OutStream.Write | external/cpp-httplib/httplib.h:4624-4632 | a write takes some prefix of the data, possibly nothing for a while, or fails |
| ChunkedIO.ChunkedWriter.WriteData | external/cpp-httplib/httplib.h:4624-4632 | short writes add up to all the data, or the stream failed |
| ChunkedIO.ChunkedWriter.SinkWrite | external/cpp-httplib/httplib.h:4724-4746 | a write of the sink emits one chunk, and an empty one emits nothing and stops the run |
| ChunkedIO.ChunkedWriter.Done | external/cpp-httplib/httplib.h:4750-4789 | the end of the message is emitted with the trailer fields |
| ChunkedIO.ChunkedWriter.WriteContentChunked | external/cpp-httplib/httplib.h:4797-4811 | the loop over the content provider emits the text of its calls and reports success as specified |
| ThreadPool.ReachableInv | external/cpp-httplib/httplib.h:790-859 | in every reachable state the accepted jobs are those dequeued, in order, and those queued; each dequeued job runs or has finished, once; and a non-empty queue never meets all live workers asleep with no wake-up pending |
| ThreadPool.ShutdownDrains | external/cpp-httplib/httplib.h:803-816 | when `shutdown` returns, every job accepted before its flag was set has finished |
| ThreadPool.InternalStepsTerminate | external/cpp-httplib/httplib.h:822-838 | every step of the workers makes progress, so the pool comes to rest |
| ThreadPool.RestMeansDone | external/cpp-httplib/httplib.h:790-838 | at rest an open pool has finished every accepted job, and a pool shutting down has let every worker go |
| ThreadPool.UnlimitedAcceptsAll | external/cpp-httplib/httplib.h:790-801 | without a limit the accepted jobs are exactly those of the calls of `enqueue`, in their order |
| ThreadPool.LimitIsKept | external/cpp-httplib/httplib.h:790-801 | with a limit no more jobs than that ever wait |
| ThreadPool.RefusedIff | external/cpp-httplib/httplib.h:790-801 | a job is refused if and only if there is a limit and exactly that many wait; otherwise it is the last one accepted, and queued |
| ThreadPool.CanEnqueue | external/cpp-httplib/httplib.h:790-801 | `enqueue` returns in every state |
| ThreadPool.SubmittedMeansDone | external/cpp-httplib/httplib.h:790-838 | every job given to an open pool without a limit has finished once the pool is at rest |
| ThreadPool.ShutdownDrainsLateJobs | external/cpp-httplib/httplib.h:803-838 | when `shutdown` returns, also every job has finished that came later while some worker was still there |
| ClientSocket.ReachableInv | external/cpp-httplib/httplib.h:7645-7742 | in every interleaving of sends, nested sends and stops, the in-flight count is the number of counted requests of the thread that owns the request mutex |
| ClientSocket.InFlightIsDepth | external/cpp-httplib/httplib.h:7690-7742 | the in-flight count is the nesting depth of that thread, up to the one request that is entering or leaving |
| ClientSocket.AssertionsNeverFail | external/cpp-httplib/httplib.h:7580-7597 | the assertion that no thread closes the socket under another thread's request holds at every close |
| ClientSocket.ScopeExitKeepsIff | external/cpp-httplib/httplib.h:7715-7732 | at every scope exit of every run the socket is open afterwards if and only if it was, the last request that was done asked to keep it, and no stop is pending, that is, none has come with no request, nested ones included, begun since |
| ClientSocket.OpenIff | external/cpp-httplib/httplib.h:7645-7732 | in every run, whether the socket is open is what the actions of the threads say, without the program's flags and counters |
| ClientSocket.PendingIsInFlight | external/cpp-httplib/httplib.h:7690-7732 | the in-flight count is the number of requests that have got a connection less those that have given it back |
| ClientSocket.ClosedUntilBegin | external/cpp-httplib/httplib.h:7780-7794 | a connection that the response asks to be closed stays closed until the next request begins |
| ClientSocket.AtMostTwoAttempts | external/cpp-httplib/httplib.h:7635-7645 | an invocation of `send` begins a request at most twice |
| ClientSocket.CanGoOn | external/cpp-httplib/httplib.h:7635-7742 | in every reachable state the thread inside a request can go on whatever the network does, any thread can send if there is none, and `stop` never waits |
| ClientSocket.StopCloses | external/cpp-httplib/httplib.h:8923-8944 | after a stop with no request begun since, the socket is closed once nothing is in flight |
| ClientSocket.NestedRequestForgetsStop | external/cpp-httplib/httplib.h:7645-7690 | a run in which a nested request clears the wish to close, so that the socket stays open after the stop |
| FileCacheSteps.PutStepKeeps | services/opendap/src/bes_utils/FileCache.h:450-564 | every step of the three puts and of the release of a PutItem keeps the invariant |
| FileCacheSteps.GetDelStepKeeps | services/opendap/src/bes_utils/FileCache.h:574-639 | every step of `get` and `del` keeps the invariant |
| FileCacheSteps.PurgeStepKeeps | services/opendap/src/bes_utils/FileCache.h:678-752 | every step of `purge` keeps the invariant |
| FileCacheSteps.ReachableInv | services/opendap/src/bes_utils/FileCache.h:450-752 | the invariant holds in every state that any number of processes can reach, in any order of their system calls |
| FileCacheTheorems.RecordedSizeIsConserved | services/opendap/src/bes_utils/FileCache.h:384-392 | whenever no operation is inside the cache lock, the recorded size is the sum of the sizes of the files that no uncommitted PutItem holds |
| FileCacheTheorems.UpdatesNeverWrap | services/opendap/src/bes_utils/FileCache.h:611-639 | no addition to or subtraction from the recorded size wraps around |
| FileCacheTheorems.RemovalRespectsLocks | services/opendap/src/bes_utils/FileCache.h:349-366 | by every operation other than `clear`, a file that some descriptor has locked is unlinked only in the step that itself holds that lock, exclusively |
| FileCacheProgress.CanStepIff | services/opendap/src/bes_utils/FileCache.h:349-366 | in every reachable state the process inside the cache lock can go on, if and only if it is not in a `get` or `del` that waits for a file another descriptor has locked |
| FileCacheProgress.OwnStepsTerminate | services/opendap/src/bes_utils/FileCache.h:450-752 | every step of an operation, other than a write of a `put`, brings it closer to the release of the cache lock |
| FileCacheProgress.OthersLeaveLock | services/opendap/src/bes_utils/FileCache.h:327-341 | reading, writing and closing open items, by any process, changes nothing about the operation inside the cache lock |
| FileCacheProgress.RoundsBounded | services/opendap/src/bes_utils/FileCache.h:718-752 | and that cannot go on for ever in any reachable state |
| FileCacheProgress.PutItemBlocksForEver | services/opendap/src/bes_utils/FileCache.h:384-392 | a `get` or `del` that waits for the file of an open PutItem keeps the cache lock in every state that can follow |
| FileCacheProgress.GetUnderPutItem | services/opendap/src/bes_utils/FileCache.h:574-600 | a run that leads there |
| FileCacheOperations.DelDeletes | services/opendap/src/bes_utils/FileCache.h:611-639 | over every run, from taking the cache lock to giving it back: a `del` of a present key whose lock was not refused and whose remove did not fail ends with no file under the key and with the recorded size less by the size of that file; otherwise nothing is changed; no descriptor is left open, and a `del` that is ready to wait is not refused |
| FileCacheOperations.GetHolds | services/opendap/src/bes_utils/FileCache.h:574-600 | a `get` of a present key that was not refused leaves its caller with the descriptor it opened, of that key's file, locked in the kind asked for, unless the caller has closed it; nothing else is changed |
| FileCachePuts.PutAddsFile | services/opendap/src/bes_utils/FileCache.h:450-533 | a `put` or `put_data` of a present key changes nothing; of an absent key it leaves one more file, of that key and as long as what was written, counted, with the recorded size grown by as much and no descriptor left open |
| FileCachePuts.OpenPutHandsOver | services/opendap/src/bes_utils/FileCache.h:544-564 | a `put` with a PutItem leaves its caller with the exclusive lock on a new file of an absent key, and nothing recorded |
| FileCachePuts.CommitCounts | services/opendap/src/bes_utils/FileCache.h:384-392 | the destructor of a PutItem adds exactly the length of its file to the recorded size, and changes nothing else |
| FileCachePurgeRuns.PurgeOnlyRemoves | services/opendap/src/bes_utils/FileCache.h:678-752 | a purge below the maximum changes nothing; another one removes files and does nothing else: no file is new, no length changed, no descriptor left open |
| FileCachePurge.PurgeIsLeastRecentlyUsed | services/opendap/src/bes_utils/FileCache.h:718-752 | a complete purge visited files in the order of their access times and stopped at the first point where it had removed enough; each file it skipped as locked had a lock of another descriptor when its turn came; every survivor was skipped, undeletable, or at least as recent as everything visited |
| FileCachePurge.PurgeReturnsAtOnceIff | services/opendap/src/bes_utils/FileCache.h:684-686 | a purge returns at once if and only if the recorded size is below the maximum, hence never when the maximum is 0 |
| FileCachePurge.ZeroMaximumPurges | services/opendap/src/bes_utils/FileCache.h:678-752 | a run in which a purge with a maximum of 0 removes the only file |
| FileCacheClear.ClearConservesIff | services/opendap/src/bes_utils/FileCache.h:641-665 | in all states that can follow a `clear`, up to the next one, the recorded size is right whenever nobody is inside the cache lock, if and only if it was zero and no PutItem was open before (or the disk has no room for a byte) |
| FileCacheClear.ClearRemovesAll | services/opendap/src/bes_utils/FileCache.h:641-665 | no file is left after a `clear`, whatever locks there are and whatever other processes do in between |
| FileCacheClear.ClearUnderPutItem | services/opendap/src/bes_utils/FileCache.h:641-665 | a run in which the recorded size is zero at the clear, the clear unlinks the file of an open PutItem, which is committed later, and the size is wrong then |
| ObjMemCache.ObjMemCache.constructor | services/opendap/src/bes_utils/ObjMemCache.h:125-140 | an empty cache |
| ObjMemCache.ObjMemCache.Size | services/opendap/src/bes_utils/ObjMemCache.h:154-157 | the consistency assertion holds, and the size is that of the list |
| ObjMemCache.ObjMemCache.Purge | services/opendap/src/bes_utils/ObjMemCache.cc:145-161 | exactly the oldest entries go, as many as the fraction of the size rounded down |
| ObjMemCache.ObjMemCache.Add | services/opendap/src/bes_utils/ObjMemCache.cc:63-79 | after the purge the entry becomes the newest, and the two maps stay consistent if and only if the key is not in the cache at that point |
| ObjMemCache.AddTwice | services/opendap/src/bes_utils/ObjMemCache.cc:63-79 | a second add under a key makes the maps of a new cache inconsistent |
| ObjMemCache.ObjMemCache.Get | services/opendap/src/bes_utils/ObjMemCache.cc:105-139 | the object of the key is returned and its entry moves to the newest end |
| ObjMemCache.ObjMemCache.Remove | services/opendap/src/bes_utils/ObjMemCache.cc:85-98 | the entry is taken out of both maps and its object destroyed |
| ObjMemCache.ObjMemCache.Destroy | services/opendap/src/bes_utils/ObjMemCache.cc:44-50 | afterwards the destroyed objects are exactly the added ones, each once |
| ObjMemCacheRuns.SizeBound | services/opendap/src/bes_utils/ObjMemCache.cc:63-79 | no run makes the list, which with fresh keys is the cache, longer than the maximum of the threshold plus one and the ceiling of one over the fraction |
| ObjMemCacheRuns.SizeBoundIsReached | services/opendap/src/bes_utils/ObjMemCache.cc:145-161 | the bound is exact: entries added one after another, under fresh keys in the cache, are all kept if and only if there are no more than that |
| ObjMemCacheRuns.OrderedByLastUse | services/opendap/src/bes_utils/ObjMemCache.cc:105-139 | after any run with fresh keys the list is ordered by the last add or get of each key |
| ObjMemCacheEntries.RemovesExactly | services/opendap/src/bes_utils/ObjMemCache.cc:85-139 | `remove` takes out the entry of its key and no other, and `get` puts it behind all the others, in their order |
| ObjMemCacheEntries.NoThresholdKeepsAll | services/opendap/src/bes_utils/ObjMemCache.cc:63-79 | with a threshold of zero no entry is ever purged by adding others |
| MemoryCache.MemoryCache.Initialize | services/opendap/src/bes_utils/MemoryCache.h:117-124 | limits that are not positive are refused and change nothing |
| MemoryCache.MemoryCache.Get | services/opendap/src/bes_utils/MemoryCache.h:133-141 | the cached value, or the caller's own value |
| MemoryCache.MemoryCache.Store | services/opendap/src/bes_utils/MemoryCache.h:149-160 | queue and map after a put, for a new and for a known key, or that its purge finds the queue empty |
| MemoryCache.MemoryCache.Purge | services/opendap/src/bes_utils/MemoryCache.h:72-80 | the oldest keys leave the queue and the map, or there are not enough of them |
| MemoryCache.MemoryCache.Clear | services/opendap/src/bes_utils/MemoryCache.h:166 | nothing is left |
| MemoryCache.RunKeepsNewest | services/opendap/src/bes_utils/MemoryCache.h:72-100 | after any run that does not fail, whatever the limits, the queue is duplicate-free, has the keys of the map, and is the last part of the insertions since the last clear, of a length that their number alone decides |
| MemoryCache.RunKeepsLastPut | services/opendap/src/bes_utils/MemoryCache.h:149-160 | after any run each cached value is the last one put under its key |
| MemoryCache.JustPut | services/opendap/src/bes_utils/MemoryCache.h:149-160 | the size never exceeds the maximum, and after a put that does not fail the key can be got, with its value, if and only if the purge does not take everything |
| MemoryCache.JustPutForgotten | services/opendap/src/bes_utils/MemoryCache.h:72-80 | a run whose last put purges one more than the maximum, and forgets the key it has just put |
| MemoryCache.PutFailsIff | services/opendap/src/bes_utils/MemoryCache.h:72-80 | the purge loop of a put finds the queue empty if and only if the key is new, the cache is full and more than the maximum plus one are to be purged |
| MemoryCache.NextFailsIff | services/opendap/src/bes_utils/MemoryCache.h:149-160 | a run fails at its next call if and only if the limits are such and a new key is put after as many insertions as the maximum |
| MemoryCache.SomeRunFailsIff | services/opendap/src/bes_utils/MemoryCache.h:117-124 | limits that `initialize` accepts let some run fail, that of one more different keys than the maximum, if and only if more than the maximum plus one are to be purged |
| Ranges.NormalizationIff | external/cpp-httplib/httplib.h:5322-5349 | the ranges selected are those of section 14.1.2 of RFC 9110, except exactly for a suffix longer than the representation, which is refused |
| Ranges.AbsentMeansAll | external/cpp-httplib/httplib.h:5322-5325 | with neither position given all the content is selected |
| Ranges.LongSuffixRefused | external/cpp-httplib/httplib.h:5322-5349 | a suffix range longer than the content is refused, where the standard selects the content |
| Ranges.AcceptedIff | external/cpp-httplib/httplib.h:5346-5366 | the loop's running maximum accepts exactly the lists that are within the content, in ascending order, with at most two ranges that overlap an earlier one |
| Ranges.AcceptedTotal | external/cpp-httplib/httplib.h:5302-5366 | the ranges of an accepted request select at most three times the content |
| Ranges.RangeError | external/cpp-httplib/httplib.h:5302-5366 | the ranges are rewritten in place, and an error is reported exactly when there are too many or they are not acceptable |
| Ranges.OffsetAndLength | external/cpp-httplib/httplib.h:5368-5376 | the assertions hold for a range within the content |
| Ranges.MakeData | external/cpp-httplib/httplib.h:5429-5443 | the response is built token by token as specified |
| Ranges.DataLength | external/cpp-httplib/httplib.h:5445-5461 | the length computed without the body is the length of the response |
| Ranges.CarriesSlices | external/cpp-httplib/httplib.h:5392-5426 | the response carries the selected slice of every range, at the place that its position gives |
| RangesReader.DecimalValue | external/cpp-httplib/httplib.h:5378-5390 | a printed position has only digits, which stand for it |
| RangesReader.ContentRangeRead | external/cpp-httplib/httplib.h:5378-5390 | the Content-Range field, read as section 14.4 of RFC 9110 has it, gives the first and last position of the range and the length of the content |
| RangesReader.ResponseReadBack | external/cpp-httplib/httplib.h:5392-5443 | a reader of the standard gets from the response, for each range in order, the positions selected, the length of the content, the content type, and the bytes at those positions |
| Base64.Base64Encode | external/cpp-httplib/httplib.h:2786-2812 | the shifting accumulator of 32 bits computes the group-of-three encoding |
| Base64.LowBits | external/cpp-httplib/httplib.h:2793-2799 | cutting the accumulator to 32 bits keeps all the bits that are read |
| Base64.DigitsAreGroups | external/cpp-httplib/httplib.h:2793-2806 | the stream of six-bit digits with its padding is the group-of-three form |
| Base64Table.DigitsAreTable | external/cpp-httplib/httplib.h:2787-2788 | the digits are the entries of the look-up string, in its order |
| Base64.EncodedLength | external/cpp-httplib/httplib.h:2786-2812 | the length is four for every three bytes begun |
| Base64.EncodeThenDecode | external/cpp-httplib/httplib.h:2786-2812 | a decoder of section 4 of RFC 4648 inverts the encoding |
| Base64.DecodeIff | external/cpp-httplib/httplib.h:2786-2812 | a text decodes to some bytes if and only if it is their encoding |
| Routes.Build | external/cpp-httplib/httplib.h:6221-6270 | the loop computes fragments and names of the pattern, and throws exactly on a repeated name |
| Routes.CapturedIff | external/cpp-httplib/httplib.h:6272-6310 | a text is accepted with some values if and only if it is a route filled with them, up to one slash after a final parameter, whose fragments `strncmp` cannot tell from those of the pattern |
| Routes.CapturedPlainIff | external/cpp-httplib/httplib.h:6272-6310 | the same for the pattern's own fragments, unless the text has a NUL and a fragment has one in front of other characters |
| Routes.InstanceIsFilled | external/cpp-httplib/httplib.h:6221-6270 | the filled route is the pattern with its parameters replaced |
| Routes.AcceptedIff | external/cpp-httplib/httplib.h:6221-6310 | a path is accepted with some values if and only if it is the pattern filled with them, up to one slash after a final parameter, under the same condition |
| Routes.NulAcceptsMoreIff | external/cpp-httplib/httplib.h:6286-6289 | some text that is not a filled route is accepted if and only if a fragment has a NUL in front of other characters |
| Routes.Match | external/cpp-httplib/httplib.h:6272-6310 | the loop accepts exactly what the route accepts and maps each name to its value |
| Explode.Explode | services/opendap/src/bes_utils/BESUtil.cc:543-607 | the scanning loops compute the values or the error, and start further on in each round |
| Explode.Implode | services/opendap/src/bes_utils/BESUtil.cc:620-639 | the loop prints the values, or throws exactly when one holds the delimiter and starts with no quote |
| Explode.ExplodeThenImplode | services/opendap/src/bes_utils/BESUtil.cc:543-639 | printing the values of a text gives it back if and only if it is not empty |
| Explode.ImplodeThenExplode | services/opendap/src/bes_utils/BESUtil.cc:543-639 | reading printed values gives them back if and only if they are all complete for the scanner and are not the empty list or one empty value |
| Explode.AcceptedIff | services/opendap/src/bes_utils/BESUtil.cc:543-607 | a text is accepted if and only if it is complete values, printed |
| Explode.EscapedQuoteStays | services/opendap/src/bes_utils/BESUtil.cc:560-583 | a quote behind one backslash is part of a quoted value |
| Explode.DoubleBackslashEnds | services/opendap/src/bes_utils/BESUtil.cc:560-583 | and one behind two ends it |
| XmlEscape.Id2Xml | services/opendap/src/bes_utils/BESUtil.cc:487-496 | the loop that replaces in place computes the escaped text, for any set of characters |
| XmlEscape.Xml2Id | services/opendap/src/bes_utils/BESUtil.cc:504-528 | the five loops compute the five passes, each looking again at the place it has just replaced |
| XmlReader.EntityIsReference | services/opendap/src/bes_utils/BESUtil.cc:463-480 | each entity is the reference that section 4.6 of XML 1.0 has for its character |
| XmlReader.EscapedIsRead | services/opendap/src/bes_utils/BESUtil.cc:487-496 | a reader of XML gets every text back from its escaped form, as long as the ampersand and the less-than sign are escaped |
| XmlReader.NoneLeft | services/opendap/src/bes_utils/BESUtil.cc:487-496 | none of the other characters to be escaped is left |
| XmlEscape.UnescapedEscaped | services/opendap/src/bes_utils/BESUtil.cc:487-528 | unescaping an escaped text is the last three passes over the text itself |
| XmlEscape.RoundTripIff | services/opendap/src/bes_utils/BESUtil.cc:487-528 | the round trip gives the text back if and only if it contains none of the entities of the ampersand, the apostrophe and the quotation mark |
| XmlBase.LastWinsIff | services/opendap/src/bes_utils/GlobalMetadataStore.cc:193-222 | inserting one value and then another is inserting the other, if and only if the first has no quotation mark and the tag does not end with a bare literal |
| XmlBase.BareTagKeepsFirst | services/opendap/src/bes_utils/GlobalMetadataStore.cc:193-222 | a tag that ends in a bare literal keeps the first value beside the second |
| XmlBase.InsertedInTag | services/opendap/src/bes_utils/GlobalMetadataStore.cc:193-222 | in a printed tag the attribute is set in its place, or added before the end, and nothing else changes |
| XmlBase.BufferIrrelevant | services/opendap/src/bes_utils/GlobalMetadataStore.cc:173-229 | a document whose Dataset tag fits the buffer is rewritten as if it had all been in the buffer |
| XmlBase.NowhereIff | services/opendap/src/bes_utils/GlobalMetadataStore.cc:197-222 | the scan stops nowhere if and only if there is no `>` and each occurrence of the literal is the last thing in the buffer or starts inside a match that was going on |
| XmlBase.BlankShowsLiteral | services/opendap/src/bes_utils/GlobalMetadataStore.cc:197-222 | a literal behind a blank, as attributes have it, is seen by the scan |
| XmlBase.TagLostIff | services/opendap/src/bes_utils/GlobalMetadataStore.cc:197-228 | the part of the document in the buffer behind the prolog is lost if and only if it has no `>` and no literal that the scan sees |
| XmlBase.HiddenLiteralLosesTag | services/opendap/src/bes_utils/GlobalMetadataStore.cc:197-228 | a document with a literal in its tag, hidden in a failed match, loses the tag when the buffer ends before the `>` |
| XmlBase.DocumentLastWins | services/opendap/src/bes_utils/GlobalMetadataStore.cc:157-229 | rewriting a document twice is rewriting it with the second value, whatever part of either the buffer held |
| XmlBase.DocumentSetsAttribute | services/opendap/src/bes_utils/GlobalMetadataStore.cc:157-229 | a document with prolog, Dataset tag and body gets the attribute set and keeps all its other bytes |
| XmlBase.TransferBytes | services/opendap/src/bes_utils/GlobalMetadataStore.cc:121-143 | the rest of the file is appended, or an error ends the transfer |
| XmlBase.FindPlace | services/opendap/src/bes_utils/GlobalMetadataStore.cc:193-222 | the scanning loop stops where specified, with its partial matches |
| XmlBase.RewriteBuffer | services/opendap/src/bes_utils/GlobalMetadataStore.cc:187-225 | what is written for the buffer, or that a skipping loop runs out of it |
| XmlBase.InsertXmlBase | services/opendap/src/bes_utils/GlobalMetadataStore.cc:157-229 | both phases write the specified document, unless a read fails or a skipping loop runs out of the buffer |

## Left out

- FileCache: a state machine on values, because its point is the interleaving of processes; the loops of `purge` are its steps, and those of `clear` steps of their own between the steps of other processes. The key "cache_info", the reuse of an Item or PutItem object, and input or output errors other than an unreadable source, a refused lock and a failing `remove` in `del` and `purge` are not modelled.
- FileCache: descriptors are closed only by destructors, and one cache object stands for one process, because `flock` belongs to the open file description.
- ThreadPool, ClientSocket: the mutex, the condition variable and the request mutex are modelled by the atomicity of the steps; the destructor of the client and TLS are not part of this model.
- QueryCodec.ParseInvertsQuery: states the condition on all keys as sufficient; that it is also necessary is proved for one parameter, because with several a bad key of one may be repaired by the pieces of another.
- MultipartFields.OtherFieldsChangeNothing: is about uncut opening lines; with other fields the converse does not hold, because such a field may look like the opening line, so that nothing is lost when that is cut.
- FileCacheOperations.GetHolds: an item that its own process has closed before the operation ends is not held any more; which descriptors those are is read off the actions.
- MultipartProof.DeliversSuffix: supposes a boundary that is not all dashes and parts whose text does not show the opening line, because otherwise a cut opening line may be found inside a part; what holds without that is `MultipartLost.DeliversAllIffOpeningWhole`.
- MultipartHeaders.FormDataRoundTrip: supposes printable names and content types; that they are needed is proved for the header lines (`MultipartNames.HeaderLinesIff`), not again for whole bodies.
- ObjMemCache.ObjMemCache.Add: supposes the age below 2^32; beyond it the truncated age may collide with an old one.
- ObjMemCache.ObjMemCache.Get: supposes the same.
- ObjMemCacheRuns.SizeBound: the purge fraction is an exact real number, where the program has a `float`.
- MemoryCache.MemoryCache.Store, XmlBase.InsertXmlBase: where the program reads an empty queue or beyond its buffer, the model only says that it does.
- ChunkedIO.OutStream.Write: a stream takes nothing only a bounded number of times, because with one that never takes anything `write_data` does not return.
- Chunked coding: compressors, a receiver that refuses data, progress callbacks and the option for bare line feeds.
- Sockets, TLS, name resolution, polling, timeouts and memory-mapped files; `std::regex` in header lines is a plain prefix match.
- `encode_url`, `is_valid_path`, the quality-value parser and the request plumbing of the server and the client verbs.
- The path helpers, URL splitting, tokenizers and date, process and file functions of `BESUtil`: single scans or operating system calls, without a counterpart to relate them to.
- The rest of `GlobalMetadataStore`, which rests on a file-locking cache that is not part of this model, and the netCDF and libdap code.
- Logging, stopwatches, debug streams and the hashing of cache keys.
