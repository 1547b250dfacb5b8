# Mantids30: verified models of its stateful cores

This project models the components of Mantids30 in which results depend on what
happened before, and proves what they keep over whole streams, histories and
interleavings.

- **Streams cut anywhere.** `Tokens`, `TokenTraces`, `SubParsers` and `Parsers` model
  the incremental parser: fragments are buffered, searched for a delimiter or a size,
  shown to the protocol and consumed in wrapping `size_t` arithmetic under a budget
  of calls. A stream has one meaning, and every cutting of it reaches that meaning.
  The protocol (`parse()` and `changeToNextParser()`) is an arbitrary function of
  everything it was shown so far.
- **Chunks for bytes.** `ChunkVector`, `ChunkUpdates`, `ChunkedContainer` and
  `ChunkHistories` model the chunked container: the chunks refine a plain byte
  sequence, and searches and comparisons cross chunk borders. Each call is shown to
  leave the offsets stored in the chunks right or not, and reads by offset with them.
- **Direct delimiters.** `HoldBacks` and `DirectStreams` prove the design for every
  delimiter over a buffer that reads back correctly. `DirectDelimiters` puts the
  real container below it, whose offset recalculation never advances: there the law
  holds, and a delimiter is sure to be found, exactly if it has at most two bytes.
- **Placeholders.** `Placeholders`, `PlaceholderLoops`, `PlaceholderDrivers` and
  `PlaceholderQueries` model the rewriting of named SQL parameters by repeated
  replacement; `PlaceholderLaws` and `PlaceholderScans` prove for which lists of keys
  it replaces only what the query holds, and equals one scan from left to right, and
  `PlaceholderNumbers` what the numbers put in say.
- **A cipher in step.** `Bits`, `AesChain` and `AesPeers` model the two ends of the AES/XOR
  socket; AES, the vector generators and random bytes are arbitrary functions and
  parameters.
- **Locked lifecycles.** `Acceptors` and `SqlConnectors` model the locked regions of
  the acceptor and of the database connector as steps of transition systems, with
  classes for the regions themselves.
- **Codecs.** `SocketStreams`, `Framing`, `BlockReaders`, `StringLists` and
  `Base64s` model the transfer loops, length-prefixed frames, delimited blocks, the
  quoted string list and the obfuscated base64.
- **A bounded cache.** `JwtCaches` models the token cache, its queue, its map and its
  byte counter.

Where the source changes state in place the model is a class with the same fields,
and each method is proved against a function on values whose properties are proved
beside it. A socket, a clock or a scheduler is a choice the model leaves open: a
transfer may take any number of bytes, a wait may time out or wake without reason.

Where the code as written does not keep a promise, the project proves exactly when
it does:

- reads and truncations by offset after a displace: `DisplaceKeepsReads`,
  `DisplaceKeepsCuts`;
- the order of prepended bytes: `PrependKeepsOrder`;
- direct delimiters, held and found: `HoldLawExactly`, `FoundLawExactly`;
- the end of the placeholder loops: `MariaDBEndsExactly`, `PostgreSQLEndsExactly`;
- a key found inside or across a placeholder, for every list of keys: `LawExactly`,
  `QuestionListExactly`, `DollarListExactly`; and a query that the MariaDB loop
  rewrites otherwise than one scan would: `QuestionLawExactly`;
- the number of a PostgreSQL placeholder, read from the rewritten query: `NumbersExactly`;
- the string list's round trip: `RoundTripExactly`;
- a free place noticed by waiting calls: `SlotLawExactly`;
- a free lock when the connector is gone: `ConnectorGoneLockExactly`;
- eviction after clearing: `EvictionFailsExactly`;
- queued payloads that are not cached: `CachedExactly`.

The `findChar` flag named case sensitive makes the search accept both cases of a
letter; the model follows the code (`StopsAt`). The header bounds the delimiter
reader's block by 4 GB; the code's size sum wraps from 0xFFFF0000 on (`WholeBlocks`).

To verify everything: `dafny verify dfyconfig.toml`.

## Model

| member | source | states |
|---|---|---|
| `Occurrences.First` | Mantids30/Memory/b_base.cpp:528-583 | what every search is measured against: the leftmost occurrence at or after a position, or none |
| `Occurrences.FirstUnique` | Mantids30/Memory/b_base.cpp:557-580 | a match with none before it is the leftmost one |
| `Occurrences.FirstExtends` | Mantids30/Memory/subparser.cpp:201-205 | bytes that arrive later do not move the leftmost delimiter already there |
| `HoldBacks.HoldBack` | Mantids30/Memory/subparser.cpp:439-455 | the countdown finds the longest end that is a proper prefix of the delimiter |
| `HoldBacks.BufferDecidesHold` | Mantids30/Memory/subparser.cpp:389-414 | after any number of releases, the hold of the whole stream is the hold of the buffer alone |
| `HoldBacks.BufferDecidesFirst` | Mantids30/Memory/subparser.cpp:387-435 | after any number of releases, the leftmost delimiter of the whole stream is found in the buffer alone |
| `ChunkVector.SearchChunk` | Mantids30/Memory/b_chunks.cpp:653-693 | the recursive search ends, and a chunk it names contains the offset and lies in the searched range |
| `ChunkVector.SearchChunkCorrect` | Mantids30/Memory/b_chunks.cpp:653-693 | on linked offsets the search succeeds for every offset between its two bounds, whatever its odd probe positions |
| `ChunkVector.ChunkOfOffsetUnique` | Mantids30/Memory/b_chunk.h:110-113 | on contiguous offsets at most one chunk contains an offset |
| `ChunkVector.FindChunkCorrect` | Mantids30/Memory/b_chunks.cpp:653-693 | on contiguous offsets a chunk is found if and only if the offset is below the size, and it is the only one |
| `ChunkVector.ReadAtContiguous` | Mantids30/Memory/b_chunks.cpp:421-479 | on contiguous offsets a read by offset gives exactly the named slice of the concatenated bytes |
| `ChunkUpdates.AppendChunksMeaning` | Mantids30/Memory/b_chunks.cpp:159-213 | an append adds exactly the bytes that the chunk limit lets through, leaves no empty chunk and keeps offsets contiguous |
| `ChunkUpdates.GrowStep` | Mantids30/Memory/b_chunks.cpp:159-213 | one turn of the storing loop, in either mode: one piece stored, the rest to store, the same final result |
| `ChunkUpdates.PrependChunksMeaning` | Mantids30/Memory/b_chunks.cpp:159-218 | a prepend puts its chunk-sized pieces in front in reverse order |
| `ChunkUpdates.PrependKeepsOrder` | Mantids30/Memory/b_chunks.cpp:198-201 | prepending n bytes keeps the order of all data if and only if n is at most the chunk size |
| `ChunkUpdates.PrependKeepsOffsets` | Mantids30/Memory/b_chunks.cpp:642-651 | a prepend leaves contiguous offsets if and only if the container was empty |
| `ChunkUpdates.DropBytesMeaning` | Mantids30/Memory/b_chunks.cpp:232-254 | dropping whole chunks and part of one leaves exactly the bytes after the first n |
| `ChunkUpdates.DisplaceChunksMeaning` | Mantids30/Memory/b_chunks.cpp:223-259 | a displace removes exactly the first n bytes and leaves no empty chunk |
| `ChunkUpdates.DisplaceKeepsOffsets` | Mantids30/Memory/b_chunks.cpp:642-651 | a displace leaves contiguous offsets if and only if at most one chunk stays, or nothing is dropped and the recalculation writes zero; one chunk stays exactly when n reaches the last chunk's offset |
| `ChunkUpdates.TruncateChunksMeaning` | Mantids30/Memory/b_chunks.cpp:78-119 | on contiguous offsets a truncation keeps exactly the first n bytes, and fails exactly at or above the size |
| `ChunkUpdates.DisplaceKeepsReads` | Mantids30/Memory/b_chunks.cpp:642-651 | after a displace every read by offset gives the named slice in exactly those cases; in all others a read inside the container finds no chunk |
| `ChunkUpdates.DisplaceKeepsCuts` | Mantids30/Memory/b_chunks.cpp:642-651 | after a displace every truncation inside the container keeps exactly the bytes before it, in exactly the same cases; in all others a truncation finds no chunk |
| `ChunkedContainer.FirstStop` | Mantids30/Memory/b_chunks.cpp:602-622 | the nearer of two memory searches is the first byte the flag lets through |
| `ChunkedContainer.StopsAtMeaning` | Mantids30/Memory/b_chunks.cpp:602-622 | the bytes searched for: the one asked for, and with the flag the same letter in the other case |
| `ChunkedContainer.Container.constructor` | Mantids30/Memory/b_base.cpp:15-21 | an empty container with the default limits |
| `ChunkedContainer.Container.SetMaxSize` | Mantids30/Memory/b_base.cpp:665-668 | only the size limit changes |
| `ChunkedContainer.Container.Append2` | Mantids30/Memory/b_chunks.cpp:121-221 | the loop stores what the specification says and reports exactly the bytes stored; a size overflow changes nothing |
| `ChunkedContainer.Container.RecalcChunkOffsets` | Mantids30/Memory/b_chunks.cpp:642-651 | only the first chunk's offset changes, and no byte does |
| `ChunkedContainer.Container.Append` | Mantids30/Memory/b_base.cpp:54-74 | bytes grow by exactly the reported count; refused exactly for empty data or above the size limit |
| `ChunkedContainer.Container.Prepend` | Mantids30/Memory/b_base.cpp:76-95 | bytes grow in front by exactly the reported count, in the stored order, and the chunks are the specified ones |
| `ChunkedContainer.Container.Displace2` | Mantids30/Memory/b_chunks.cpp:223-259 | the loop removes exactly the reported number of first bytes |
| `ChunkedContainer.Container.Displace` | Mantids30/Memory/b_base.cpp:97-101 | never removes more than there is, and reports what it removed |
| `ChunkedContainer.Container.Truncate2` | Mantids30/Memory/b_chunks.cpp:78-119 | the loop computes the specified truncation, or changes nothing |
| `ChunkedContainer.Container.Truncate` | Mantids30/Memory/b_base.cpp:103-111 | cuts where the search by offset ends, whatever the offsets; on contiguous ones keeps exactly the named prefix and refuses exactly sizes that do not shrink |
| `ChunkedContainer.Container.Clear` | Mantids30/Memory/b_base.cpp:129-133 | leaves no byte and no chunk |
| `ChunkedContainer.Container.CopyToBuffer2` | Mantids30/Memory/b_chunks.cpp:421-479 | the copying loop reads what the chunks hold from the found chunk on, or refuses a read beyond the end |
| `ChunkedContainer.Container.CopyOut` | Mantids30/Memory/b_base.cpp:349-375 | on contiguous offsets exactly the named slice, with all its refusals |
| `ChunkedContainer.Container.ToString` | Mantids30/Memory/b_base.cpp:422-465 | on contiguous offsets the loop over 8 KB pieces gives exactly the named slice |
| `ChunkedContainer.Container.Compare2` | Mantids30/Memory/b_chunks.cpp:481-550 | a comparison across chunks holds if and only if the bytes occur at the offset, whatever the offsets stored in the chunks |
| `ChunkedContainer.CompareChunks` | Mantids30/Memory/b_chunks.cpp:499-549 | the loop over chunks, for every chunk layout and a buffer spanning any number of them |
| `ChunkedContainer.Container.FindChar` | Mantids30/Memory/b_chunks.cpp:553-570 | the first stop byte within the search space, or none; nothing outside the container is searched |
| `ChunkedContainer.ScanChunks` | Mantids30/Memory/b_chunks.cpp:572-639 | the loop over chunks finds the first stop byte for every chunk layout |
| `ChunkedContainer.Container.Find` | Mantids30/Memory/b_base.cpp:528-583 | with search space zero exactly the leftmost occurrence at or after the offset; with another, that one if it starts inside, and none otherwise |
| `ChunkHistories.ApplyRefines` | Mantids30/Memory/b_chunks.cpp:121-259 | each call does to the concatenated bytes what the byte-sequence model does |
| `ChunkHistories.HistoryRefines` | Mantids30/Memory/b_chunks.cpp:78-259 | every history, of any mix of calls in which a truncation meets contiguous offsets and a prepend fits one chunk, equals the byte-sequence model |
| `ChunkHistories.Run` | Mantids30/Memory/b_chunks.cpp:78-259 | along every such history no chunk is empty and the size stays a valid one |
| `ChunkHistories.ApplyKeepsOffsets` | Mantids30/Memory/b_chunks.cpp:642-651 | on contiguous offsets a call leaves them contiguous if and only if it is an append, a truncation, a clear, a prepend that stores nothing or meets an empty container, or a displace that leaves one chunk |
| `ChunkHistories.AppendsAndCutsSteady` | Mantids30/Memory/b_chunks.cpp:78-278 | histories of appends, truncations and clears are all such histories, and keep the offsets right throughout |
| `ChunkHistories.NoCutsOrderly` | Mantids30/Memory/b_chunks.cpp:121-278 | so are those of appends, short prepends, displaces and clears, without the offsets |
| `ChunkHistories.Perform` | Mantids30/Memory/b_base.cpp:54-133 | the container's methods, called one after the other, go through the history: same chunks, same bytes |
| `ChunkHistories.HistoryReads` | Mantids30/Memory/b_chunks.cpp:421-479 | after any history whose calls kept the offsets, the search finds a chunk exactly below the size, and every read gives the slice of the model |
| `Tokens.NextTokenExtends` | Mantids30/Memory/subparser.cpp:201-215 | a complete token is not changed by later bytes |
| `Tokens.TokenEndsInNewData` | Mantids30/Memory/subparser.cpp:214-215 | a token completed by new bytes ends inside them: between one and all of them are consumed |
| `Tokens.ConsumeSplit` | Mantids30/Memory/parser.cpp:148-165 | consuming a concatenation is consuming its first part and resuming with the second |
| `Tokens.PiecesMeanTheirJoin` | Mantids30/Memory/parser.cpp:70-165 | feeding any fragments has the outcome of feeding their concatenation |
| `Tokens.FragmentationIndependence` | Mantids30/Memory/parser.cpp:70-165 | two cuttings of one stream give the same tokens, the same parser and the same unconsumed tail |
| `Tokens.SplitFaithful` | Mantids30/Memory/subparser.cpp:181-238 | the leftmost split puts back together to the stream; no word and no tail contains the delimiter |
| `Tokens.ConsumeIsSplit` | Mantids30/Memory/subparser.cpp:181-238 | a parser that always asks for more sees exactly the leftmost split and keeps its tail |
| `TokenTraces.HandsOver` | Mantids30/Memory/parser.cpp:102-146 | without the recursion: the first token goes to the current subparser, each later one to the same subparser after a request for more data and to the one changed to after a request for the next, and the outcome follows the last answer |
| `TokenTraces.MeaningExactly` | Mantids30/Memory/parser.cpp:70-165 | an outcome is the one of a stream if and only if some tokens that follow the answers, and the bytes left, tell it |
| `TokenTraces.FailsExactly` | Mantids30/Memory/parser.cpp:111-146 | a stream fails if and only if such tokens lead to an error or a refused change |
| `TokenTraces.PiecesMakeUpStream` | Mantids30/Memory/subparser.cpp:181-275 | the stream is what its tokens took, each up to its first delimiter or of its size, and the bytes left, which hold no whole token |
| `TokenTraces.RoundsCount` | Mantids30/Memory/parser.cpp:70-165 | one call for each token, and one for bytes left behind the last |
| `SubParsers.WrappedDisplacement` | Mantids30/Memory/subparser.cpp:215 | the subtraction that wraps around and the addition that wraps back give the true displacement |
| `SubParsers.SubParser.constructor` | Mantids30/Memory/subparser.h:166-175 | an idle subparser that waits for the default delimiter |
| `SubParsers.SubParser.AppendToUnparsedBuffer` | Mantids30/Memory/subparser.cpp:104-135 | takes what fits, all or nothing of it, and fails exactly when there is no room or the chunk limit cuts it |
| `SubParsers.SubParser.ParseByDelimiter` | Mantids30/Memory/subparser.cpp:181-238 | shows the protocol the bytes before the leftmost delimiter of held and new bytes, or on the end all of them, or holds them; the returned count in wrapping arithmetic |
| `SubParsers.SubParser.ParseBySize` | Mantids30/Memory/subparser.cpp:240-275 | shows the bytes when the size is reached, gives up on the end of the stream |
| `SubParsers.SubParser.WriteIntoParser` | Mantids30/Memory/subparser.cpp:13-36 | one write shows exactly the next token if it is complete and consumes up to its end, between 1 and count bytes; otherwise it takes and holds |
| `SubParsers.SubParser.Offer` | Mantids30/Memory/subparser.cpp:13-36 | the same for a caller who offers more than fits: a refusal means there was no room |
| `SubParsers.SubParser.EndOfStream` | Mantids30/Memory/subparser.cpp:13-29 | at the end a delimiter parser shows its tail and a size parser moves on; nothing stays held |
| `SubParsers.SubParser.ParseByMultiDelimiter` | Mantids30/Memory/subparser.cpp:137-179 | the first delimiter of the list that occurs wins, no earlier one of the list being anywhere in the buffer; the count is between 1 and the offered bytes if none was there before |
| `SubParsers.SubParser.FindListed` | Mantids30/Memory/b_base.cpp:635-648 | the delimiter found is at its leftmost place and no earlier one of the list occurs anywhere; nothing is found only if none occurs |
| `SubParsers.ListedEndsInNewData` | Mantids30/Memory/subparser.cpp:167 | a listed delimiter that new bytes complete ends inside them |
| `SubParsers.SubParser.GetLastBytesInCommon` | Mantids30/Memory/subparser.cpp:439-455 | the hold computed from what the stored offsets let it read, memory beyond a short read being arbitrary |
| `SubParsers.SubParser.ReleaseSafePart` | Mantids30/Memory/subparser.cpp:389-415 | without a hit everything but the hold is shown, and the hold stays in the chunks |
| `SubParsers.SubParser.ParseDirectDelimiter` | Mantids30/Memory/subparser.cpp:372-437 | each write is a step of the direct-delimiter machine; after a hit exactly the bytes before the delimiter are shown and between 1 and count bytes consumed |
| `DirectStreams.WriteFollows` | Mantids30/Memory/subparser.cpp:372-437 | over a buffer read back correctly, one write keeps: all released but the longest possible beginning of a delimiter |
| `DirectStreams.CutsDoNotMatter` | Mantids30/Memory/subparser.cpp:372-437 | however a stream is cut, for every delimiter: released and held bytes make up the stream and the hold is the longest one, or the released bytes are exactly those before the leftmost delimiter |
| `DirectDelimiters.ContiguousHold` | Mantids30/Memory/subparser.cpp:439-462 | on contiguous offsets the hold read by offset is the longest one and no other |
| `DirectDelimiters.ContiguousStepIsDesigned` | Mantids30/Memory/subparser.cpp:372-437 | on contiguous offsets a write over the chunk vector is the designed write |
| `DirectDelimiters.NothingLost` | Mantids30/Memory/subparser.cpp:372-437 | on every run, whatever the offsets, no byte is lost or repeated and less than a delimiter is held |
| `DirectDelimiters.ShortDelimiterRun` | Mantids30/Memory/subparser.cpp:372-437 | with a delimiter of one or two bytes every run holds exactly the longest possible beginning, over the real chunk vector |
| `DirectDelimiters.HitReleasesEverythingBefore` | Mantids30/Memory/subparser.cpp:419-435 | a hit in the buffer is the leftmost delimiter of the stream, and the bytes shown make up exactly what precedes it |
| `DirectDelimiters.LongDelimiterFails` | Mantids30/Memory/subparser.cpp:411 | for every delimiter of three or more bytes a run of three one-byte writes after which the hold is wrong |
| `DirectDelimiters.DelimiterMissed` | Mantids30/Memory/subparser.cpp:388-403 | for every delimiter of three or more bytes a stream that holds it and a cutting in which no write finds it |
| `DirectDelimiters.FoundLawExactly` | Mantids30/Memory/subparser.cpp:372-437 | over the real chunk vector a delimiter in the stream is found, for every stream and cutting, if and only if it has at most two bytes |
| `DirectDelimiters.HoldLawExactly` | Mantids30/Memory/subparser.cpp:372-455 | the law of the mode holds over the real chunk vector for every stream and cutting if and only if the delimiter has at most two bytes |
| `Parsers.Parser.constructor` | Mantids30/Memory/parser.cpp:7-11 | a parser at its start, its subparsers empty |
| `Parsers.Parser.WriteCurrent` | Mantids30/Memory/parser.cpp:91-99 | one call of the current subparser: an offered token or a hold, with room for the rest |
| `Parsers.Parser.Decide` | Mantids30/Memory/parser.cpp:102-146 | the three answers: error, more data, next parser, with the end when that is null |
| `Parsers.DecisionMeans` | Mantids30/Memory/parser.cpp:102-146 | after an error or a refusal nothing goes on, after a request for more data the same subparser does, and after a change the one named, or none |
| `Parsers.Parser.ParseOnce` | Mantids30/Memory/parser.cpp:89-146 | one turn of the recursion leaves the meaning of the rest of the stream unchanged and uses one of its calls |
| `Parsers.Parser.ParseData` | Mantids30/Memory/parser.cpp:70-165 | with room it succeeds exactly when the stream's meaning is not a failure and the calls left suffice; it takes all bytes unless the protocol ended |
| `Parsers.Parser.Write` | Mantids30/Memory/parser.cpp:45-68 | a write ends by the call budget; on success it has the outcome of the stream so far and returns the count, unless the protocol ended; its tokens go to the subparsers the answers name, and so does what comes next |
| `Parsers.Parser.WriteEOF` | Mantids30/Memory/parser.cpp:51-57 | an empty write ends the stream: the tail is shown or given up, and the answer and the change decide who is current and whether it fails |
| `Parsers.Parser.WriteFullStream` | Mantids30/Memory/streamableobject.cpp:51-67 | the loop reaches the outcome of the whole buffer, and succeeds exactly in the cases listed |
| `Parsers.Parser.StreamTo` | Mantids30/Net_Sockets/socket_stream.cpp:22-52 | for every cutting of a stream into writes the state reached is the one of the concatenation |
| `Placeholders.Surviving` | Mantids30/DB/query.cpp:111-128 | the keys that stay are exactly those that occur |
| `Placeholders.LessMeaning` | Mantids30/DB_PostgreSQL/query_pgsql.cpp:159 | the order of the keys is that of a map of strings: a prefix first, otherwise the first difference decides |
| `Placeholders.Choose` | Mantids30/DB/query.cpp:107-124 | the chosen key is at its leftmost place and no key occurs before it |
| `PlaceholderLoops.ChosenIsLast` | Mantids30/DB/query.cpp:116-120 | for sorted keys, of those found at the chosen place the longest is taken |
| `Placeholders.ReplaceFirstKey` | Mantids30/DB/query.cpp:103-138 | the loops find and replace the chosen key, drop exactly the absent ones and note the key |
| `PlaceholderLoops.AbsentStaysAbsent` | Mantids30/DB/query.cpp:126-134 | replacing never creates an occurrence of a key that has none, so a dropped key never comes back |
| `PlaceholderLoops.FrontStaysClean` | Mantids30/DB/query.cpp:131-135 | no key occurs again before the end of the placeholder put in |
| `PlaceholderLoops.NextRound` | Mantids30/DB/query.cpp:103-138 | one round keeps the whole loop's meaning and shrinks the part not yet scanned |
| `PlaceholderLoops.EndOfLoop` | Mantids30/DB/query.cpp:137 | when no key is left, text and order of arguments are those of one scan from the left that takes the longest key, and the text holds no key |
| `Placeholders.LongestKey` | Mantids30/DB_MariaDB/query_mariadb.cpp:284-290 | at a place the scan takes the longest key that is there |
| `Placeholders.RestoreScan` | Mantids30/DB_PostgreSQL/query_pgsql.cpp:158-170 | putting the noted keys back for the placeholders restores every query that had none |
| `PlaceholderDrivers.CleanForQuestion` | Mantids30/DB_MariaDB/query_mariadb.cpp:289 | keys are clean for the MariaDB placeholder if and only if none is empty and no text around a question mark of a key, with a key in its place, has just that key replaced there |
| `PlaceholderDrivers.CleanForDollar` | Mantids30/DB_PostgreSQL/query_pgsql.cpp:162 | for the PostgreSQL placeholders if and only if none is empty or begins with a digit, and the same holds for the text around a dollar sign with a number behind it, or nothing |
| `PlaceholderDrivers.QuestionShrinks` | Mantids30/DB_MariaDB/query_mariadb.cpp:289-290 | each MariaDB round shortens the query or uses up an ordinary character, unless the key is empty or a question mark |
| `PlaceholderLoops.OnlyAfterMark` | Mantids30/DB/query.cpp:131-135 | after a replacement of the leftmost key every clean key occurs only behind the placeholder, where it already was |
| `PlaceholderLoops.CleanLoopScans` | Mantids30/DB/query.cpp:103-138 | for clean keys a loop with any placeholders ends and is the scan, and its text holds no key |
| `PlaceholderLoops.CleanScans` | Mantids30/DB/query.cpp:103-138 | the same when only the keys that occur in the query are clean |
| `PlaceholderLoops.CleanPartWillDo` | Mantids30/DB/query.cpp:126-128 | keys that do not occur in the query change neither the loop nor the scan, so only those that do need be clean |
| `PlaceholderLoops.LeftmostIsChosen` | Mantids30/DB/query.cpp:107-124 | for sorted keys the choice is exactly the longest key at the leftmost place where any occurs |
| `PlaceholderLoops.RewrittenIs` | Mantids30/DB_MariaDB/query_mariadb.cpp:289-290 | a loop leaves one text and one order of keys, those of the round that finds nothing |
| `PlaceholderQueries.Query.BindMariaDB` | Mantids30/DB_MariaDB/query_mariadb.cpp:282-290 | for exactly the calls for which the loop ends, it computes the rewriting, and the scan when the keys that occur are clean; then the noted keys put back in order for the question marks give a query that had none |
| `PlaceholderQueries.Query.BindPostgreSQL` | Mantids30/DB_PostgreSQL/query_pgsql.cpp:154-170 | for exactly the calls for which the loop ends, it computes the rewriting, and the scan when the keys that occur are clean; then, for a query without dollar signs, the numbers read back are those written if and only if no key replaced is followed by a digit, and put back by their numbers the keys give the query; the count check fails if and only if keys had been noted before |
| `PlaceholderNumbers.DollarNumber` | Mantids30/DB_PostgreSQL/query_pgsql.cpp:162 | the placeholder put in k-th is a dollar sign and the decimal digits of k |
| `PlaceholderNumbers.NumbersExactly` | Mantids30/DB_PostgreSQL/query_pgsql.cpp:162 | in a query without dollar signs the numbers read behind them are those written, in order, if and only if no key replaced is followed by a digit that begins no key |
| `PlaceholderNumbers.FilledBack` | Mantids30/DB_PostgreSQL/query_pgsql.cpp:162 | then every number, read from the text alone, names its argument: the keys put back by it give the query |
| `PlaceholderNumbers.NoDigitAfterKeys` | Mantids30/DB_PostgreSQL/query_pgsql.cpp:162 | it is enough that no key stands before a digit in the query |
| `PlaceholderNumbers.DigitBehindMisread` | Mantids30/DB_PostgreSQL/query_pgsql.cpp:162 | a query in which a key is followed by a digit, and its number is read as another |
| `PlaceholderDrivers.NeverEnds` | Mantids30/DB/query.cpp:103-138 | a key that the query and every placeholder hold is found in every round |
| `PlaceholderDrivers.PostgreSQLEndsExactly` | Mantids30/DB_PostgreSQL/query_pgsql.cpp:162-165 | the PostgreSQL loop ends only if no key is empty and none is a dollar sign that the query holds, and exactly then if no other key that occurs is made of digits and at most one dollar sign |
| `PlaceholderDrivers.MariaDBEndsExactly` | Mantids30/DB_MariaDB/query_mariadb.cpp:289-290 | for every query and key list the MariaDB loop ends if and only if no key is empty and none is a question mark that the query holds |
| `PlaceholderLaws.LawOfClean` | Mantids30/DB/query.cpp:103-138 | for clean keys no round, on any query, finds a key before the end of a placeholder already put in |
| `PlaceholderLaws.ForeignCharSeparates` | Mantids30/DB/query.cpp:107-124 | text between two characters that are in no key has its keys chosen as if it stood alone |
| `PlaceholderLaws.ClashBreaksLaw` | Mantids30/DB/query.cpp:103-138 | where a placeholder put in for one key completes an occurrence of another, a query is given on which a round finds it before the end of the placeholder |
| `PlaceholderLaws.LawExactly` | Mantids30/DB/query.cpp:103-138 | for every sorted list of keys and any placeholders: no round on any query finds a key before the end of a placeholder already put in, if and only if the list is clean |
| `PlaceholderLaws.OneKeyLawExactly` | Mantids30/DB/query.cpp:103-138 | for one key, whatever its characters, the same |
| `PlaceholderLaws.QuestionListExactly` | Mantids30/DB_MariaDB/query_mariadb.cpp:289-290 | with the MariaDB placeholder: if and only if no key is empty and no text around a question mark of a key, with a key in its place, has just that key replaced there |
| `PlaceholderLaws.DollarListExactly` | Mantids30/DB_PostgreSQL/query_pgsql.cpp:162-165 | with the PostgreSQL placeholders: if and only if no key is empty or begins with a digit, and the same holds for a dollar sign with a number behind it, or nothing |
| `PlaceholderLaws.QuestionOneKeyExactly` | Mantids30/DB_MariaDB/query_mariadb.cpp:289-290 | for one key and the MariaDB placeholder: if and only if the key is not empty and has no question mark |
| `PlaceholderLaws.DollarOneKeyExactly` | Mantids30/DB_PostgreSQL/query_pgsql.cpp:162-165 | the PostgreSQL condition for one key, whatever its characters |
| `PlaceholderLaws.PlainDollarsSafe` | Mantids30/DB_PostgreSQL/query_pgsql.cpp:162-165 | any list of keys with no digit first and no dollar sign last or before a digit keeps the law |
| `PlaceholderLaws.DollarAtBothEndsSafe` | Mantids30/DB_PostgreSQL/query_pgsql.cpp:162-165 | a key that ends in a dollar sign and still keeps it |
| `PlaceholderLaws.QuestionBesideOtherSafe` | Mantids30/DB_MariaDB/query_mariadb.cpp:289-290 | a list in which a key with a question mark keeps it |
| `PlaceholderScans.QuestionLawExactly` | Mantids30/DB_MariaDB/query_mariadb.cpp:282-290 | for every sorted list of nonempty keys: the MariaDB loop is the scan on every query on which it ends, if and only if a question mark is itself a key or the list meets the condition of QuestionListExactly |
| `PlaceholderScans.OneKeyScanExactly` | Mantids30/DB_MariaDB/query_mariadb.cpp:282-290 | for one key, whatever its characters: if and only if it has no question mark |
| `SocketStreams.SocketStream.PartialWrite` | Mantids30/Net_Sockets/socket_stream.cpp:137 | one transfer takes any number of the bytes |
| `SocketStreams.SocketStream.PartialRead` | Mantids30/Net_Sockets/socket_stream.cpp:198 | one transfer gives any number of the bytes that have arrived, in order |
| `SocketStreams.SocketStream.WriteFull` | Mantids30/Net_Sockets/socket_stream.cpp:118-155 | all bytes go out in order for every schedule of partial transfers; a failure leaves a prefix on the wire |
| `SocketStreams.SocketStream.ReadFull` | Mantids30/Net_Sockets/socket_stream.cpp:172-231 | exactly the next bytes, for every schedule of partial transfers |
| `Framing.BigEndianRoundTrip` | Mantids30/Net_Sockets/socket_stream_writer.cpp:30-53 | network byte order read back gives the number |
| `Framing.ShortDigits` | Mantids30/Net_Sockets/socket_stream_writer.cpp:22-36 | one and two bytes, most significant first |
| `Framing.FourDigits` | Mantids30/Net_Sockets/socket_stream_writer.cpp:39-45 | four bytes, most significant first |
| `Framing.SwappedHalves` | Mantids30/Net_Sockets/socket_stream_writer.cpp:14 | a 64-bit number in network byte order is its two halves in network byte order |
| `Framing.HtonllOnTheWire` | Mantids30/Net_Sockets/socket_stream_writer.cpp:14 | on a little-endian machine the macro, which swaps the halves and sends each through htonl, puts the number into memory in network byte order |
| `Framing.UnframeFrame` | Mantids30/Net_Sockets/socket_stream_reader.h:96-147 | a framed block is taken off the front of any stream, no byte more or less |
| `Framing.OnlyFrames` | Mantids30/Net_Sockets/socket_stream_reader.h:96-147 | and nothing but a frame is: the bytes taken are the length in network byte order and as many bytes, no longer than the limit |
| `Framing.MaxLengthValues` | Mantids30/Net_Sockets/socket_stream_writer.h:85 | the limit of each width: the largest value of its length field less one |
| `Framing.FramesRoundTrip` | Mantids30/Net_Sockets/socket_stream_writer.h:84-94 | any list of blocks no longer than the limit is read back in order, and what follows is left |
| `Framing.WriteU` | Mantids30/Net_Sockets/socket_stream_writer.cpp:22-53 | the four widths put the number on the wire in network byte order |
| `Framing.WriteString` | Mantids30/Net_Sockets/socket_stream_writer.h:52-94 | one frame goes out, the length in network byte order and the bytes, or nothing is claimed; strings above the limit are refused |
| `Framing.ReadU` | Mantids30/Net_Sockets/socket_stream_reader.cpp:33-97 | the four widths read the number off the wire |
| `Framing.ReadString` | Mantids30/Net_Sockets/socket_stream_reader.h:96-194 | succeeds with exactly the next frame |
| `Framing.WriteStrings` | Mantids30/Net_Sockets/socket_stream_writer.h:84-94 | a list of strings goes out as its frames |
| `Framing.ReadStrings` | Mantids30/Net_Sockets/socket_stream_reader.h:165-194 | the strings written are read back in order with nothing left over, for every schedule of partial transfers |
| `AesChain.HeaderRoundTrip` | Mantids30/Net_Chains/socket_chain_aes.h:54-75 | the packed header has its four fields in order and is read back field by field |
| `Bits.XorBits` | Mantids30/Net_Chains/socket_chain_aes.h:128 | the combination of two bytes: every bit is the sum of the two bits, modulo two |
| `Bits.XorKeepsExactly` | Mantids30/Net_Chains/socket_chain_aes.h:128 | it leaves a byte as it is if and only if the other is zero |
| `AesChain.SideParams.Reduce` | Mantids30/Net_Chains/socket_chain_aes.h:106-121 | drops used keystream, and all of it when more is asked |
| `AesChain.SideParams.CryptoXOR` | Mantids30/Net_Chains/socket_chain_aes.h:122-132 | combines the block in place, or refuses and changes nothing when the keystream is short |
| `AesChain.SideParams.Extend` | Mantids30/Net_Chains/socket_chain_aes.cpp:326-335 | the block made with the next vector continues the keystream without a gap |
| `AesChain.NextBlock` | Mantids30/Net_Chains/socket_chain_aes.cpp:183-234 | block number n is the keystream from n block sizes on |
| `AesChain.EncryptConcat` | Mantids30/Net_Chains/socket_chain_aes.cpp:66-99 | enciphering in two transfers is enciphering at once, the second from where the first ended |
| `AesChain.EncryptTwice` | Mantids30/Net_Chains/socket_chain_aes.cpp:45-64 | deciphering at the same position undoes enciphering |
| `AesChain.OnTheWire` | Mantids30/Net_Chains/socket_chain_aes.cpp:66-99 | byte i of a transfer is combined with one byte of the block made with the vector of its number, and goes out as it is if and only if that byte is zero |
| `AesChain.HandshakeMasked` | Mantids30/Net_Chains/socket_chain_aes.cpp:110-141 | the vector goes out in the clear, and each byte of the header if and only if the block's byte is zero, or the block is shorter than the header |
| `AesChain.HandshakeOpens` | Mantids30/Net_Chains/socket_chain_aes.cpp:110-172 | with the same phase-1 key the header arrives as it was sent, for every block size |
| `AesChain.ChainSocket.constructor` | Mantids30/Net_Chains/socket_chain_aes.cpp:20-23 | a socket before its handshake |
| `AesChain.ChainSocket.SendHandshake` | Mantids30/Net_Chains/socket_chain_aes.cpp:110-141 | the transmitting half puts the vector and the masked header on the wire and starts its keystream at zero |
| `AesChain.ChainSocket.ReceiveHandshake` | Mantids30/Net_Chains/socket_chain_aes.cpp:146-172 | the receiving half succeeds exactly when the deciphered header begins with the magic bytes, and starts its keystream at zero |
| `AesChain.ChainSocket.PartialWrite` | Mantids30/Net_Chains/socket_chain_aes.cpp:66-99 | only the bytes the network took go out enciphered and use up keystream; a byte goes out as it is if and only if the keystream is zero there |
| `AesChain.ChainSocket.PartialRead` | Mantids30/Net_Chains/socket_chain_aes.cpp:45-64 | what arrives is deciphered from the position of the bytes received so far |
| `AesPeers.SendBoth` | Mantids30/Net_Chains/socket_chain_aes.cpp:110-141 | after both ends have sent their handshakes they are linked in both directions |
| `AesPeers.Receive` | Mantids30/Net_Chains/socket_chain_aes.cpp:146-172 | an end can read its handshake at any time, whatever the peer has sent behind it |
| `AesPeers.WriteSome` | Mantids30/Net_Chains/socket_chain_aes.cpp:66-99 | any partial write keeps the ends in step |
| `AesPeers.ReadSome` | Mantids30/Net_Chains/socket_chain_aes.cpp:45-64 | any partial read keeps them in step and returns the bytes sent next |
| `AesPeers.Exchange` | Mantids30/Net_Chains/socket_chain_aes.cpp:45-172 | for every interleaving of handshakes, partial writes and partial reads at both ends, what each has received is a prefix of what the other reported sent, and all of it once the wire is empty |
| `Acceptors.AdmissionMeaning` | Mantids30/Net_Sockets/acceptor_multithreaded.cpp:66-106 | a call admits its client if and only if the acceptor is open, below its limit and the address below its own; the count never saturates and a rejected client leaves no trace |
| `Acceptors.AdmissionSound` | Mantids30/Net_Sockets/acceptor_multithreaded.cpp:93-105 | admission keeps every count exact and never throws |
| `Acceptors.FinishSound` | Mantids30/Net_Sockets/acceptor_multithreaded.cpp:209-223 | a finishing client leaves the list once and its address's count by one; nothing throws |
| `Acceptors.EntersExactly` | Mantids30/Net_Sockets/acceptor_multithreaded.cpp:66-106 | on every reachable state a call admits its client if and only if the acceptor is open and both limits in force leave room, and waits if and only if it is open and full |
| `Acceptors.OnlyCallsEnter` | Mantids30/Net_Sockets/acceptor_multithreaded.cpp:66-223 | no other step lets a client in |
| `Acceptors.LimitsInForce` | Mantids30/Net_Sockets/acceptor_multithreaded.cpp:16-53 | on every run the limits in force are those set last |
| `Acceptors.DestructorEnds` | Mantids30/Net_Sockets/acceptor_multithreaded.cpp:146-223 | the client that leaves last wakes the sleeping destructor, which then ends |
| `Acceptors.MultiThreaded.constructor` | Mantids30/Net_Sockets/acceptor_multithreaded.cpp:128-144 | an acceptor with no clients |
| `Acceptors.MultiThreaded.IncrementIPUsage` | Mantids30/Net_Sockets/acceptor_multithreaded.cpp:108-118 | the count of one address up by one, from one, up to the largest 32-bit number |
| `Acceptors.MultiThreaded.DecrementIPUsage` | Mantids30/Net_Sockets/acceptor_multithreaded.cpp:120-126 | down by one and gone at zero; throws exactly for an address that is not there |
| `Acceptors.MultiThreaded.ProcessClient` | Mantids30/Net_Sockets/acceptor_multithreaded.cpp:66-106 | the locked region does what the admission rule says and never throws |
| `Acceptors.MultiThreaded.FinalizeThreadElement` | Mantids30/Net_Sockets/acceptor_multithreaded.cpp:209-223 | the locked region removes a listed client and its count, and never throws |
| `Acceptors.StepKeepsInv` | Mantids30/Net_Sockets/acceptor_multithreaded.cpp:66-184 | each locked region of each thread keeps the invariant |
| `Acceptors.EveryRun` | Mantids30/Net_Sockets/acceptor_multithreaded.cpp:66-223 | on every run counts equal listed clients and are never zero, nothing throws, no call sleeps past the shutdown broadcast, and the destructor neither sleeps on an empty list nor ends with a client or a count left |
| `Acceptors.InitialInv` | Mantids30/Net_Sockets/acceptor_multithreaded.cpp:128-131 | a new acceptor satisfies all three invariants |
| `Acceptors.LimitsHold` | Mantids30/Net_Sockets/acceptor_multithreaded.cpp:71-105 | with fixed limits both hold throughout every run |
| `Acceptors.NothingAdmittedAfterFinalized` | Mantids30/Net_Sockets/acceptor_multithreaded.cpp:86-91 | from the shutdown mark on clients only leave |
| `Acceptors.OneAcceptorMissesNoSlot` | Mantids30/Net_Sockets/acceptor_multithreaded.cpp:209-219 | with one call waiting at a time, one that sleeps unnotified sleeps because there is no room, also under changing limits |
| `Acceptors.TwoAcceptorsMissASlot` | Mantids30/Net_Sockets/acceptor_multithreaded.cpp:217 | with two waiting, for all limits, a notification that goes to a call that times out leaves the other asleep beside a free place |
| `Acceptors.SlotLawExactly` | Mantids30/Net_Sockets/acceptor_multithreaded.cpp:66-223 | for all limits: on no run with at most m calls waiting at a time is a free place missed, if and only if m is at most one |
| `SqlConnectors.SQLConnector.constructor` | Mantids30/DB/sqlconnector.h:19-22 | a connector without queries, its lock free |
| `SqlConnectors.SQLConnector.AttachQuery` | Mantids30/DB/sqlconnector.cpp:157-164 | attaches exactly while the connector is not closing |
| `SqlConnectors.SQLConnector.DetachQuery` | Mantids30/DB/sqlconnector.cpp:89-99 | takes the query out and notifies exactly when the set is empty |
| `SqlConnectors.SQLConnector.Close` | Mantids30/DB/sqlconnector.cpp:8-19 | closes, and is done exactly when no query is attached |
| `SqlConnectors.Query.SetSqlConnector` | Mantids30/DB/query.cpp:188-208 | takes the free lock, or times out and forgets the lock it did not get |
| `SqlConnectors.Query.Destroy` | Mantids30/DB/query.cpp:8-23 | detaches, then unlocks exactly a lock it holds |
| `SqlConnectors.CreateQuery` | Mantids30/DB/sqlconnector.cpp:55-79 | a query that cannot be made ready leaves the set and the lock as they were |
| `SqlConnectors.StepKeepsInv` | Mantids30/DB/sqlconnector.cpp:8-99 | each locked region and each step of a query's life keeps the invariant |
| `SqlConnectors.EveryRun` | Mantids30/DB/sqlconnector.cpp:8-164 | on every run the set is the attached queries not yet detached, the lock's owner is the one query that will unlock it, and the connector ends only on an empty set |
| `SqlConnectors.OneHolder` | Mantids30/DB/query.cpp:188-208 | at most one query holds the lock |
| `SqlConnectors.OwnerChanges` | Mantids30/DB/query.cpp:193-204 | the lock changes hands only from free to a query that gets it, and from a holder to free |
| `SqlConnectors.FailedNeverUnlocks` | Mantids30/DB/query.cpp:200-204 | a query that timed out or was turned away never owns nor unlocks the lock, to its end |
| `SqlConnectors.UnlimitedNeverTimesOut` | Mantids30/DB/query.cpp:193-196 | with an unlimited wait no query times out on any run |
| `SqlConnectors.NoneAttachesAfterFinalized` | Mantids30/DB/sqlconnector.cpp:157-164 | once the connector closes, queries only leave the set |
| `SqlConnectors.HistoryTells` | Mantids30/DB/query.cpp:188-208 | on every run the lock is owned by exactly the query that got it and whose destructor has not returned, and the history tells whether that query has detached |
| `SqlConnectors.ConnectorGoneLockExactly` | Mantids30/DB/sqlconnector.cpp:8-19 | when the connector is gone its lock is free if and only if every destructor that had detached a query with the lock has returned |
| `SqlConnectors.FreeAfterDestructors` | Mantids30/DB/query.cpp:8-23 | so it is free if every query's destructor had returned before the connector's began |
| `SqlConnectors.ConnectorGoneLockHeld` | Mantids30/DB/query.cpp:10-22 | a run in which the connector is gone while a query still holds its lock |
| `BlockReaders.ReadU8` | Mantids30/Net_Sockets/socket_stream_reader.cpp:33-43 | the next byte of the stream |
| `BlockReaders.Read64KBlockDelim` | Mantids30/Net_Sockets/socket_stream_reader.cpp:87-106 | fills one block and stops at the first place where the whole stream so far ends in the delimiter, looking back into earlier blocks |
| `BlockReaders.WholeBlocks` | Mantids30/Net_Sockets/socket_stream_reader.cpp:131 | among the sizes reached, the 32-bit sum wraps exactly at 0xFFFF0000, which a limit allows exactly from there on |
| `BlockReaders.ReadBlock32WAllocAndDelim` | Mantids30/Net_Sockets/socket_stream_reader.cpp:108-151 | the block is the shortest stream prefix ending in the delimiter; there is one if and only if it fits in whole blocks of the limit; the buffer stays within the limit; the size wraps only for limits from 0xFFFF0000 on |
| `StringLists.StringList.ToString` | Mantids30/Memory/a_stringlist.cpp:30-76 | the loops write the text of the list; one without commas and quotes is written as its elements joined by commas |
| `StringLists.FieldExactly` | Mantids30/Memory/a_stringlist.cpp:39-73 | an element is written as it stands if and only if it has neither a comma nor a quote, and between quotes otherwise |
| `StringLists.EscapeDoubles` | Mantids30/Memory/a_stringlist.cpp:57-67 | between them a quote stands twice and every other character once |
| `StringLists.EscapeConcat` | Mantids30/Memory/a_stringlist.cpp:57-67 | character by character |
| `StringLists.PlainListText` | Mantids30/Memory/a_stringlist.cpp:30-76 | a list without commas and quotes is its elements joined by commas |
| `StringLists.Encapsulate` | Mantids30/Memory/a_stringlist.cpp:52-70 | a quoted field, its quotes doubled |
| `StringLists.StringList.FromString` | Mantids30/Memory/a_stringlist.cpp:78-181 | the reader with backtracking ends on every input and gives the specified values |
| `StringLists.PlainValue` | Mantids30/Memory/a_stringlist.cpp:98-121 | one field read as plain |
| `StringLists.InsideQuotes` | Mantids30/Memory/a_stringlist.cpp:123-178 | the inner loop with all its exits, the one it does not take after a closing quote included |
| `StringLists.QuotedField` | Mantids30/Memory/a_stringlist.cpp:126-163 | a well-formed quoted field is read as its element |
| `StringLists.PlainTextRead` | Mantids30/Memory/a_stringlist.cpp:98-121 | a text without quotes is read as its fields between commas; only a comma at its end leaves nothing behind |
| `StringLists.UnclosedQuoteRead` | Mantids30/Memory/a_stringlist.cpp:168-179 | a text with one quote, at its start, is read as plain, unless it is that quote alone |
| `StringLists.BrokenQuoteRead` | Mantids30/Memory/a_stringlist.cpp:152-160 | so is one whose second quote is followed by another character, or doubled at the end |
| `StringLists.ByMistake` | Mantids30/Memory/a_stringlist.cpp:140-179 | inside the quote loop by mistake, the reader goes back exactly when the list lets it notice; otherwise it pushes a value that begins with what it had |
| `StringLists.MistakenRead` | Mantids30/Memory/a_stringlist.cpp:140-149 | staying in the quote loop does no harm if and only if the next element is unquoted and the mistake is noticed |
| `StringLists.RoundTripExactly` | Mantids30/Memory/a_stringlist.cpp:30-181 | reading back what was written restores a list if and only if it does not end in an empty element and each quoted element but the last is followed by an unquoted one from which the mistake is noticed |
| `StringLists.OneQuotedRestored` | Mantids30/Memory/a_stringlist.cpp:30-181 | every list with at most one quoted element and a nonempty last one is restored |
| `StringLists.TwoQuotedInARowLost` | Mantids30/Memory/a_stringlist.cpp:140-149 | a list with two quoted elements in a row never is |
| `Base64s.EncodeToBase64Obf` | Mantids30/Helpers/encoders.cpp:73-89 | combines every byte with the generator's and encodes |
| `Base64s.DecodeFromBase64Obf` | Mantids30/Helpers/encoders.cpp:18-71 | the loops decode the accepted characters in groups of four, a short last group included, and combine with the generator's bytes in order |
| `Base64s.ShiftsAndMasks` | Mantids30/Helpers/encoders.cpp:40-42 | the quotients and remainders of the model are the shifts and masks of the code on eight bits |
| `Base64s.LetterOfAlphabet` | Mantids30/Helpers/encoders.cpp:14 | the alphabet of section 4 of RFC 4648, in order |
| `Base64s.EncodedLength` | Mantids30/Helpers/encoders.cpp:287-310 | four characters for every three bytes and for what is left over |
| `Base64s.EncodedGroup` | Mantids30/Helpers/encoders.cpp:287-310 | each group of characters is the same number as its bytes, with missing bits zero and padding at the end |
| `Base64s.ObfuscatedByte` | Mantids30/Helpers/encoders.cpp:84 | each byte is combined with the generator's byte of its number |
| `Base64s.DecodedLength` | Mantids30/Helpers/encoders.cpp:33-68 | three bytes for four characters, and one less than the characters of a short last group |
| `Base64s.DecodedGroup` | Mantids30/Helpers/encoders.cpp:33-68 | each group of accepted characters decodes to the same number; bits left over at the end are dropped |
| `Base64s.GroupOfThree` | Mantids30/Helpers/encoders.cpp:40-42 | four six-bit values give the three bytes back, cut to eight bits |
| `Base64s.GroupsDecode` | Mantids30/Helpers/encoders.cpp:33-68 | groups and a last group of two or three characters give the bytes back, whatever stands for the missing ones |
| `Base64s.TakenAll` | Mantids30/Helpers/encoders.cpp:27-30 | the decoder takes exactly the characters before the padding |
| `Base64s.RoundTrip` | Mantids30/Helpers/encoders.cpp:18-89 | decoding an encoding with the same generator gives every byte string back |
| `JwtCaches.KeptMeaning` | Mantids30/DataFormat_JWT/jwt_cache.cpp:81-92 | what eviction should keep: the longest suffix whose bytes fit |
| `JwtCaches.EvictedMeaning` | Mantids30/DataFormat_JWT/jwt_cache.cpp:81-92 | with any excess in the counter, eviction reads the front of an empty queue if and only if the excess is above the limit, and otherwise keeps the longest suffix that fits beside it |
| `JwtCaches.EvictedTokens` | Mantids30/DataFormat_JWT/jwt_cache.cpp:81-92 | after eviction every cached payload is queued, and every queued one cached if no two are equal |
| `JwtCaches.Cache.constructor` | Mantids30/DataFormat_JWT/jwt.h:165-222 | an empty cache with the default limit, whose counter has no excess |
| `JwtCaches.Cache.EvictCache` | Mantids30/DataFormat_JWT/jwt_cache.cpp:81-92 | the loop, with the exact condition on which it runs into an empty queue |
| `JwtCaches.Cache.Add` | Mantids30/DataFormat_JWT/jwt_cache.cpp:63-79 | the queue becomes the longest fitting suffix of the old one and the payload; nothing happens when disabled |
| `JwtCaches.Cache.CheckToken` | Mantids30/DataFormat_JWT/jwt_cache.cpp:51-61 | a payload reported cached is in the queue |
| `JwtCaches.Cache.Clear` | Mantids30/DataFormat_JWT/jwt_cache.cpp:26-31 | empties queue and map and leaves the counter, whose bytes all become excess |
| `JwtCaches.Cache.SetEnabled` | Mantids30/DataFormat_JWT/jwt_cache.cpp:39-49 | switching off empties queue and map and leaves the counter |
| `JwtCaches.Cache.SetCacheMaxByteCount` | Mantids30/DataFormat_JWT/jwt_cache.cpp:6-18 | evicts under the new limit, with the same exact condition |
| `JwtCaches.KeptLater` | Mantids30/DataFormat_JWT/jwt_cache.cpp:63-92 | evicting early loses nothing that would be kept later |
| `JwtCaches.RunHolds` | Mantids30/DataFormat_JWT/jwt_cache.cpp:63-92 | however the locked halves of concurrent adds interleave, the queue is a suffix of everything added that lost nothing which would still fit, and the counter is its exact size |
| `JwtCaches.EvictionFailsExactly` | Mantids30/DataFormat_JWT/jwt_cache.cpp:6-92 | on every run of all calls the counter is the bytes queued and the bytes dropped uncounted by clearing and switching off, and eviction reads an empty queue if and only if the bytes dropped exceed the limit in force |
| `JwtCaches.NewCacheFailsExactly` | Mantids30/DataFormat_JWT/jwt_cache.cpp:6-92 | the same from a new cache |
| `JwtCaches.FifoExactly` | Mantids30/DataFormat_JWT/jwt_cache.cpp:63-92 | after the last eviction the queue is the longest fitting suffix of the whole history, no eviction touched an empty queue, and cached payloads are queued |
| `JwtCaches.CachedExactly` | Mantids30/DataFormat_JWT/jwt_cache.cpp:51-92 | after any run of adds, with duplicates or without, a payload is cached if and only if it was pushed and no equal payload was popped after its last push |

## Left out

- File-backed storage (`B_MMAP`, `FileMap`, the move to disk inside `append2`): operating system calls; the in-memory limit is taken as zero, as it is by default.
- Memory that cannot be allocated, and failures inside OpenSSL: every allocation and every block cipher call succeeds.
- The parse modes validator, connection end and direct: the first is a stub, the others hand everything on without searching.
- Multi-delimiter fragmentation independence: the list is searched in list order, so the code does not give it; what one write does is proved.
- Case-insensitive `find`, and `find` of an empty needle beyond what the code returns for it.
- Empty delimiters and target sizes of zero in the parser, and a chunk size of zero in the container: the source's loops make no progress on them.
- A write after the end of the stream, and subparsers that change their own delimiter or size between writes: the rules of a parser are fixed here.
- What `parse()` does with its window beyond reading its bytes; it is an arbitrary function of the tokens shown so far.
- PlaceholderDrivers.PostgreSQLEndsExactly: leaves open when the loop ends if a key that occurs is made of digits and at most one dollar sign (other than the dollar sign alone); that depends on how often its digits turn up in the running numbers.
- PlaceholderLaws.LawExactly: needs one character that is in no key, to keep parts of a query apart; `OneKeyLawExactly` does not.
- PlaceholderScans.QuestionLawExactly: needs the same; `OneKeyScanExactly` does not.
- PlaceholderNumbers.FilledBack: goes one way; where a key is followed by a digit the number read is another, but with ten keys or more other misreadings may make up for it by chance. What is read of each number is exact (`NumbersExactly`).
- The binding of values after the rewriting, and the numbering from $0 as the database sees it.
- SubParsers.SubParser.ReleaseSafePart: shows the bytes of the window as they stand in the chunks; a protocol that reads the window with `copyOut` or `toString` goes through the stored offsets, and after a displace that leaves two chunks gets other bytes, while one that streams it with `appendTo` does not.
- SubParsers.SubParser.ParseDirectDelimiter: the same window.
- DirectDelimiters.FoundLawExactly: is for containers whose limits let them hold the delimiter.
- SubParsers.SubParser.EndOfStream: the end in the two modes that the parser theorem covers.
- AesPeers.SendBoth: both ends send before either reads, which is the order of the code at each end; a block size of zero, for which no keystream ever grows, is excluded.
- AesChain.SideParams.CleanAESBlock: does not model the wiping of the old block, which in the code clears the size of its length field whatever the block's size.
- What an AES socket does before its handshake: it passes bytes through.
- Acceptors.EveryRun: an address is fixed with its client; the source asks the client's socket for it again when the client finishes. Starting and joining the accepting thread are not steps.
- SqlConnectors.EveryRun: a connector is not used after its destructor has ended, and a query is created and destroyed by one thread.
- SqlConnectors.Query.SetSqlConnector: the call as it comes back; that an unlimited wait may never come back is left open.
- Base64s.DecodeFromBase64Obf: counts positions without bound, where the code's position is an int and covers inputs up to 2 GB.
- The other codecs of `encoders.cpp`, the reader's two block functions without allocation, and the list's copy and locks: they add nothing to the properties above.
- JwtCaches.Cache.Add: the payloads held together fit in memory, so that the byte counter does not wrap.
- JwtCaches.FifoExactly: a fixed limit and no clearing or switching off during the run; what these do to the counter is `EvictionFailsExactly`, for runs on which the counter does not wrap.
- TLS, connecting, listening, logging, scheduling fairness and real time.
