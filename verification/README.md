# clickhouse-arrow, verified

This project models the core of a ClickHouse native-protocol client and proves what that
core promises: the wire stack as byte-stream machines, the load balancer under racing
threads, the type mapping between Arrow and ClickHouse with the array builders made from it,
record batches as native blocks, the code generated by `#[derive(Row)]`, settings, and the
splitting of batches. Code that changes state step by step is a class or a method with loops,
proved equal to a specification function; the theorems are about those functions and hold for
every input, every run and every interleaving.

What the specification functions themselves give is stated a second time without them: bytes in
`WireBytes`, `BlockLayout`, `ColumnLayout` and `ColumnReading`, types in `TypeForms` and `BuilderForms`, values in
`ValueLaws`, positions in `DerivePositions`, lookups by name in `DeriveRowLaws`.

| module | models |
|---|---|
| `LoadBalancer` | load counters packed in one atomic word, as interleaved atomic steps |
| `Chunk`, `ChunkRefinement` | chunk writer and polled chunk reader over a stream that delays and fragments |
| `Compression` | compressed frames and the polled decompressing reader |
| `Stack` | frames read through the chunk reader, end to end |
| `Wire` | variable-length integers and strings |
| `ArrowTypes`, `TypeLaws`, `TypeTrip` | the type mapping both ways, its laws and its round trip |
| `TypeForms`, `BuilderForms` | what values a mapped type holds, the form it has, and the builder of any type |
| `TypeBuilder` | type normalisation and the array builders |
| `Block`, `BlockLaws` | blocks, and the builder cache kept between them |
| `BlockLayout` | the bytes of a block |
| `Columns`, `ColumnLaws` | the values of a column: masks, cells, offsets, tuples |
| `ColumnLayout`, `ColumnReading` | the bytes a column is written as, and all it is read from |
| `BlockColumns` | blocks whose columns are laid out that way |
| `DeriveRow`, `DeriveRowLaws`, `DeriveRowTrip` | derived rows, a reference decoder, the round trip |
| `DerivePositions`, `DeriveFaults` | reading a row from columns of any names, by name and by position; why a row fails |
| `Settings`, `SettingsLaws` | printing and parsing, the list format, sending the difference |
| `Batches` | nested arrays with slices, rows of values, splitting |
| `ValueLaws` | the value at each row of an array, without slices |
| `Rename` | rename rules |
| `WireBytes` | numbers, chunks, frames and settings, byte by byte |
| `Common` | little-endian integers, arithmetic, sequences |

## What the proofs rest on

- The inner stream is any script of delays and arrivals of one or more bytes. Where a theorem
  needs more, it says so: chunk headers arrive whole (`WholeHeaders`), caller buffers are not
  empty. `Ticks` lists a stream as payload bytes and delays; `Quiet` and `Stack.Calm` say that no
  delay falls inside an integer that starts over with a new buffer at each poll, and it is
  proved that exactly then such reads are in place.
- Compression and the hash are any functions; `Lawful` asks that decompressing what was
  compressed, to the stated size, gives it back. The column codec of `Block` is any functions;
  the round trip of a block asks of each column sent that its own values come back.
  `Columns` models the concrete layout, and `ColumnReturnsIff` says exactly when a column
  comes back; slices, UUIDs and IPv4 addresses do not always. `BlockColumns` puts the two
  together for columns that are not nested.
- Leaf conversions of derived rows are any functions with an inverse. Arrow arrays, builders
  and record batches are modelled by their documented rules: offsets, validity, slices that
  leave list children alone, the checks of a new batch.

## What the proofs found

Where a promise does not hold for all inputs, the exact condition is proved, with a lemma for
the other side.

- A row query finishes with weight 6 after being assigned 1, and a row insert leaves 4 behind
  (`QueryRowsUnderflows`, `RestLoads`): the balancer's word wraps. The balancer is also made
  for two connections while the pool holds at least three (clickhouse-arrow/src/client/connection.rs:156-177).
- A chunk header that arrives in two pieces is misread (`CutHeaderMisread`,
  `CutHeaderSkipped`): a small chunk comes out right if and only if it is all zeros
  (`CutSmallChunk`). A read past a clean end never returns (`ReadExactPastEnd`). A delay inside
  an integer read loses the bytes before it (`IntegerReadTooLate`), so frames are in place if
  and only if no delay falls inside an integer (`FieldsInPlaceIff`).
- Slices of list columns are written with offsets into the whole child (`SlicedListReturnsIff`),
  so of a list column cut in two, as `split_record_batch` cuts it, both pieces read back only
  if its lists are empty (`CutListsLost`).
- Lists of tuples that hold no tuple do not read back (`EmptyTuplesLost`); UUIDs and IPv4
  addresses do not come back as written (`UuidReturnsIff`, `Ipv4ReturnsIff`).
- Blocks at revision 0 are written without the info the reader expects (`RevisionZeroRefused`,
  `RevisionZeroNoColumns`, `RevisionZeroFewColumns`). An unset overflow flag reads as set
  (`InfoReadsBack`).
- A read that breaks off between columns leaves their fields in the state (`BrokenOffLeaves`),
  and any batch read through that state differs (`LeftoverFieldsLeak`). A failed read ends the
  connection, but a read that an operation interrupts is dropped
  (clickhouse-arrow/src/client/internal.rs:205-236) with the state kept, and the end of a query
  clears the builders only (clickhouse-arrow/src/formats/arrow.rs:35-38). The dropped read also
  leaves the stream in the middle of the block; what is then read is not modelled.
- A derived row comes back exactly under `RoundTripIff`. A vector of structs without columns
  makes the generated reader loop for ever (`EmptyNestedDiverges`); a skipped flattened field
  with columns cannot be read (`StarvedLost`); a flat field whose name another field takes
  loses the row (`ShadowedRowLost`).
- Integer settings 0 and 1 come back as booleans (`IntSurvivesIff`), an empty key ends the
  list (`ListRoundTripIff`), negative legacy integers change (`LegacyIntIff`). The documentation
  puts strings on the wire from revision 54429 on; the code, followed here, does so from 54430.

## Model

| member | source | states |
|---|---|---|
| `LoadBalancer.LeastLoaded` | clickhouse-arrow/src/client/connection.rs:530-534 | the first of the lanes with the smallest reading |
| `LoadBalancer.AtomicLoad.Assign` | clickhouse-arrow/src/client/connection.rs:525-544 | which lane is picked, and the word after the weight is added to it |
| `LoadBalancer.AtomicLoad.Finish` | clickhouse-arrow/src/client/connection.rs:547-553 | the word after the weight is taken back |
| `LoadBalancer.RunBalanced` | clickhouse-arrow/src/client/connection.rs:525-553 | in every interleaving of loads, adds and subtractions, matched or not, the word is the 256-ary sum of the outstanding loads modulo the word size |
| `LoadBalancer.LanesExact` | clickhouse-arrow/src/client/connection.rs:525-553 | every lane reads exactly its outstanding load if and only if every outstanding load is between 0 and 255 |
| `LoadBalancer.RunAtHome` | clickhouse-arrow/src/client/connection.rs:525-544 | in every interleaving a homed operation touches one lane only, an existing one, and a keyed one the lane of its key |
| `LoadBalancer.SameConnection` | clickhouse-arrow/src/client/connection.rs:292-297 | the query and the insert that share a query id go to one existing connection in every interleaving |
| `LoadBalancer.CallCharges` | clickhouse-arrow/src/client.rs:442-490 | what each kind of call charges and gives back, which lane it goes to, and that every charge is for a lane just chosen |
| `LoadBalancer.ConnectionKept` | clickhouse-arrow/src/client.rs:456-487 | in every interleaving an operation keeps the connection first picked for it |
| `LoadBalancer.RestLoads` | clickhouse-arrow/src/client.rs:1097-1147 | once all calls have finished, each lane is left with 4 for every row insert and minus 5 for every row query |
| `LoadBalancer.RestZeroIff` | clickhouse-arrow/src/client.rs:1097-1147 | once all calls have finished, and while no lane is off by more than 127, the word is zero if and only if no lane has anything left over |
| `LoadBalancer.MatchedCallsReturnToZero` | clickhouse-arrow/src/client.rs:440-490 | calls whose finish takes back what their assigns added leave the word at zero |
| `LoadBalancer.FortyTwoCallsStayExact` | clickhouse-arrow/src/client/internal.rs:520-540 | with at most 42 unfinished matched calls every lane reads its load exactly, in every interleaving |
| `LoadBalancer.QueryRowsUnderflows` | clickhouse-arrow/src/client.rs:1600-1655 | one row query on an idle pool takes back 6 for the 1 it added: the word wraps and every lane reads at least 251 |
| `LoadBalancer.SpreadBound` | clickhouse-arrow/src/client/connection.rs:525-544 | unkeyed assigns of weight at most w raced by k threads, along a run that keeps all lanes below 256, keep the lanes within k * w of each other; for one thread, within w |
| `Chunk.ChunkWriter.FinishChunk` | clickhouse-arrow/src/client/chunk.rs:25-43 | the buffered bytes leave as one length-prefixed chunk; an empty buffer leaves nothing |
| `Chunk.ChunkWriter.PollWrite` | clickhouse-arrow/src/client/chunk.rs:46-56 | all bytes are taken into the buffer and nothing is sent |
| `Chunk.ChunkReader.PollRead` | clickhouse-arrow/src/client/chunk.rs:100-207 | the loop over headers and data does exactly the specified poll |
| `Chunk.ChunkReader.PollHeader` | clickhouse-arrow/src/client/chunk.rs:126-156 | one header: terminator, oversized chunk, delay or chunk length |
| `Chunk.ChunkReader.PollData` | clickhouse-arrow/src/client/chunk.rs:157-203 | one read of chunk data, and what of it goes to the caller |
| `ChunkRefinement.PollRefines` | clickhouse-arrow/src/client/chunk.rs:100-207 | every poll with room loses, repeats and invents nothing, success means a full buffer, every failure comes after all of the payload, and the state stays sound (no pending excess, a current chunk never at zero) |
| `ChunkRefinement.EmptyBufferFails` | clickhouse-arrow/src/client/chunk.rs:157-180 | an empty buffer in the middle of a chunk is reported as a broken stream |
| `ChunkRefinement.ReadExactNext` | clickhouse-arrow/src/client/chunk.rs:100-207 | an exact read under any fragmentation that keeps headers whole is a read of the plain payload |
| `ChunkRefinement.ReadExactPastEnd` | clickhouse-arrow/src/client/chunk.rs:139-145 | a read past the end delivers everything and ends as the stream ends; at a clean end it never returns |
| `ChunkRefinement.PollTicks` | clickhouse-arrow/src/client/chunk.rs:100-207 | a poll takes the payload bytes of the stream up to the first delay, or until its buffer is full, and leaves the stream right behind them |
| `ChunkRefinement.ReadIntNextIff` | clickhouse-arrow/src/client/chunk.rs:100-207 | an integer read, which starts over with a new buffer at each poll, is a read of the payload if and only if no delay falls inside its bytes; delays before them and around chunk headers do no harm, and whatever is read too far is what was lost |
| `ChunkRefinement.PendingDropsBytes` | clickhouse-arrow/src/client/chunk.rs:171-198 | the first poll of an integer read waits if and only if a delay comes in the stream before the last byte, and then exactly the bytes before the delay are lost: none if and only if the delay comes first |
| `ChunkRefinement.IntegerReadTooLate` | clickhouse-arrow/src/client/chunk.rs:171-198 | under any delays at all an integer read returns the payload as many bytes further on as came before a delay inside it, counted on the stream, and succeeds if and only if there is that much |
| `ChunkRefinement.CutHeaderMisread` | clickhouse-arrow/src/client/chunk.rs:126-137 | a chunk within the limit whose header is cut after k bytes, where those k bytes are not all zero: every poll within the size they show delivers the rest of the header before the data, and comes out right if and only if its data repeats the rest of the header |
| `ChunkRefinement.CutSmallChunk` | clickhouse-arrow/src/client/chunk.rs:126-137 | where the first piece shows the whole size (chunks below 256, 65536 or 2^24 bytes), the chunk comes out right if and only if all its bytes are 0 |
| `ChunkRefinement.CutHeaderSkipped` | clickhouse-arrow/src/client/chunk.rs:126-156 | where the first piece is all zeros it is taken for the end of a chunk and the next four bytes for a header: too large a size fails, and any other delivers the data k bytes late, right if and only if the data repeats every k bytes |
| `ChunkRefinement.WriterPayloadIff` | clickhouse-arrow/src/client/chunk.rs:25-61 | any writes with any chunk ends read back as the bytes written if and only if no chunk is longer than the reader accepts |
| `WireBytes.WriterSends` | clickhouse-arrow/src/client/chunk.rs:25-61 | what any writes and chunk ends send: every finished chunk that is not empty, in order, as its length in four bytes, its bytes and four zeros |
| `WireBytes.ChunkLimit` | clickhouse-arrow/src/client/chunk.rs:147-153 | a chunk reads back if and only if it has at most a hundred million bytes |
| `ChunkRefinement.FrameReadableIff` | clickhouse-arrow/src/client/chunk.rs:147-153 | one chunk of any length reads back if and only if it is within the limit |
| `Compression.CompressData` | clickhouse-arrow/src/compression.rs:45-72 | the bytes written for a block: checksum, method, stored size, size, payload; none without compression |
| `Compression.DecompressFrame` | clickhouse-arrow/src/compression.rs:129-201 | what a frame of given payload and sizes reads back as |
| `WireBytes.MethodCodes` | clickhouse-arrow/src/native/protocol.rs:457-465 | the codes of the methods: 0x02, 0x82 and 0x90 |
| `WireBytes.FrameBytes` | clickhouse-arrow/src/compression.rs:45-72 | the bytes of a frame: the two halves of the checksum, the code, the two lengths and the payload |
| `WireBytes.FrameRead` | clickhouse-arrow/src/compression.rs:129-201 | the outcome of reading a frame from any bytes, by the places of its parts: which fault comes first, the checksum over all from the code on, the content and the bytes left |
| `WireBytes.FrameLimits` | clickhouse-arrow/src/compression.rs:164-167 | a frame reads back if and only if its payload and nine more are at most 10^8 bytes and its contents 10^9 |
| `Compression.CompressRoundTripIff` | clickhouse-arrow/src/compression.rs:61-72 | a block reads back as itself, and nothing behind it is touched, if and only if it passes the size limits |
| `Compression.DecompressAcceptsIff` | clickhouse-arrow/src/compression.rs:129-201 | a frame is accepted if and only if its checksum covers exactly its method, sizes and payload, the sizes are allowed and the payload unpacks to the stated size |
| `Compression.DecompressionReader.PollRead` | clickhouse-arrow/src/compression.rs:260-314 | the poll over fields, future and buffer is the specified step |
| `Compression.PollServes` | clickhouse-arrow/src/compression.rs:260-314 | a poll with room loses and repeats nothing and serves at least one byte when it serves; position stays within the block; before an error exactly one of reader and future is present |
| `Compression.DriveDelivers` | clickhouse-arrow/src/compression.rs:260-314 | any run: what was delivered and what is left make up the concatenated frames, and the one error comes after all of them |
| `Compression.DriveEnds` | clickhouse-arrow/src/compression.rs:260-314 | any run of more polls with room than there are bytes to deliver and delays delivers everything and reports the error that ends the frames |
| `Compression.AfterErrorEndOfFile` | clickhouse-arrow/src/compression.rs:310-314 | after an error every later poll is an empty success |
| `Compression.FramesReadBack` | clickhouse-arrow/src/compression.rs:129-201 | written frames read back whole and in order, empty ones included, and end with a cut frame, never cleanly |
| `Compression.WrittenStreamDelivers` | clickhouse-arrow/src/compression.rs:249-314 | opened on written frames, any run delivers what was written, all of it before the one possible error |
| `Stack.ReadFrameRefines` | clickhouse-arrow/src/compression.rs:133-185 | reading a frame through the chunk reader is reading it from the plain payload, and takes exactly the frame, under every delay that does not fall inside an integer of the header (with buffers that are kept, every delay) |
| `Stack.ReadsExactIff` | clickhouse-arrow/src/compression.rs:133-178 | any list of fields read one after the other comes out as the consecutive pieces of the payload and leaves exactly the rest if and only if no delay falls inside an integer read with fresh buffers |
| `Stack.EndToEnd` | clickhouse-arrow/src/client/chunk.rs:100-207 | payloads compressed, written in any pieces with chunk ends anywhere, fragmented anyhow between chunk headers, come out unchanged and in order and use up the stream to its last byte, under every delay that does not fall inside an integer of a frame header |
| `Stack.FieldsInPlaceIff` | clickhouse-arrow/src/compression.rs:133-178 | of anything so sent, the fields of all frames are read from their own bytes, to the last one, if and only if no delay falls inside an integer of a frame header; with buffers that are kept they always are |
| `Wire.Reader.ReadVarUint` | clickhouse-arrow/src/io.rs:18-29 | the loop reader is the recursive decoding of at most nine bytes |
| `Wire.Reader.TryGetVarUint` | clickhouse-arrow/src/io.rs:103-147 | the reader with the first byte unrolled is the same decoding, on every byte sequence |
| `Wire.WriteVarUint` | clickhouse-arrow/src/io.rs:61-76 | the buffer-filling writer gives the recursive encoding |
| `Wire.Reader.ReadString` | clickhouse-arrow/src/io.rs:31-47 | a length within the limit, then that many bytes |
| `Wire.VarintRoundTripIff` | clickhouse-arrow/src/io.rs:18-29 | an integer followed by anything reads back modulo 2^63, as itself if and only if it fits 63 bits, and exactly its bytes are consumed |
| `Wire.StringRoundTripIff` | clickhouse-arrow/src/io.rs:31-47 | a string followed by anything reads back if and only if it is within the limit |
| `WireBytes.VarintIs` | clickhouse-arrow/src/io.rs:61-76 | the bytes of an integer of up to 63 bits: its base-128 digits, lowest first, no more than it has, with the top bit on all but the last |
| `WireBytes.StringReads` | clickhouse-arrow/src/io.rs:31-47 | what a string of any announced length reads as: too long, cut off, or its bytes |
| `WireBytes.StringLimit` | clickhouse-arrow/src/io.rs:31-47 | strings are read up to 2^30 bytes and no further |
| `Wire.DecodeSlotsExtends` | clickhouse-arrow/src/io.rs:18-29 | a read that succeeds is not affected by the bytes behind it |
| `ArrowTypes.GeoConverts` | clickhouse-arrow/src/arrow/types.rs:363-382 | a geo type converts as the nested tuple type it stands for |
| `TypeLaws.ToChWellNested` | clickhouse-arrow/src/arrow/types.rs:205-344 | for all inputs and options no Nullable stands directly around a Nullable, Array, Map or LowCardinality at any depth |
| `TypeLaws.StrictOnlyRejects` | clickhouse-arrow/src/arrow/types.rs:262-291 | the strict conversion succeeds if and only if the other does and nothing in the type is refused, and then gives the same type |
| `TypeTrip.TripIsCanon` | clickhouse-arrow/src/arrow/types.rs:205-482 | outside strict mode the trip to Arrow and back gives the canonical form of every convertible type; what Arrow types of any other origin become is `TypeForms.ToChCarries` |
| `TypeTrip.TripFixedIff` | clickhouse-arrow/src/arrow/types.rs:363-482 | a convertible type is a fixed point of the trip if and only if it is canonical |
| `TypeTrip.TripIdempotentIff` | clickhouse-arrow/src/arrow/types.rs:363-482 | a second trip changes nothing if and only if no dictionary of nulls is buried in the type and, unless strings are read as strings, it holds no object and no enum: those become text, and text becomes binary |
| `TypeTrip.LegalTripIdempotent` | clickhouse-arrow/src/arrow/types.rs:205-344 | for every type ClickHouse accepts, with strings read as strings, the trip is idempotent |
| `TypeTrip.BuriedNullsLost` | clickhouse-arrow/src/arrow/types.rs:205-344 | a nullable enum in a dictionary loses its nulls on the second trip |
| `TypeForms.ScalarToChKeeps` | clickhouse-arrow/src/arrow/types.rs:215-336 | every Arrow scalar becomes one of the same values: width and sign of integers (booleans as one unsigned byte), digits and scale of decimals, tick and zone of times, text as text and bytes as bytes; none if and only if it is Null, Float16, Union or RunEndEncoded |
| `TypeForms.ToChCarries` | clickhouse-arrow/src/arrow/types.rs:205-344 | the same at every depth, with lists of every kind, dictionaries, structs in order, maps keys first, and where nullability goes; outside strict mode a type converts if and only if all its scalars have a counterpart and its maps two fields |
| `TypeForms.ToChBlames` | clickhouse-arrow/src/arrow/types.rs:205-344 | a conversion that fails blames what is there: an unsupported scalar, a malformed map, or the strict mode |
| `TypeForms.ScalarHeld` | clickhouse-arrow/src/arrow/types.rs:368-411 | what each ClickHouse scalar is held as: blocks of its size, all digits with the scale, instants in the coarsest unit that tells their ticks apart, text or bytes as the options say; none if and only if a precision is above 9 |
| `TypeForms.ToArrowFormed` | clickhouse-arrow/src/arrow/types.rs:363-482 | a type converts if and only if it is accepted, and then has this form at every depth: dictionaries keyed by Int32, those of enums by Int8 or Int16 over text; plain lists of `Item` fields; struct fields numbered by place; unsorted maps whose entries and keys are never null, the key before the value |
| `TypeForms.ToArrowBlames` | clickhouse-arrow/src/arrow/types.rs:363-482 | a conversion that fails blames a precision above 9, Nullable around Nullable or a geo type, or the strict mode |
| `TypeForms.NormalizedMeans` | clickhouse-arrow/src/arrow/types.rs:139-151 | normalised against text or bytes of Arrow, a string or binary type means what the Arrow type does; against anything else it stays |
| `TypeForms.FixedNormalized` | clickhouse-arrow/src/arrow/types.rs:139-151 | which fixed-size types change, to which size, and that no other scalar does |
| `TypeForms.HintArray` | clickhouse-arrow/src/arrow/types.rs:152-158 | normalisation goes into lists of every kind but those of a fixed length |
| `TypeForms.HintDictionary` | clickhouse-arrow/src/arrow/types.rs:159-171 | it goes into dictionaries, against plain text or bytes too |
| `TypeForms.HintTuple` | clickhouse-arrow/src/arrow/types.rs:172-193 | it goes into tuples item by item, as far as the struct has fields |
| `TypeForms.HintNullable` | clickhouse-arrow/src/native/types.rs:166-173 | nullable types are normalised inside and stay nullable; of a dictionary, what is in it |
| `TypeForms.HintLeaves` | clickhouse-arrow/src/arrow/types.rs:194-198 | maps, enums and geo types stay as they are, and so do scalars against anything that is not one |
| `TypeBuilder.NormalizeTuple` | clickhouse-arrow/src/arrow/types.rs:172-193 | the loop that copies a tuple only once an item changes gives the item-wise result, or nothing when no item changes |
| `TypeBuilder.NormalizeSettles` | clickhouse-arrow/src/arrow/types.rs:137-198 | normalising a normalised type changes nothing |
| `TypeBuilder.NormalizeKeepsForm` | clickhouse-arrow/src/arrow/types.rs:137-198 | where every struct has a field for each tuple item, normalisation keeps shape and nullability at every depth and changes string and binary leaves only |
| `TypeBuilder.ShortStructCutsTuple` | clickhouse-arrow/src/arrow/types.rs:172-193 | against a struct with fewer fields a changed tuple loses items |
| `TypeBuilder.BuilderFitsIff` | clickhouse-arrow/src/arrow/builder.rs:131-288 | outside strict mode, for every type without geo types and with valid precisions, a builder of the normalised type exists, and makes exactly the announced Arrow type if and only if strings are read as strings or no string is inside a map; which type is announced is `TypeForms.ToArrowFormed` |
| `BuilderForms.ScalarBuilt` | clickhouse-arrow/src/arrow/builder.rs:131-288 | the builder of every scalar against any Arrow type: what it makes, its zone included, or why there is none: a scale of more than all digits, a negative width, a precision above 9 |
| `BuilderForms.TryNewBuilds` | clickhouse-arrow/src/arrow/builder.rs:131-288 | for every type against every Arrow type there is a builder if and only if one of the stated form can be, and it is that |
| `TypeBuilder.RawBuilds` | clickhouse-arrow/src/arrow/builder.rs:131-288 | under the same conditions and without normalisation the builder makes the announced type if and only if strings are read as strings or there is no string |
| `Block.Write` | clickhouse-arrow/src/arrow/block.rs:129-195 | the loops write the specified block, or nothing if some column cannot be written; `BlockLayout.WrittenBlockLaid` and `BlockWritableIff` say which bytes, and when |
| `Block.ArrowDeserializer.Read` | clickhouse-arrow/src/arrow/block.rs:271-342 | the column loop over the shared state is the specified read, state included, on failures too |
| `Block.ArrowDeserializer.ReadBlockInfo` | clickhouse-arrow/src/native/block_info.rs:51-71 | the loop over info fields |
| `BlockLayout.WrittenBlockLaid` | clickhouse-arrow/src/arrow/block.rs:129-195 | the bytes of a written block: the info, fixed, unless the revision is 0; the counts; then for every column its name, the name of the header's type or else of its Arrow type's, one byte 0 exactly from revision 54454 on, and its values if it has rows |
| `BlockLayout.BlockWritableIff` | clickhouse-arrow/src/arrow/block.rs:153-192 | a block can be written if and only if every column has a type to go as and values that fit it |
| `BlockLayout.InfoReads` | clickhouse-arrow/src/native/block_info.rs:51-71 | block info with any fields in any order is read for what it means: the last flag, any byte but 0 as set, and the last bucket |
| `BlockLayout.HeadRead` | clickhouse-arrow/src/arrow/block.rs:296-316 | the head of a column: an unknown type name, a type without an Arrow type and a missing byte are told apart; else the field has the name and the Arrow type |
| `BlockLayout.ColumnFaults` | clickhouse-arrow/src/arrow/block.rs:318-334 | a column with rows fails only for want of a builder or if its values fail under its own; values read empty the builder, values that fail stay in it, and no other builder changes |
| `BlockLayout.BatchEmpties` | clickhouse-arrow/src/arrow/block.rs:340-341 | a batch that is put together, well or badly, leaves no field and no array in the state |
| `BlockLayout.HeadSkipsCustom` | clickhouse-arrow/src/arrow/block.rs:312-316 | reading a column head from revision 54454 on takes exactly one byte more, whatever it is |
| `BlockLayout.ReadBatchSound` | clickhouse-arrow/src/arrow/block.rs:271-342 | whatever the bytes and the state, a batch that is read has a column for each field, of its type and of the batch's rows, with nulls only where the field allows them |
| `BlockLayout.BuildersMakeTypes` | clickhouse-arrow/src/arrow/block.rs:318-334 | a batch with rows is read only through builders that make the types of its fields |
| `BlockLaws.InfoReadsBack` | clickhouse-arrow/src/native/block_info.rs:20-80 | block info reads back with its bucket, and with the overflow flag set whatever it was: unset is written as 2 |
| `BlockLaws.SharedIsFresh` | clickhouse-arrow/src/arrow/block.rs:271-342 | for any bytes: a block a new state reads, a drained state whose builders are those the block needs reads the same |
| `BlockLaws.SharedStream` | clickhouse-arrow/src/arrow/deserialize.rs:33-76 | a stream of one schema, blocks without rows included, reads through one state as through a new state per block |
| `BlockLaws.BlockRoundTrip` | clickhouse-arrow/src/arrow/block.rs:129-195 | a written block whose columns come back from their own values reads back as the batch sent, with the announced types, and the bytes behind are left |
| `BlockLaws.QueryRoundTrip` | clickhouse-arrow/src/formats/arrow.rs:33-83 | all blocks of a query whose columns come back from their own values, through one state, give the batches sent |
| `BlockLaws.CacheKeepsUp` | clickhouse-arrow/src/arrow/block.rs:318-327 | a column with rows finds its builder at its own position, cached or pushed exactly there, and touches no other |
| `BlockLaws.BrokenOffLeaves` | clickhouse-arrow/src/arrow/block.rs:288-337 | a block whose bytes end behind any number of its columns fails, and leaves the fields and arrays of exactly those columns in the state |
| `BlockLaws.LeftoverFieldsLeak` | clickhouse-arrow/src/arrow/block.rs:337-341 | a batch with columns comes out the same through a state that holds fields or arrays as through one that does not if and only if it holds none |
| `BlockLaws.LeftoversFirst` | clickhouse-arrow/src/arrow/block.rs:337-341 | the fields and arrays left in the state come first in the next batch |
| `BlockLaws.RevisionZeroRefused` | clickhouse-arrow/src/arrow/block.rs:138-145 | at revision 0 no block info is written but it is read all the same: three or more columns are refused |
| `BlockLaws.RevisionZeroNoColumns` | clickhouse-arrow/src/arrow/block.rs:138-145 | without columns the read takes bytes from behind the block, for any decoders that do not lengthen what they read |
| `BlockLaws.RevisionZeroFewColumns` | clickhouse-arrow/src/arrow/block.rs:138-145 | one or two columns, with any number of rows, are refused when the first name and type name are ASCII without control bytes, of 1 to 127 and 3 to 127 bytes |
| `BlockLaws.RevisionZeroOneColumn` | clickhouse-arrow/src/arrow/block.rs:138-145 | one column with a name of three bytes or more, under 128 rows: refused |
| `BlockLaws.RevisionZeroTwoColumns` | clickhouse-arrow/src/arrow/block.rs:138-145 | two columns, under 128 rows, the first name ASCII and of three bytes or more: refused |
| `BlockLaws.NoColumnsRefused` | clickhouse-arrow/src/arrow/block.rs:271-342 | rows without columns are written but never read |
| `BlockColumns.SameLayout` | clickhouse-arrow/src/arrow/types.rs:137-198 | printing, arriving and normalising a type of the concrete layout do not change its layout |
| `BlockColumns.ConcreteReturnsIff` | clickhouse-arrow/src/arrow/block.rs:318-334 | a column of the concrete layout comes back in a block if and only if it does on its own |
| `BlockColumns.ConcreteBlockIff` | clickhouse-arrow/src/arrow/block.rs:129-342 | a block of numbers, identifiers and texts, nullable or not, reads back as the batch sent, and leaves the bytes behind it, if and only if the values of every column come back from their bytes |
| `Columns.Filler.FillFixed` | clickhouse-arrow/src/arrow/deserialize.rs:394-500 | the fill loop appends the specified cells, nulls by mask, enums by name |
| `Columns.Filler.FillTexts` | clickhouse-arrow/src/arrow/deserialize.rs:443-453 | the fill loop for strings |
| `ColumnLayout.WrittenColumnLaid` | clickhouse-arrow/src/arrow/serialize.rs:184-263 | the bytes of a written column at every depth: a byte a row for nulls, ends of lists and of maps in eight bytes, fixed-width cells with zeros for nulls, texts with their lengths, tuples field by field |
| `ColumnLayout.NameWritesLast` | clickhouse-arrow/src/arrow/serialize/enums.rs:402-420 | an enum name is written as the number of its last pair |
| `ColumnLayout.NumberReadsFirst` | clickhouse-arrow/src/arrow/deserialize.rs:474-510 | an enum number is read as the name of its first pair |
| `ColumnReading.DecodeIff` | clickhouse-arrow/src/arrow/deserialize.rs:394-588 | from any bytes, well written or not, a column is read as an array if and only if the bytes spell it: every mask byte but 0 a null, ends ascending and below 2^31, each cell by its form, texts one behind another, and exactly the rest left |
| `ColumnLaws.ColumnReturnsIff` | clickhouse-arrow/src/arrow/deserialize.rs:394-588 | a column that can be written, written and read back, is the same array, with the bytes behind it left, if and only if nulls stand only under a mask, offsets cover their children exactly at every depth, every cell survives its form and no tuple is without rows |
| `ColumnLaws.SlicedListReturnsIff` | clickhouse-arrow/src/arrow/serialize/list.rs:161-196 | the bytes written for a slice of a list column read back as the slice, with the bytes behind left, if and only if no row of it is null, the whole child comes back and the child holds no value outside the slice |
| `ColumnLaws.CutListsLost` | clickhouse-arrow/src/arrow/serialize/list.rs:161-196 | the bytes of the two pieces a list column is cut into both read back as the pieces if and only if its lists hold no value at all, no row is null and the empty child comes back |
| `ColumnLaws.EmptyTuplesLost` | clickhouse-arrow/src/arrow/deserialize/tuple.rs:80-101 | lists that hold no tuple, written and read back, are the same lists if and only if the tuple is an Int32 and a String and no list is null |
| `ColumnLaws.UuidReturnsIff` | clickhouse-arrow/src/arrow/serialize/primitive.rs:182-198 | a UUID comes back if and only if its halves are equal |
| `ColumnLaws.Ipv4ReturnsIff` | clickhouse-arrow/src/arrow/deserialize/binary.rs:64-70 | an IPv4 address comes back if and only if it is a palindrome |
| `ColumnLaws.EnumReturnsIff` | clickhouse-arrow/src/arrow/deserialize.rs:474-510 | an enum name comes back if and only if the first pair of its number is its own |
| `ColumnLaws.PlainReturns` | clickhouse-arrow/src/arrow/deserialize.rs:121-157 | plain values and 256-bit integers always come back |
| `DeriveRow.SerializeRow` | clickhouse-arrow-derive/src/row.rs:267-336 | the generated field loop is the specified serialization |
| `DeriveRow.SerializeNested` | clickhouse-arrow-derive/src/row.rs:286-319 | the generated loops over rows and columns give the transposition, with names from the first row or, without rows, from column_names |
| `DeriveRow.DeserializeRow` | clickhouse-arrow-derive/src/row.rs:633-648 | the generated phases (pull, match, rebuild, defaults, build) are the specified deserialization |
| `DeriveRow.PullFlattened` | clickhouse-arrow-derive/src/row.rs:542-567 | find and swap_remove for every flattened column, in order |
| `DeriveRow.MatchColumns` | clickhouse-arrow-derive/src/row.rs:569-577 | the loop matching columns by name, then by position, is the specified match; which columns it gives each field is `DerivePositions.MatchShares` |
| `DeriveRow.RebuildNested` | clickhouse-arrow-derive/src/row.rs:465-482 | the endless loop over column iterators: rows until one iterator is done; with no column, divergence unless the inner struct fails |
| `DeriveRow.SerNamed` | clickhouse-arrow-derive/src/row.rs:213-236 | a serialized row has exactly the announced column names, in order |
| `DeriveRow.RowsWritten` | clickhouse-arrow-derive/src/row.rs:295-304 | nested rows are serialized one by one and the generated length assertion never fails |
| `DeriveRow.CountIsNames` | clickhouse-arrow-derive/src/row.rs:191-211 | COLUMN_COUNT, where there is one, is the number of column names |
| `DeriveRowLaws.MatchSplits` | clickhouse-arrow-derive/src/row.rs:569-577 | matching all columns does to each field what its own columns do alone |
| `DeriveRowLaws.Decodes` | clickhouse-arrow-derive/src/row.rs:390-649 | reading distinct columns whose names are known at every level agrees with a reference decoder that looks columns up by name, whatever their order, through swap_remove, arrival order and every level of nesting |
| `DeriveRowLaws.OrderIrrelevant` | clickhouse-arrow-derive/src/row.rs:390-649 | any permutation of known, distinct columns gives the same row, or none either way |
| `DeriveRowLaws.EachColumnOnce` | clickhouse-arrow-derive/src/row.rs:541-577 | every column whose name is known is taken by one field and no other: the shares of the fields add up to all columns |
| `DerivePositions.MatchShares` | clickhouse-arrow-derive/src/row.rs:417-577 | matching columns of any names, unknown and repeated ones included, does to each field what its share does alone: the columns whose name it is the first to take, and, where no field takes the name, those at its positions; besides it fails only on a column that is nobody's where the struct denies unknown fields |
| `DerivePositions.ReadsAnyColumns` | clickhouse-arrow-derive/src/row.rs:390-649 | reading any columns at all into a struct of flat, nested and skipped fields gives exactly the row made of the shares: a flat field takes one column at most, a nested one arrays of one length and a row from every cross section, and without these the row fails |
| `DerivePositions.PositionsDecide` | clickhouse-arrow-derive/src/row.rs:417-540 | columns whose names no field takes go to the fields in consecutive blocks, one column to a flat field and as many as its struct has names to a nested one, each block starting at the sum of the counts before it; the row is made of the blocks, and further columns are dropped or refused |
| `DerivePositions.UncountedPanics` | clickhouse-arrow-derive/src/row.rs:435-440 | a vector of structs with a flattened field below panics when it is written and when any columns are read, unless it is skipped |
| `DeriveFaults.MatchBlames` | clickhouse-arrow-derive/src/row.rs:426-528 | if columns do not match, the first that does not fit says why: a duplicate, a value that does not convert, no array, another length, or a column that is nobody's |
| `DeriveFaults.SerBlames` | clickhouse-arrow-derive/src/row.rs:267-336 | a row is refused only for a value that does not convert or a vector whose columns cannot be counted, at any depth |
| `DeriveRowTrip.RoundTrip` | clickhouse-arrow-derive/src/row.rs:267-649 | any arrangement of the columns a row was written as, for every mixture of flat, nested, flattened and skipped fields, reads as the row that struct and row alone determine: defaults where fields are skipped, and no row at all if a vector has no columns or a skipped flattened field announces some |
| `DeriveRowTrip.RoundTripIff` | clickhouse-arrow-derive/src/row.rs:267-649 | it reads as the row written if and only if skipped fields hold their defaults and announce no columns, and every vector written has columns, at every level |
| `DeriveRowTrip.RefReads` | clickhouse-arrow-derive/src/row.rs:541-615 | the reference decoder makes of what was written exactly what comes back of the row, or nothing |
| `DeriveRowTrip.NestedNeedsColumns` | clickhouse-arrow-derive/src/row.rs:465-482 | a nested field none of whose columns arrive gives no row, whatever else arrives under names that some field takes |
| `DeriveRowTrip.EmptyNestedDiverges` | clickhouse-arrow-derive/src/row.rs:465-482 | reading a row with a vector whose struct has no columns never ends, or fails as the inner struct fails to be built from nothing, when every vector before it comes back and the flattened fields have their columns |
| `DeriveRowTrip.EmptyVectorLost` | clickhouse-arrow-derive/src/row.rs:465-482 | a vector of structs without fields is written as nothing, and reading it never ends |
| `DeriveRowTrip.SkippedFlattenLost` | clickhouse-arrow-derive/src/row.rs:547-567 | a flattened field needs all its columns even when it is skipped |
| `DeriveRowTrip.StarvedLost` | clickhouse-arrow-derive/src/row.rs:547-567 | no arrangement of the columns of a row reads when a skipped flattened field announces columns: a missing field is reported |
| `DeriveRowTrip.MissingReported` | clickhouse-arrow-derive/src/row.rs:579-645 | a flat field without a default whose column is missing is reported before any flattened struct is read, whatever that struct's columns hold |
| `DeriveRowTrip.ShadowedFlatLost` | clickhouse-arrow-derive/src/row.rs:441-452 | a flat field without a default, whose name an earlier nested prefix or a flattened struct takes, leaves no row from any columns whose names some field takes |
| `DeriveRowTrip.ShadowedRowLost` | clickhouse-arrow-derive/src/row.rs:441-452 | a row with such a field is lost, however the columns it was written as are arranged |
| `DeriveRowTrip.ShadowedByPosition` | clickhouse-arrow-derive/src/row.rs:530-577 | a column of a name that no field takes still reaches such a field by position |
| `Settings.SettingList.AddSetting` | clickhouse-arrow/src/settings.rs:373-383 | the first setting of the key changes its value and keeps its flags; a new key goes to the end |
| `Settings.SettingList.EncodeWithIgnore` | clickhouse-arrow/src/settings.rs:461-475 | the loop encodes exactly the settings the server does not have with that value |
| `Settings.SettingList.DecodeInto` | clickhouse-arrow/src/settings.rs:490-503 | the loop until an empty key is the recursive decoding |
| `Settings.IntSurvivesIff` | clickhouse-arrow/src/settings.rs:295-315 | an integer comes back as itself if and only if it is neither 0 nor 1 |
| `Settings.BoolSurvives` | clickhouse-arrow/src/settings.rs:295-315 | a boolean always comes back |
| `Settings.TextSurvivesIff` | clickhouse-arrow/src/settings.rs:295-315 | a text comes back if and only if it reads as neither a boolean, an integer nor a float |
| `Settings.ParseSettlesIff` | clickhouse-arrow/src/settings.rs:295-315 | what came back once comes back again unless it is the integer 0 or 1, from a spelling like 00 |
| `Settings.LegacyIntIff` | clickhouse-arrow/src/settings.rs:198-212 | a legacy integer reads back if and only if it is not negative |
| `Settings.SettingReadsBack` | clickhouse-arrow/src/settings.rs:251-269 | one modern setting reads back printed and parsed, custom ones untouched |
| `WireBytes.ShowSpells` | clickhouse-arrow/src/settings.rs:143-152 | how values are spelled: true and false, decimal numbers, texts as they are |
| `WireBytes.ParseMeans` | clickhouse-arrow/src/settings.rs:295-315 | what every text is taken for: true and 1, false and 0 in any case of letters, else one sign at most and digits within 64 bits, else a float, else itself |
| `WireBytes.LegacySettingBytes` | clickhouse-arrow/src/settings.rs:198-212 | the bytes of a setting up to revision 54429, and that texts and floats are refused |
| `WireBytes.SettingBytes` | clickhouse-arrow/src/settings.rs:213-234 | the bytes of a setting after it: key, flags 1 and 2, spelling; custom values that are not texts are refused |
| `WireBytes.OtherFlagsIgnored` | clickhouse-arrow/src/settings.rs:251-269 | of the flags read only the two lowest bits count |
| `WireBytes.DeltaKeeps` | clickhouse-arrow/src/settings.rs:461-475 | the settings sent are exactly those whose value is not the first the server has for the key, flags aside, once for each place and in order |
| `SettingsLaws.EncodeOkIff` | clickhouse-arrow/src/settings.rs:195-234 | a list is encoded if and only if the format has room for each value |
| `SettingsLaws.ListRoundTripIff` | clickhouse-arrow/src/settings.rs:490-503 | a list with its terminator reads back if and only if no key is empty |
| `SettingsLaws.DeltaExactIff` | clickhouse-arrow/src/settings.rs:461-475 | the difference laid over the server settings is the full list laid over them, for every key, if and only if each value sent survives being printed |
| `SettingsLaws.DeltaRoundTripIff` | clickhouse-arrow/src/settings.rs:461-503 | the same from the bytes |
| `SettingsLaws.SurvivesIff` | clickhouse-arrow/src/settings.rs:251-315 | which settings survive: custom ones, booleans, integers but 0 and 1, texts that read as nothing else |
| `SettingsLaws.AddedGives` | clickhouse-arrow/src/settings.rs:403-414 | setting a key gives it the value and changes no other key |
| `SettingsLaws.AddedDistinct` | clickhouse-arrow/src/settings.rs:373-383 | keys stay distinct |
| `Batches.SplitRecordBatch` | clickhouse-arrow/src/arrow/utils.rs:49-70 | the splitting loop gives the specified pieces |
| `Batches.SplitKeepsRows` | clickhouse-arrow/src/arrow/utils.rs:49-110 | the rows of the pieces, one after another, are the rows of the whole, and all pieces convert if and only if the whole does |
| `Batches.ZeroLosesRowsIff` | clickhouse-arrow/src/arrow/utils.rs:50-52 | a maximum of zero keeps the rows if and only if there are none |
| `Batches.SplitSizes` | clickhouse-arrow/src/arrow/utils.rs:54-67 | ceil(rows / max) pieces, all but the last of exactly max rows, the last of the rest |
| `Batches.SliceCommutes` | clickhouse-arrow/src/arrow/utils.rs:118-364 | any slice of an array that converts, converts to that slice of the values, through lists, maps, records and dictionaries; which values is `ValueLaws.ValueGiven` |
| `ValueLaws.ValueGiven` | clickhouse-arrow/src/arrow/utils.rs:118-364 | row i of an array that converts has the value read off validity, offsets, indices and cells: a list its child's values from one offset to the next, a map its keys' and its values', a record one value a field in order, a dictionary the cell its index names, an enum the first pair of the name, a null row null |
| `ValueLaws.RowGiven` | clickhouse-arrow/src/arrow/utils.rs:83-110 | place k of row i of a batch is the value of column k at row i |
| `ValueLaws.WholeConvertsIff` | clickhouse-arrow/src/arrow/utils.rs:118-364 | an array converts if and only if every leaf that a row which is not null reaches has a conversion under its hint |
| `Batches.BadSlice` | clickhouse-arrow/src/arrow/utils.rs:250-314 | an array that does not convert has a slice that does not, among any that cover it |
| `Batches.RowsSlice` | clickhouse-arrow/src/arrow/utils.rs:83-110 | slicing a batch slices its rows |
| `Batches.ToValuesLength` | clickhouse-arrow/src/arrow/utils.rs:118-364 | a conversion gives one value per row |
| `Rename.PascalLoop` | clickhouse-arrow-derive/src/case.rs:63-77 | the loop with its capitalize flag is the recursive renaming |
| `Rename.RuleByCharacter` | clickhouse-arrow-derive/src/case.rs:59-85 | the rules that keep every character in its place, character by character |
| `Rename.PascalByCharacter` | clickhouse-arrow-derive/src/case.rs:63-77 | PascalCase keeps what is not an underscore, in order, and raises exactly what stands first or behind an underscore |
| `Rename.CamelByCharacter` | clickhouse-arrow-derive/src/case.rs:78-81 | camelCase is PascalCase with its first letter lowered |
| `Rename.PascalReadsBackIff` | clickhouse-arrow-derive/src/case.rs:63-77 | a name comes back from PascalCase if and only if it has no capitals, no leading underscore and a lowercase letter behind every other |
| `Rename.CamelReadsBackIff` | clickhouse-arrow-derive/src/case.rs:78-81 | the same for camelCase where it does not fail |
| `Rename.CamelPanicsIff` | clickhouse-arrow-derive/src/case.rs:78-81 | camelCase fails exactly on names of underscores only and on names that start with a character that is not ASCII |
| `Rename.RulesKeepDistinct` | clickhouse-arrow-derive/src/case.rs:59-86 | every rule is injective on canonical snake_case names |
| `Rename.DigitSegmentsMeet` | clickhouse-arrow-derive/src/case.rs:59-86 | off those names two fields can meet in one column |

## Left out

- The asynchronous and synchronous twins of a reader or writer are one model; where they differ (the unrolled varint reader) both are modelled.
- DecompressionReader: joined to plain bytes only, its block reads are single steps; outside the tests the code never makes one (clickhouse-arrow/src/compression.rs:247-248), and the frame reads it uses instead are joined to the chunks in `Stack`.
- RoundTrip: what a struct whose names collide or shadow each other reads is not described further than `ShadowedRowLost`; fields skipped one way only are left out.
- TCP, TLS, DNS, connection set-up, task spawning and the session loops of client/reader.rs and client/writer.rs: input and output, and calls into other libraries.
- LZ4, ZSTD and CityHash are any functions with one law; the sizes of compressed data are those functions' results.
- The scratch buffer reused between polls and between columns is not modelled; it is cleared or overwritten before each use.
- UTF-8 validity and lossy decoding: strings are byte sequences, so names and texts are those that are valid UTF-8.
- Time zones are names with a set of known ones; their rules are not modelled.
- ToCh, ToArrow: printing type names and parsing them back is not modelled; `Block` takes any printer and parser that agree up to binary types, which print as string types.
- TryNew: geo types are left out of the builder theorems, as their normaliser is another function; they convert as the nested types they stand for (`GeoConverts`).
- Columns: dictionaries of low cardinality, enums held as dictionaries or numbers, the casts of dates and decimals to their wire widths, and lists other than 32-bit offset lists are not modelled; the Arrow bytes of a value stand for it.
- Block.Write: for each column the layout is a parameter; `BlockColumns` gives it for columns of integers up to 64 bits, floats, 256-bit integers, UUIDs, IPv4 addresses and texts; nested columns are `Columns` alone, as a block here has one value a row.
- RevisionZeroRefused: one or two columns with an empty first name, or with names of 128 bytes or more or of other bytes, are covered by `RevisionZeroOneColumn` and `RevisionZeroTwoColumns` only as far as they say; the outcome otherwise depends on type names and values and is left open.
- SpreadBound: a run in which a lane reaches 256 is not bounded; the lanes then carry into each other.
- DeriveRow: column types and type hints are not modelled, so the check that a nested column's type is an array is the check that its value is; `serialize_with` and `deserialize_with` are leaf conversions; conversion of a whole struct through another type is left out.
- Settings: floats are numbered bit patterns with any printer and parser, compared by number, so negative zero and values that are not numbers are not told apart from their patterns.
- SettingList.EncodeWithIgnore: flags are not compared by the source, so a flag that differs on an equal value is not sent; the theorems are about values.
- ToValues: leaf conversions are a parameter; fixed-size lists are lists with their offsets written out.
- ExponentialBackoff, schema and DDL strings, telemetry and error texts: little content, or floating point.
- Memory exhaustion and 64-bit overflow of lengths are not modelled, except where a cast is part of the format.
