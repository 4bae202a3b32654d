# Proofs about the vendored zstd and xxHash code of mini_blar

mini_blar stores zstd-compressed files under an xxHash64 checksum. This project models the parts
of the vendored C code that those guarantees rest on, and proves them. Each module follows one
source file or one component of it.

| files | component |
|---|---|
| Bits, LittleEndian, Words | machine words, shifts, masks and byte order, on natural numbers |
| BitStream, BitStreamRoundTrip | the bit stream that is written forward and read backward |
| SpreadWalk, FseCounts, FseTable, Tans | the FSE decoding table: its spreading walk, its builder, and the automaton it is |
| FseFormat, DefaultTable | what such a table holds in numbers, and the ready-made table of offset codes |
| FseCoder, FseCTable, FseBuildCTable | FSE symbol coding and its round trip; the builder of compression tables |
| FseDecompress, FseTwoState, FseCompress | the unrolled two-state decoder, the two-state encoder, and the way there and back |
| NCount, NCountAnswer, NCountWriter, FseBlock | the header of normalized counts, parsed, in numbers, and written; the whole block |
| HufStats, HufWeights, HufTree | Huffman weights on top of it, read and compressed; whole tree descriptions written and read back |
| Pool, PoolRuns, PoolSafety, PoolLiveness, PoolStranding | the thread pool: its critical sections, all its runs, safety, progress, and when it strands a client |
| XorBytes, Numbers, Xxh64Answers, Xxh32Answers | the hashes in numbers: their parts as plain arithmetic, and reference answers |
| Xxh64, Xxh64Stream, Xxh64Tail, Xxh32, Xxh32Stream, Xxh3Schedule, Pieces | the hashes, one-shot and streaming |
| Hist, WildCopy | two fast kernels that refine simple ones |

Code that updates state in place is a class or a method over arrays, proved against a function or
predicate that says what it means; code that computes values is a function. The formats are those
of RFC 8878, sections 4.1 (FSE), 4.1.1 (FSE Table Description) and 4.2.1 (Huffman Tree
Description). Registers are 64 bits wide. `dafny verify dfyconfig.toml` checks everything.

## Reading the model

- A byte string is also the natural number it spells, least significant byte first. The writer's
  `fields` record every (value, width) pushed so far. `Position()` of the reader is the number of
  payload bits not yet read, and may become negative.
- A `Code` is normalized counts with the one decoding table they determine. `Inverse(ct, c)` says
  that compression table `ct` inverts it: for a symbol with count n, the state shifted by the
  bits sent lies in [n, 2n), and the entry found there is the matching cell of that symbol.
  `Complements(ct, c)` adds that FSE_initCState2 finds each symbol's first cell.
- `Spelt` is a header of counts as one number. `PairStream` lists what two encoder states push.
- `SimpleDecode` decodes one symbol at a time. `ParseHeader` reads a table description bit by bit.
- A pool `State` lists where each worker and each client is, with the history of jobs accepted,
  started and finished. An `Action` is one stretch of code run under the mutex, or one wakeup.
  Wakeups without a signal are allowed at any time; a signal wakes at least one sleeper, if any.
  A client is `Stranded` if it sleeps, the workers can do nothing more, and no other client is
  inside a call and awake.
  The critical sections of `PoolCtx` are proved against the queue and the counters, and against
  `Full`, `MustWait`, `Popped` and `Pushed`, the functions that the actions of a run are made of.
- `Absorb` and `Units` define the hashes on the whole input. `Xxh64Answers` and `Xxh32Answers` say
  what these definitions compute, without naming them, on inputs that take every path. For XXH3 the accumulators are
  represented by the list of what was done to them.

## Where the code and its documentation differ

- `BIT_initCStream` is documented to need a capacity of at least 8 bytes; the code asks for more
  than 8, and the model follows it (bitstream.h:70-75, 158).
- A table description with table log 15 and one symbol of count 2^15 is accepted although the
  count wraps to a negative 16-bit number (`NCount.WrappedCount`). Unless the header is truncated,
  accepted counts are normalized if and only if its low four bits are not 10, or its first count
  that is not zero is not the codeword of sixteen ones (`NCount.HeaderNormalized`).
- A source of one symbol that takes the whole table is compressed without an error and cannot be
  decoded: the decoder fills the destination (`FseTwoState.WholeTableLost`). HUF_compressWeights
  never gets that far (`HufWeights.RoundTrip`).
- `POOL_tryAdd` returns 1 for a job that a shut-down pool drops (`Pool.PoolCtx.TryAdd`).
- With two clients or more, one of which joins, a client can be left asleep: adders and joiners
  wait on one condition variable, which is signalled once. It happens to an adder
  (`PoolStranding.AdderStranded`) and to one of two joiners (`PoolStranding.JoinerStranded`), and
  only then: with one client, or with any number that never join, no run strands anybody
  (`PoolStranding.StrandingExact`).
- POOL_resize_internal raises the thread limit even when the threads cannot be created.
- HIST_count_parallel_wksp reads its first four bytes whatever the size, so a source of one to
  three bytes needs four readable ones: the precondition of `Hist.CountParallel` is the bound of
  that first read.
- `maxSymbolValue_tooSmall` is never what the table description's parser reports: too many zeros
  leave a part of the table, and that is reported first (`NCount.ReadNCount`).
- The work space of HUF_READ_STATS_WORKSPACE_SIZE is made for a largest weight of 11, though 12 is
  allowed: a compressed tree description at table log 6 that has a weight 12 asks for one word more
  and is refused (`HufTree.WorkspaceEnough`).
- The parity test at the end of HUF_readStats_body never rejects (`HufStats.CompleteIsEven`).

## Model

| member | source | states |
|---|---|---|
| Bits.HighBitUnique | zig-pkg/zstdz-1.6.0-yDWjzq-MNAA4J6TsElJhZ6r2bA0csYbReJoPx8NhdL8g/lib/common/bits.h:174-178 | the highest-bit position is the only k with 2^k <= x < 2^(k+1) |
| Bits.HighBitShr | zig-pkg/zstdz-1.6.0-yDWjzq-MNAA4J6TsElJhZ6r2bA0csYbReJoPx8NhdL8g/lib/common/bits.h:174-178 | shifting right lowers the highest bit by the shift |
| Bits.AndMask | zig-pkg/zstdz-1.6.0-yDWjzq-MNAA4J6TsElJhZ6r2bA0csYbReJoPx8NhdL8g/lib/common/bitstream.h:160-178 | masking with 2^n - 1 keeps exactly the n low bits |
| Bits.OrDisjoint | zig-pkg/zstdz-1.6.0-yDWjzq-MNAA4J6TsElJhZ6r2bA0csYbReJoPx8NhdL8g/lib/common/bitstream.h:180-200 | or-ing a field in above the occupied bits is adding it |
| LittleEndian.LEConcat | zig-pkg/zstdz-1.6.0-yDWjzq-MNAA4J6TsElJhZ6r2bA0csYbReJoPx8NhdL8g/lib/common/bitstream.h:221-234 | little-endian numbers of two byte strings join at the byte boundary |
| BitStream.CStream.InitCStream | zig-pkg/zstdz-1.6.0-yDWjzq-MNAA4J6TsElJhZ6r2bA0csYbReJoPx8NhdL8g/lib/common/bitstream.h:150-159 | the writer opens exactly when the buffer is longer than 8 bytes; it starts empty |
| BitStream.CStream.AddBits | zig-pkg/zstdz-1.6.0-yDWjzq-MNAA4J6TsElJhZ6r2bA0csYbReJoPx8NhdL8g/lib/common/bitstream.h:180-189 | appends one field to what the stream holds, whatever bits the value has above its width |
| BitStream.CStream.AddBitsFast | zig-pkg/zstdz-1.6.0-yDWjzq-MNAA4J6TsElJhZ6r2bA0csYbReJoPx8NhdL8g/lib/common/bitstream.h:193-198 | the same for a value that fits its width |
| BitStream.CStream.FlushBits | zig-pkg/zstdz-1.6.0-yDWjzq-MNAA4J6TsElJhZ6r2bA0csYbReJoPx8NhdL8g/lib/common/bitstream.h:221-232 | keeps what the stream holds unless the buffer is exhausted, where the pointer stops; leaves fewer than 8 bits in the register |
| BitStream.CStream.CloseCStream | zig-pkg/zstdz-1.6.0-yDWjzq-MNAA4J6TsElJhZ6r2bA0csYbReJoPx8NhdL8g/lib/common/bitstream.h:236-242 | returns 0 exactly when the marked payload reaches the end pointer; any other size certifies that the bytes hold every field, so no flush was clamped with a loss |
| BitStream.FlushedBytes | zig-pkg/zstdz-1.6.0-yDWjzq-MNAA4J6TsElJhZ6r2bA0csYbReJoPx8NhdL8g/lib/common/bitstream.h:221-232 | storing the register and dropping whole bytes keeps the number that stream and register spell |
| BitStream.PayloadBound | zig-pkg/zstdz-1.6.0-yDWjzq-MNAA4J6TsElJhZ6r2bA0csYbReJoPx8NhdL8g/lib/common/bitstream.h:180-189 | a payload of n bits is a number below 2^n |
| BitStream.PopField | zig-pkg/zstdz-1.6.0-yDWjzq-MNAA4J6TsElJhZ6r2bA0csYbReJoPx8NhdL8g/lib/common/bitstream.h:52-55 | below the last field lies that field's value and then the earlier fields: last in, first out |
| BitStream.ClosedStream | zig-pkg/zstdz-1.6.0-yDWjzq-MNAA4J6TsElJhZ6r2bA0csYbReJoPx8NhdL8g/lib/common/bitstream.h:254-300 | the end mark is the highest bit, so an opened stream starts exactly above its last field |
| BitStream.DStream.InitDStream | zig-pkg/zstdz-1.6.0-yDWjzq-MNAA4J6TsElJhZ6r2bA0csYbReJoPx8NhdL8g/lib/common/bitstream.h:254-300 | every outcome: empty source, missing end mark (with the code's different errors for long and short sources), or a reader standing just below the end mark |
| BitStream.ShortSource | zig-pkg/zstdz-1.6.0-yDWjzq-MNAA4J6TsElJhZ6r2bA0csYbReJoPx8NhdL8g/lib/common/bitstream.h:264-290 | the shift-and-add for sources of 1 to 7 bytes spells the same number |
| BitStream.TopByte | zig-pkg/zstdz-1.6.0-yDWjzq-MNAA4J6TsElJhZ6r2bA0csYbReJoPx8NhdL8g/lib/common/bitstream.h:264-297 | the end mark's position follows from the last byte alone |
| BitStream.DStream.LookIsSlice | zig-pkg/zstdz-1.6.0-yDWjzq-MNAA4J6TsElJhZ6r2bA0csYbReJoPx8NhdL8g/lib/common/bitstream.h:330-351 | while the register lasts, BIT_lookBits and BIT_lookBitsFast both give the bits below the position; they agree for widths of 1 and more |
| BitStream.DStream.ReadBits | zig-pkg/zstdz-1.6.0-yDWjzq-MNAA4J6TsElJhZ6r2bA0csYbReJoPx8NhdL8g/lib/common/bitstream.h:362-367 | moves the position by the width, gives the bits passed over, and stays in range even past the end |
| BitStream.DStream.ReadBitsFast | zig-pkg/zstdz-1.6.0-yDWjzq-MNAA4J6TsElJhZ6r2bA0csYbReJoPx8NhdL8g/lib/common/bitstream.h:371-377 | the same for widths of at least 1 |
| BitStream.DStream.ReloadDStream | zig-pkg/zstdz-1.6.0-yDWjzq-MNAA4J6TsElJhZ6r2bA0csYbReJoPx8NhdL8g/lib/common/bitstream.h:412-444 | keeps the bit position, never moves below the start, reports each status exactly when it holds, unfinished only with 57 bits or more, overflow for good |
| BitStreamRoundTrip.WriteStream | zig-pkg/zstdz-1.6.0-yDWjzq-MNAA4J6TsElJhZ6r2bA0csYbReJoPx8NhdL8g/lib/common/bitstream.h:52-55 | for every list of fields and every flush schedule, the stream is stored exactly when it fits, and then holds all fields |
| BitStreamRoundTrip.ReadStream | zig-pkg/zstdz-1.6.0-yDWjzq-MNAA4J6TsElJhZ6r2bA0csYbReJoPx8NhdL8g/lib/common/bitstream.h:52-55 | reading with reloads gives the fields in reverse and ends exactly at the end of the stream, also below 8 bytes |
| BitStreamRoundTrip.RoundTrip | zig-pkg/zstdz-1.6.0-yDWjzq-MNAA4J6TsElJhZ6r2bA0csYbReJoPx8NhdL8g/lib/common/bitstream.h:52-55 | the two together: the last-in first-out law of the bit stream |
| SpreadWalk.StepOdd | zig-pkg/zstdz-1.6.0-yDWjzq-MNAA4J6TsElJhZ6r2bA0csYbReJoPx8NhdL8g/lib/common/fse.h:623 | the step is odd from table log 4 on, and even at table log 3 |
| SpreadWalk.WalkInjective | zig-pkg/zstdz-1.6.0-yDWjzq-MNAA4J6TsElJhZ6r2bA0csYbReJoPx8NhdL8g/lib/common/fse_decompress.c:112-148 | no cell is met twice within one round |
| SpreadWalk.WalkReturns | zig-pkg/zstdz-1.6.0-yDWjzq-MNAA4J6TsElJhZ6r2bA0csYbReJoPx8NhdL8g/lib/common/fse_decompress.c:147 | the walk is back at cell 0 after one round |
| SpreadWalk.VisitsAll | zig-pkg/zstdz-1.6.0-yDWjzq-MNAA4J6TsElJhZ6r2bA0csYbReJoPx8NhdL8g/lib/common/fse_decompress.c:136-148 | a round restricted to the cells 0..high meets each of them exactly once |
| SpreadWalk.NotVisited | zig-pkg/zstdz-1.6.0-yDWjzq-MNAA4J6TsElJhZ6r2bA0csYbReJoPx8NhdL8g/lib/common/fse_decompress.c:136-148 | the cell under the walk has not been met before in this round |
| FseCounts.SpreadCount | zig-pkg/zstdz-1.6.0-yDWjzq-MNAA4J6TsElJhZ6r2bA0csYbReJoPx8NhdL8g/lib/common/fse_decompress.c:90-148 | every symbol occupies exactly as many cells as its weight, |count| |
| FseCounts.SpreadUnique | zig-pkg/zstdz-1.6.0-yDWjzq-MNAA4J6TsElJhZ6r2bA0csYbReJoPx8NhdL8g/lib/common/fse_decompress.c:90-148 | counts determine the spread table |
| FseTable.LayLowProbability | zig-pkg/zstdz-1.6.0-yDWjzq-MNAA4J6TsElJhZ6r2bA0csYbReJoPx8NhdL8g/lib/common/fse_decompress.c:75-90 | low-probability symbols fill the last cells downward, counters start at the weights, fastMode tells whether every count is below half of the table; the threshold wraps when all cells are reserved |
| FseTable.LayInOrder | zig-pkg/zstdz-1.6.0-yDWjzq-MNAA4J6TsElJhZ6r2bA0csYbReJoPx8NhdL8g/lib/common/fse_decompress.c:93-111 | the overlapping 8-byte stores lay out each symbol as often as its count, and never write past tableSize + 8 |
| FseTable.DealUnrolled | zig-pkg/zstdz-1.6.0-yDWjzq-MNAA4J6TsElJhZ6r2bA0csYbReJoPx8NhdL8g/lib/common/fse_decompress.c:112-135 | the twice-unrolled scatter deals that layout along the walk |
| FseTable.Masked | zig-pkg/zstdz-1.6.0-yDWjzq-MNAA4J6TsElJhZ6r2bA0csYbReJoPx8NhdL8g/lib/common/fse_decompress.c:120-134 | masking u steps ahead lands on the u-th next cell of the walk |
| FseTable.NextFree | zig-pkg/zstdz-1.6.0-yDWjzq-MNAA4J6TsElJhZ6r2bA0csYbReJoPx8NhdL8g/lib/common/fse_decompress.c:143-144 | the skip loop stops at the next cell that is not reserved |
| FseTable.DealDirectly | zig-pkg/zstdz-1.6.0-yDWjzq-MNAA4J6TsElJhZ6r2bA0csYbReJoPx8NhdL8g/lib/common/fse_decompress.c:136-148 | the direct loop fills exactly the free cells and ends at position 0, so the error after it cannot happen |
| FseTable.SubState | zig-pkg/zstdz-1.6.0-yDWjzq-MNAA4J6TsElJhZ6r2bA0csYbReJoPx8NhdL8g/lib/common/fse_decompress.c:150-157 | a sub-state lies in [weight, 2 weight), so no cell reads a negative number of bits |
| FseTable.BuildStates | zig-pkg/zstdz-1.6.0-yDWjzq-MNAA4J6TsElJhZ6r2bA0csYbReJoPx8NhdL8g/lib/common/fse_decompress.c:150-157 | each cell gets the transition of its symbol's next sub-state |
| FseTable.BuildDTable | zig-pkg/zstdz-1.6.0-yDWjzq-MNAA4J6TsElJhZ6r2bA0csYbReJoPx8NhdL8g/lib/common/fse_decompress.c:59-160 | normalized counts that pass the sanity checks always build, whichever spreading path is taken, into the one table that `FseFormat.SymbolAt`, LowSymbolAt and CellIs give in numbers and `DefaultTable.OffsetTable` shows; otherwise the first failing check decides, each under its stated numbers, and the table is untouched |
| FseTable.TableUnique | zig-pkg/zstdz-1.6.0-yDWjzq-MNAA4J6TsElJhZ6r2bA0csYbReJoPx8NhdL8g/lib/common/fse_decompress.c:93-148 | both spreading paths give the same table |
| FseFormat.StepIs | zig-pkg/zstdz-1.6.0-yDWjzq-MNAA4J6TsElJhZ6r2bA0csYbReJoPx8NhdL8g/lib/common/fse.h:623 | the walk's step in numbers: 5 * 2^(tableLog - 3) + 3 |
| FseFormat.SymbolAt | zig-pkg/zstdz-1.6.0-yDWjzq-MNAA4J6TsElJhZ6r2bA0csYbReJoPx8NhdL8g/lib/common/fse_decompress.c:112-148 | without reserved cells, the k-th symbol laid out stands in cell k * (5 * 2^(tableLog - 3) + 3) mod 2^tableLog, whatever path the builder takes |
| FseFormat.LowSymbolAt | zig-pkg/zstdz-1.6.0-yDWjzq-MNAA4J6TsElJhZ6r2bA0csYbReJoPx8NhdL8g/lib/common/fse_decompress.c:75-90 | low-probability symbols stand in the last cells, the first of them in the very last |
| FseFormat.DealtAt | zig-pkg/zstdz-1.6.0-yDWjzq-MNAA4J6TsElJhZ6r2bA0csYbReJoPx8NhdL8g/lib/common/fse_decompress.c:136-148 | with reserved cells: a step of the walk that ends in a free cell deals the next symbol |
| FseFormat.CellIs | zig-pkg/zstdz-1.6.0-yDWjzq-MNAA4J6TsElJhZ6r2bA0csYbReJoPx8NhdL8g/lib/common/fse_decompress.c:150-157 | a cell's transition in numbers: the symbol's weight plus its cells before this one, shifted up to where it lies between one and two table sizes |
| FseFormat.Recognized | zig-pkg/zstdz-1.6.0-yDWjzq-MNAA4J6TsElJhZ6r2bA0csYbReJoPx8NhdL8g/lib/common/fse_decompress.c:112-157 | a list of cells with the right symbols, each symbol's transitions rising in cell order, is the one decoding table of its counts |
| DefaultTable.OffsetTable | zig-pkg/zstdz-1.6.0-yDWjzq-MNAA4J6TsElJhZ6r2bA0csYbReJoPx8NhdL8g/lib/decompress/zstd_decompress_block.c:401-421 | every decoding table of the default offset distribution is the ready-made table, cell by cell: 32 symbols, widths and next states |
| DefaultTable.BuildOffsetTable | zig-pkg/zstdz-1.6.0-yDWjzq-MNAA4J6TsElJhZ6r2bA0csYbReJoPx8NhdL8g/lib/decompress/zstd_decompress_block.c:401-421 | and FSE_buildDTable makes it, with fastMode as in its header |
| Tans.CellFacts | zig-pkg/zstdz-1.6.0-yDWjzq-MNAA4J6TsElJhZ6r2bA0csYbReJoPx8NhdL8g/lib/common/fse_decompress.c:150-157 | each cell's symbol, sub-state and width fit the table |
| Tans.StaysInTable | zig-pkg/zstdz-1.6.0-yDWjzq-MNAA4J6TsElJhZ6r2bA0csYbReJoPx8NhdL8g/lib/common/fse_decompress.c:150-157 | whatever bits follow, the next state is a state of the table |
| Tans.PrevLeads | zig-pkg/zstdz-1.6.0-yDWjzq-MNAA4J6TsElJhZ6r2bA0csYbReJoPx8NhdL8g/lib/common/fse.h:454-460 | for every symbol and state, the computed cell leads there by exactly the bits shifted out |
| Tans.PrevUnique | zig-pkg/zstdz-1.6.0-yDWjzq-MNAA4J6TsElJhZ6r2bA0csYbReJoPx8NhdL8g/lib/common/fse.h:454-460 | no other cell of the symbol leads there |
| Tans.IntervalsPartition | zig-pkg/zstdz-1.6.0-yDWjzq-MNAA4J6TsElJhZ6r2bA0csYbReJoPx8NhdL8g/lib/common/fse_decompress.c:150-157 | tANS bijection: for each symbol, the intervals [newState, newState + 2^nbBits) of its |count| cells partition the states |
| Tans.RunExists | zig-pkg/zstdz-1.6.0-yDWjzq-MNAA4J6TsElJhZ6r2bA0csYbReJoPx8NhdL8g/lib/common/fse.h:304-345 | every encodable symbol string and final state has a run of the decoder |
| Tans.RunUnique | zig-pkg/zstdz-1.6.0-yDWjzq-MNAA4J6TsElJhZ6r2bA0csYbReJoPx8NhdL8g/lib/common/fse.h:304-345 | and only one: start state and bits are determined |
| FseCoder.InverseStep | zig-pkg/zstdz-1.6.0-yDWjzq-MNAA4J6TsElJhZ6r2bA0csYbReJoPx8NhdL8g/lib/common/fse.h:454-460 | a compression table that inverts the decoding table sends the bits and enters the state that the decoder undoes |
| FseCoder.DecodeStep | zig-pkg/zstdz-1.6.0-yDWjzq-MNAA4J6TsElJhZ6r2bA0csYbReJoPx8NhdL8g/lib/common/fse.h:540-549 | one decoding step undoes one encoding step |
| FseCoder.CState.InitCState2 | zig-pkg/zstdz-1.6.0-yDWjzq-MNAA4J6TsElJhZ6r2bA0csYbReJoPx8NhdL8g/lib/common/fse.h:443-452 | the state opens in the symbol's first cell, so that the symbol costs nothing |
| FseCoder.CState.EncodeSymbol | zig-pkg/zstdz-1.6.0-yDWjzq-MNAA4J6TsElJhZ6r2bA0csYbReJoPx8NhdL8g/lib/common/fse.h:454-460 | pushes the step's field and enters its state |
| FseCoder.CState.FlushCState | zig-pkg/zstdz-1.6.0-yDWjzq-MNAA4J6TsElJhZ6r2bA0csYbReJoPx8NhdL8g/lib/common/fse.h:463-467 | pushes the final state |
| FseCoder.DState.InitDState | zig-pkg/zstdz-1.6.0-yDWjzq-MNAA4J6TsElJhZ6r2bA0csYbReJoPx8NhdL8g/lib/common/fse.h:517-524 | reads a state of the table, even past the end of the stream |
| FseCoder.DState.DecodeSymbol | zig-pkg/zstdz-1.6.0-yDWjzq-MNAA4J6TsElJhZ6r2bA0csYbReJoPx8NhdL8g/lib/common/fse.h:532-549 | the symbol depends on the state alone; the next state is in the table whatever the register holds |
| FseCoder.DState.DecodeSymbolFast | zig-pkg/zstdz-1.6.0-yDWjzq-MNAA4J6TsElJhZ6r2bA0csYbReJoPx8NhdL8g/lib/common/fse.h:553-562 | the same wherever the cell reads at least one bit |
| FseCoder.EncodeStream | zig-pkg/zstdz-1.6.0-yDWjzq-MNAA4J6TsElJhZ6r2bA0csYbReJoPx8NhdL8g/lib/common/fse.h:304-320 | every symbol string from every start state is stored exactly when it fits |
| FseCoder.DecodeStream | zig-pkg/zstdz-1.6.0-yDWjzq-MNAA4J6TsElJhZ6r2bA0csYbReJoPx8NhdL8g/lib/common/fse.h:322-345 | a stored stream decodes to the string in reverse, back to the start state, with no payload bit left |
| FseCoder.RoundTrip | zig-pkg/zstdz-1.6.0-yDWjzq-MNAA4J6TsElJhZ6r2bA0csYbReJoPx8NhdL8g/lib/common/fse.h:304-345 | one state is lossless for every string, start state and flush schedule, given a compression table that inverts the decoding table; `FseBuildCTable.BuildCTable` makes one for all normalized counts |
| FseCTable.BitsOut | zig-pkg/zstdz-1.6.0-yDWjzq-MNAA4J6TsElJhZ6r2bA0csYbReJoPx8NhdL8g/lib/common/fse.h:454-460 | the number of bits sent is one of two neighbours, decided by one comparison |
| FseCTable.TransformCounts | zig-pkg/zstdz-1.6.0-yDWjzq-MNAA4J6TsElJhZ6r2bA0csYbReJoPx8NhdL8g/lib/compress/fse_compress.c:175-200 | adding deltaNbBits and shifting by 16 finds it |
| FseCTable.SlotsDistinct | zig-pkg/zstdz-1.6.0-yDWjzq-MNAA4J6TsElJhZ6r2bA0csYbReJoPx8NhdL8g/lib/compress/fse_compress.c:169-173 | no two cells put their state into the same slot of the state table |
| FseCTable.BuiltIsInverse | zig-pkg/zstdz-1.6.0-yDWjzq-MNAA4J6TsElJhZ6r2bA0csYbReJoPx8NhdL8g/lib/compress/fse_compress.c:169-200 | a table sorted and transformed like this inverts the decoding table of the same counts, at every symbol and state |
| FseCTable.BuiltOpens | zig-pkg/zstdz-1.6.0-yDWjzq-MNAA4J6TsElJhZ6r2bA0csYbReJoPx8NhdL8g/lib/common/fse.h:443-452 | and FSE_initCState2 finds each symbol's first cell in it |
| FseBuildCTable.StartPositions | zig-pkg/zstdz-1.6.0-yDWjzq-MNAA4J6TsElJhZ6r2bA0csYbReJoPx8NhdL8g/lib/compress/fse_compress.c:100-113 | each symbol's slots start where the weights before it end; low-probability symbols fill the last cells |
| FseBuildCTable.SpreadSymbols | zig-pkg/zstdz-1.6.0-yDWjzq-MNAA4J6TsElJhZ6r2bA0csYbReJoPx8NhdL8g/lib/compress/fse_compress.c:115-167 | both spreading paths lay out the symbols as the decoder's builder does |
| FseBuildCTable.SortStates | zig-pkg/zstdz-1.6.0-yDWjzq-MNAA4J6TsElJhZ6r2bA0csYbReJoPx8NhdL8g/lib/compress/fse_compress.c:169-173 | each cell's state value ends up in that cell's slot |
| FseBuildCTable.Transformed | zig-pkg/zstdz-1.6.0-yDWjzq-MNAA4J6TsElJhZ6r2bA0csYbReJoPx8NhdL8g/lib/compress/fse_compress.c:178-200 | each of the three cases gives the transform of that weight; a symbol without cells gets a cost above any real one |
| FseBuildCTable.CodeSpread | zig-pkg/zstdz-1.6.0-yDWjzq-MNAA4J6TsElJhZ6r2bA0csYbReJoPx8NhdL8g/lib/compress/fse_compress.c:115-167 | symbols spread like this have one decoding table |
| FseBuildCTable.BuildCTable | zig-pkg/zstdz-1.6.0-yDWjzq-MNAA4J6TsElJhZ6r2bA0csYbReJoPx8NhdL8g/lib/compress/fse_compress.c:68-208 | fails exactly when the work space is too small; otherwise the compression table, built from the counts alone, inverts the decoding table and opens every symbol |
| FseDecompress.Step | zig-pkg/zstdz-1.6.0-yDWjzq-MNAA4J6TsElJhZ6r2bA0csYbReJoPx8NhdL8g/lib/common/fse_decompress.c:199-216 | one symbol of the fast loop is one step of the simple decoder with the states exchanged |
| FseDecompress.FourSymbols | zig-pkg/zstdz-1.6.0-yDWjzq-MNAA4J6TsElJhZ6r2bA0csYbReJoPx8NhdL8g/lib/common/fse_decompress.c:199-216 | four symbols without a reload are four simple steps: the register always holds enough bits |
| FseDecompress.OneSymbol | zig-pkg/zstdz-1.6.0-yDWjzq-MNAA4J6TsElJhZ6r2bA0csYbReJoPx8NhdL8g/lib/common/fse_decompress.c:220-233 | an overflow at the reload means exactly that the simple decoder ran out of bits |
| FseDecompress.Tail | zig-pkg/zstdz-1.6.0-yDWjzq-MNAA4J6TsElJhZ6r2bA0csYbReJoPx8NhdL8g/lib/common/fse_decompress.c:218-233 | the tail finishes as the simple decoder does, within the capacity |
| FseDecompress.DecompressUsingDTable | zig-pkg/zstdz-1.6.0-yDWjzq-MNAA4J6TsElJhZ6r2bA0csYbReJoPx8NhdL8g/lib/common/fse_decompress.c:174-237 | the four-times unrolled decoder with its tail returns what a one-symbol decoder returns, on every input, for both instances, and writes nothing past maxDstSize |
| FseDecompress.FastModeSound | zig-pkg/zstdz-1.6.0-yDWjzq-MNAA4J6TsElJhZ6r2bA0csYbReJoPx8NhdL8g/lib/common/fse_decompress.c:78-88 | fastMode implies that every cell reads a bit; exactly: no symbol takes more than half of the table |
| FseTwoState.RunRecovers | zig-pkg/zstdz-1.6.0-yDWjzq-MNAA4J6TsElJhZ6r2bA0csYbReJoPx8NhdL8g/lib/common/fse_decompress.c:174-237 | the decoder recovers what two interleaved encoders pushed |
| FseTwoState.StartingCellsExist | zig-pkg/zstdz-1.6.0-yDWjzq-MNAA4J6TsElJhZ6r2bA0csYbReJoPx8NhdL8g/lib/common/fse.h:443-452 | the two states can open a message exactly when its last symbol but one does not take the whole table |
| FseTwoState.FirstCellReads | zig-pkg/zstdz-1.6.0-yDWjzq-MNAA4J6TsElJhZ6r2bA0csYbReJoPx8NhdL8g/lib/common/fse_decompress.c:150-157 | a symbol's first cell reads a bit exactly when the symbol does not take the whole table |
| FseTwoState.PairRoundTrip | zig-pkg/zstdz-1.6.0-yDWjzq-MNAA4J6TsElJhZ6r2bA0csYbReJoPx8NhdL8g/lib/common/fse_decompress.c:174-237 | every message of two or more symbols with such cells decodes to itself, or the destination is too small |
| FseTwoState.WholeTableLost | zig-pkg/zstdz-1.6.0-yDWjzq-MNAA4J6TsElJhZ6r2bA0csYbReJoPx8NhdL8g/lib/common/fse_decompress.c:218-233 | every other message fills the destination, however large: the decoder finds no end |
| FseTwoState.RunIgnoresAbove | zig-pkg/zstdz-1.6.0-yDWjzq-MNAA4J6TsElJhZ6r2bA0csYbReJoPx8NhdL8g/lib/common/fse_decompress.c:174-237 | no output byte depends on bits above the position |
| FseCompress.Send | zig-pkg/zstdz-1.6.0-yDWjzq-MNAA4J6TsElJhZ6r2bA0csYbReJoPx8NhdL8g/lib/compress/fse_compress.c:588-603 | one symbol from the state to be read second, which is then read first |
| FseCompress.OpenBoth | zig-pkg/zstdz-1.6.0-yDWjzq-MNAA4J6TsElJhZ6r2bA0csYbReJoPx8NhdL8g/lib/compress/fse_compress.c:569-577 | for an odd or an even number of symbols, both states open on the last two symbols and CState1 is read first |
| FseCompress.SendRest | zig-pkg/zstdz-1.6.0-yDWjzq-MNAA4J6TsElJhZ6r2bA0csYbReJoPx8NhdL8g/lib/compress/fse_compress.c:579-603 | two symbols to join and four to a flush send exactly the rest, and never overflow the register |
| FseCompress.CompressUsingCTable | zig-pkg/zstdz-1.6.0-yDWjzq-MNAA4J6TsElJhZ6r2bA0csYbReJoPx8NhdL8g/lib/compress/fse_compress.c:551-608 | 0 for at most two symbols; otherwise the stream holds the whole message of the two states, or 0 exactly when it does not fit |
| FseCompress.StreamBits | zig-pkg/zstdz-1.6.0-yDWjzq-MNAA4J6TsElJhZ6r2bA0csYbReJoPx8NhdL8g/lib/common/fse.h:315-325 | a message costs at most tableLog bits a symbol |
| FseCompress.WhatIsDecoded | zig-pkg/zstdz-1.6.0-yDWjzq-MNAA4J6TsElJhZ6r2bA0csYbReJoPx8NhdL8g/lib/common/fse_decompress.c:174-237 | what such a stream decodes to, for every capacity: the message if and only if there is room and its last symbol but one does not take the whole table |
| FseCompress.RoundTrip | zig-pkg/zstdz-1.6.0-yDWjzq-MNAA4J6TsElJhZ6r2bA0csYbReJoPx8NhdL8g/lib/compress/fse_compress.c:551-608 | from normalized counts alone: both tables built apart, every source of more than two symbols compressed and decoded to itself, exactly unless it does not fit or one symbol takes the whole table |
| FseBlock.WorkspaceSuffices | zig-pkg/zstdz-1.6.0-yDWjzq-MNAA4J6TsElJhZ6r2bA0csYbReJoPx8NhdL8g/lib/common/fse_decompress.c:273-277 | the workspace test leaves room for the decoding table and what the builder asks for |
| FseBlock.HeaderIsSane | zig-pkg/zstdz-1.6.0-yDWjzq-MNAA4J6TsElJhZ6r2bA0csYbReJoPx8NhdL8g/lib/common/fse_decompress.c:264-279 | parsed counts fail the builder's checks exactly when the table log exceeds 12, with the table log as the error, and are normalized otherwise |
| FseBlock.DecompressBlock | zig-pkg/zstdz-1.6.0-yDWjzq-MNAA4J6TsElJhZ6r2bA0csYbReJoPx8NhdL8g/lib/common/fse_decompress.c:244-290 | every outcome exactly under its condition: the workspace, the parser's own error, the table log, and otherwise the simple decoder's output for the code in the header |
| NCount.CompletePrefixCode | zig-pkg/zstdz-1.6.0-yDWjzq-MNAA4J6TsElJhZ6r2bA0csYbReJoPx8NhdL8g/lib/common/entropy_common.c:132-147 | each count is read by a complete prefix code: one codeword for each value from -1 to remaining - 1; `NCount.CodewordsOrdered` and `NCountAnswer.ReadIs` say which |
| NCount.CodewordsOrdered | zig-pkg/zstdz-1.6.0-yDWjzq-MNAA4J6TsElJhZ6r2bA0csYbReJoPx8NhdL8g/lib/common/entropy_common.c:132-147 | which code: the shorter codewords belong to the smaller values, exactly to those below 2 * threshold - 1 - remaining, and of one width a larger value has the larger codeword |
| NCount.CodewordExample | zig-pkg/zstdz-1.6.0-yDWjzq-MNAA4J6TsElJhZ6r2bA0csYbReJoPx8NhdL8g/lib/common/entropy_common.c:132-147 | the example of RFC 8878, with 157 as the largest value |
| NCountAnswer.ReadIs | zig-pkg/zstdz-1.6.0-yDWjzq-MNAA4J6TsElJhZ6r2bA0csYbReJoPx8NhdL8g/lib/common/entropy_common.c:132-147 | the value and width that any bits are read as, in plain arithmetic |
| NCountAnswer.RunIs | zig-pkg/zstdz-1.6.0-yDWjzq-MNAA4J6TsElJhZ6r2bA0csYbReJoPx8NhdL8g/lib/common/entropy_common.c:83-109 | k codes 3 and another code say 3 * k zeros and as many as that code |
| NCountAnswer.HeaderAnswer | zig-pkg/zstdz-1.6.0-yDWjzq-MNAA4J6TsElJhZ6r2bA0csYbReJoPx8NhdL8g/lib/common/entropy_common.c:70-187 | the header D0 1B 03 in numbers: table log 5 and the counts 28, 0, 0, 0, 0, 3, -1 |
| NCount.RepeatsSpec | zig-pkg/zstdz-1.6.0-yDWjzq-MNAA4J6TsElJhZ6r2bA0csYbReJoPx8NhdL8g/lib/common/entropy_common.c:84-99 | the trailing-zero count of the complement counts the leading codes 3 |
| NCount.SkipZeros | zig-pkg/zstdz-1.6.0-yDWjzq-MNAA4J6TsElJhZ6r2bA0csYbReJoPx8NhdL8g/lib/common/entropy_common.c:83-131 | the run of zero counts is the one the format describes, twelve codes at a time or one |
| NCount.Reload | zig-pkg/zstdz-1.6.0-yDWjzq-MNAA4J6TsElJhZ6r2bA0csYbReJoPx8NhdL8g/lib/common/entropy_common.c:170-178 | the window keeps its position inside the header and never leaves it, after a run of zeros (lines 121-130) as after a count |
| NCount.ReadOneCount | zig-pkg/zstdz-1.6.0-yDWjzq-MNAA4J6TsElJhZ6r2bA0csYbReJoPx8NhdL8g/lib/common/entropy_common.c:132-147 | the masks and comparisons read one codeword |
| NCount.ReadLongHeader | zig-pkg/zstdz-1.6.0-yDWjzq-MNAA4J6TsElJhZ6r2bA0csYbReJoPx8NhdL8g/lib/common/entropy_common.c:70-187 | a header that is not truncated parses exactly as the bit-at-a-time format says; whatever is accepted has the table log of the low four bits and uses up the whole table |
| NCount.PaddedHeader | zig-pkg/zstdz-1.6.0-yDWjzq-MNAA4J6TsElJhZ6r2bA0csYbReJoPx8NhdL8g/lib/common/entropy_common.c:58-67 | zero padding does not change how a short header parses |
| NCount.ReadNCount | zig-pkg/zstdz-1.6.0-yDWjzq-MNAA4J6TsElJhZ6r2bA0csYbReJoPx8NhdL8g/lib/common/entropy_common.c:43-188 | the same for every header, also below 8 bytes: no access out of bounds, at most hbSize bytes used, table log and sum of |count| as announced; never maxSymbolValue_tooSmall; normalized whenever the low four bits are not 10, and otherwise, unless truncated, exactly when the header does not wrap around |
| NCount.SizesInside | zig-pkg/zstdz-1.6.0-yDWjzq-MNAA4J6TsElJhZ6r2bA0csYbReJoPx8NhdL8g/lib/common/entropy_common.c:183-187 | an accepted size lies within the header |
| NCount.ConservedNormalized | zig-pkg/zstdz-1.6.0-yDWjzq-MNAA4J6TsElJhZ6r2bA0csYbReJoPx8NhdL8g/lib/common/entropy_common.c:132-187 | accepted counts are normalized if and only if none is the 16-bit wrap of 2^15, which needs table log 15 |
| NCount.WrapsExactly | zig-pkg/zstdz-1.6.0-yDWjzq-MNAA4J6TsElJhZ6r2bA0csYbReJoPx8NhdL8g/lib/common/entropy_common.c:132-178 | whether a count has wrapped can be told from the header's bits: low four bits 10, and sixteen ones where the first count that is not zero is read |
| NCount.HeaderNormalized | zig-pkg/zstdz-1.6.0-yDWjzq-MNAA4J6TsElJhZ6r2bA0csYbReJoPx8NhdL8g/lib/common/entropy_common.c:132-187 | so accepted counts are normalized if and only if the header does not wrap around |
| NCount.WrappedCount | zig-pkg/zstdz-1.6.0-yDWjzq-MNAA4J6TsElJhZ6r2bA0csYbReJoPx8NhdL8g/lib/common/entropy_common.c:132-178 | a header of three bytes that does: FA FF 0F, one symbol at table log 15, accepted with the count -2^15 |
| NCountWriter.RunRead | zig-pkg/zstdz-1.6.0-yDWjzq-MNAA4J6TsElJhZ6r2bA0csYbReJoPx8NhdL8g/lib/compress/fse_compress.c:261-289 | the codes for a run of zeros are read back as that run |
| NCountWriter.ReadsRest | zig-pkg/zstdz-1.6.0-yDWjzq-MNAA4J6TsElJhZ6r2bA0csYbReJoPx8NhdL8g/lib/common/entropy_common.c:74-178 | a header that goes on with what the writer spells is parsed to exactly those counts |
| NCountWriter.NormalizedWritten | zig-pkg/zstdz-1.6.0-yDWjzq-MNAA4J6TsElJhZ6r2bA0csYbReJoPx8NhdL8g/lib/compress/fse_compress.c:260-316 | of normalized counts everything is written but zeros at the end |
| NCountWriter.WriteRun | zig-pkg/zstdz-1.6.0-yDWjzq-MNAA4J6TsElJhZ6r2bA0csYbReJoPx8NhdL8g/lib/compress/fse_compress.c:264-289 | the 24-zero, three-zero and last codes spell the run; without room the whole header has none |
| NCountWriter.CountCode | zig-pkg/zstdz-1.6.0-yDWjzq-MNAA4J6TsElJhZ6r2bA0csYbReJoPx8NhdL8g/lib/compress/fse_compress.c:291-300 | the comparisons and the added maximum give the codeword of the prefix code |
| NCountWriter.Narrow | zig-pkg/zstdz-1.6.0-yDWjzq-MNAA4J6TsElJhZ6r2bA0csYbReJoPx8NhdL8g/lib/compress/fse_compress.c:305 | halving the threshold gives the width that the parser works out from the highest bit |
| NCountWriter.WriteNCount | zig-pkg/zstdz-1.6.0-yDWjzq-MNAA4J6TsElJhZ6r2bA0csYbReJoPx8NhdL8g/lib/compress/fse_compress.c:233-340 | each error under its condition; counts that use the table up exactly are spelt in full, or refused exactly when two bytes at a time do not fit |
| NCountWriter.WrittenReadsBack | zig-pkg/zstdz-1.6.0-yDWjzq-MNAA4J6TsElJhZ6r2bA0csYbReJoPx8NhdL8g/lib/compress/fse_compress.c:233-327 | FSE_writeNCount undone by FSE_readNCount: the same counts, table log and size, whatever follows the header |
| HufStats.ReadDirect | zig-pkg/zstdz-1.6.0-yDWjzq-MNAA4J6TsElJhZ6r2bA0csYbReJoPx8NhdL8g/lib/common/entropy_common.c:259-269 | uncompressed weights: both errors exactly under their conditions; else weight 2i is the high half of byte i and weight 2i + 1 the low half, in bounds |
| HufStats.DirectWeightAt | zig-pkg/zstdz-1.6.0-yDWjzq-MNAA4J6TsElJhZ6r2bA0csYbReJoPx8NhdL8g/lib/common/entropy_common.c:266-269 | the same of any weights read from an uncompressed header |
| HufStats.ReadWeights | zig-pkg/zstdz-1.6.0-yDWjzq-MNAA4J6TsElJhZ6r2bA0csYbReJoPx8NhdL8g/lib/common/entropy_common.c:255-275 | weights in either form: the uncompressed ones in numbers, the others by the block decoder with table log 6; each failure has its cause |
| HufStats.Collect | zig-pkg/zstdz-1.6.0-yDWjzq-MNAA4J6TsElJhZ6r2bA0csYbReJoPx8NhdL8g/lib/common/entropy_common.c:277-285 | weights above 12 are refused; otherwise histogram and code-space sum are exact |
| HufStats.ImpliedWeight | zig-pkg/zstdz-1.6.0-yDWjzq-MNAA4J6TsElJhZ6r2bA0csYbReJoPx8NhdL8g/lib/common/entropy_common.c:286-298 | a missing power of two is the share of a weight in 1..tableLog, which completes the code |
| HufStats.ImpliedUnique | zig-pkg/zstdz-1.6.0-yDWjzq-MNAA4J6TsElJhZ6r2bA0csYbReJoPx8NhdL8g/lib/common/entropy_common.c:286-298 | and no other last weight completes it |
| HufStats.CompleteIsEven | zig-pkg/zstdz-1.6.0-yDWjzq-MNAA4J6TsElJhZ6r2bA0csYbReJoPx8NhdL8g/lib/common/entropy_common.c:301-302 | the Kraft equality forces an even number of weights 1, so the parity test never rejects |
| HufStats.OnlyImplied | zig-pkg/zstdz-1.6.0-yDWjzq-MNAA4J6TsElJhZ6r2bA0csYbReJoPx8NhdL8g/lib/common/entropy_common.c:286-302 | weights can be completed to a valid code if and only if the code's tests pass |
| HufStats.AddLast | zig-pkg/zstdz-1.6.0-yDWjzq-MNAA4J6TsElJhZ6r2bA0csYbReJoPx8NhdL8g/lib/common/entropy_common.c:286-306 | accepts if and only if some last weight completes the code, and then satisfies the Kraft equality with an exact histogram |
| HufStats.ReadStats | zig-pkg/zstdz-1.6.0-yDWjzq-MNAA4J6TsElJhZ6r2bA0csYbReJoPx8NhdL8g/lib/common/entropy_common.c:244-307 | success: a complete code of at most 12 bits from the header's weights, uncompressed ones half byte by half byte, exact rankStats; failure: the header is short, its weights are missing or refused by the block decoder for the cause it gives, or no last weight completes them |
| HufWeights.LargestTells | zig-pkg/zstdz-1.6.0-yDWjzq-MNAA4J6TsElJhZ6r2bA0csYbReJoPx8NhdL8g/lib/compress/huf_compress.c:165-169 | the largest count tells a single symbol and symbols that are all different |
| HufWeights.CompressWeights | zig-pkg/zstdz-1.6.0-yDWjzq-MNAA4J6TsElJhZ6r2bA0csYbReJoPx8NhdL8g/lib/compress/huf_compress.c:147-187 | a single symbol, symbols all different and a description without room are refused exactly then; a block is a description and a stream that say exactly the weights; and there always is one when there is room for tableLog bits a weight behind the description |
| HufWeights.BlockReadsBack | zig-pkg/zstdz-1.6.0-yDWjzq-MNAA4J6TsElJhZ6r2bA0csYbReJoPx8NhdL8g/lib/common/fse_decompress.c:244-290 | on such a block the block decoder has one outcome: the symbols, or too little room for them |
| HufWeights.StatsReadBack | zig-pkg/zstdz-1.6.0-yDWjzq-MNAA4J6TsElJhZ6r2bA0csYbReJoPx8NhdL8g/lib/common/entropy_common.c:270-275 | a tree description with such a block gives HUF_readStats exactly these weights |
| HufWeights.RoundTrip | zig-pkg/zstdz-1.6.0-yDWjzq-MNAA4J6TsElJhZ6r2bA0csYbReJoPx8NhdL8g/lib/compress/huf_compress.c:147-187 | FSE block compression undone by FSE_decompress_wksp, for all weights and any normalized counts that cover them |
| HufTree.WriteDirect | zig-pkg/zstdz-1.6.0-yDWjzq-MNAA4J6TsElJhZ6r2bA0csYbReJoPx8NhdL8g/lib/compress/huf_compress.c:282-290 | the uncompressed form: both errors exactly under their conditions, else the number of weights and two weights a byte, the first in the high half |
| HufTree.DirectReadsBack | zig-pkg/zstdz-1.6.0-yDWjzq-MNAA4J6TsElJhZ6r2bA0csYbReJoPx8NhdL8g/lib/compress/huf_compress.c:282-290 | the bytes of the uncompressed form are read back as those weights, for all weights below 16 |
| HufTree.TreeAcceptable | zig-pkg/zstdz-1.6.0-yDWjzq-MNAA4J6TsElJhZ6r2bA0csYbReJoPx8NhdL8g/lib/compress/huf_compress.c:267-272 | the weights of every complete code with the last left out are acceptable to the reader |
| HufTree.ToWeights | zig-pkg/zstdz-1.6.0-yDWjzq-MNAA4J6TsElJhZ6r2bA0csYbReJoPx8NhdL8g/lib/compress/huf_compress.c:267-272 | the conversion table turns the lengths into weights |
| HufTree.WriteCTable | zig-pkg/zstdz-1.6.0-yDWjzq-MNAA4J6TsElJhZ6r2bA0csYbReJoPx8NhdL8g/lib/compress/huf_compress.c:249-290 | the smaller of the two forms as the code compares them, saying exactly the weights; a failure has its cause |
| HufTree.WeightsReadBack | zig-pkg/zstdz-1.6.0-yDWjzq-MNAA4J6TsElJhZ6r2bA0csYbReJoPx8NhdL8g/lib/common/entropy_common.c:255-275 | a written description in either form gives the reader exactly the weights |
| HufTree.NotRefused | zig-pkg/zstdz-1.6.0-yDWjzq-MNAA4J6TsElJhZ6r2bA0csYbReJoPx8NhdL8g/lib/common/entropy_common.c:270-275 | and the block decoder never refuses it |
| HufTree.TreeReadsBack | zig-pkg/zstdz-1.6.0-yDWjzq-MNAA4J6TsElJhZ6r2bA0csYbReJoPx8NhdL8g/lib/common/entropy_common.c:286-302 | every length comes back, the one left out too, and the table log |
| HufTree.RoundTrip | zig-pkg/zstdz-1.6.0-yDWjzq-MNAA4J6TsElJhZ6r2bA0csYbReJoPx8NhdL8g/lib/compress/huf_compress.c:249-290 | HUF_writeCTable undone by HUF_readStats: weights, rank statistics, table log and size, for the lengths of every complete code |
| HufTree.WorkspaceEnough | zig-pkg/zstdz-1.6.0-yDWjzq-MNAA4J6TsElJhZ6r2bA0csYbReJoPx8NhdL8g/lib/common/huf.h:181-182 | the reader's work space of 876 bytes suffices if and only if the table log is below 6 or the largest weight below 12 |
| Pool.PoolCtx.constructor | zig-pkg/zstdz-1.6.0-yDWjzq-MNAA4J6TsElJhZ6r2bA0csYbReJoPx8NhdL8g/lib/common/pool.c:121-158 | a new pool: empty queue, no busy thread, the limit asked for |
| Pool.PoolCtx.Create | zig-pkg/zstdz-1.6.0-yDWjzq-MNAA4J6TsElJhZ6r2bA0csYbReJoPx8NhdL8g/lib/common/pool.c:115-158 | fails exactly when no thread is asked for, memory, mutex or conditions cannot be had, or fewer threads than asked for |
| Pool.Enqueued | zig-pkg/zstdz-1.6.0-yDWjzq-MNAA4J6TsElJhZ6r2bA0csYbReJoPx8NhdL8g/lib/common/pool.c:269-281 | in the circular slots: a job stored at the tail of a buffer that is not full comes last and overwrites none |
| Pool.PoolCtx.IsQueueFull | zig-pkg/zstdz-1.6.0-yDWjzq-MNAA4J6TsElJhZ6r2bA0csYbReJoPx8NhdL8g/lib/common/pool.c:258-265 | the index test means: all slots but one hold jobs, or for a queue of one slot no free thread or a waiting job |
| Pool.PoolCtx.AddInternal | zig-pkg/zstdz-1.6.0-yDWjzq-MNAA4J6TsElJhZ6r2bA0csYbReJoPx8NhdL8g/lib/common/pool.c:269-281 | appends to the queue that the circular buffer stands for, overwriting no queued job; drops the job under shutdown |
| Pool.PoolCtx.AddAttempt | zig-pkg/zstdz-1.6.0-yDWjzq-MNAA4J6TsElJhZ6r2bA0csYbReJoPx8NhdL8g/lib/common/pool.c:283-293 | adds exactly when there is a free slot (for a queue of one slot: a free thread and no waiting job) or the pool shuts down, which drops the job |
| Pool.PoolCtx.TryAdd | zig-pkg/zstdz-1.6.0-yDWjzq-MNAA4J6TsElJhZ6r2bA0csYbReJoPx8NhdL8g/lib/common/pool.c:296-307 | accepts exactly when there is a free slot (for a queue of one slot: a free thread and no waiting job), also a job dropped under shutdown |
| Pool.PoolCtx.TakeJob | zig-pkg/zstdz-1.6.0-yDWjzq-MNAA4J6TsElJhZ6r2bA0csYbReJoPx8NhdL8g/lib/common/pool.c:72-92 | takes the oldest job exactly when one is queued and fewer threads are busy than the limit; otherwise sleeps, or exits under shutdown |
| Pool.PoolCtx.FinishJob | zig-pkg/zstdz-1.6.0-yDWjzq-MNAA4J6TsElJhZ6r2bA0csYbReJoPx8NhdL8g/lib/common/pool.c:97-100 | one busy thread less |
| Pool.PoolCtx.JoinAttempt | zig-pkg/zstdz-1.6.0-yDWjzq-MNAA4J6TsElJhZ6r2bA0csYbReJoPx8NhdL8g/lib/common/pool.c:192-198 | done exactly when nothing is queued or running |
| Pool.PoolCtx.SetShutdown | zig-pkg/zstdz-1.6.0-yDWjzq-MNAA4J6TsElJhZ6r2bA0csYbReJoPx8NhdL8g/lib/common/pool.c:163-167 | only raises the flag |
| Pool.PoolCtx.ResizeInternal | zig-pkg/zstdz-1.6.0-yDWjzq-MNAA4J6TsElJhZ6r2bA0csYbReJoPx8NhdL8g/lib/common/pool.c:213-238 | new limit, new capacity and failure for every request; the limit is raised even where threads cannot be had |
| PoolRuns.WokeCounts | zig-pkg/zstdz-1.6.0-yDWjzq-MNAA4J6TsElJhZ6r2bA0csYbReJoPx8NhdL8g/lib/common/pool.c:83 | a wakeup moves workers from asleep to awake and changes nothing else |
| PoolSafety.CreatedInv | zig-pkg/zstdz-1.6.0-yDWjzq-MNAA4J6TsElJhZ6r2bA0csYbReJoPx8NhdL8g/lib/common/pool.c:121-158 | a new pool satisfies the invariant |
| PoolSafety.RestKeeps | zig-pkg/zstdz-1.6.0-yDWjzq-MNAA4J6TsElJhZ6r2bA0csYbReJoPx8NhdL8g/lib/common/pool.c:73-84 | a worker may sleep or exit and leave jobs behind: enough others are awake or busy |
| PoolSafety.TakeKeeps | zig-pkg/zstdz-1.6.0-yDWjzq-MNAA4J6TsElJhZ6r2bA0csYbReJoPx8NhdL8g/lib/common/pool.c:86-93 | taking a job keeps the accounts of jobs and threads |
| PoolSafety.FinishKeeps | zig-pkg/zstdz-1.6.0-yDWjzq-MNAA4J6TsElJhZ6r2bA0csYbReJoPx8NhdL8g/lib/common/pool.c:97-100 | so does finishing one |
| PoolSafety.AddKeeps | zig-pkg/zstdz-1.6.0-yDWjzq-MNAA4J6TsElJhZ6r2bA0csYbReJoPx8NhdL8g/lib/common/pool.c:269-307 | so does adding one, from POOL_add or POOL_tryAdd |
| PoolSafety.ResizeKeeps | zig-pkg/zstdz-1.6.0-yDWjzq-MNAA4J6TsElJhZ6r2bA0csYbReJoPx8NhdL8g/lib/common/pool.c:240-250 | so does resizing, with its broadcast |
| PoolSafety.BroadcastPopKeeps | zig-pkg/zstdz-1.6.0-yDWjzq-MNAA4J6TsElJhZ6r2bA0csYbReJoPx8NhdL8g/lib/common/pool.c:169-170 | after the broadcast no worker sleeps |
| PoolSafety.StepKeeps | zig-pkg/zstdz-1.6.0-yDWjzq-MNAA4J6TsElJhZ6r2bA0csYbReJoPx8NhdL8g/lib/common/pool.c:67-104 | every action of every thread keeps the invariant |
| PoolSafety.EveryStateOk | zig-pkg/zstdz-1.6.0-yDWjzq-MNAA4J6TsElJhZ6r2bA0csYbReJoPx8NhdL8g/lib/common/pool.c:67-307 | it holds in every state of every run, with any number of clients and resizes |
| PoolSafety.StartsWithinLimit | zig-pkg/zstdz-1.6.0-yDWjzq-MNAA4J6TsElJhZ6r2bA0csYbReJoPx8NhdL8g/lib/common/pool.c:74-93 | a job starts only below the thread limit |
| PoolSafety.LimitKept | zig-pkg/zstdz-1.6.0-yDWjzq-MNAA4J6TsElJhZ6r2bA0csYbReJoPx8NhdL8g/lib/common/pool.c:74-93 | no step but a resize makes the busy threads exceed the limit |
| PoolSafety.NeverOverLimit | zig-pkg/zstdz-1.6.0-yDWjzq-MNAA4J6TsElJhZ6r2bA0csYbReJoPx8NhdL8g/lib/common/pool.c:74-93 | so in a run without resizes never more jobs run at once than the pool has threads |
| PoolSafety.WaitsExactly | zig-pkg/zstdz-1.6.0-yDWjzq-MNAA4J6TsElJhZ6r2bA0csYbReJoPx8NhdL8g/lib/common/pool.c:258-293 | in every run, POOL_add sleeps exactly when the pool runs and its queue holds queueSize jobs (queueSize 0: a job waits or no thread is free) |
| PoolSafety.TryAddExactly | zig-pkg/zstdz-1.6.0-yDWjzq-MNAA4J6TsElJhZ6r2bA0csYbReJoPx8NhdL8g/lib/common/pool.c:258-307 | in every run, POOL_tryAdd accepts exactly when the queue holds fewer jobs than that |
| PoolSafety.TakesInARow | zig-pkg/zstdz-1.6.0-yDWjzq-MNAA4J6TsElJhZ6r2bA0csYbReJoPx8NhdL8g/lib/common/pool.c:258-307 | a running pool takes queueSize jobs in a row from an empty queue, whatever its workers do |
| PoolSafety.FifoExactlyOnce | zig-pkg/zstdz-1.6.0-yDWjzq-MNAA4J6TsElJhZ6r2bA0csYbReJoPx8NhdL8g/lib/common/pool.c:86-100 | jobs start in acceptance order, each at most once; each is queued, running or finished; the queue never exceeds its buffer |
| PoolSafety.AllExitedAllDone | zig-pkg/zstdz-1.6.0-yDWjzq-MNAA4J6TsElJhZ6r2bA0csYbReJoPx8NhdL8g/lib/common/pool.c:74-83 | when all workers have exited, the queue is empty and every accepted job has finished |
| PoolSafety.JoinReturnsWhenDone | zig-pkg/zstdz-1.6.0-yDWjzq-MNAA4J6TsElJhZ6r2bA0csYbReJoPx8NhdL8g/lib/common/pool.c:192-198 | POOL_joinJobs returns only when every accepted job has finished |
| PoolSafety.NoSleepAfterJoin | zig-pkg/zstdz-1.6.0-yDWjzq-MNAA4J6TsElJhZ6r2bA0csYbReJoPx8NhdL8g/lib/common/pool.c:163-176 | after POOL_join's broadcasts no worker ever sleeps again |
| PoolSafety.QueuedJobHasWorker | zig-pkg/zstdz-1.6.0-yDWjzq-MNAA4J6TsElJhZ6r2bA0csYbReJoPx8NhdL8g/lib/common/pool.c:73-84 | for any number of clients, a queued job has a worker awake or busy |
| PoolLiveness.WorkersStop | zig-pkg/zstdz-1.6.0-yDWjzq-MNAA4J6TsElJhZ6r2bA0csYbReJoPx8NhdL8g/lib/common/pool.c:67-104 | workers left to themselves run out of steps, within a bound, however they are scheduled |
| PoolLiveness.WorkerCanMove | zig-pkg/zstdz-1.6.0-yDWjzq-MNAA4J6TsElJhZ6r2bA0csYbReJoPx8NhdL8g/lib/common/pool.c:67-104 | an awake or busy worker always has a step to make |
| PoolLiveness.StuckMeansDone | zig-pkg/zstdz-1.6.0-yDWjzq-MNAA4J6TsElJhZ6r2bA0csYbReJoPx8NhdL8g/lib/common/pool.c:163-176 | when workers can do no more, every accepted job has finished, and after POOL_join they have all exited |
| PoolLiveness.NoLostWakeup | zig-pkg/zstdz-1.6.0-yDWjzq-MNAA4J6TsElJhZ6r2bA0csYbReJoPx8NhdL8g/lib/common/pool.c:84-100 | one client: a queued job has a worker awake for it; a sleeping client has cause to wait and a worker awake |
| PoolLiveness.SleeperWokenInTime | zig-pkg/zstdz-1.6.0-yDWjzq-MNAA4J6TsElJhZ6r2bA0csYbReJoPx8NhdL8g/lib/common/pool.c:93-100 | one client: it is woken before the workers have made one more step than there are workers awake |
| PoolStranding.AddersNeverStranded | zig-pkg/zstdz-1.6.0-yDWjzq-MNAA4J6TsElJhZ6r2bA0csYbReJoPx8NhdL8g/lib/common/pool.c:283-293 | any number of clients that never join: while one sleeps, a worker or another client has a move to make |
| PoolStranding.OneNeverStranded | zig-pkg/zstdz-1.6.0-yDWjzq-MNAA4J6TsElJhZ6r2bA0csYbReJoPx8NhdL8g/lib/common/pool.c:72-100 | one client, joining or not: while it sleeps, a worker has a move to make |
| PoolStranding.JoinerStranded | zig-pkg/zstdz-1.6.0-yDWjzq-MNAA4J6TsElJhZ6r2bA0csYbReJoPx8NhdL8g/lib/common/pool.c:192-198 | for every number of threads, queue size and number of clients from two on: a run that leaves a joining client asleep although nothing is queued or running |
| PoolStranding.AdderStranded | zig-pkg/zstdz-1.6.0-yDWjzq-MNAA4J6TsElJhZ6r2bA0csYbReJoPx8NhdL8g/lib/common/pool.c:90-100 | one thread, no queue, two clients or more: a run that leaves an adding client asleep although the queue is not full |
| PoolStranding.StrandingExact | zig-pkg/zstdz-1.6.0-yDWjzq-MNAA4J6TsElJhZ6r2bA0csYbReJoPx8NhdL8g/lib/common/pool.c:72-100 | no run strands a client if and only if there is at most one client or nobody joins |
| Words.XorShiftInjective | zig-pkg/zstdz-1.6.0-yDWjzq-MNAA4J6TsElJhZ6r2bA0csYbReJoPx8NhdL8g/lib/common/xxhash.h:3410-3418 | x ^ (x >> s) determines x for every s > 0 |
| Words.RotateInjective | zig-pkg/zstdz-1.6.0-yDWjzq-MNAA4J6TsElJhZ6r2bA0csYbReJoPx8NhdL8g/lib/common/xxhash.h:3376-3380 | a rotation loses nothing |
| Words.MulInjective | zig-pkg/zstdz-1.6.0-yDWjzq-MNAA4J6TsElJhZ6r2bA0csYbReJoPx8NhdL8g/lib/common/xxhash.h:3376-3380 | multiplication by an invertible constant loses nothing |
| Xxh64.Finalize | zig-pkg/zstdz-1.6.0-yDWjzq-MNAA4J6TsElJhZ6r2bA0csYbReJoPx8NhdL8g/lib/common/xxhash.h:3438-3462 | the loops over the last bytes compute the hash's tail, unit by unit |
| Xxh64.OneShot | zig-pkg/zstdz-1.6.0-yDWjzq-MNAA4J6TsElJhZ6r2bA0csYbReJoPx8NhdL8g/lib/common/xxhash.h:3483-3516 | XXH64 of the whole input is the defined hash, which `Xxh64Answers` gives in numbers |
| Xxh64.UnitsAre | zig-pkg/zstdz-1.6.0-yDWjzq-MNAA4J6TsElJhZ6r2bA0csYbReJoPx8NhdL8g/lib/common/xxhash.h:3438-3462 | where the tail is cut: whole 8-byte units, then at most one of 4 bytes, then single bytes |
| Xxh64Answers.RoundIs | zig-pkg/zstdz-1.6.0-yDWjzq-MNAA4J6TsElJhZ6r2bA0csYbReJoPx8NhdL8g/lib/common/xxhash.h:3376-3380 | a round in plain arithmetic modulo 2^64, with the published primes as numbers |
| Xxh64Answers.ConvergeIs | zig-pkg/zstdz-1.6.0-yDWjzq-MNAA4J6TsElJhZ6r2bA0csYbReJoPx8NhdL8g/lib/common/xxhash.h:3503-3507 | the lanes rotated by 1, 7, 12 and 18 in plain arithmetic, then merged in order |
| Xxh64Answers.MergeIs | zig-pkg/zstdz-1.6.0-yDWjzq-MNAA4J6TsElJhZ6r2bA0csYbReJoPx8NhdL8g/lib/common/xxhash.h:3401-3408 | a merge in plain arithmetic |
| Xxh64Answers.UnitOf8 | zig-pkg/zstdz-1.6.0-yDWjzq-MNAA4J6TsElJhZ6r2bA0csYbReJoPx8NhdL8g/lib/common/xxhash.h:3443-3447 | a unit of 8 bytes in plain arithmetic |
| Xxh64Answers.UnitOf4 | zig-pkg/zstdz-1.6.0-yDWjzq-MNAA4J6TsElJhZ6r2bA0csYbReJoPx8NhdL8g/lib/common/xxhash.h:3449-3453 | a unit of 4 bytes |
| Xxh64Answers.UnitOf1 | zig-pkg/zstdz-1.6.0-yDWjzq-MNAA4J6TsElJhZ6r2bA0csYbReJoPx8NhdL8g/lib/common/xxhash.h:3455-3459 | a unit of 1 byte |
| Xxh64Answers.EmptyAnswer | zig-pkg/zstdz-1.6.0-yDWjzq-MNAA4J6TsElJhZ6r2bA0csYbReJoPx8NhdL8g/lib/common/xxhash.h:3483-3516 | the hash of the empty input with seed 0, as published |
| Xxh64Answers.StripeAnswer | zig-pkg/zstdz-1.6.0-yDWjzq-MNAA4J6TsElJhZ6r2bA0csYbReJoPx8NhdL8g/lib/common/xxhash.h:3483-3516 | the hash of the 32 bytes 0 to 31 with seed 0x9E3779B1, in numbers: four lanes, the merges, no tail |
| Xxh64Answers.LongAnswer | zig-pkg/zstdz-1.6.0-yDWjzq-MNAA4J6TsElJhZ6r2bA0csYbReJoPx8NhdL8g/lib/common/xxhash.h:3483-3516 | the hash of the 45 bytes 0 to 44 with that seed: four lanes, then units of 8, 4 and 1 bytes |
| Xxh64.AbsorbPrefix | zig-pkg/zstdz-1.6.0-yDWjzq-MNAA4J6TsElJhZ6r2bA0csYbReJoPx8NhdL8g/lib/common/xxhash.h:3497-3502 | the lanes depend on the absorbed stripes alone |
| Xxh64Stream.XXH64State.constructor | zig-pkg/zstdz-1.6.0-yDWjzq-MNAA4J6TsElJhZ6r2bA0csYbReJoPx8NhdL8g/lib/common/xxhash.h:3560-3569 | a fresh state has consumed nothing |
| Xxh64Stream.XXH64State.Reset | zig-pkg/zstdz-1.6.0-yDWjzq-MNAA4J6TsElJhZ6r2bA0csYbReJoPx8NhdL8g/lib/common/xxhash.h:3560-3569 | whatever the state held is forgotten |
| Xxh64Stream.XXH64State.Update | zig-pkg/zstdz-1.6.0-yDWjzq-MNAA4J6TsElJhZ6r2bA0csYbReJoPx8NhdL8g/lib/common/xxhash.h:3573-3620 | consumes the input: the buffer holds total mod 32 bytes, the lanes have absorbed exactly total / 32 stripes |
| Xxh64Stream.XXH64State.Digest | zig-pkg/zstdz-1.6.0-yDWjzq-MNAA4J6TsElJhZ6r2bA0csYbReJoPx8NhdL8g/lib/common/xxhash.h:3624-3641 | the one-shot hash of everything consumed, for every total below 2^64; and what it is when the length has wrapped below 32 |
| Xxh64Stream.HashChunks | zig-pkg/zstdz-1.6.0-yDWjzq-MNAA4J6TsElJhZ6r2bA0csYbReJoPx8NhdL8g/lib/common/xxhash.h:3573-3641 | streaming equals one-shot for every way of cutting the input and every seed |
| Xxh64Tail.RoundInjective | zig-pkg/zstdz-1.6.0-yDWjzq-MNAA4J6TsElJhZ6r2bA0csYbReJoPx8NhdL8g/lib/common/xxhash.h:3376-3380 | a round from 0 is a bijection of its input |
| Xxh64Tail.AvalancheInjective | zig-pkg/zstdz-1.6.0-yDWjzq-MNAA4J6TsElJhZ6r2bA0csYbReJoPx8NhdL8g/lib/common/xxhash.h:3410-3418 | the avalanche is a bijection |
| Xxh64Tail.MixUnitInjective | zig-pkg/zstdz-1.6.0-yDWjzq-MNAA4J6TsElJhZ6r2bA0csYbReJoPx8NhdL8g/lib/common/xxhash.h:3443-3460 | a tail step loses neither the hash so far nor the unit |
| Xxh64Tail.UnitsJoin | zig-pkg/zstdz-1.6.0-yDWjzq-MNAA4J6TsElJhZ6r2bA0csYbReJoPx8NhdL8g/lib/common/xxhash.h:3443-3460 | the tail units are the tail, cut up |
| Xxh64Tail.TailSensitive | zig-pkg/zstdz-1.6.0-yDWjzq-MNAA4J6TsElJhZ6r2bA0csYbReJoPx8NhdL8g/lib/common/xxhash.h:3438-3462 | inputs that differ in exactly one tail unit never collide |
| Xxh64Tail.ByteSensitive | zig-pkg/zstdz-1.6.0-yDWjzq-MNAA4J6TsElJhZ6r2bA0csYbReJoPx8NhdL8g/lib/common/xxhash.h:3438-3462 | changing any one byte after the last whole stripe changes the hash |
| Xxh32.Finalize | zig-pkg/zstdz-1.6.0-yDWjzq-MNAA4J6TsElJhZ6r2bA0csYbReJoPx8NhdL8g/lib/common/xxhash.h:2950-2977 | the loops over the last bytes compute the hash's tail |
| Xxh32.FinalizeByJump | zig-pkg/zstdz-1.6.0-yDWjzq-MNAA4J6TsElJhZ6r2bA0csYbReJoPx8NhdL8g/lib/common/xxhash.h:2978-3020 | the jump table does the same: each of its four chains computes the hash's tail |
| Xxh32.OneShot | zig-pkg/zstdz-1.6.0-yDWjzq-MNAA4J6TsElJhZ6r2bA0csYbReJoPx8NhdL8g/lib/common/xxhash.h:3040-3069 | XXH32 of the whole input is the defined hash, which `Xxh32Answers` gives in numbers |
| Xxh32.UnitsAre | zig-pkg/zstdz-1.6.0-yDWjzq-MNAA4J6TsElJhZ6r2bA0csYbReJoPx8NhdL8g/lib/common/xxhash.h:2950-2977 | where the tail is cut: whole 4-byte units, then single bytes |
| Xxh32.UnitsJoin | zig-pkg/zstdz-1.6.0-yDWjzq-MNAA4J6TsElJhZ6r2bA0csYbReJoPx8NhdL8g/lib/common/xxhash.h:2950-2977 | the tail units are the tail, cut up |
| Xxh32Answers.RoundIs | zig-pkg/zstdz-1.6.0-yDWjzq-MNAA4J6TsElJhZ6r2bA0csYbReJoPx8NhdL8g/lib/common/xxhash.h:2866-2871 | a round in plain arithmetic modulo 2^32, with the published primes as numbers |
| Xxh32Answers.ConvergeIs | zig-pkg/zstdz-1.6.0-yDWjzq-MNAA4J6TsElJhZ6r2bA0csYbReJoPx8NhdL8g/lib/common/xxhash.h:3040-3069 | the lanes rotated by 1, 7, 12 and 18, in plain arithmetic |
| Xxh32Answers.EmptyAnswer | zig-pkg/zstdz-1.6.0-yDWjzq-MNAA4J6TsElJhZ6r2bA0csYbReJoPx8NhdL8g/lib/common/xxhash.h:3040-3069 | the hash of the empty input with seed 0, as published |
| Xxh32Answers.StripeAnswer | zig-pkg/zstdz-1.6.0-yDWjzq-MNAA4J6TsElJhZ6r2bA0csYbReJoPx8NhdL8g/lib/common/xxhash.h:3040-3069 | the hash of 16 bytes, in numbers: four lanes and no tail |
| Xxh32Answers.LongAnswer | zig-pkg/zstdz-1.6.0-yDWjzq-MNAA4J6TsElJhZ6r2bA0csYbReJoPx8NhdL8g/lib/common/xxhash.h:3040-3069 | the hash of 21 bytes: four lanes, then units of 4 and 1 bytes |
| Xxh32Stream.FlagRight | zig-pkg/zstdz-1.6.0-yDWjzq-MNAA4J6TsElJhZ6r2bA0csYbReJoPx8NhdL8g/lib/common/xxhash.h:3139-3140 | large_len is set exactly when the true total has reached 16, even as the 32-bit total wraps |
| Xxh32Stream.XXH32State.Update | zig-pkg/zstdz-1.6.0-yDWjzq-MNAA4J6TsElJhZ6r2bA0csYbReJoPx8NhdL8g/lib/common/xxhash.h:3128-3178 | consumes the input, for any total |
| Xxh32Stream.XXH32State.Digest | zig-pkg/zstdz-1.6.0-yDWjzq-MNAA4J6TsElJhZ6r2bA0csYbReJoPx8NhdL8g/lib/common/xxhash.h:3182-3198 | the one-shot hash of everything consumed, for any total, also past 2^32 |
| Xxh32Stream.HashChunks | zig-pkg/zstdz-1.6.0-yDWjzq-MNAA4J6TsElJhZ6r2bA0csYbReJoPx8NhdL8g/lib/common/xxhash.h:3128-3198 | streaming equals one-shot for every cutting, without a bound on the length |
| Xxh3Schedule.BurstFits | zig-pkg/zstdz-1.6.0-yDWjzq-MNAA4J6TsElJhZ6r2bA0csYbReJoPx8NhdL8g/lib/common/xxhash.h:5863-5875 | a burst of stripes within a block is the next piece of the schedule, and needs a scrambling exactly when it ends the block |
| Xxh3Schedule.StripeIsAt | zig-pkg/zstdz-1.6.0-yDWjzq-MNAA4J6TsElJhZ6r2bA0csYbReJoPx8NhdL8g/lib/common/xxhash.h:5849-5879 | the schedule in numbers: which event takes stripe k, with which part of the secret, and where the scramblings are |
| Xxh3Schedule.DefaultSecret | zig-pkg/zstdz-1.6.0-yDWjzq-MNAA4J6TsElJhZ6r2bA0csYbReJoPx8NhdL8g/lib/common/xxhash.h:5849-5879 | with the default secret: 16 stripes to a block, and where the last 64 bytes are mixed in |
| Xxh3Schedule.HashLong | zig-pkg/zstdz-1.6.0-yDWjzq-MNAA4J6TsElJhZ6r2bA0csYbReJoPx8NhdL8g/lib/common/xxhash.h:5849-5879 | the block loops follow the stripe schedule |
| Xxh3Schedule.ConsumeStripes | zig-pkg/zstdz-1.6.0-yDWjzq-MNAA4J6TsElJhZ6r2bA0csYbReJoPx8NhdL8g/lib/common/xxhash.h:6263-6297 | so does the streaming loop, for stripes that start and end inside a block |
| Xxh3Schedule.XXH3State.Update | zig-pkg/zstdz-1.6.0-yDWjzq-MNAA4J6TsElJhZ6r2bA0csYbReJoPx8NhdL8g/lib/common/xxhash.h:6307-6381 | after each update the accumulators have taken a prefix of the schedule, at least one byte stays buffered, and the buffer's end keeps what the last stripe may need |
| Xxh3Schedule.XXH3State.DigestLong | zig-pkg/zstdz-1.6.0-yDWjzq-MNAA4J6TsElJhZ6r2bA0csYbReJoPx8NhdL8g/lib/common/xxhash.h:6395-6429 | completes the schedule, rebuilding the last stripe from both ends of the buffer |
| Xxh3Schedule.HashChunks | zig-pkg/zstdz-1.6.0-yDWjzq-MNAA4J6TsElJhZ6r2bA0csYbReJoPx8NhdL8g/lib/common/xxhash.h:6307-6429 | streaming does to the accumulators what the one-shot loop does, for every cutting of more than 240 bytes |
| Hist.TalliedUnique | zig-pkg/zstdz-1.6.0-yDWjzq-MNAA4J6TsElJhZ6r2bA0csYbReJoPx8NhdL8g/lib/compress/hist.c:45-70 | the outcome is determined by the bytes: any two ways of counting agree |
| Hist.CountsSum | zig-pkg/zstdz-1.6.0-yDWjzq-MNAA4J6TsElJhZ6r2bA0csYbReJoPx8NhdL8g/lib/compress/hist.c:45-70 | the counters add up to the number of bytes |
| Hist.CountSimple | zig-pkg/zstdz-1.6.0-yDWjzq-MNAA4J6TsElJhZ6r2bA0csYbReJoPx8NhdL8g/lib/compress/hist.c:45-70 | exact counts, largest symbol and largest count; counters above the limit untouched |
| Hist.CountWord | zig-pkg/zstdz-1.6.0-yDWjzq-MNAA4J6TsElJhZ6r2bA0csYbReJoPx8NhdL8g/lib/compress/hist.c:347-351 | a word adds its four bytes, one to each table |
| Hist.CountStripes | zig-pkg/zstdz-1.6.0-yDWjzq-MNAA4J6TsElJhZ6r2bA0csYbReJoPx8NhdL8g/lib/compress/hist.c:344-372 | reading one word ahead, every byte is counted once and no byte past the source but the first word's |
| Hist.Recombine | zig-pkg/zstdz-1.6.0-yDWjzq-MNAA4J6TsElJhZ6r2bA0csYbReJoPx8NhdL8g/lib/compress/hist.c:374-378 | the four tables add up to the histogram and its maximum |
| Hist.CountParallel | zig-pkg/zstdz-1.6.0-yDWjzq-MNAA4J6TsElJhZ6r2bA0csYbReJoPx8NhdL8g/lib/compress/hist.c:321-387 | the same outcome as the simple loop; in checked mode an error if and only if a byte exceeds the limit, with the counters untouched; the counters may be the work space itself |
| Hist.CountFast | zig-pkg/zstdz-1.6.0-yDWjzq-MNAA4J6TsElJhZ6r2bA0csYbReJoPx8NhdL8g/lib/compress/hist.c:394-409 | either way, or the workspace errors exactly under their conditions |
| Hist.CountWksp | zig-pkg/zstdz-1.6.0-yDWjzq-MNAA4J6TsElJhZ6r2bA0csYbReJoPx8NhdL8g/lib/compress/hist.c:414-429 | safe for any bytes: each error exactly under its condition, otherwise the same outcome |
| WildCopy.ByteCopyMoves | zig-pkg/zstdz-1.6.0-yDWjzq-MNAA4J6TsElJhZ6r2bA0csYbReJoPx8NhdL8g/lib/common/zstd_internal.h:210-216 | without overlap ahead, a bytewise copy delivers the old source bytes |
| WildCopy.ByteCopyRepeats | zig-pkg/zstdz-1.6.0-yDWjzq-MNAA4J6TsElJhZ6r2bA0csYbReJoPx8NhdL8g/lib/common/zstd_internal.h:210-216 | with the source d bytes before, the copy repeats the last d bytes |
| WildCopy.ChunkIsBytes | zig-pkg/zstdz-1.6.0-yDWjzq-MNAA4J6TsElJhZ6r2bA0csYbReJoPx8NhdL8g/lib/common/zstd_internal.h:170-199 | a chunk no longer than the distance equals its bytes copied one by one |
| WildCopy.WildCopy | zig-pkg/zstdz-1.6.0-yDWjzq-MNAA4J6TsElJhZ6r2bA0csYbReJoPx8NhdL8g/lib/common/zstd_internal.h:217-248 | in both overlap modes, a bytewise copy of at least length and at most length + 32 bytes |
| WildCopy.WildCopyExact | zig-pkg/zstdz-1.6.0-yDWjzq-MNAA4J6TsElJhZ6r2bA0csYbReJoPx8NhdL8g/lib/common/zstd_internal.h:201-216 | so the first length bytes are exact, and nothing changes before them or more than 32 bytes past them |

## Left out

- NCount.ReadNCount: a truncated header is parsed within bounds, conserves the table and has the
  table log it announces, and its counts are normalized unless its low four bits are 10; nothing
  more is said, because the code's position wraps around within its 32-bit window. A run of zero
  counts whose symbol number wraps 32 bits needs a header of more than 357 MB and is not modelled.
- NCountWriter.WriteNCount: takes counts of -1 or more, and is the checked form of the writer; the
  form without bounds checks, for buffers of at least FSE_NCountWriteBound bytes, is not modelled.
- FseTable.BuildDTable: asks for normalized counts and a table log of at least 4. At table log 3
  the step is even (`SpreadWalk.StepOdd`).
- FseBuildCTable.BuildCTable: asks for the same.
- FseCoder.EncodeStream: asks the caller to keep the register below 64 bits by flushing before it
  fills up, as the header file documents.
- FseCompress.CompressUsingCTable: flushes with BIT_flushBits; the form with BIT_flushBitsFast, for
  destinations of at least FSE_BLOCKBOUND bytes, is not modelled.
- HufWeights.CompressWeights: takes the normalized counts as parameters, with the promise that every
  weight has cells and the largest weight comes last; FSE_optimalTableLog and FSE_normalizeCount are
  not part of this model.
- HufTree.WriteCTable: takes the normalized counts in the same way. The attempt at compression is made in a
  buffer of its own and copied, and the writer's own work space is not modelled.
- DefaultTable.OffsetTable: of the three ready-made decoding tables, only that of offset codes; the
  base values and extra bits beside its cells are not part of this model.
- BitStream.DStream.ReloadDStream: the number of consumed bits is unbounded, so an overflow stays
  one for good; the code counts in an unsigned 32-bit number, which 2^32 bits read past the end
  would wrap.
- HufStats.ReadStats: adds up the weights without the 32-bit wrap, which would need more than two
  million symbols.
- PoolLiveness.NoLostWakeup: one client thread; `PoolStranding.StrandingExact` says what holds of
  more.
- PoolStranding.StrandingExact: clients are threads outside the pool; jobs that call the pool
  themselves are not modelled.
- Pool.PoolCtx.Create: how far memory and threads reach is a parameter, as in
  Pool.PoolCtx.ResizeInternal.
- Hist.CountParallel: counters are unbounded, which is exact below 2^32 bytes; `count` is the work
  space or does not overlap it, so an overlap at an offset is not modelled.
- Xxh3Schedule.HashChunks: only the order of stripes and scramblings and the parts of the secret;
  inputs of at most 240 bytes and what a stripe does to the lanes are not modelled.
- NULL pointers, and memory outside the arrays of the model.
- SIMD, BMI2 and other platform variants, and the 32-bit container.
- The de Bruijn tables of bits.h: the model uses their meaning, the position of the highest and
  the lowest bit.
- FSE_getMaxNbBits, FSE_bitCost and the cost tables behind them.
- The archive code itself, the command line and file handling; error strings and trace hooks.
