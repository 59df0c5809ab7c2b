# Verified models of iPXE core algorithms

This project models the algorithms of iPXE whose correctness depends on loops, shared state and
arithmetic, and proves what they promise. Code that changes things step by step is modelled as
Dafny methods on arrays and objects, and each method is proved against a specification on values.
What the code promises is then proved about the specification. Nothing was executed.

## What is modelled

- **DEFLATE** (`src/crypto/deflate.c`). `Inflation.dfy` gives decompression its meaning as a transducer
  over bits, after RFC 1951 and RFC 1950. `Huffman.dfy` defines canonical codes and decoding bit by
  bit, `Lz77.dfy` the output. `BitBuffer.dfy`, `Alphabets.dfy`, `Chunks.dfy`, `DeflateTables.dfy` and
  `Deflate.dfy` model the program: mirrored accumulators, table builder, quick lookup, copier and the
  resumable state machine, which is proved to have exactly the outcome of the transducer on buffered
  bits followed by unread input. `DeflateFormat.dfy` is the other side, everything a compressor may
  write, and `Fragments.dfy` joins both: which such streams, cut anywhere, come back. `DeflateLaws.dfy`
  says what the standard says in numbers of all that reader and writer share.
- **Heap** (`src/core/malloc.c`). `FreeList.dfy` shows that an ordered, merged list is determined by its
  bytes, so that operations can be stated as what they do to sets of bytes. `Heap.dfy` and
  `Allocator.dfy` model searching, splitting, merging, alignment, leaks and discarding of caches;
  headers are written into the same memory as data. `HeapWords.dfy` says when arithmetic on machine
  words is what it should be. `HeapRuns.dfy` is about whole runs. `Malloc.dfy` adds sizes stored in
  memory and reallocation. Where the program would take memory that is not there or copy past a block,
  methods stop and say so in their result `sound`.
- **URIs** (`src/core/uri.c`). `Uri.dfy` specifies printing and parsing, `UriRoundTrip.dfy` proves for which
  URIs they are inverse, and `UriBuffer.dfy` models printing into a buffer and parsing in place.
  `UriLaws.dfy` says which characters are escaped and what any text is taken apart to.
- **Interfaces and reference counts** (`src/core/interface.c`, `src/core/refcnt.c`). `Interfaces.dfy`
  specifies operations on a network of interfaces, with a bound on recursion. `InterfaceTermination.dfy`
  shows when the bound does not matter, `InterfaceSafety.dfy` what operations keep, `InterfaceOnce.dfy`
  when no interface is told twice, `InterfaceLaws.dfy` what becomes of a pair down to every field, and
  `InterfaceTable.dfy` models them in place. Close handlers do nothing, restart, or shut down all
  interfaces of their object in some order.
- **Big integers** (`src/crypto/bigint.c` and the x86 primitives): `Limbs.dfy`, `Bigint.dfy`.
- **AES key wrap** (`src/crypto/aes_wrap.c`): `KeyWrap.dfy`, `KeyWrapStandard.dfy`, `AesWrap.dfy`, over an
  arbitrary block cipher.
- **ASN.1 builder and cursor** (`src/crypto/asn1.c`): `Asn1.dfy`, `Asn1Objects.dfy`.
- **HMAC and HMAC_DRBG** (`src/crypto/hmac.c`, `src/crypto/hmac_drbg.c`, `src/crypto/drbg.c`): `Hmac.dfy`,
  `Drbg.dfy`, over an arbitrary hash function.
- **Run queue, square root, calendar** (`src/core/process.c`, `src/core/isqrt.c`, `src/core/time.c`):
  `Processes.dfy`, `Isqrt.dfy`, `Calendar.dfy`.

`Bits.dfy` and `ByteStrings.dfy` hold what several of these share.

## Where the code does not do what one would expect

These are proved as exact conditions, and where a condition does not name a failing input itself, a lemma
gives one. The condition on lost memory is exact for blocks that start a unit.

- Shutting down an interface need not end: two objects plugged together twice, crosswise, shut each
  other down for ever (`InterfaceTermination.CrossedPlugsDiverge`). It ends under every plugging exactly
  if every close handler first shuts down the interface that was told
  (`InterfaceTermination.EndsHoweverPlugged`), and under a given plugging if interfaces can be ranked
  (`InterfaceTermination.ShutdownEnds`).
- An interface may be told of a close twice, also where shutting down ends
  (`InterfaceOnce.ParallelToldTwice`); none is under every plugging exactly if every close handler first
  shuts down the interface that was told (`InterfaceOnce.ToldOnceHoweverPlugged`).
- The comment on `aes_wrap` says that source and destination may be the same buffer; the first block is
  overwritten before it is copied (`AesWrap.OverlapExactly`, `AesWrap.SameBufferWrong`).
- Key wrap uses one byte of the step counter (`KeyWrapStandard.StandardExactly`).
- The carry of a product of two elements is added before it is tested, so that multiplication reads and
  writes the element after the result once, without changing it (`Bigint.MultiplyRaw`).
- Small pieces of free memory are lost only at the start or end of memory, as the comments say, but only
  for offsets that are multiples of the minimum block size (`Allocator.Pool.AllocBlock`,
  `Allocator.OddOffsetLoses`).
- Sizes wrap: adding the header to a size among the largest gives a small total, so that the block has no room
  for the data, and moving an allocation of more than a unit there copies past its end
  (`HeapWords.HoldsExactly`, `HeapWords.OverrunExactly`, `HeapWords.LargestSize`, `Malloc.Realloc`). A rounded
  size that exceeds the room of a block by more than half the address space passes the signed test
  (`Allocator.Pool.PassesExactly`, `HeapWords.TestExactly`); sizes up to half the address space are safe
  (`Allocator.Pool.AllocBlock`, `Malloc.Realloc`).
- Before 1900 the years 1600, 1200 and so on are taken for common years, leap years are miscounted in some
  years, and the weekday may be negative (`Calendar.LeapYearIsGregorian`, `Calendar.LeapYearsExactly`,
  `Calendar.RightExactly`, `Calendar.WeekdayExactly`, `Calendar.WrongBefore1900`).
- The comment on `asn1_skip_if_exists` says that an error leaves the cursor unmodified; it does so exactly
  if there is no object or one of another type (`Asn1Objects.Cursor.SkipIfExists`).
- The zeroth power modulo one is returned as one (`Bigint.ModExp`).
- ASN.1 lengths from 2^31 on are not read back (`Asn1.LengthExactly`, `Asn1.UnnestNest`, `Asn1.VisitAll`).
- A builder that runs out of memory while it is empty does not remember it (`Asn1Objects.Builder.Grow`).
- Fields of a URI without authority are not decoded, and eight-bit characters are printed with eight
  digits (`UriRoundTrip.RoundTrip`).
- DEFLATE distance codes 30 and 31, which the standard excludes, are accepted and may give a copy at
  distance zero, which duplicates nothing known (`Inflation.OutputDetermined`,
  `DeflateFormat.ZeroDistanceStale`).
- A legal dynamic block that declares two or more distance codes but uses at most one is rejected; the
  single code is only patched if it is the only one declared (`DeflateFormat.InflateInvertsRaw`,
  `DeflateFormat.SingleDistanceRejected`).
- The check bits of a zlib header and the checksum after the data are not verified
  (`DeflateFormat.InflateInvertsZlib` holds for any).
- After a failure the decompressor counts as finished exactly if it had no resume point before the failing
  call, so that the flag depends on the cuts (`Fragments.InflateFragments`,
  `Fragments.FlagDependsOnCuts`).

## Model

| member | source | states |
|---|---|---|
| `Fragments.DecompressWritten` | src/crypto/deflate.c:492-1049 | A raw or zlib stream that the standards let a compressor write, fed in fragments of any sizes, succeeds and finishes exactly if its zlib header is supported and no dynamic block declares two or more distance codes without a complete distance code; the offset is then the length of the plain data and the buffer, however small, holds its prefix. After any other header the status is ENOTSUP and there is no output, whatever follows; otherwise the status is EINVAL and the output is that of the blocks before. |
| `Fragments.InflateFragments` | src/tests/deflate_test.c:155-206 | Whatever the cuts, feeding fragments until failure, finish or end of input shows the caller the status, offset and output of decompressing the whole at once, and the finished flag too unless it fails: then the flag is set exactly if there was no resume point and the first fragment fails. |
| `Fragments.InflateFragment` | src/tests/deflate_test.c:173-192 | One call on one fragment shows the outcome of the bit transducer on buffered bits followed by the fragment, and leaves the decompressor usable for the next; a failure leaves the finished flag as it was. |
| `Fragments.FlagDependsOnCuts` | src/crypto/deflate.c:492-505 | The byte 7 fails either way, with the finished flag set if it is given whole and clear if an empty fragment comes first. |
| `Fragments.RunStream` | src/crypto/deflate.c:492-991 | The transducer on any stream of either format: finished with the plain data exactly if its header is supported and all blocks are accepted, and the error and output otherwise. |
| `Inflation.RunResumes` | src/crypto/deflate.c:985-991 | Stopping for want of input at any point and resuming with more equals never having stopped. |
| `Inflation.ChunkingIrrelevant` | src/crypto/deflate.c:492-991 | For every input and every way of cutting it into chunks, feeding the chunks one by one equals feeding it whole. |
| `Inflation.OutputGrows` | src/crypto/deflate.c:456-472 | Output is only ever appended to. |
| `Inflation.OutputDetermined` | src/crypto/deflate.c:889-942 | The output is determined by the stream alone exactly if no copy has distance zero. |
| `Inflation.StandardOutputDetermined` | src/crypto/deflate.c:889-942 | A stream that uses only the distance codes 0 to 29 determines its whole output. |
| `Inflation.StepProgress` | src/crypto/deflate.c:492-991 | Every step of the transducer uses input or moves to a phase of lower rank, so every run ends. |
| `Deflate.Decompressor.constructor` | src/crypto/deflate.c:999-1049 | Initialisation: no buffered bits, mirrored empty accumulators, ready at the header of the format. |
| `Deflate.Decompressor.Inflate` | src/crypto/deflate.c:492-991 | The whole state machine: status, finished flag, output buffer and offset, and the resumption state are exactly the outcome of the transducer on buffered bits followed by unread input; a failure leaves the resume point alone. |
| `Deflate.Decompressor.Accumulate` | src/crypto/deflate.c:307-334 | Acquires whole bytes until enough bits are buffered or input ends; pending input is unchanged and both accumulators stay exact mirrors with zeros elsewhere. |
| `Deflate.Decompressor.Acquire` | src/crypto/deflate.c:318-330 | One acquired byte is appended to both registers without a negative shift. |
| `Deflate.Decompressor.Consume` | src/crypto/deflate.c:343-356 | Takes the lowest buffered bits as a number and drops exactly them from both registers. |
| `Deflate.Decompressor.Extract` | src/crypto/deflate.c:366-386 | Returns the next field of pending input, or reports "not yet" exactly when too few bits are pending, losing none. |
| `Deflate.Decompressor.Decode` | src/crypto/deflate.c:396-436 | Returns the symbol that canonical prefix decoding of the pending bits gives, and "not yet" exactly when they hold no complete code, despite zero padding. |
| `Deflate.Decompressor.DiscardToByte` | src/crypto/deflate.c:443-446 | Drops exactly the bits up to the next byte boundary of the stream. |
| `Deflate.Decompressor.SetLength` | src/crypto/deflate.c:120-124 | Stores one packed code length and no other. |
| `Deflate.Decompressor.DoZlibHeader` | src/crypto/deflate.c:507-533 | One step of the transducer for the zlib header, with its error cases. |
| `Deflate.Decompressor.DoBlockHeader` | src/crypto/deflate.c:535-565 | One step for the block header, dispatching on the block type. |
| `Deflate.Decompressor.DoLiteralLen` | src/crypto/deflate.c:567-587 | One step for the length of a stored block, after discarding to a byte boundary. |
| `Deflate.Decompressor.DoLiteralNlen` | src/crypto/deflate.c:589-607 | One step for the complement of the length; a mismatch is an error. |
| `Deflate.Decompressor.DoLiteralData` | src/crypto/deflate.c:609-634 | Copies stored bytes straight from the input; the accumulator is empty on entry, so none is lost or duplicated. |
| `Deflate.Decompressor.StaticBlock` | src/crypto/deflate.c:636-649 | The static alphabets are constructed, complete, and those of the standard. |
| `Deflate.Decompressor.DoDynamicHeader` | src/crypto/deflate.c:653-684 | One step for the counts of a dynamic block. |
| `Deflate.Decompressor.DoDynamicCodelen` | src/crypto/deflate.c:686-722 | One step for a code length code, in the transmission order that DeflateFormat.TransmissionOrder spells out. |
| `Deflate.Decompressor.DoDynamicLitlenDistance` | src/crypto/deflate.c:724-749 | One step for a code length symbol: stores a length or prepares a repeat. |
| `Deflate.Decompressor.DoDynamicLitlenDistanceExtra` | src/crypto/deflate.c:751-778 | One step for a repeat count: stores that many lengths, or as many as there is room for. |
| `Deflate.Decompressor.ConstructAlphabets` | src/crypto/deflate.c:780-821 | Both alphabets are constructed from the recorded lengths; success exactly if both codes are complete. |
| `Deflate.Decompressor.DoLzhufLitlen` | src/crypto/deflate.c:823-873 | One step for a literal, end of block or length symbol. |
| `Deflate.Decompressor.DoLzhufLitlenExtra` | src/crypto/deflate.c:875-887 | One step for the extra bits of a length. |
| `Deflate.Decompressor.DoLzhufDistance` | src/crypto/deflate.c:889-909 | One step for a distance symbol. |
| `Deflate.Decompressor.DoLzhufDistanceExtra` | src/crypto/deflate.c:911-942 | One step for the extra bits of a distance and the copy, or an error if it reaches before the start. |
| `Deflate.Decompressor.DoBlockDone` | src/crypto/deflate.c:944-958 | One step at the end of a block: next block, footer or finish. |
| `Deflate.Decompressor.DoAdler32` | src/crypto/deflate.c:960-983 | The checksum must be present but is not looked at. |
| `Alphabets.Alphabet.Build` | src/crypto/deflate.c:213-297 | Construction succeeds exactly if the lengths form a complete code, and then the tables represent the canonical code. |
| `Alphabets.Alphabet.CountLengths` | src/crypto/deflate.c:225-233 | Counts the symbols of each length. |
| `Alphabets.Alphabet.AssignRanges` | src/crypto/deflate.c:235-256 | Assigns each length its range of normalised codes; tells over-subscribed and incomplete codes. |
| `Alphabets.Alphabet.FillRaw` | src/crypto/deflate.c:258-265 | Sorts the symbols by length and then by value. |
| `Alphabets.Alphabet.FillLookup` | src/crypto/deflate.c:279-283 | Each quick lookup entry is the last length whose range starts at or below its prefix. |
| `Alphabets.Alphabet.Search` | src/crypto/deflate.c:412-419 | Quick lookup and walking down find the length whose range holds the window, never stepping below the first. |
| `Alphabets.Alphabet.Symbol` | src/crypto/deflate.c:429-430 | The raw table gives the symbol whose canonical code the window starts with. |
| `Alphabets.Oversubscribed` | src/crypto/deflate.c:246-252 | A range that overflows its length means an over-subscribed code. |
| `Huffman.CodewordUnique` | src/crypto/deflate.c:213-297 | No two symbols share a codeword of the canonical code. |
| `Huffman.CodewordRange` | src/crypto/deflate.c:235-256 | Codewords of one length are the numbers of one range. |
| `Huffman.KraftIsBound` | src/crypto/deflate.c:235-256 | The normalised end of the last range is the Kraft sum of the lengths. |
| `Huffman.DecodeExtends` | src/crypto/deflate.c:396-436 | More input never changes a symbol already recognised. |
| `Huffman.DecodeWaits` | src/crypto/deflate.c:396-436 | A window in the range of a length not yet buffered holds no complete code. |
| `Huffman.DecodeByWindow` | src/crypto/deflate.c:396-436 | Otherwise the range determines the codeword length and the symbol. |
| `Huffman.NoShorterCodeword` | src/crypto/deflate.c:396-436 | Zero padding never makes a shorter codeword appear. |
| `Huffman.DecodeTotal` | src/crypto/deflate.c:396-436 | With a complete code, fifteen bits always decode. |
| `Huffman.DecodeEncode` | src/crypto/deflate.c:396-436 | Prefix freedom: each codeword decodes to its symbol whatever follows. |
| `BitBuffer.MirroredIsValued` | src/crypto/deflate.c:307-356 | Registers that mirror a bit string bit by bit hold its two values as numbers. |
| `BitBuffer.ValuedIsMirrored` | src/crypto/deflate.c:307-356 | And conversely. |
| `BitBuffer.AppendByte` | src/crypto/deflate.c:318-326 | Shifting a byte into one register and its reversal into the other keeps the mirror. |
| `BitBuffer.DropBits` | src/crypto/deflate.c:343-356 | Shifting bits out of both registers keeps the mirror. |
| `Lz77.DuplicateAt` | src/crypto/deflate.c:456-472 | Closed form of an overlapping copy: byte i repeats the string at the distance. |
| `Lz77.DuplicateDetermined` | src/crypto/deflate.c:456-472 | A copy is determined by the output exactly if its distance is not zero. |
| `Lz77.HoldsDetermined` | src/crypto/deflate.c:456-472 | A buffer that holds determined output holds exactly its prefix. |
| `Chunks.Chunk.Copy` | src/crypto/deflate.c:456-472 | Copies byte by byte, aliased or not, stops writing at the end of the buffer but keeps counting. |
| `Chunks.EmitByte` | src/crypto/deflate.c:840-848 | Emitting a byte appends it to the output held. |
| `Chunks.EmitDuplicate` | src/crypto/deflate.c:923-938 | Copying within the output buffer appends the duplicated string to the output held. |
| `DeflateTables.InitTables` | src/crypto/deflate.c:1010-1040 | The tables together satisfy what decompression needs of them. |
| `DeflateTables.InitReverse` | src/crypto/deflate.c:1010-1018 | The table reverses each byte. |
| `DeflateTables.InitLitlenBase` | src/crypto/deflate.c:1020-1029 | The incremental table equals the length table of section 3.2.5 of RFC 1951. |
| `DeflateTables.InitDistanceBase` | src/crypto/deflate.c:1031-1040 | The incremental table equals the distance table of section 3.2.5 of RFC 1951. |
| `DeflateFormat.InflateInvertsRaw` | src/crypto/deflate.c:492-991 | Every raw stream that RFC 1951 lets a compressor write (stored blocks with any padding, static and dynamic blocks) decompresses to what it stands for, leaving what follows, if and only if every dynamic block that declares two or more distance codes has a complete distance code; otherwise it fails with EINVAL and the output of the blocks before. |
| `DeflateFormat.InflateInvertsZlib` | src/crypto/deflate.c:492-991 | The same with a zlib header for the only compression method without a preset dictionary, padding and footer; the checksum may be anything. |
| `DeflateFormat.UnsupportedHeader` | src/crypto/deflate.c:507-533 | Any other zlib header fails with ENOTSUP and no output, whatever follows. |
| `DeflateFormat.SingleDistanceRejected` | src/crypto/deflate.c:788-821 | A legal block whose only distance code is symbol 1, with one bit, is rejected. |
| `DeflateFormat.SparseIncomplete` | src/crypto/deflate.c:788-821 | A distance code that the standard allows is complete exactly if more than one code is used, so acceptance can be read off the lengths. |
| `DeflateFormat.AcceptedComplete` | src/crypto/deflate.c:788-821 | Patching a single declared distance code to two makes the code complete; nothing else does. |
| `DeflateFormat.PatchedTokens` | src/crypto/deflate.c:788-821 | The patch changes neither the bits nor the meaning of what is written with the one code. |
| `DeflateFormat.ZeroDistanceStale` | src/crypto/deflate.c:889-942 | A stream with distance code 30 or 31 and extra bits zero finishes with three cells of the output left as the caller had them. |
| `DeflateFormat.ApplyBlocksDetermined` | src/crypto/deflate.c:456-472 | No such stream leaves stale bytes in the output. |
| `DeflateFormat.StaticComplete` | src/crypto/deflate.c:636-649 | The static codes are complete. |
| `DeflateFormat.LengthWritable` | src/crypto/deflate.c:823-887 | Every length from 3 to 258 can be written. |
| `DeflateFormat.DistanceWritable` | src/crypto/deflate.c:889-942 | Every distance from 1 to 32768 can be written. |
| `DeflateFormat.TransmissionOrder` | src/crypto/deflate.c:74-76 | Code length code lengths are sent for the symbols 16, 17, 18, 0 and then 8 + k and 7 - k in turn; those not sent are zero; the closed form by which compressors place them agrees with the table. |
| `DeflateLaws.SameLengthNext` | src/crypto/deflate.c:213-297 | Section 3.2.2 of RFC 1951: codes of one length are consecutive in symbol order. |
| `DeflateLaws.NextLength` | src/crypto/deflate.c:235-256 | Section 3.2.2: the first code of a length follows the last code of the length used before it, filled up with zeros. |
| `DeflateLaws.FirstCode` | src/crypto/deflate.c:235-256 | Section 3.2.2: the first code of the shortest length is zero. |
| `DeflateLaws.CodeBits` | src/crypto/deflate.c:396-436 | Huffman codes are sent with their highest bit first. |
| `DeflateLaws.BitOrder` | src/crypto/deflate.c:366-386 | Fields are sent with their lowest bit first. |
| `DeflateLaws.LengthSymbols` | src/crypto/deflate.c:1020-1029 | Section 3.2.5: each length symbol starts where the one before ends, and its number of extra bits is given by a formula; 285 is 258. |
| `DeflateLaws.DistanceSymbols` | src/crypto/deflate.c:1031-1040 | Section 3.2.5: the same for distances; the undefined symbols start at zero with fourteen extra bits. |
| `DeflateLaws.MatchLayout` | src/crypto/deflate.c:823-942 | A match is written as length symbol, extra bits, distance symbol, extra bits, and each new byte equals the one at that distance before it. |
| `DeflateLaws.StaticTable` | src/crypto/deflate.c:79-90 | Section 3.2.6: lengths and codes of all 288 literal and length symbols and of the distance symbols, in numbers. |
| `DeflateLaws.CodeLengthSymbols` | src/crypto/deflate.c:724-778 | Section 3.2.7: what the symbols 0 to 15, 16, 17 and 18 stand for, their extra bits, and which values they can have. |
| `DeflateLaws.StoredLayout` | src/crypto/deflate.c:567-634 | Every bit of a stored block: type, padding, length, its complement, data. |
| `DeflateLaws.StaticLayout` | src/crypto/deflate.c:636-651 | A static block: type, data, end of block. |
| `DeflateLaws.DynamicLayout` | src/crypto/deflate.c:653-821 | A dynamic block: type, three counts of 5, 5 and 4 bits, code length code, code lengths, data, end of block. |
| `DeflateLaws.SentLayout` | src/crypto/deflate.c:686-722 | Lengths of the code length code take three bits each. |
| `DeflateLaws.StreamLayout` | src/crypto/deflate.c:535-565 | Blocks follow each other, and the first bit of a block is set exactly in the last one. |
| `DeflateLaws.ReservedRejected` | src/crypto/deflate.c:559-565 | Block type 3 fails with ENOTSUP. |
| `DeflateLaws.LengthsMismatch` | src/crypto/deflate.c:589-607 | A stored block whose second length is not the complement of the first fails with EINVAL. |
| `DeflateLaws.CodeLengthCodeRejected` | src/crypto/deflate.c:686-722 | A dynamic block whose code length code is not complete fails with EINVAL. |
| `DeflateLaws.LastCommand` | src/crypto/deflate.c:751-821 | The last repeat is cut off where there is no more room, and the block is rejected with EINVAL exactly if one of its codes, with a single distance code taken as two, is not complete. |
| `DeflateLaws.FarMatchRejected` | src/crypto/deflate.c:911-942 | A match that reaches before the start of the output fails with EINVAL. |
| `DeflateLaws.ChecksumAwaited` | src/crypto/deflate.c:960-983 | A zlib stream waits for four bytes after its last block, and is finished once they are there. |
| `Allocator.Pool.constructor` | src/core/malloc.c:91-103 | An empty heap satisfies the invariant and is aligned. |
| `Allocator.Pool.AllocBlock` | src/core/malloc.c:273-368 | For every size and alignment that is a machine word. Keeps the heap invariant (ordered, separated, minimum-sized free list; free, live and leaked bytes partition the pool; counter right). The block is new, physically congruent to the offset modulo the larger of alignment and minimum size, and taken from the first block that the signed test takes for large enough; on failure every cache is empty and nothing fits; no live byte changes; in an aligned heap, with an offset of whole units, bytes leak only at the start or end of memory. It goes astray exactly if the first block that looks large enough is not, or the rounded size is zero; never for a rounded size of at most half the address space less what may be skipped. An alignment of zero asks for one physical address. |
| `Allocator.Pool.Search` | src/core/malloc.c:298-304 | Finds the first block that the signed test takes for large enough, or none exists. |
| `Allocator.Pool.PassesExactly` | src/core/malloc.c:300-304 | For every block with room and every size: the signed test passes exactly if the size fits or exceeds the room by more than half the address space. |
| `Allocator.Pool.SaneFits` | src/core/malloc.c:291-304 | For sane sizes and alignments the first block that passes the test is large enough. |
| `Allocator.Pool.NothingFits` | src/core/malloc.c:291-304 | If no block passes the test, none is large enough, for every size. |
| `HeapWords.RoundWordExactly` | src/core/malloc.c:291-292 | Rounding up modulo the word gives what unbounded rounding gives, or zero exactly if it wraps. |
| `HeapWords.TestExactly` | src/core/malloc.c:300-304 | The signed test judges all blocks below half the address space right, where fewer than m bytes are skipped, exactly if the rounded size plus m is at most half the address space plus the minimum size plus one. |
| `Allocator.Pool.Split` | src/core/malloc.c:305-342 | Replaces a block by what precedes and follows, dropping pieces below the minimum size. |
| `Allocator.Pool.Take` | src/core/malloc.c:305-348 | Taking part of a free block moves exactly those bytes to the live ones and lost pieces to the leaked ones. |
| `Allocator.Pool.PreAligned` | src/core/malloc.c:292-303 | The bytes skipped bring the physical address to the wanted alignment. |
| `Allocator.Pool.FreeBlock` | src/core/malloc.c:378-472 | Keeps the heap invariant, adds exactly the rounded block to the free bytes, and changes no live byte although headers are written in the heap; rounding does not wrap. |
| `Allocator.Pool.Insert` | src/core/malloc.c:424-465 | One pass inserts a block in address order and merges it with neighbours on either side. |
| `Allocator.Pool.Populate` | src/core/malloc.c:619-624 | Adds memory rounded down to whole minimum blocks; the heap stays aligned if the memory shares no unit with the pool. Less than one block fails the assertion on the size, exactly then, and nothing has changed. |
| `Allocator.Pool.InitHeap` | src/core/malloc.c:630-634 | The heap that is set up at first is one block and aligned, wherever it starts. |
| `Allocator.Pool.DiscardCache` | src/core/malloc.c:236-246 | Frees some blocks that caches hold, none exactly if there are none. |
| `Allocator.Pool.WriteHeaders` | src/core/malloc.c:199-229 | Rewriting headers of free blocks touches no other byte. |
| `Allocator.AllocThenFree` | src/core/malloc.c:273-472 | If the first block that looks large enough is, freeing right after allocating restores counter and live blocks, and the identical free list exactly if nothing leaked; in an aligned heap of whole units always. |
| `Allocator.Conserved` | src/core/malloc.c:343-344 | The free memory counter plus the rounded sizes of all live blocks is the size of the pool. |
| `Allocator.SameFree` | src/core/malloc.c:199-229 | With the same live bytes, the free list is the same exactly if the leaked bytes are. |
| `FreeList.BytesDetermineList` | src/core/malloc.c:199-229 | An ordered, merged free list is determined by the bytes it covers. |
| `Heap.AlignmentIsLarger` | src/core/malloc.c:289-294 | The combined mask is one less than the larger of alignment and minimum size. |
| `Heap.SplitList` | src/core/malloc.c:305-342 | Splitting keeps the list well formed and takes away exactly the bytes taken and lost. |
| `Allocator.TakeWhole` | src/core/malloc.c:314-342 | Taking whole units loses bytes only in units that lie across the start or end of memory. |
| `Heap.LostAtEdges` | src/core/malloc.c:314-342 | What is too small to keep, before or after whole units, lies at the very start or end of memory. |
| `Heap.NoEdges` | src/core/malloc.c:314-342 | A pool of whole units has no such places, so nothing is lost. |
| `Allocator.OddOffsetLoses` | src/core/malloc.c:298-342 | With an offset that is not a multiple of the unit, and any alignment up to a unit, a block that starts a unit loses its first bytes, wherever it lies. |
| `HeapRuns.Serve` | src/core/malloc.c:236-624 | After any run of allocations, frees, lendings to caches and additions of memory, from any heap: the invariant holds, live blocks are exactly those held and cached, counter plus rounded sizes is the pool, blocks held throughout keep their bytes, bytes have leaked only at the edges of memory if requests keep to whole units, none in a pool of whole units, and whenever blocks and pool are again what they were the free list is too, exactly if nothing leaked. The run stops early only at a request that goes astray, and never if all are sane. |
| `HeapRuns.GetBlock` | src/core/malloc.c:273-368 | In a run a request is refused only if caches are empty and nothing fits, and no byte of a block held changes. |
| `HeapRuns.ServeOne` | src/core/malloc.c:236-624 | Any request keeps the bytes of all blocks that are held before and after it. |
| `HeapRuns.GiveBlock` | src/core/malloc.c:378-472 | Giving a block back changes no other block held. |
| `HeapRuns.AddMemory` | src/core/malloc.c:619-624 | Adding whole units keeps the heap aligned and earlier leaks at the edges; no block held changes. |
| `Malloc.Realloc` | src/core/malloc.c:494-543 | For every size that is a machine word: keeps the first min(old, new) bytes in the new block, frees the old one, changes no byte of any other live block; on failure the old block is live and unchanged; size zero gives the special address. The new block has room for what was asked for exactly if adding the header does not wrap. With a new block, copying leaves a block exactly under the condition below; without, either nothing fits or the allocation has gone astray; neither happens for sane sizes and an old size that did not wrap. |
| `Malloc.ReallocMove` | src/core/malloc.c:502-536 | The case with both an old and a new block. |
| `Malloc.MoveInside` | src/core/malloc.c:523-535 | Moving the data stays inside both blocks, or is not begun, exactly by that condition. |
| `HeapWords.OverrunExactly` | src/core/malloc.c:506-533 | For all old and new sizes: copying leaves one of the blocks exactly if adding the header to the new size wraps and the old total is more than a unit, or the old size was such a one and the new total is more than a unit. |
| `HeapWords.HoldsExactly` | src/core/malloc.c:506-508 | For every size: the rounded total holds header and data exactly if neither addition wraps. |
| `HeapWords.LargestSize` | src/core/malloc.c:506-533 | The largest size gets one unit, and copying more than a unit there leaves it. |
| `HeapWords.CopiedIs` | src/core/malloc.c:528-533 | From an old block whose size did not wrap, min(old, new) bytes are copied. |
| `Malloc.AllocSized` | src/core/malloc.c:502-516 | A new block stores its total size, modulo the word, in front of its data; it goes astray only if that is zero or the block allocator does. |
| `Malloc.FreeSized` | src/core/malloc.c:523-535 | Frees with the size read back from memory. |
| `Malloc.CopyData` | src/core/malloc.c:530-533 | Copying between two live allocations changes no third one. |
| `Malloc.Malloc` | src/core/malloc.c:554-563 | For every size that is a machine word: adds exactly one new block to the live ones that caches did not give back, or none on failure, when caches are empty and nothing fits; no byte of another block changes; size zero gives the special address; there is room for what was asked for exactly if adding the header does not wrap. |
| `Malloc.Free` | src/core/malloc.c:575-582 | Frees exactly the block behind the pointer, if any. |
| `Malloc.WordRoundTrip` | src/core/malloc.c:511-528 | A size stored in memory is read back. |
| `UriRoundTrip.RoundTrip` | src/core/uri.c:243-465 | For every URI whatsoever: parsing its printed text gives the same fields if and only if the stated condition on the fields holds. |
| `UriRoundTrip.HierarchicalReparsed` | src/core/uri.c:282-374 | With a scheme and no opaque part: exactly if there is a host, a password only beside a user, no relative path, a port not ending in "]", a host without ":" unless it ends in "]" or a port follows, and seven-bit characters only. |
| `UriRoundTrip.OpaqueReparsed` | src/core/uri.c:282-304 | With an opaque part: exactly if there is nothing else but a fragment and nothing needs escaping, since fields are then not decoded. |
| `UriRoundTrip.BareReparsed` | src/core/uri.c:295-345 | Without a scheme: exactly if there is only an absolute path not starting with "//", a query and a fragment, none of which needs escaping. |
| `UriRoundTrip.AuthorityReparsed` | src/core/uri.c:347-368 | User, password, host and port are read back exactly under their part of the condition. |
| `UriRoundTrip.HostReparsed` | src/core/uri.c:364-368 | Host and port are read back exactly if they can be told apart. |
| `UriRoundTrip.NetPathShorter` | src/core/uri.c:318-334 | A path that starts with two slashes is never read back as it was. |
| `UriRoundTrip.DecodeEncode` | src/core/uri.c:49-70 | Decoding an escaped field gives the field with each eight-bit character mangled. |
| `UriRoundTrip.MangleIdentity` | src/core/uri.c:176-182 | Exactly the seven-bit fields survive, since an escaped eight-bit character is printed with eight digits. |
| `UriRoundTrip.EncodeAvoids` | src/core/uri.c:119-154 | No significant character and no zero is left in an escaped field. |
| `UriRoundTrip.EncodeIdentity` | src/core/uri.c:79-155 | Escaping leaves exactly the plain fields alone. |
| `UriRoundTrip.WithoutParamsSame` | src/core/uri.c:264-274 | A printed URI never looks as if it had a parameter list. |
| `UriLaws.PrintedAsIs` | src/core/uri.c:79-155 | For every character and field: it is printed as itself exactly if it is printable, neither a space nor a percent sign, and not one of those listed for the field. |
| `UriLaws.PrintedEscaped` | src/core/uri.c:166-188 | Every other character is printed as a percent sign and two upper case digits, or eight with FFFFFF in front if its top bit is set. |
| `UriLaws.PrintedEach` | src/core/uri.c:166-188 | Fields are printed character by character. |
| `UriLaws.Printed` | src/core/uri.c:407-465 | What is printed before and after each field, in which order. |
| `UriLaws.DecodeTwoDigits` | src/core/uri.c:49-70 | A percent sign and two hexadecimal digits of either case stand for the character 16a + b; zero ends the text. |
| `UriLaws.DecodeOneDigit` | src/core/uri.c:49-70 | With one digit only, it stands for that character. |
| `UriLaws.DecodeNoDigit` | src/core/uri.c:49-70 | A percent sign that no number follows stays. |
| `UriLaws.DecodeSigned` | src/core/uri.c:49-70 | A sign or white space may come before one digit; a minus sign negates it modulo 256. |
| `UriLaws.DecodeNothing` | src/core/uri.c:49-70 | A sign or white space without a digit after it ends the text. |
| `UriLaws.ParseAuthority` | src/core/uri.c:282-374 | Any text put together from an optional scheme, two slashes, an optional login, a host, an optional port, an optional path, query and fragment is taken apart into these, unescaped, provided that the login ends at the first at sign, the user at the first colon, and the port starts at the last colon not before a closing bracket. |
| `UriLaws.DecodeEach` | src/core/uri.c:370-374 | Unescaping all fields unescapes each of them. |
| `UriLaws.ParseRelative` | src/core/uri.c:295-345 | Any text of a path that does not start with two slashes, query and fragment, after a scheme or none, is taken apart into these as they are. |
| `UriLaws.ParseOpaque` | src/core/uri.c:282-304 | Any text of a scheme and something that does not start with a slash is taken apart into these as they are. |
| `UriLaws.ListCut` | src/core/uri.c:264-274 | Everything from the first "##params" on is cut off. |
| `UriBuffer.ParseUri` | src/core/uri.c:243-382 | Parsing in place in one copy of the text, with separators overwritten and the authority shuffled down, yields pointers to exactly the fields of the specification. |
| `UriBuffer.ParsePathInPlace` | src/core/uri.c:306-374 | The part after the scheme. |
| `UriBuffer.ParseAuthorityInPlace` | src/core/uri.c:318-374 | Authority and path, then all fields decoded where they lie, none disturbing another. |
| `UriBuffer.SplitNetPath` | src/core/uri.c:318-334 | Authority and path after two slashes. |
| `UriBuffer.Shuffle` | src/core/uri.c:327-334 | Moving the authority down one byte makes room for its terminator. |
| `UriBuffer.SplitAuthorityInPlace` | src/core/uri.c:347-368 | User, password, host and port. |
| `UriBuffer.SplitHostInPlace` | src/core/uri.c:363-368 | Host and port; for an empty host the byte before it, which is in the buffer, is looked at. |
| `UriBuffer.CutParams` | src/core/uri.c:264-274 | Cuts off a parameter list. |
| `UriBuffer.DecodeInPlace` | src/core/uri.c:49-70 | Decoding in place gives the decoded string and never writes past what was read. |
| `UriBuffer.DecodeFields` | src/core/uri.c:370-374 | Decoding all fields one by one decodes each of them. |
| `UriBuffer.Strchr` | src/core/string.c:241-250 | Finds the first place of a character. |
| `UriBuffer.Strrchr` | src/core/string.c:259-270 | Finds the last place of a character. |
| `UriBuffer.FormatUri` | src/core/uri.c:407-465 | Whatever the size of the buffer, the result is the length of the whole text and the buffer holds as much of it as fits, terminated. |
| `UriBuffer.FormatField` | src/core/uri.c:431-454 | Prefix, escaped field and suffix. |
| `UriBuffer.EncodeInto` | src/core/uri.c:166-188 | Escapes a field into a buffer that may be too small. |
| `UriBuffer.Put` | src/core/vsprintf.c:349-427 | Printing at an offset that may be past the end keeps the text printed so far and adds what fits. |
| `UriBuffer.FormatUriAlloc` | src/core/uri.c:476-485 | Two passes give a buffer with the whole text. |
| `UriBuffer.Reparse` | src/tests/uri_test.c:161-198 | Printing and parsing gives pointers to the very same fields exactly for the URIs of the condition. |
| `InterfaceTermination.ShutdownEnds` | src/core/interface.c:273-286 | Shutting down ends whenever interfaces can be ranked so that those shut down while a destination is still live have lower rank. |
| `InterfaceTermination.CycleDiverges` | src/core/interface.c:244-286 | Around a cycle of interfaces each of whose destination first shuts down the next, shutting down has no end. |
| `InterfaceTermination.CrossedPlugsDiverge` | src/core/interface.c:244-286 | Two objects plugged together twice, crosswise, shut each other down for ever. |
| `InterfaceTermination.EndsHoweverPlugged` | src/core/interface.c:244-286 | Shutting down ends under every plugging if and only if every close handler first shuts down the interface that was told. |
| `InterfaceTermination.RestartEnds` | src/core/interface.c:297-313 | The same for restarting. |
| `InterfaceTermination.ShutdownMore` | src/core/interface.c:273-286 | An outcome does not depend on the recursion bound of the model. |
| `InterfaceSafety.ShutdownSafe` | src/core/interface.c:273-286 | While the caller holds the object, no freed object is touched and every count stays equal to its holders minus one. |
| `InterfaceSafety.CloseSafe` | src/core/interface.c:244-261 | The same for closing, which holds the destination meanwhile. |
| `InterfaceSafety.RestartSafe` | src/core/interface.c:297-313 | The same for restarting. |
| `InterfaceSafety.PlugSafe` | src/core/interface.c:86-93 | Plugging never touches a freed object and keeps counts right, even within one object. |
| `InterfaceLaws.PlugExactly` | src/core/interface.c:86-93 | Plugging changes one destination and moves one reference from the old object to the new one, and nothing else. |
| `InterfaceLaws.ShutdownHeard` | src/core/interface.c:273-286 | Shutting down one of two interfaces that are plugged into each other, where the handler of the peer restarts it or shuts down just it, gives exactly this network: both unplugged, the peer told once and usable exactly if restarted, one reference less to each object. |
| `InterfaceLaws.ShutdownIgnored` | src/core/interface.c:273-286 | If the peer is blocked, only this end is unplugged and nobody is told. |
| `InterfaceLaws.RestartHeard` | src/core/interface.c:297-313 | Restarting does the same and leaves the interface itself usable. |
| `InterfaceSafety.FreedWhenUnheld` | src/core/refcnt.c:61-91 | An object is freed exactly when nothing holds it any more. |
| `InterfaceSafety.BothEndsUnplugged` | src/core/interface.c:273-286 | Both ends of a plug end up on the null interface; the peer is nullified or, if it restarts, keeps its descriptor. |
| `InterfaceSafety.ToldAtMostOnce` | src/core/interface.c:244-286 | A corollary for networks without cycles: no interface is told of a close more than once, whatever the handlers. |
| `InterfaceSafety.ShutdownOnce` | src/core/interface.c:273-286 | There an interface is told only while something is plugged into it, and not if its peer has higher rank. |
| `InterfaceOnce.ToldOnceHoweverPlugged` | src/core/interface.c:244-286 | No interface is told more than once, at any depth of the recursion and under every paired plugging, if and only if every close handler first shuts down the interface that was told. |
| `InterfaceOnce.ShutdownTells` | src/core/interface.c:273-286 | With such handlers only interfaces that are live and have a peer are told, and none of them again, also in runs that are not finished. |
| `InterfaceOnce.ParallelToldTwice` | src/core/interface.c:244-286 | Two objects plugged together twice, in parallel, with handlers that shut down the second interface first: shutting down ends, and one interface is told twice. |
| `Interfaces.Restart` | src/core/interface.c:297-313 | A restarted interface is unplugged and has its descriptor back. |
| `Interfaces.Shutdown` | src/core/interface.c:273-286 | A shut down interface is unplugged and nullified; interfaces are only unplugged and descriptors only nullified. |
| `InterfaceTable.Objects.Increment` | src/core/refcnt.c:42-49 | Adds a reference, unless there is no counter. |
| `InterfaceTable.Objects.Decrement` | src/core/refcnt.c:61-91 | Drops a reference; the object is freed when the count drops to -1 and never again. |
| `InterfaceTable.Objects.PlugInto` | src/core/interface.c:86-93 | References the new destination before dropping the old one. |
| `InterfaceTable.Objects.PlugBoth` | src/core/interface.c:105-108 | Two interfaces are plugged into each other and counts stay right. |
| `InterfaceTable.Objects.Block` | src/core/interface.c:124-126 | Nullifies the descriptor. |
| `InterfaceTable.Objects.CloseDest` | src/core/interface.c:244-261 | Closing in place has the outcome specified. |
| `InterfaceTable.Objects.ShutdownIntf` | src/core/interface.c:273-286 | Shutting down in place has the outcome specified. |
| `InterfaceTable.Objects.RestartIntf` | src/core/interface.c:297-313 | Restarting in place has the outcome specified. |
| `InterfaceTable.ShutdownHeld` | src/core/interface.c:244-286 | Where handlers can be ranked, shutting down an interface of a held object ends, touches no freed object, unplugs both ends, keeps all counts right and frees each object at most once; it tells each interface at most once if there is no cycle or handlers start with the interface that was told. |
| `InterfaceTable.AcyclicRanked` | src/core/interface.c:244-286 | Without cycles interfaces can be ranked, so that shutting down and restarting end. |
| `InterfaceTable.RestartHeld` | src/core/interface.c:297-313 | The same for restarting: it ends, keeps counts right, unplugs both ends, tells each interface at most once under the same condition, and restores the descriptor. |
| `Bigint.ModMultiply` | src/crypto/bigint.c:46-91 | Returns exactly the product modulo any positive modulus, also with the result stored over an operand and for products shorter than the modulus. |
| `Bigint.Scale` | src/crypto/bigint.c:72-77 | Rotating the modulus up loses no bit and brings it within a factor of two of the product. |
| `Bigint.Reduce` | src/crypto/bigint.c:79-84 | Subtracting on the way down leaves exactly the remainder. |
| `Bigint.ModExp` | src/crypto/bigint.c:104-139 | Returns the power modulo the modulus if and only if not both the modulus is one and the exponent zero, without requiring a reduced base. |
| `Bigint.ExpStep` | src/crypto/bigint.c:130-138 | Each bit of the exponent keeps result times remaining power modulo the modulus. |
| `Bigint.Multiply` | src/arch/x86/core/x86_bigint.c:43-95 | Schoolbook multiplication with carries gives the product. |
| `Bigint.AddProduct` | src/arch/x86/core/x86_bigint.c:78-92 | Adding one double element carries as far as necessary. The carry is added two places up before it is tested, which touches the element after the last exactly at the last pair; that element keeps its value. |
| `Bigint.MultiplyRaw` | src/arch/x86/core/x86_bigint.c:43-95 | The product in memory; the element after it is touched exactly once, if there is anything to multiply, and keeps its value. |
| `Bigint.Propagate` | src/arch/x86/core/x86_bigint.c:82-86 | The carry loop, which adds before it tests, stays inside the result but for that access. |
| `Bigint.Subtract` | src/arch/x86/include/bits/bigint.h:79-97 | Subtraction with borrow modulo the size. |
| `Bigint.RotateLeft` | src/arch/x86/include/bits/bigint.h:105-117 | Doubles, up to the carry lost. |
| `Bigint.RotateRight` | src/arch/x86/include/bits/bigint.h:125-135 | Halves. |
| `Bigint.IsZero` | src/arch/x86/include/bits/bigint.h:144-157 | Tells zero. |
| `Bigint.IsGeq` | src/arch/x86/include/bits/bigint.h:167-193 | Compares values. |
| `Bigint.MaxSetBit` | src/arch/x86/include/bits/bigint.h:221-238 | Finds the highest bit set plus one, as powers of two around the value. |
| `Bigint.Grow` | src/arch/x86/include/bits/bigint.h:248-265 | Keeps the value. |
| `Bigint.Shrink` | src/arch/x86/include/bits/bigint.h:275-288 | Keeps a value that fits. |
| `Limbs.ValueInjective` | src/arch/x86/include/bits/bigint.h:15-16 | Element arrays of one size with equal values are equal. |
| `KeyWrap.UnwrapWrap` | src/crypto/aes_wrap.c:85-124 | Unwrapping what was wrapped gives the initial value and the data, for every block count and every cipher. |
| `KeyWrap.WrapStarts` | src/crypto/aes_wrap.c:49-54 | Wrapping starts from eight bytes 0xA6 and takes six passes. |
| `KeyWrap.WrapSteps` | src/crypto/aes_wrap.c:55-67 | Each step written out: which block is encrypted with the integrity value, what becomes of either half, and which byte is marked with the counter. |
| `KeyWrap.UnwrapExactly` | src/crypto/aes_wrap.c:85-124 | Unwrapping finds the initial value in exactly the wrappings of some blocks. |
| `KeyWrap.StepsUnsteps` | src/crypto/aes_wrap.c:85-124 | The forward loops undo the reverse loops. |
| `KeyWrap.UnstepsSteps` | src/crypto/aes_wrap.c:101-113 | The unwrapping loops undo the wrapping loops. |
| `KeyWrap.WrapInjective` | src/crypto/aes_wrap.c:38-71 | Different data are wrapped differently. |
| `KeyWrapStandard.WrapIsStandard` | src/crypto/aes_wrap.c:55-67 | With fewer than 256 steps the indexed loops equal the shift register algorithm of section 2.2.1 of RFC 3394. |
| `KeyWrapStandard.StandardSteps` | src/crypto/aes_wrap.c:55-67 | The shift register algorithm of section 2.2.1 of RFC 3394 written out, with the counter as a 64-bit number. |
| `KeyWrapStandard.StandardStarts` | src/crypto/aes_wrap.c:49-54 | It starts from eight bytes 0xA6 and takes six times as many steps as there are blocks. |
| `KeyWrapStandard.WrapIsNotStandard` | src/crypto/aes_wrap.c:63-63 | With 256 steps or more they do not, since only one byte of the counter is used. |
| `KeyWrapStandard.StandardExactly` | src/crypto/aes_wrap.c:55-67 | They agree for every cipher and all data if and only if six times the block count is below 256. |
| `AesWrap.WrapKey` | src/crypto/aes_wrap.c:38-71 | In memory: the destination holds the wrapping of the source as it is after the initial value has been stored; nothing else changes. |
| `AesWrap.OverlapExactly` | src/crypto/aes_wrap.c:35-53 | With overlapping buffers wrapping is right if and only if the initial value overwrites only bytes that equal it; the comment that source and destination may be the same buffer holds for no other data. |
| `AesWrap.SameBufferWrong` | src/crypto/aes_wrap.c:35-53 | Wrapping a buffer of zeros to itself is wrong. |
| `AesWrap.UnwrapKey` | src/crypto/aes_wrap.c:85-124 | Unwrapping is right under any overlap and succeeds exactly if the register holds the initial value. It succeeds exactly on wrappings. |
| `AesWrap.WrapThenUnwrap` | src/crypto/aes_wrap.c:38-124 | Wrapping and unwrapping in memory succeeds and brings the data back. |
| `AesWrap.CheckIV` | src/crypto/aes_wrap.c:117-121 | Compares with the initial value. |
| `Asn1.UnnestNest` | src/crypto/asn1.c:835-851 | Content wrapped to any depth and entered as often comes back if and only if the body of the outermost object is shorter than 2^31. |
| `Asn1.EnterEncode` | src/crypto/asn1.c:170-184 | Entering an object gives its body if and only if it is shorter than 2^31; skipping gives what follows and shrinking the object. |
| `Asn1.LengthExactly` | src/crypto/asn1.c:108-157 | A length is read back if and only if it is below 2^31. |
| `Asn1.StartHeader` | src/crypto/asn1.c:108-157 | Reading a header gives the length modulo 2^32, or fails if that has the sign bit set. |
| `Asn1.ShortForm` | src/crypto/asn1.c:723-743 | The header has two bytes exactly for lengths below 128, and then they are type and length. |
| `Asn1.LongForm` | src/crypto/asn1.c:732-740 | Otherwise the second byte is 128 plus the number of length bytes, which follow most significant first and do not start with zero. |
| `Asn1.ShortestHeader` | src/crypto/asn1.c:723-743 | No header that is read as announcing a body is shorter than the one written. |
| `Asn1.ReadShort` | src/crypto/asn1.c:128-156 | How every short header is read. |
| `Asn1.ReadLong` | src/crypto/asn1.c:128-156 | How every long header is read, leading zeros included. |
| `Asn1.ReadNothing` | src/crypto/asn1.c:112-141 | What is rejected before a length is read. |
| `Asn1.UnnestPrefix` | src/crypto/asn1.c:108-184 | Nothing less than all of an encoding gives the content. |
| `Asn1.SkipShrinks` | src/crypto/asn1.c:197-215 | A successful skip consumes at least two bytes and stays within bounds. |
| `Asn1.VisitAll` | src/crypto/cms.c:125-141 | A loop that skips object after object sees exactly the objects written if and only if all bodies but the last are shorter than 2^31, and the last is too or has a length that is read as negative. |
| `Asn1Objects.Cursor.StartObject` | src/crypto/asn1.c:108-157 | Moves the cursor to the body, or as far as it got before failing. |
| `Asn1Objects.Cursor.EnterObject` | src/crypto/asn1.c:170-184 | Enters an object or empties the cursor. |
| `Asn1Objects.Cursor.SkipIfExists` | src/crypto/asn1.c:197-215 | Moves past an object; fails at the end; after an error the cursor may have moved. A failure leaves it where it was exactly if there is no object or one of another type. |
| `Asn1Objects.Cursor.Skip` | src/crypto/asn1.c:228-237 | Moves past an object or empties the cursor; either way less is left. |
| `Asn1Objects.Cursor.Shrink` | src/crypto/asn1.c:250-268 | Shrinks to the first object or empties the cursor. |
| `Asn1Objects.Cursor.ForEach` | src/crypto/ocsp.c:635-660 | The loop ends and sees the objects specified. |
| `Asn1Objects.MakeHeader` | src/crypto/asn1.c:723-743 | Writes the header that Asn1.ShortForm, Asn1.LongForm and Asn1.ShortestHeader describe. |
| `Asn1Objects.Builder.Grow` | src/crypto/asn1.c:752-775 | Makes room at the front; running out of memory loses the data and is remembered exactly if there was any. |
| `Asn1Objects.Builder.PrependRaw` | src/crypto/asn1.c:785-797 | Puts data in front. |
| `Asn1Objects.Builder.Prepend` | src/crypto/asn1.c:808-826 | Puts an object in front. |
| `Asn1Objects.Builder.Wrap` | src/crypto/asn1.c:835-851 | Turns the contents into the body of one object. |
| `Asn1Objects.NestAndUnnest` | src/crypto/asn1.c:835-851 | Builder and cursor together bring content back from any depth exactly under the condition. |
| `Hmac.ReduceKey` | src/crypto/hmac.c:45-53 | A key longer than a block is replaced by its digest in place. |
| `Hmac.Init` | src/crypto/hmac.c:68-87 | Starts the inner hash with one block: the key combined with 0x36, and then bytes 0x36. |
| `Hmac.Final` | src/crypto/hmac.c:103-127 | Hashes one block, the key combined with 0x5c and then bytes 0x5c, and the inner digest; a key longer than a block is replaced by its digest first. |
| `Hmac.MacInto` | src/crypto/hmac.c:68-127 | The keyed hash for a key of any length, into a buffer that may be the key itself. |
| `Hmac.MacIs` | src/crypto/hmac.c:68-127 | RFC 2104 written out with both constants, for keys of any length. |
| `Hmac.ZeroExtended` | src/crypto/hmac.c:77-81 | A key and the same key with zeros after it, up to a block, have the same keyed hash for every message. |
| `ByteStrings.XorBits` | src/crypto/hmac.c:79-82 | Exclusive or, bit by bit. |
| `Drbg.Internal.UpdateKey` | src/crypto/hmac_drbg.c:66-94 | The key becomes the keyed hash, under itself, of value, separator and data. |
| `Drbg.Internal.UpdateValue` | src/crypto/hmac_drbg.c:111-130 | The value becomes its own keyed hash. |
| `Drbg.Internal.UpdateState` | src/crypto/hmac_drbg.c:146-174 | The steps of section 10.1.2.2 of NIST SP 800-90 as equations on key and value: one pass with the byte 0, and one with the byte 1 exactly if there is data. |
| `Drbg.UpdateSteps` | src/crypto/hmac_drbg.c:146-174 | The same of the specification that the other contracts use. |
| `Drbg.ReseedSteps` | src/crypto/hmac_drbg.c:247-275 | Section 10.1.2.4: entropy comes before additional input, and the counter becomes one. |
| `Drbg.GenerateSteps` | src/crypto/hmac_drbg.c:298-363 | Section 10.1.2.5 step by step; a reseed is required exactly if the counter exceeds 1024. |
| `Drbg.OutputBlocks` | src/crypto/hmac_drbg.c:330-348 | Each block of the output is the keyed hash of the one before, the first that of the value. |
| `Drbg.FirstOutput` | src/crypto/hmac_drbg.c:330-348 | Without additional input the output starts with the keyed hash of the value. |
| `Drbg.FunctionSteps` | src/crypto/drbg.c:332-389 | Section 9.3: with fresh entropy the additional input is used up by the reseeding. |
| `Drbg.Internal.Instantiate` | src/crypto/hmac_drbg.c:198-229 | Instantiation from the fixed key and value. |
| `Drbg.Internal.ReseedState` | src/crypto/hmac_drbg.c:247-275 | The reseed algorithm of section 10.1.2.4. |
| `Drbg.Internal.Fill` | src/crypto/hmac_drbg.c:330-348 | The output is the leftmost bytes of the values, each the keyed hash of the one before. |
| `Drbg.Generator.Run` | src/crypto/hmac_drbg.c:298-363 | The generate algorithm of section 10.1.2.5; the only error is that a reseed is required. |
| `Drbg.Generator.Instantiate` | src/crypto/drbg.c:66-163 | The state becomes valid exactly if entropy is available and the string is short enough. |
| `Drbg.Generator.ReseedGenerator` | src/crypto/drbg.c:178-251 | Reseeds a valid state, or leaves it alone with the error that applies. |
| `Drbg.Generator.GenerateBytes` | src/crypto/drbg.c:271-401 | Runs the generate algorithm at most twice, gives the output and state of the standard, and fails only if invalid, too long or without entropy when a reseed is due. Without additional input or a reseed the first output block is the keyed hash of the old value under the old key. |
| `Drbg.ReseedSuffices` | src/crypto/drbg.c:332-389 | After a reseed the generate algorithm always succeeds. |
| `Processes.Fair` | src/core/process.c:98-121 | A process queued with k others before it runs within k + 1 steps, whatever the executed steps add or delete, unless it is deleted. |
| `Processes.TurnWithin` | src/core/process.c:98-121 | Each step brings a waiting process forward. |
| `Processes.TurnDistinct` | src/core/process.c:59-121 | No process is ever queued twice. |
| `Processes.Scheduler.ProcessAdd` | src/core/process.c:59-69 | Puts a process at the end of the queue unless it is queued already, with its reference. |
| `Processes.Scheduler.ProcessDel` | src/core/process.c:79-90 | Takes a process out of the queue if it is queued, leaving the others in order, and drops the reference. |
| `Processes.Scheduler.Step` | src/core/process.c:98-121 | The first process runs and is rescheduled or removed, and may start, stop, take and drop processes; counts stay right, and it is destroyed at the end exactly if nothing holds it any more. |
| `Processes.TurnAlone` | src/core/process.c:98-121 | A process that does nothing else goes to the end of the queue, or out of it. |
| `Processes.TurnLast` | src/core/process.c:98-121 | Whatever it starts comes to the end of the queue, and whatever it stops leaves it, in the order in which it does so. |
| `Processes.Scheduler.Execute` | src/core/process.c:98-121 | What the running process does, one thing after the other, has the effect specified on queue and references. |
| `Processes.Scheduler.Perform` | src/core/process.c:98-121 | The running process is not destroyed before its step returns, even if it deletes itself and drops the last other reference to itself. |
| `Processes.Scheduler.Put` | src/core/refcnt.c:61-91 | A process is destroyed when its count drops below zero and only then. |
| `Isqrt.SquareRoot` | src/core/isqrt.c:40-56 | For every word size and value r * r <= value < (r + 1) * (r + 1), with arithmetic that wraps at the word. |
| `Isqrt.ScanStep` | src/core/isqrt.c:46-53 | One bit keeps the scaled remainder and partial root. |
| `Isqrt.ScanFits` | src/core/isqrt.c:47-49 | No intermediate value overflows the word. |
| `Isqrt.RootUnique` | src/core/isqrt.c:40-56 | There is only one such number. |
| `Calendar.Tm.MakeTime` | src/core/time.c:114-142 | For every year, month, day number and time, leap seconds included: seconds are those of POSIX:2008, section 4.15, exactly for the dates of Calendar.Right, among them all from 1900 on, and else off by one day; day of the year and of the week are right exactly under the conditions below. |
| `Calendar.EpochIsZero` | src/core/time.c:128-130 | The Epoch, a Thursday, is day zero. |
| `Calendar.Months` | src/core/time.c:57-68 | The Gregorian calendar in numbers: leap years and the days of each month. |
| `Calendar.NextWeekday` | src/core/time.c:93-102 | The next day has the next weekday. |
| `Calendar.NextNumber` | src/core/time.c:119-130 | The reference: for every date the day after has the next number. |
| `Calendar.LaterDays` | src/core/time.c:119-130 | So it does over any number of days. |
| `Calendar.BeyondMonth` | src/core/time.c:119-130 | A day beyond the end of a month, such as the thirtieth of February, has the number of the date that many days after the first. |
| `Calendar.Reached` | src/core/time.c:119-130 | Every date is reached from every earlier one day by day, so that the numbers are determined by this. |
| `Calendar.WeekdayIs` | src/core/time.c:93-102 | The weekday formula with its own table of offsets, if leap years are counted right, agrees with counting days. |
| `Calendar.DaysIncrease` | src/core/time.c:128-130 | Day numbers are in the order of dates. |
| `Calendar.SecondsIncrease` | src/core/time.c:114-142 | Seconds are in the order of moments. |
| `Calendar.PosixAgrees` | src/core/time.c:114-142 | Counting day by day gives the POSIX formula. |
| `Calendar.LeapYearIsGregorian` | src/core/time.c:57-68 | For every year: the leap year test agrees with the Gregorian calendar if and only if the year is not before 1900 or not a multiple of 400. |
| `Calendar.LeapYearsGrow` | src/core/time.c:76-84 | The reference count of leap years grows by one with each. |
| `Calendar.LeapYearsExactly` | src/core/time.c:76-84 | For every year: how many leap years too many or too few are counted; none from 1900 on. |
| `Calendar.DaysExactly` | src/core/time.c:119-130 | For every date: by how many days the day number is off. |
| `Calendar.RightExactly` | src/core/time.c:119-130 | The day number is right exactly from 1900 on, back to 1601 unless the year before was a leap year, and before that after leap years and from March on in 1600, 1200 and so on; it is never off by more than one day. |
| `Calendar.YearDayExactly` | src/core/time.c:119-123 | For every date: the day of the year is right except from March on in multiples of 400 before 1900. |
| `Calendar.WeekdayExactly` | src/core/time.c:93-102 | For every date: the weekday is right exactly if leap years are counted right and the sum is not negative or the day is a Sunday. |
| `Calendar.WrongBefore1900` | src/core/time.c:57-142 | Dates before 1900 for which each of these is wrong. |

## Left out

- DEFLATE debugging output and profiling; sizes and offsets do not wrap.
- Allocator.Pool.AllocBlock: what the program does after it has gone astray is not modelled; addresses do not wrap, memory is at most half the address space, alignments are powers of two or zero, as the assertion demands, and physical addresses differ from virtual ones by a constant.
- Malloc.Realloc: what copying past a block would overwrite is not modelled.
- Allocator.Pool.DiscardCache: which blocks caches give back is arbitrary; the order of cache discarders is not modelled.
- Allocator.Pool.Populate: what happens after the assertion on the size has failed is not modelled.
- Allocator.Pool.WriteHeaders: what headers hold is arbitrary; list links are modelled as a sequence, not as pointers in memory.
- `zalloc`, `mdumpfree`, Valgrind annotations and the shutdown hook of the heap would only add easy members.
- UriBuffer.ParseUri: a parameter list is cut off but not looked up, and memory for the copy is always available; characters are signed bytes.
- `resolve_uri`, `resolve_path`, `tftp_uri`, `uri_dup`, `uri_port` and printing of a missing URI are separate features of `src/core/uri.c`.
- Pass-through interfaces and operations other than close are not part of the interface model; handlers other than the three kinds named above are not modelled.
- InterfaceTermination.ShutdownEnds: for one given plugging the ranking is sufficient but not necessary; the exact statement is over all pluggings.
- InterfaceTable.Objects.Decrement: the effect of a destructor on other objects is not modelled.
- Bigint.Multiply: other bits than the lowest are not tested, and conversion from and to bytes is left out.
- AES, SHA and other ciphers and hashes are arbitrary functions with the stated sizes and, for ciphers, an inverse.
- Asn1Objects.Cursor.StartObject: `int` has 32 bits and sizes have 64; error numbers are names.
- ASN.1 integers, bit strings, times, booleans and algorithm identifiers, and CMS and OCSP apart from their loops over objects.
- Drbg.Generator.GenerateBytes: entropy is a parameter, present or not; health tests and `drbg_uninstantiate` are left out.
- Processes.Scheduler.Step: what a step does besides starting, stopping and referencing processes is not modelled, nor is what a destructor does.
- Calendar.Tm.MakeTime: 32-bit overflow of the day count after some five million years is not modelled.
- UriBuffer.CutParams: the parameter list that is cut off is not looked up.
- Consoles, drivers, network protocols, downloader and resolver plumbing and build configuration.
