# Pairwise alignments: the binary file and anchor selection

This project models two parts of IPP, a tool that projects coordinates
between the genomes of two species.

It has two halves:

- **Converting and loading the alignments.** `pickle_to_bin.py` turns the
  pickled pairwise alignments into a compact binary file. Before writing,
  it sorts every table by (ref_chrom, ref_start, qry_chrom, qry_start)
  and keeps the first copy of each repeated row. It then writes
  little-endian integers and zero-terminated names, and aborts on any value
  that does not fit its field. `Ipp::loadPwalns` reads the file back into
  the chromosome list and a map of maps of runs: species, then species,
  then reference chromosome, then the alignments of that chromosome.
- **Choosing the anchors of a reference location.** `Ipp::getAnchors` does
  this in five steps:
  1. It scans the alignments of the location's chromosome into upstream,
     overlapping and downstream candidates, keeping the closest 20 on each
     side.
  2. It keeps only the alignments that point to the majority query
     chromosome.
  3. It sorts them by reference position.
  4. It keeps the longest collinear subsequence. This is an O(n log n)
     longest-chain search, run once for forward-strand and once for
     reverse-strand alignments.
  5. It returns the overlapping alignment twice, or the closest upstream and
     downstream pair.

The modules follow that structure:

| module | file | what it holds |
|---|---|---|
| `Wrappers` | wrappers.dfy | `Option` and `Result` |
| `Seqs` | seqs.dfy | small sequence lemmas, `FirstIndex` |
| `Wire` | wire.dfy | fixed-width little-endian integers and zero-terminated names |
| `Entries` | entries.dfy | the 20-byte alignment record |
| `PwalnFile` | pwalnfile.dfy | the file grammar, the reader and the maps it fills |
| `Rows` | rows.dfy | sorting, removing repeats, grouping by reference chromosome |
| `Converter` | converter.dfy | the writer, and when it fails |
| `Roundtrip` | roundtrip.dfy | written then loaded: every table is found under its names |
| `Chroms` | chroms.dfy | chromosome ids and names |
| `Chain` | chain.dfy | `longestSubsequence`, generic and per strand |
| `Anchors` | anchors.dfy | the scan, the majority filter and `getAnchors` |

The end-to-end theorem is `Roundtrip.ConvertThenLoad`. Take any input the
converter writes without failing, whose names contain no zero byte and
whose dictionary keys are distinct. The reader loads the written bytes, gets
the chromosome list back unchanged. The loaded map's keys are exactly the
input's primary species names, and under each exactly that species'
secondary names. Under each pair of names sits a map whose keys are
exactly the table's reference chromosomes, each holding that chromosome's
normalised rows in order.

The I/O of both programs is replaced by byte sequences. Reading works in
suffix style: each reader returns what it read and the bytes after it.
Clocks, threads, progress bars and printing do not occur in the model.

## Model

| member | source | states |
|---|---|---|
| Wire.DecodeEncodeLE | pickle_to_bin.py:70-72 | an in-range value written in `length` little-endian bytes is read back as the same value |
| Wire.EncodeDecodeLE | ipp.cpp:20-29 | any byte string is the encoding of the value read from it, so reading loses no information |
| Wire.EncodeLEInjective | pickle_to_bin.py:70-72 | two in-range values with the same bytes are equal |
| Wire.WriteInt | pickle_to_bin.py:70-72 | `write_int` succeeds exactly when 0 <= i < 2^(8·length); it then emits exactly `length` bytes that decode to i, and otherwise fails with that value and width |
| Wire.ReadInt | ipp.cpp:20-29 | `readInt` succeeds exactly when enough bytes remain; the bytes it consumes are the encoding of the value, and it fails with "Unexpected EOF" otherwise |
| Wire.ReadString | ipp.cpp:31-39 | `readString` succeeds exactly when a zero byte remains; the name holds no zero byte, and name, terminator and rest make up the input |
| Wire.ReadIntWriteInt | ipp.cpp:20-29 | reading a written integer gives the integer and exactly the following bytes |
| Wire.StrSplitUnique | pickle_to_bin.py:74-76 | a zero-free name followed by its terminator splits the byte stream in only one way |
| Wire.ReadStringWriteStr | ipp.cpp:31-39 | a name without a zero byte survives `write_str` then `readString`, leaving the following bytes untouched |
| Wire.EmbeddedZeroBreaksReadString | pickle_to_bin.py:74-76 | a name whose first zero byte is at k is written without complaint, but read back as its first k bytes; the rest of the name and its terminator stay in the stream ahead of what follows (for example, `[65, 0, 66]` reads as `[65]` and leaves `[66, 0]`) |
| Entries.DecodeEncodeEntry | ipp.cpp:62-67 | a record survives its 20-byte encoding |
| Entries.EncodeDecodeEntry | ipp.cpp:105-107 | every 20 bytes are the encoding of the record read from them |
| Entries.DecodeEncodeEntries | ipp.cpp:105-107 | a sequence of records survives the bulk encoding |
| Entries.EncodeDecodeEntries | ipp.cpp:105-107 | every 20·n bytes are the encoding of the n records read from them |
| Entries.ReadEntries | ipp.cpp:105-110 | the bulk read of n records succeeds exactly when 20·n bytes remain, consumes exactly those, and otherwise fails with "Unexpected EOF" |
| Entries.ReadEntriesEncoded | ipp.cpp:105-110 | the bulk read of written records returns them and the bytes after them |
| PwalnFile.ReadNames | ipp.cpp:80-85 | n names are read, none with a zero byte, and they serialise back to the bytes consumed |
| PwalnFile.ReadRun | ipp.cpp:101-113 | a run read has between 1 and 2^32-1 records, and its count and records serialise back to the bytes consumed |
| PwalnFile.ReadRuns | ipp.cpp:99-114 | the announced number of runs is read, each one recoverable, serialising back to the bytes consumed |
| PwalnFile.ReadSp2 | ipp.cpp:96-114 | a secondary-species block is read that is recoverable and serialises back to the bytes consumed |
| PwalnFile.ReadSp2s | ipp.cpp:94-115 | the announced number of secondary-species blocks is read, each recoverable, serialising back to the bytes consumed |
| PwalnFile.ReadSp1 | ipp.cpp:91-115 | a primary-species block is read that is recoverable and serialises back to the bytes consumed |
| PwalnFile.ReadSp1s | ipp.cpp:88-116 | the announced number of primary-species blocks is read, each recoverable, serialising back to the bytes consumed |
| PwalnFile.ParseImage | ipp.cpp:80-121 | a successful parse yields a well-formed file whose bytes are exactly the input, so every byte was consumed |
| PwalnFile.ParseSerialize | ipp.cpp:43-121 | every well-formed file is parsed back from its bytes |
| PwalnFile.TrailingBytesRejected | ipp.cpp:118-121 | bytes after a complete file are rejected with "Remaining data at EOF" |
| PwalnFile.InsertRuns | ipp.cpp:112-113 | `insert` of each run under its first record's reference chromosome: existing keys keep their runs, every run's chromosome becomes a key, no other key appears, and a chromosome keeps the first run filed under it |
| PwalnFile.InsertSp2sKeys | ipp.cpp:96-97 | every secondary name read becomes a key of the primary species' map, and no other key appears |
| PwalnFile.InsertSp2sUnchanged | ipp.cpp:96-97 | a secondary name that is not read keeps its runs |
| PwalnFile.InsertSp2sUnique | ipp.cpp:96-113 | a secondary name read once holds exactly the runs of its block, added to what was there |
| PwalnFile.InsertSp1sKeys | ipp.cpp:91-92 | every primary name read becomes a key, and no other key appears |
| PwalnFile.InsertSp1sUnchanged | ipp.cpp:91-92 | a primary name that is not read keeps its map |
| PwalnFile.InsertSp1sUnique | ipp.cpp:91-115 | a primary name read once holds exactly the map built from its block |
| PwalnFile.LoadedSp1Keys | ipp.cpp:88-92 | the keys of the map loaded from a well-formed file are exactly the primary names it lists |
| PwalnFile.LoadedSp2Keys | ipp.cpp:88-116 | under a primary name listed once, the keys are exactly the secondary names of its block |
| PwalnFile.LoadPwalns | ipp.cpp:43-122 | loading succeeds exactly when the bytes parse as a whole file; the chromosome list then has fewer than 2^16 zero-free names |
| PwalnFile.LoadSerialized | ipp.cpp:43-122 | loading the bytes of a well-formed file gives its chromosomes and the maps built from its blocks |
| PwalnFile.LoadedRuns | ipp.cpp:89-116 | when a species pair's names occur once each, the loaded map holds, under those two names, the runs of that block keyed by chromosome |
| Rows.SortRows | pickle_to_bin.py:57-59 | the sort yields a permutation of the table ordered by (ref_chrom, ref_start, qry_chrom, qry_start) |
| Rows.Nub | pickle_to_bin.py:60 | removing repeats keeps every row, introduces none, and leaves no row twice |
| Rows.NubFirstOrder | pickle_to_bin.py:60 | the rows kept appear in the order of their first occurrences |
| Rows.NubSorted | pickle_to_bin.py:57-60 | removing repeats from a sorted table leaves it sorted |
| Rows.NormalizeSpec | pickle_to_bin.py:57-60 | a normalised table is sorted, repeats no row, and holds exactly the rows of the original |
| Rows.Filter | pickle_to_bin.py:87 | the rows of one reference chromosome, whose number is its `value_counts` entry, all belong to the table |
| Rows.FilterKeepsAll | pickle_to_bin.py:87 | every row of the table with that chromosome is among them, so the count misses none |
| Rows.Chroms | pickle_to_bin.py:87-90 | a chromosome is counted in `len(ref_chrom_counts)` exactly when it has rows |
| Rows.Group | pickle_to_bin.py:92-97 | the blocks concatenate to the table, each block has one reference chromosome, and adjacent blocks differ |
| Rows.GroupSortedIncreasing | pickle_to_bin.py:57-97 | a sorted table's blocks have strictly increasing chromosomes, so each chromosome is written once |
| Converter.WriteRow | pickle_to_bin.py:98-103 | a row is written exactly when every column fits its field, and then as the 20-byte record the reader expects |
| Converter.WriteRowsChecks | pickle_to_bin.py:92-103 | a successful row loop had every row fit, and every count it emitted fit in u32 |
| Converter.HeadersCoverAll | pickle_to_bin.py:92-97 | from the start of a table, every row's chromosome had its count emitted |
| Converter.WriteRowsBytes | pickle_to_bin.py:92-103 | when every row and emitted count fits, the row loop succeeds with exactly the headed records |
| Converter.TableRowsOk | pickle_to_bin.py:92-103 | the row loop fails exactly when a column or a chromosome's row count does not fit |
| Converter.SortedBlocks | pickle_to_bin.py:87-97 | for sorted fitting rows, each block holds all rows of its chromosome, and there is one block per counted chromosome |
| Converter.SortedRowsAsRuns | pickle_to_bin.py:87-103 | sorted fitting rows are written as the runs the reader reads, as many as `len(ref_chrom_counts)` says |
| Converter.WriteTableSpec | pickle_to_bin.py:86-103 | a table is written exactly when it fits, and when sorted as a secondary-species block of the file grammar |
| Converter.WriteTablesOk | pickle_to_bin.py:86-103 | the tables of a species are written exactly when each fits |
| Converter.WriteSpeciesSpec | pickle_to_bin.py:83-103 | a species is written exactly when its table count fits u8 and each table fits, and when sorted as a primary-species block |
| Converter.WriteSpeciesListOk | pickle_to_bin.py:82-103 | the species list is written exactly when each species fits |
| Converter.WriteFileSpec | pickle_to_bin.py:78-104 | the writer fails exactly when a count or value does not fit; for sorted tables it emits the bytes of the file grammar |
| Converter.NormalizeAllSorted | pickle_to_bin.py:53-60 | after normalisation every table is sorted |
| Converter.ConvertSpec | pickle_to_bin.py:53-104 | the script fails exactly when the normalised input does not fit, and otherwise writes the grammar of the normalised input |
| Roundtrip.FromToEntries | pickle_to_bin.py:98-103 | a fitting row survives the trip through its record |
| Roundtrip.ToFromEntries | ipp.cpp:105-107 | a record survives the trip through its row |
| Roundtrip.SortedRunKeys | ipp.cpp:112-113 | the runs of a sorted fitting table are non-empty, hold the blocks' records, and are keyed by strictly increasing chromosomes |
| Roundtrip.TableLoadsKeys | ipp.cpp:99-113 | every chromosome of a sorted fitting table becomes a key of the loaded map |
| Roundtrip.TableLoadsValue | ipp.cpp:99-113 | each key of the loaded map is a chromosome of the table, and holds exactly the table's rows of that chromosome, in order |
| Roundtrip.TableLoads | ipp.cpp:99-113 | a sorted fitting table, once written, loads as a map whose keys are exactly its chromosomes, each holding exactly its rows of that chromosome |
| Roundtrip.TableSp2Ok | pickle_to_bin.py:86-103 | a sorted fitting table with a zero-free name is written as a block the reader can recover |
| Roundtrip.ImageWellFormed | pickle_to_bin.py:78-104 | the file written for a fitting, sorted input with zero-free names is one the reader accepts |
| Roundtrip.LoadedTable | ipp.cpp:88-116 | in the loaded file of such an input with distinct names, every table is found under its two names, as a map keyed by exactly its chromosomes |
| Roundtrip.NormalizeKeepsNames | pickle_to_bin.py:53-60 | normalisation keeps the names, so zero-free and distinct names stay so |
| Roundtrip.TablesKeepNames | pickle_to_bin.py:54-60 | normalising a species' tables keeps exactly its secondary names |
| Roundtrip.SpeciesKeepNames | pickle_to_bin.py:53-60 | normalising all tables keeps exactly the primary names |
| Roundtrip.NormalizedNames | pickle_to_bin.py:53-60 | normalisation keeps each species' primary name and the set of its secondary names |
| Roundtrip.ImageSp1Names | pickle_to_bin.py:82-84 | the file lists the input's primary names, in order |
| Roundtrip.ImageSp2Names | pickle_to_bin.py:85-89 | under each primary name the file lists exactly that species' secondary names |
| Roundtrip.LoadedNames | ipp.cpp:88-116 | loading the file of a fitting, sorted input with distinct zero-free names gives exactly its primary names as keys, and under each exactly its secondary names |
| Roundtrip.ConvertedNames | ipp.cpp:43-122 | the bytes the script writes load with exactly the input's primary names as keys, and under each exactly its secondary names |
| Roundtrip.ConvertedNoSpecies | ipp.cpp:88-89 | the bytes written for an input without species load as an empty map |
| Roundtrip.ConvertThenLoad | ipp.cpp:43-122 | what the script writes, the reader loads: the same chromosome list; exactly the input's primary names as keys, under each exactly its secondary names; and under each species pair a map keyed by exactly that table's reference chromosomes, holding its normalised rows per chromosome |
| Chroms.ChromIdFromName | ipp.cpp:155-163 | an unknown name fails with "Unknown chromosome"; a known one, in a table under 2^16 entries, gives its first position |
| Chroms.ChromName | ipp.cpp:165-169 | the name at the id is returned exactly when the id is in range, and `out_of_range` otherwise |
| Chroms.NameIdName | ipp.cpp:155-169 | naming the id of a known name gives that name back |
| Chroms.IdNameId | ipp.cpp:155-169 | an id round-trips through its name exactly when no earlier position holds the same name |
| Chain.SafePlace | ipp.cpp:714-750 | appending or replacing an entry of `m` and setting `prev` keeps every traced back-link path a chain |
| Chain.LinkedChain | ipp.cpp:721-724 | linking an element after the last entry it may follow extends that entry's traced chain by it |
| Chain.UnlinkedChain | ipp.cpp:744-749 | setting the new element's link leaves the chains traced from the other entries unchanged |
| Chain.ChainEndingAt | ipp.cpp:721-750 | a chain of two or more ending at an element extends a chain the table bounds, whose end key is at most the element's start |
| Chain.PlaceSorted | ipp.cpp:744-749 | placing an element between an end key at most its start and one beyond its end keeps the end keys of `m` sorted |
| Chain.BestPlace | ipp.cpp:721-750 | when keys are ordered, placing an element keeps `m` holding the smallest end of a chain of each length |
| Chain.BestSkip | ipp.cpp:745-750 | an element whose end key is no smaller than the entry at its place leaves `m` best |
| Chain.BestFiltered | ipp.cpp:710-712 | an element that fails the filter changes no chain, so `m` stays best |
| Chain.Search | ipp.cpp:732-741 | the binary search finds a point of `m` where the end keys pass the new start key: the entry there exceeds it and the one before does not; when the end keys of `m` are sorted, every entry before it is at most the start key, so it is the first exceeding one |
| Chain.Step | ipp.cpp:706-751 | one turn of the scan keeps the loop invariant: traced chains, emptiness iff nothing passed, and best ends |
| Chain.BestBound | ipp.cpp:693-694 | when `m` is best after all elements, no chain is longer than `m` |
| Chain.InvOptimal | ipp.cpp:706-751 | after the whole scan, with ordered keys, no chain is longer than `m` |
| Chain.Scan | ipp.cpp:704-751 | after the scan, `m` is empty exactly when no element passes, the back links trace chains, and with ordered keys no chain is longer |
| Chain.Backtrace | ipp.cpp:753-760 | the backtrace yields a chain as long as `m` |
| Chain.LongestChain | ipp.cpp:683-761 | the result is a chain that is empty exactly when no element passes, and with ordered keys it is a longest chain |
| Chain.LongestChainAsWritten | ipp.cpp:698-760 | the code as written faults exactly on a non-empty input in which no element passes; otherwise its result is a chain, and with ordered keys a longest one |
| Chain.Int32 | ipp.cpp:786-791 | the u32-to-int conversion keeps values below 2^31 and makes larger ones negative |
| Chain.Neg32 | ipp.cpp:798-803 | `-1 * v` negates every int except -2^31 |
| Chain.SmallOrdered | ipp.cpp:781-803 | with query coordinates below 2^31, each strand's passing elements have start key at most end key |
| Chain.ChainCollinear | ipp.cpp:781-803 | with query coordinates below 2^31, a chain of keys is exactly a collinear run: forward entries with increasing query intervals, or reverse entries with decreasing ones |
| Chain.SubsequenceBy | ipp.cpp:781-803 | one strand's result is the entries of a chain, empty exactly when no entry is on that strand, and with small coordinates collinear and longest |
| Chain.IncChecksCollinear | ipp.cpp:819-824 | on a collinear forward run the forward sanity checks fail exactly when some entry has query length zero |
| Chain.DecChecksCollinear | ipp.cpp:825-830 | on a collinear reverse run the reverse sanity checks always pass |
| Chain.SaneSmall | ipp.cpp:819-830 | for query coordinates below 2^31 both chains are collinear, and the sanity checks fail exactly when the forward chain holds a zero-length entry |
| Chain.LongestSubsequence | ipp.cpp:765-833 | both strand chains are found, each empty exactly when no entry is on its strand; the call aborts exactly when a sanity check fails, which for query coordinates below 2^31 means a zero-length forward entry in the forward chain; otherwise it returns the forward chain unless the reverse one is strictly longer, and with small coordinates that is a collinear run no forward or reverse chain outgrows |
| Chain.DecSanity | ipp.cpp:825-830 | each entry of a collinear reverse run is reversed and ends at or below the previous entry's query start, as the reverse sanity loop asserts |
| Chain.ZeroLengthAborts | ipp.cpp:819-824 | for example, the single entry with reference interval 0-1 and query interval 5-5 passes the forward filter, and every non-empty forward chain of it fails the forward checks |
| Chain.ReverseOnlyFaults | ipp.cpp:781-791 | for example, the single reverse-strand entry with reference interval 0-1 and query interval 5-2 is a non-empty input in which nothing passes the forward filter |
| Anchors.SideOfInterval | ipp.cpp:527-555 | for an ordered interval, upstream means ending at or before the location, downstream means starting after it, and overlapping means containing it |
| Anchors.UpInsert | ipp.cpp:514-531 | insertion into the upstream set keeps it strictly decreasing in reference end, and adds nothing but the new alignment |
| Anchors.UpInsertPresent | ipp.cpp:514-531 | inserting an alignment whose reference end is already present leaves the set unchanged |
| Anchors.UpInsertAbsent | ipp.cpp:514-531 | inserting a new reference end adds exactly that alignment |
| Anchors.UpInsertMembers | ipp.cpp:514-531 | insertion adds the alignment exactly when its reference end is new |
| Anchors.UpInsertEnds | ipp.cpp:514-531 | after insertion the set's reference ends are the old ones plus the new one |
| Anchors.TakeInsert | ipp.cpp:532-538 | the first `topn` after an insertion depend only on the first `topn` before it, so the intermediate cut loses nothing |
| Anchors.UpAllMembers | ipp.cpp:523-531 | the uncut set holds only upstream alignments seen, with exactly the reference ends seen |
| Anchors.UpAllFirst | ipp.cpp:514-531 | for each reference end, the set keeps the first alignment seen with it |
| Anchors.ScanOne | ipp.cpp:527-555 | each alignment is filed on its own side, keeping the scan invariant |
| Anchors.Collect | ipp.cpp:523-562 | the buckets are the first 20 upstream alignments by decreasing reference end, plus the overlapping and downstream ones of the scanned prefix; the scan stops only at the 20th downstream alignment |
| Anchors.MajorChrom | ipp.cpp:381-396 | the chosen query chromosome occurs in the alignments and no other occurs more often; with no alignments it is 0 |
| Anchors.KeepChromMembers | ipp.cpp:398-408 | what remains are exactly the alignments to the given query chromosome |
| Anchors.KeepChromCount | ipp.cpp:398-408 | as many alignments remain as point to the given query chromosome |
| Anchors.KeepChromDesc | ipp.cpp:398-408 | erasing from the upstream set keeps it ordered |
| Anchors.SortByRef | ipp.cpp:586-593 | the sort yields a permutation ordered by reference start, then end |
| Anchors.ChainIncreasing | ipp.cpp:753-760 | the positions of a chain increase pairwise |
| Anchors.ChainSorted | ipp.cpp:593-595 | a chain taken from sorted alignments is still sorted |
| Anchors.DownstreamAfter | ipp.cpp:624-625 | in sorted alignments with ordered intervals, everything after a downstream alignment is downstream |
| Anchors.FirstDown | ipp.cpp:619-626 | the position returned is the first downstream alignment's, or the length when there is none |
| Anchors.FirstDownUnique | ipp.cpp:619-626 | the first downstream position is the only one with no downstream alignment before it and a downstream one, or the end, at it |
| Anchors.FirstDownStartsFirst | ipp.cpp:619-626 | in sorted alignments the first downstream one starts no later than any other downstream one |
| Anchors.UpstreamEndsBounded | ipp.cpp:613-626 | in sorted alignments with ordered intervals, what holds for the upstream ends before the stop holds for all, and nothing past the stop overlaps |
| Anchors.Pick | ipp.cpp:613-645 | the loop stops at the first downstream alignment; before that it finds the upstream one with the largest end and the deepest overlapping one; for sorted ordered input the stop misses nothing |
| Anchors.WhereGrows | ipp.cpp:527-556 | scanning further never loses an alignment of a side, and gains one when the next alignment is on it |
| Anchors.StopsUnique | ipp.cpp:539-550 | the scan's stop is determined by the run: right after the 20th downstream alignment, or at the end |
| Anchors.CollectedFrom | ipp.cpp:527-562 | every collected alignment comes from the run and lies on its bucket's side |
| Anchors.KeptFrom | ipp.cpp:566-570 | the majority filter keeps exactly each bucket's alignments to the majority chromosome |
| Anchors.KeepChromShorter | ipp.cpp:398-408 | the filter never adds alignments |
| Anchors.Neighbourhood | ipp.cpp:519-570 | the scan stops where the run determines; the buckets are exactly the scanned prefix's top 20 upstream, overlapping and downstream alignments, each reduced to a query chromosome no other outnumbers among the three in `computeMajorChrom`'s order; so each comes from the run on its own side, at most 20 per side, and none on a side the run lacks |
| Anchors.AnswerOv | ipp.cpp:627-668 | the deepest overlapping alignment before the stop, the first of equals, given twice, is what the loop returns |
| Anchors.AnswerUp | ipp.cpp:613-677 | without overlap before the stop, the upstream alignment with the largest end, the first of equals, and the one at the stop are returned |
| Anchors.AnswerNone | ipp.cpp:646-675 | with no overlap before the stop and no upstream alignment before it or no downstream one at all, nothing is returned |
| Anchors.AnswerPair | ipp.cpp:610-678 | a returned pair comes from the chain and is an overlapping alignment twice or an upstream and a downstream one; for sorted chains an upstream one is paired with the downstream alignment that starts first, and for sorted chains with ordered intervals the pair is the closest such |
| Anchors.AnswerPairOv | ipp.cpp:646-666 | an overlapping answer is one alignment of the chain twice, and for sorted chains with ordered intervals the deepest overlapping one |
| Anchors.AnswerPairUp | ipp.cpp:667-677 | an upstream answer is paired with a downstream alignment of the chain; for sorted chains that one starts first among the downstream ones, and for sorted chains with ordered intervals the upstream one ends last among the upstream ones |
| Anchors.AnswerSorted | ipp.cpp:610-678 | in a sorted chain with ordered intervals nothing is returned exactly when there is no overlap and one side is missing |
| Anchors.Choose | ipp.cpp:610-678 | the result is exactly the answer of the loop: the first deepest overlapping alignment before the first downstream one, twice; else the first upstream one with the largest end before it and that downstream one; else nothing; for sorted ordered chains nothing is returned exactly when there is no overlap and one side is missing |
| Anchors.SmallCoordsSub | ipp.cpp:581-595 | alignments drawn from ones with small query coordinates have small query coordinates |
| Anchors.ChosenSorted | ipp.cpp:593-595 | the chain returned from sorted alignments is sorted and drawn from them |
| Anchors.CollinearAnchors | ipp.cpp:579-595 | the candidates are sorted by reference position; both strand chains of them are found; the step aborts exactly when a sanity check fails, and otherwise returns the preferred chain, sorted, drawn from the candidates, and collinear for small query coordinates |
| Anchors.FromKept | ipp.cpp:579-679 | after the buckets: an abort exactly when a sanity check fails on the sorted candidates; else, for their chain, nothing below 5 anchors and the loop's answer from 5 on, with the chain sorted, drawn from the candidates and collinear for small coordinates |
| Anchors.GetAnchors | ipp.cpp:496-679 | fails with `out_of_range` exactly for a chromosome without alignments; the scan stop and majority chromosome are those of the run; nothing when a filtered side is empty; otherwise an abort exactly when a sanity check fails, and else, for the chain of the sorted candidates, nothing below 5 anchors and the loop's answer from 5 on; the chain is sorted, drawn from the run's majority-chromosome alignments and collinear for small coordinates |

## Left out

- The file streams, `tqdm` progress bars, `print` and opening or naming files are left out, because they are I/O. Readers and writers work on byte sequences instead.
- Multi-byte integers are little-endian. The converter writes `sys.byteorder` and the reader reads the host's order, so the model assumes a little-endian host on both sides.
- The reader's bulk read assumes the 20-byte record layout given in the comment at ipp.cpp:62-67. `ipp.h` is not part of this model, so struct padding is assumed away.
- Entries.IsQryReversed: taken as qryStart > qryEnd. Its definition lives in `ipp.h`; the comments at ipp.cpp:501-502 describe it this way.
- Names are byte sequences. Python's `str.encode()` is not modelled; a name is its encoded bytes.
- The pickled data frames are modelled as sequences of six-column rows. Pandas' dtypes and index are left out.
- Rows.SortRows: `sort_values` does not promise a stable order for rows with equal keys. The model is a stable insertion sort, and its contract states only "sorted permutation". The converter's lemmas hold for every sorted table.
- Anchors.SortByRef: `std::sort` is not stable. The model fixes one order for alignments with equal reference start and end, and the chain search's result can depend on that order.
- Anchors.MajorChrom: the source takes the first maximum in `std::unordered_map` iteration order, which is unspecified. The contract states only that no chromosome occurs more often, and that the result is 0 when there are no alignments.
- Counter overflow in `computeMajorChrom` is not modelled. Its `unsigned` counts cannot overflow below 2^32 alignments.
- Chroms.ChromIdFromName: the u16 truncation of `std::distance` is written out. The result is characterised only for tables of fewer than 2^16 names, which is what the loader produces.
- Chain.LongestSubsequence: collinearity and optimality are proved only for query coordinates below 2^31. Above that, the source's int conversion wraps, and the model computes that wrap but states no order property.
- Chain.Neg32: `-1 * INT_MIN` is undefined in C++. The model gives the two's-complement result.
- The source undefines `NDEBUG` (ipp.cpp:6-7), so the sanity `assert`s of ipp.cpp:819-830 run in every build. The model turns a failing one into the `SanityCheckFailed` error instead of a process abort. Printing the chains when `debug` is set (ipp.cpp:805-815) is left out.
- PwalnFile.ReadRun: a run announcing zero records makes the source index the first element of an empty vector, which is undefined. The model rejects such a run with `EmptyRun`; the converter never writes one.
- On a failed load, the source leaves the partly filled `chroms_` and `pwalns_` behind. The model returns only the error.
- On a failed write, the script has already written the bytes before the failing value to the open `.bin` file, which stays behind truncated. The model returns only the error.
- Anchors.GetAnchors: the majority chromosome is stated as a maximum, not as the one `std::unordered_map` iteration would find first (see Anchors.MajorChrom).
- Anchors.Collect: the source leaves the scan with `break` at the 20th downstream alignment. The model writes the same stop as the loop condition.
- The rest of `Ipp` is outside this model: genome sizes, projection, scoring with floating point, and the threaded driver.

## Findings

| source | as written | input that shows it | evidently intended | confidence | as-written member | corrected member |
|---|---|---|---|---|---|---|
| ipp.cpp:698-755 | only an empty input returns early; otherwise the backtrace reads `m.back()` even when no element passed the filter and `m` is empty, which is undefined | any non-empty input in which nothing passes, e.g. the single reverse-strand entry with qryStart 5 and qryEnd 2 in the forward pass. `getAnchors` makes such a call whenever all collinearity candidates are on one strand: the forward pass faults when all are reverse-strand, and the reverse pass (ipp.cpp:793-803) when all are forward-strand, which is the common case | return the empty subsequence whenever `m` is empty | not executed | Chain.LongestChainAsWritten | Chain.LongestChain |
