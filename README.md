# External merge sort of a file of `int`s

This project models the sorting core of a small Java program,
`src/main/java/org/example/Main.java`. The program sorts a text file holding
one Java `int` per line, and does it in three stages:

1. `splitFile` reads the input line by line and parses each line with
   `Integer.parseInt`. It buffers the records and seals the buffer once
   `numbers.size() * Integer.BYTES >= CHUNK_SIZE`. A sealed buffer is written
   to `chunk_<counter>.txt`, one `num + "\n"` line per record, by
   `writeChunkToFile`. A non-empty remainder becomes the last chunk. The
   stage returns the chunk names in creation order.
2. `sortChunk` reads a chunk file back, sorts its records with
   `Collections.sort` and rewrites the file.
3. `mergeSortedFiles` opens one reader per chunk and seeds a
   `PriorityQueue<FileEntry>` with each chunk's first record. It then polls
   the least entry, writes it to the output and queues the next record of
   the same chunk, until the queue is empty.

The modules:

- `Records`: the `int` type and its decimal text. This covers
  `Integer.toString`, `Integer.parseInt`, `readLine`'s line splitting, and
  decoding a list of lines into records.
- `Files`: the file system as a class holding a map from names to texts,
  plus `BufferedReader` cursors.
- `Sorting`: ascending order, the functional sort, and an in-place array
  sort that stands for `Collections.sort`.
- `Partitioner`: `splitFile` and `writeChunkToFile`.
- `ChunkSorter`: `sortChunk`.
- `ChunkFiles`: what the chunk files mean to the merge.
- `Merger`: `FileEntry`, the priority queue and `mergeSortedFiles`.
- `Pipeline`: the three stages in the order `main` runs them.

Where the code changes state, the model does too. `FileSystem`, `MinQueue`
and the sorted array are updated in place by methods with loops and
invariants. Each method is proved against a specification function or
predicate, and the properties are proved about that function or predicate.

Three facts about the program shape the model:

- Every chunk is open at once during the merge.
- A chunk is always loaded whole into memory to be sorted.
- A reader whose chunk is exhausted stays open until the `finally` block.

## Model

| member | source | states |
|---|---|---|
| Records.DigitsValueOfDigits | src/main/java/org/example/Main.java:82 | the decimal text of a natural number is a non-empty digit string, with no leading zero unless the number is 0, and it denotes that number |
| Records.DigitsInjective | src/main/java/org/example/Main.java:64 | two numbers have the same decimal text exactly when they are equal |
| Records.DigitsNumberValue | src/main/java/org/example/Main.java:92 | the digit scan accepts exactly the all-digit strings and yields the number they denote |
| Records.FormatInt | src/main/java/org/example/Main.java:82 | the text `num + ""` produces for an int is non-empty, starts with '-' exactly when the int is negative, and is all digits after that sign |
| Records.ParseInt | src/main/java/org/example/Main.java:92 | every refusal by parseInt is a NumberFormatException that names the refused input |
| Records.ParseFormat | src/main/java/org/example/Main.java:92 | parseInt applied to the text `num + ""` produces gives back the same int, for every int including the minimum |
| Records.ParseIntRejects | src/main/java/org/example/Main.java:92 | parseInt refuses the empty line, a lone sign, any non-digit after the first character, a bad first character, and digit strings above the int range |
| Records.LineEnd | src/main/java/org/example/Main.java:91 | readLine's line ends at the first '\n' or '\r'; no earlier character is a line break |
| Records.ReadLines | src/main/java/org/example/Main.java:91 | successive readLine calls return no line exactly for an empty file, and never more lines than the file has characters |
| Records.DecodeLinesOk | src/main/java/org/example/Main.java:91-93 | decoding a file's lines succeeds if and only if every line parses, and then record i is line i's value |
| Records.DecodeLines | src/main/java/org/example/Main.java:91-93 | a file whose lines all parse gives one record per line; the only failure is a NumberFormatException |
| Records.ValidPrefix | src/main/java/org/example/Main.java:61-62 | the records read before the first refused line: a decoding prefix, followed by a refused line if any lines are left |
| Records.DecodeLinesErr | src/main/java/org/example/Main.java:91-92 | a failed decode reports the first line that parseInt refuses |
| Records.DecodeLinesRefused | src/main/java/org/example/Main.java:91-92 | the line a failed read names is one of the file's lines |
| Records.DecodeFailsAt | src/main/java/org/example/Main.java:91-92 | if all lines before line k parse and line k does not, the read fails with line k's error, and the valid prefix is exactly the earlier records |
| Records.EncodeSnoc | src/main/java/org/example/Main.java:81-83 | the unfolding of the written text, one loop turn at a time: writing one more record appends exactly its `num + "\n"` line |
| Records.EncodeCons | src/main/java/org/example/Main.java:81-83 | the text writeChunkToFile writes is the first record's `num + "\n"` line followed by the text of the other records |
| Records.ReadLinesAfterLine | src/main/java/org/example/Main.java:91 | readLine on a `num + "\n"` line followed by more text returns the record's decimal text and resumes right after the '\n' |
| Records.ReadEncoded | src/main/java/org/example/Main.java:82 | reading back a file written with `num + "\n"` gives one line per record, each the record's decimal text |
| Records.DecodeEncoded | src/main/java/org/example/Main.java:79-93 | round trip: records written by writeChunkToFile and read back with readLine and parseInt are the same records, in the same order |
| Files.FileSystem.Create | src/main/java/org/example/Main.java:80 | `new FileWriter(name)` leaves the named file empty and changes no other file |
| Files.FileSystem.Append | src/main/java/org/example/Main.java:82 | `writer.write(text)` appends the text to that file only |
| Files.Open | src/main/java/org/example/Main.java:89 | opening succeeds exactly for an existing file and yields a reader at its first line; otherwise FileNotFoundException |
| Files.ReadLine | src/main/java/org/example/Main.java:91 | readLine returns the next line and advances, or returns null at the end and stays there |
| Sorting.Insert | src/main/java/org/example/Main.java:96 | inserting into a sorted sequence gives a sorted sequence with exactly one more occurrence of the inserted record |
| Sorting.Sort | src/main/java/org/example/Main.java:96 | the sort result is in non-decreasing order and is a permutation of its input |
| Sorting.SortedUnique | src/main/java/org/example/Main.java:96 | two sorted sequences that are permutations of each other are equal, so the sorted order is unique |
| Sorting.SortPermutation | src/main/java/org/example/Main.java:96 | sorting depends only on the multiset of records |
| Sorting.SortOfSorted | src/main/java/org/example/Main.java:96 | sorting an already sorted sequence leaves it unchanged |
| Sorting.SortIdempotent | src/main/java/org/example/Main.java:96 | sorting twice gives the same result as sorting once |
| Sorting.Swap | src/main/java/org/example/Main.java:96 | an exchange swaps two cells and keeps the array's multiset of records |
| Sorting.SiftDown | src/main/java/org/example/Main.java:96 | one insertion pass leaves the first i+1 cells sorted and permutes them among themselves; the cells after i are unchanged |
| Sorting.PrefixPermuted | src/main/java/org/example/Main.java:96 | a permutation that leaves every cell from m on unchanged permutes the first m cells among themselves, so each insertion pass only permutes the prefix it sorts |
| Sorting.SortInPlace | src/main/java/org/example/Main.java:96 | `Collections.sort(numbers)` leaves the array holding the sort of its old contents |
| Partitioner.Capacity | src/main/java/org/example/Main.java:63 | the seal size is the least record count whose byte size (4 bytes per record) reaches the chunk budget |
| Partitioner.DefaultCapacity | src/main/java/org/example/Main.java:8 | with CHUNK_SIZE = 100 MiB a chunk is sealed at 26,214,400 records |
| Partitioner.SealTest | src/main/java/org/example/Main.java:63 | on a buffer not yet past capacity, the seal test holds exactly when the buffer has just reached capacity |
| Partitioner.ChunkName | src/main/java/org/example/Main.java:64 | a chunk name is "chunk_", then the counter in decimal digits, then ".txt" |
| Partitioner.ChunkNameInjective | src/main/java/org/example/Main.java:64 | `"chunk_" + counter + ".txt"` names are equal exactly when their counters are, so chunk names never collide |
| Partitioner.ChunkNames | src/main/java/org/example/Main.java:64-73 | the list splitFile returns holds n names, and name k is chunk k's name, in creation order |
| Partitioner.Partition | src/main/java/org/example/Main.java:61-74 | there are no chunks exactly when there are no records, and every chunk holds between 1 and cap records |
| Partitioner.PartitionCorrect | src/main/java/org/example/Main.java:61-74 | concatenating the chunks gives back the input records; every chunk but the last holds exactly cap records; the last holds 1 to cap |
| Partitioner.PartitionUnique | src/main/java/org/example/Main.java:61-74 | any well-cut list of chunks that concatenates to the input is the partition, so the cut is determined |
| Partitioner.PartitionCount | src/main/java/org/example/Main.java:63-74 | the chunk count is ceil(N / cap), and there are no chunks exactly when the input has no records |
| Partitioner.StoreChunksHit | src/main/java/org/example/Main.java:64-65 | after the chunks are written, chunk k's file holds exactly chunk k's lines |
| Partitioner.StoreChunksMiss | src/main/java/org/example/Main.java:64-65 | a file that is not a chunk name keeps its text, and keeps its presence or absence |
| Partitioner.WriteChunkToFile | src/main/java/org/example/Main.java:79-85 | the chunk file is replaced by the records' `num + "\n"` lines, in order; no other file changes |
| Partitioner.FullChunksUnique | src/main/java/org/example/Main.java:63-68 | full chunks followed by a short buffer are exactly the full chunks of their concatenation |
| Partitioner.SplitSpec | src/main/java/org/example/Main.java:55-77 | splitFile fails exactly on a missing input (FileNotFoundException) or a refused line (that line's NumberFormatException) |
| Partitioner.SplitKeeps | src/main/java/org/example/Main.java:55-77 | whether splitFile succeeds or fails, every file that is not a chunk name keeps its presence and its text |
| Partitioner.AddRecord | src/main/java/org/example/Main.java:62-68 | adding a record keeps the split invariant: sealed chunks followed by the buffer are the records read; sealed chunks are full and stored under their names; the buffer is not full |
| Partitioner.SplitAbort | src/main/java/org/example/Main.java:61-62 | a refused line ends the split with its error, leaving behind exactly the full chunks of the records before it |
| Partitioner.SplitDone | src/main/java/org/example/Main.java:70-74 | at end of input, the sealed chunks plus any non-empty remainder are the partition, stored and listed in order |
| Partitioner.ReadChunks | src/main/java/org/example/Main.java:61-69 | the read loop either decodes every line and reaches the split invariant, or stops at the first refused line with the earlier full chunks stored |
| Partitioner.SplitFile | src/main/java/org/example/Main.java:55-77 | the result and the new files are those of the split specification: partition, names and stored chunks, or the error and the chunks sealed before it |
| ChunkSorter.ReadRecords | src/main/java/org/example/Main.java:89-94 | the read loop returns the file's records, or the first refused line's error |
| ChunkSorter.SortedText | src/main/java/org/example/Main.java:87-103 | sortChunk succeeds only when every line of the chunk parses; when it fails, some line does not, and the NumberFormatException names one of the chunk's lines |
| ChunkSorter.SortChunk | src/main/java/org/example/Main.java:87-103 | a missing file or a refused line is the error and leaves every file unchanged; otherwise the chunk file is replaced by its records sorted, and nothing else changes |
| ChunkSorter.SortedTextOfChunk | src/main/java/org/example/Main.java:87-103 | sorting a chunk written by splitFile produces its records in ascending order |
| ChunkSorter.SortedTextRecords | src/main/java/org/example/Main.java:96-102 | after sortChunk, the file reads back as a sorted permutation of the records it held |
| ChunkSorter.SortChunkIdempotent | src/main/java/org/example/Main.java:87-103 | sorting a chunk a second time leaves it as sorting it once did |
| ChunkSorter.SortedChunkUnchanged | src/main/java/org/example/Main.java:96-102 | a chunk whose records are already in order is rewritten with the same text |
| ChunkFiles.ReadableLines | src/main/java/org/example/Main.java:111-128 | the chunks are readable if and only if every line of every chunk parses, and then their records are the lines' values |
| ChunkFiles.ErrorNotReadable | src/main/java/org/example/Main.java:112-126 | a missing chunk, or a chunk line parseInt refuses, rules out a readable set of chunks |
| ChunkFiles.SeedOutcome | src/main/java/org/example/Main.java:111-118 | a failure while opening the chunks is an error of the merge that leaves every file unchanged |
| ChunkFiles.DrainOutcome | src/main/java/org/example/Main.java:120-128 | the merge loop's outcome meets the contract of mergeSortedFiles (see Merger.MergeSortedFiles) |
| ChunkFiles.Merged | src/main/java/org/example/Main.java:105-135 | whatever its outcome, the merge changes no file but the output file; on success the output file is added to the files already present |
| Merger.MinQueue.constructor | src/main/java/org/example/Main.java:106 | a new queue is empty |
| Merger.Entry.Compare | src/main/java/org/example/Main.java:106 | the queue's comparator is negative, zero or positive as the first entry's value is below, equal to or above the second's; the readers play no part |
| Merger.CompareOrder | src/main/java/org/example/Main.java:106 | the comparator is antisymmetric and transitive, and two entries tie exactly when their values are equal |
| Merger.MinQueue.Add | src/main/java/org/example/Main.java:116 | `queue.add(e)` adds exactly that entry |
| Merger.MinQueue.Poll | src/main/java/org/example/Main.java:122 | `queue.poll()` removes one entry of least value that was in the queue, and keeps the others |
| Merger.PendingCount | src/main/java/org/example/Main.java:115-117 | the queue holds exactly one entry per open, non-exhausted chunk, and that entry is the chunk's next unwritten record; it holds no other entry |
| Merger.PendingEmpty | src/main/java/org/example/Main.java:121 | the queue is empty exactly when every open chunk is exhausted, which is when the loop ends |
| Merger.AdvancePending | src/main/java/org/example/Main.java:122-127 | writing chunk i's head takes its entry out, and the chunk's next record, if any, takes its place |
| Merger.AdvanceTaken | src/main/java/org/example/Main.java:122-123 | writing a chunk's head adds exactly that record to the output multiset and leaves one record fewer to write |
| Merger.TakenNone | src/main/java/org/example/Main.java:121 | before anything is written, nothing has been taken from any chunk |
| Merger.TakenFull | src/main/java/org/example/Main.java:121 | once every chunk is exhausted, the records written are the multiset union of all chunks |
| Merger.QueueStart | src/main/java/org/example/Main.java:106-107 | the empty queue with no readers meets the queue invariant |
| Merger.SeedStep | src/main/java/org/example/Main.java:112-117 | opening the next chunk and queueing its first record, if any, keeps the queue invariant |
| Merger.OpenChunk | src/main/java/org/example/Main.java:112-117 | opening a chunk yields a reader past its first line and queues that line's value; or fails with FileNotFound, or with the first line's NumberFormatException |
| Merger.OpenError | src/main/java/org/example/Main.java:112-116 | a failure to open a chunk is an error of the merge |
| Merger.SeedNext | src/main/java/org/example/Main.java:112-117 | one seeding turn keeps the queue invariant with one more reader, or fails with an error of the merge |
| Merger.SeedQueue | src/main/java/org/example/Main.java:111-118 | after seeding, every chunk exists and the queue holds exactly the first record of each non-empty chunk; otherwise the error is a missing chunk or a refused first line |
| Merger.Refill | src/main/java/org/example/Main.java:124-127 | the polled chunk's next line, if any, is parsed and queued; a refused line is its NumberFormatException |
| Merger.OrderStep | src/main/java/org/example/Main.java:122-127 | when every chunk is sorted, nothing left in the queue is smaller than the record just written |
| Merger.DrainStep | src/main/java/org/example/Main.java:122-127 | one poll-write-refill turn keeps the queue invariant |
| Merger.WriteLeast | src/main/java/org/example/Main.java:122-123 | the polled entry is a least entry of the queue, and its line is appended to the output |
| Merger.AscendingSnoc | src/main/java/org/example/Main.java:122-123 | writing a least queued value after records no greater than any queued value keeps the output in order |
| Merger.StepState | src/main/java/org/example/Main.java:121-128 | one turn keeps the loop invariant: the queue invariant; output equal to the records taken; output in order when every chunk is sorted. It leaves strictly fewer records to write |
| Merger.Advance | src/main/java/org/example/Main.java:124-127 | readLine and parseInt on the polled chunk keep the loop invariant, or fail with the refused line's error |
| Merger.Drain | src/main/java/org/example/Main.java:120-128 | the output file holds exactly the records written. The loop succeeds if and only if every line parses, and then writes every record once, sorted when every chunk is |
| Merger.DrainDone | src/main/java/org/example/Main.java:121 | at loop exit every line has been parsed and every record written, in order when every chunk is sorted |
| Merger.MergeSortedFiles | src/main/java/org/example/Main.java:105-135 | succeeds if and only if every chunk exists and every line parses. Then the output is the multiset union of the chunks, and equals the sort of their concatenation when every chunk is sorted. On error, the error is a missing chunk or a refused line, and no file but the output changed |
| Pipeline.SortChunks | src/main/java/org/example/Main.java:30-32 | sorting every chunk in list order gives the files, or the first error, of the composed sortChunk calls |
| Pipeline.SortAll | src/main/java/org/example/Main.java:30-32 | sorting the chunk files, when it succeeds, keeps the set of files |
| Pipeline.SortAllKeeps | src/main/java/org/example/Main.java:30-32 | sorting the chunk files leaves every file not in the list as it was |
| Pipeline.SortAllOk | src/main/java/org/example/Main.java:30-32 | sorting distinct, readable chunk files replaces each by its sorted text and leaves every other file alone |
| Pipeline.SortedChunksMerge | src/main/java/org/example/Main.java:34-35 | merging files that each hold a chunk sorted succeeds and writes the sort of the chunks' concatenation |
| Pipeline.SplitOk | src/main/java/org/example/Main.java:26 | on a readable input, splitFile returns the chunk names and stores chunks whose concatenation is the input's records |
| Pipeline.SortStored | src/main/java/org/example/Main.java:26-32 | sorting the chunks a split stored succeeds and leaves chunk k holding its records sorted |
| Pipeline.MainNamesApart | src/main/java/org/example/Main.java:12-13 | main's input and output names differ and neither is a chunk name |
| Pipeline.SortAndMerge | src/main/java/org/example/Main.java:30-35 | sorting the chunk files a split stored, then merging them, succeeds; the output holds the chunks' records sorted, and no file but the chunk files and the output changes |
| Pipeline.ExternalSort | src/main/java/org/example/Main.java:25-35 | for input and output names that are not chunk names, as `main`'s are: the three stages fail exactly on a missing input or a refused input line, and a failed run leaves the files as splitFile left them, so no output file is written. Otherwise the output file holds the input's records in ascending order. Every file that is not a chunk file, nor the output after a success, keeps its presence and its text, the input file included |

## Left out

- `main`'s prompt, `Scanner`, console output and timing are not modelled. Neither are `generateRandomNumbers`, `calculateNumberCount` and `AVERAGE_NUMBER_SIZE`. They are I/O and a test-data generator. `Pipeline.ExternalSort` keeps only the order of the three stage calls.
- Records.ParseInt: only the ASCII digits '0'-'9' are modelled. `Integer.parseInt` also accepts other Unicode decimal digits, and strings are `seq<char>` with no encoding.
- IOExceptions other than a missing file are not modelled: a disk that is full, permissions, an error while closing. Neither are `close()` in `finally`, try-with-resources and buffering. The model has no failing writes and no flush.
- Files.Reader: a reader takes the file's lines as they were when it was opened, while a Java reader sees later writes to its file. The two differ only when a file is read while it is rewritten. That happens when the input file, or the merge's output file, is also a chunk file. Pipeline.ExternalSort therefore requires that neither name is a chunk name, and `main`'s own file names meet that requirement (Pipeline.MainNamesApart).
- Merger.MinQueue.Poll: the priority queue's binary heap is replaced by a sequence with a linear scan for a least value. Which of several equal entries comes out is left unspecified, as the comparator leaves it. When every chunk is sorted, the output does not depend on that choice. Otherwise only the multiset of the output is determined.
- Merger.MergeSortedFiles: after a NumberFormatException in the merge loop, the contract says only that the output file holds some records already written. It does not state which prefix of the merge they are.
- Pipeline.SortChunks: after an error, the files are not described. The chunks sorted before the failing one stay rewritten, as in Java.
- Partitioner.SplitFile: the chunk budget is a parameter, `CHUNK_SIZE` by default, limited to at most 2^31 - 4 bytes. For such budgets `numbers.size() * Integer.BYTES` never wraps around before the buffer is sealed. The wrap-around of larger budgets is not modelled.
- Partitioner.SplitFile: input lines in the input file are split at '\n', '\r' and "\r\n", as `readLine` does. Reading past end-of-file and encodings are not modelled.
- Memory limits (OutOfMemoryError), durability, and removal of the chunk files after the merge are not modelled. The program never removes them.
- Sorting.SortInPlace: `Collections.sort` is TimSort, which is stable. It is modelled by an insertion sort. For `int` records the sorted result is unique, so the two agree (Sorting.SortedUnique).
