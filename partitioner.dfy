/** The partitioner (`splitFile`): cuts the input file into chunk files of
    at most `CHUNK_SIZE` bytes' worth of records each. */
module Partitioner {
  import opened Failures
  import opened Records
  import opened Files

  /** `CHUNK_SIZE`: 100 MiB of in-memory records per chunk. */
  const ChunkSize: int := 100 * 1024 * 1024

  /** `Integer.BYTES`: the in-memory size the chunk bound counts per record. */
  const IntegerBytes: int := 4

  /** The largest chunk budget for which `numbers.size() * Integer.BYTES`
      cannot overflow a Java `int` before the buffer is sealed. */
  const MaxChunkBytes: int := IntMax - 3

  /** The number of records at which the buffer is sealed: the least `n`
      with `n * Integer.BYTES >= chunkBytes`. */
  function Capacity(chunkBytes: int): (c: nat)
    requires 0 < chunkBytes
    ensures c >= 1 && c * IntegerBytes >= chunkBytes
    ensures (c - 1) * IntegerBytes < chunkBytes
  {
    (chunkBytes + IntegerBytes - 1) / IntegerBytes
  }

  /** With the program's `CHUNK_SIZE` a chunk is sealed at 26,214,400 records. */
  lemma DefaultCapacity()
    ensures Capacity(ChunkSize) == 26_214_400
  {
  }

  /** For a buffer that has not yet reached the capacity, the seal test
      `numbers.size() * Integer.BYTES >= CHUNK_SIZE` holds exactly when it
      has just reached it. */
  lemma SealTest(chunkBytes: int, n: nat)
    requires 0 < chunkBytes && 1 <= n <= Capacity(chunkBytes)
    ensures (n * IntegerBytes >= chunkBytes) <==> n == Capacity(chunkBytes)
  {
  }

  /** The name of the `k`-th chunk file, `"chunk_" + k + ".txt"`. */
  function ChunkName(k: nat): (name: string)
    ensures |name| > 10 && name[..6] == "chunk_" && name[|name| - 4..] == ".txt"
    ensures AllDigits(name[6..|name| - 4]) && DigitsValue(name[6..|name| - 4]) == k
  {
    DigitsValueOfDigits(k);
    assert ("chunk_" + Digits(k) + ".txt")[6..|Digits(k)| + 6] == Digits(k);
    "chunk_" + Digits(k) + ".txt"
  }

  /** Chunk names never repeat. */
  lemma ChunkNameInjective(i: nat, j: nat)
    ensures ChunkName(i) == ChunkName(j) <==> i == j
  {
    if ChunkName(i) == ChunkName(j) {
      var a, b := ChunkName(i), ChunkName(j);
      assert |Digits(i)| == |Digits(j)|;
      assert Digits(i) == a[6..|a| - 4];
      assert Digits(j) == b[6..|b| - 4];
      DigitsInjective(i, j);
    }
  }

  /** A name that some chunk counter produces. */
  ghost predicate IsChunkName(name: string)
  {
    exists k: nat :: name == ChunkName(k)
  }

  /** The list of names `splitFile` returns for `n` chunks. */
  function ChunkNames(n: nat): (names: seq<string>)
    ensures |names| == n && forall k :: 0 <= k < n ==> names[k] == ChunkName(k)
  {
    if n == 0 then [] else ChunkNames(n - 1) + [ChunkName(n - 1)]
  }

  /** The chunks the partitioner cuts `xs` into: consecutive runs of `cap`
      records, the last one possibly shorter. */
  function Partition(xs: seq<Int32>, cap: nat): (chunks: seq<seq<Int32>>)
    requires cap >= 1
    ensures chunks == [] <==> xs == []
    ensures forall k :: 0 <= k < |chunks| ==> 1 <= |chunks[k]| <= cap
    decreases |xs|
  {
    if xs == [] then []
    else if |xs| <= cap then [xs]
    else [xs[..cap]] + Partition(xs[cap..], cap)
  }

  /** The shape of a partition: every chunk but the last holds exactly `cap`
      records, and the last one is non-empty and holds at most `cap`. */
  ghost predicate WellCut(chunks: seq<seq<Int32>>, cap: nat)
  {
    && (forall k :: 0 <= k < |chunks| - 1 ==> |chunks[k]| == cap)
    && (chunks != [] ==> 1 <= |chunks[|chunks| - 1]| <= cap)
  }

  /** Concatenating the chunks gives back the input: nothing dropped,
      duplicated or reordered; and the chunks are well cut. */
  lemma PartitionCorrect(xs: seq<Int32>, cap: nat)
    requires cap >= 1
    ensures Concat(Partition(xs, cap)) == xs
    ensures WellCut(Partition(xs, cap), cap)
  {
    PartitionConcat(xs, cap);
    PartitionFull(xs, cap);
  }

  /** The chunks, concatenated, give back the records. */
  lemma {:induction false} PartitionConcat(xs: seq<Int32>, cap: nat)
    requires cap >= 1
    ensures Concat(Partition(xs, cap)) == xs
    decreases |xs|
  {
    if |xs| > cap {
      var rest := Partition(xs[cap..], cap);
      PartitionConcat(xs[cap..], cap);
      ConcatCons(xs[..cap], rest);
      assert xs == xs[..cap] + xs[cap..];
    } else if xs != [] {
      assert Partition(xs, cap) == [xs] && [xs][..0] == [];
    }
  }

  /** Every chunk but the last is full. */
  lemma {:induction false} PartitionFull(xs: seq<Int32>, cap: nat)
    requires cap >= 1
    ensures forall k :: 0 <= k < |Partition(xs, cap)| - 1 ==> |Partition(xs, cap)[k]| == cap
    decreases |xs|
  {
    if |xs| > cap {
      var rest := Partition(xs[cap..], cap);
      PartitionFull(xs[cap..], cap);
      assert Partition(xs, cap) == [xs[..cap]] + rest;
      forall k | 1 <= k < |rest| ensures |Partition(xs, cap)[k]| == cap {
        assert Partition(xs, cap)[k] == rest[k - 1];
      }
    }
  }

  /** Any well-cut list of chunks whose concatenation is `xs` is the
      partition of `xs`: the cut is determined by the input and `cap`. */
  lemma {:induction false} PartitionUnique(chunks: seq<seq<Int32>>, xs: seq<Int32>, cap: nat)
    requires cap >= 1 && WellCut(chunks, cap) && Concat(chunks) == xs
    ensures chunks == Partition(xs, cap)
    decreases |chunks|
  {
    if chunks != [] {
      var c, rest := chunks[0], chunks[1..];
      assert chunks == [c] + rest;
      ConcatCons(c, rest);
      if rest == [] {
        assert Concat(rest) == [];
        assert xs == c;
      } else {
        assert |c| == cap;
        assert WellCut(rest, cap) by {
          forall k | 0 <= k < |rest| - 1 ensures |rest[k]| == cap { assert rest[k] == chunks[k + 1]; }
        }
        assert rest[|rest| - 1] == chunks[|chunks| - 1];
        ConcatLength(rest, cap);
        assert xs[..cap] == c && xs[cap..] == Concat(rest);
        PartitionUnique(rest, xs[cap..], cap);
      }
    }
  }

  /** A non-empty well-cut list of chunks holds more than `cap` times the
      number of chunks before the last one. */
  lemma {:induction false} ConcatLength(chunks: seq<seq<Int32>>, cap: nat)
    requires WellCut(chunks, cap) && chunks != []
    ensures |Concat(chunks)| > (|chunks| - 1) * cap
    decreases |chunks|
  {
    var n := |chunks| - 1;
    if n > 0 {
      var init := chunks[..n];
      assert init[n - 1] == chunks[n - 1];
      FullChunksLength(init, cap);
    }
  }

  /** Chunks that are all full hold exactly `cap` records each. */
  lemma {:induction false} FullChunksLength(chunks: seq<seq<Int32>>, cap: nat)
    requires forall k :: 0 <= k < |chunks| ==> |chunks[k]| == cap
    ensures |Concat(chunks)| == |chunks| * cap
    decreases |chunks|
  {
    if chunks != [] {
      FullChunksLength(chunks[..|chunks| - 1], cap);
    }
  }

  /** The chunk count is ceil(N / cap); empty input gives no chunk. */
  lemma PartitionCount(xs: seq<Int32>, cap: nat)
    requires cap >= 1
    ensures |Partition(xs, cap)| == (|xs| + cap - 1) / cap
    ensures Partition(xs, cap) == [] <==> xs == []
  {
    var p := Partition(xs, cap);
    PartitionCorrect(xs, cap);
    if p == [] {
      DivPlusSmall(0, cap, cap - 1);
    } else {
      var n := |p| - 1;
      var full := p[..n];
      FullChunksLength(full, cap);
      var m := |p[n]|;
      assert |xs| == n * cap + m;
      assert (n + 1) * cap == n * cap + cap;
      DivPlusSmall(n + 1, cap, m - 1);
    }
  }

  lemma {:induction false} MulMono(k: nat, d: nat)
    requires k >= 1
    ensures k * d >= d
  {
    if k > 1 {
      MulMono(k - 1, d);
      assert k * d == (k - 1) * d + d;
    }
  }

  /** Euclidean division recovers the quotient. */
  lemma DivPlusSmall(q: nat, d: nat, r: nat)
    requires d >= 1 && r < d
    ensures (q * d + r) / d == q
  {
    var x := q * d + r;
    var q', r' := x / d, x % d;
    assert x == q' * d + r';
    if q' > q {
      MulMono(q' - q, d);
    } else if q' < q {
      MulMono(q - q', d);
    }
  }

  /** The file system after the chunks have been written, chunk `k` to
      `ChunkName(k)`, each as `num + "\n"` lines. */
  ghost function StoreChunks(files: map<string, string>, chunks: seq<seq<Int32>>): map<string, string>
  {
    if chunks == [] then files
    else
      var n := |chunks| - 1;
      StoreChunks(files, chunks[..n])[ChunkName(n) := EncodeLines(chunks[n])]
  }

  /** One more chunk written under the next name. */
  lemma StoreChunksSnoc(files: map<string, string>, chunks: seq<seq<Int32>>, c: seq<Int32>)
    ensures StoreChunks(files, chunks + [c]) == StoreChunks(files, chunks)[ChunkName(|chunks|) := EncodeLines(c)]
  {
    assert (chunks + [c])[..|chunks|] == chunks;
  }

  /** Chunk `k` is stored under its own name. */
  lemma {:induction false} StoreChunksHit(files: map<string, string>, chunks: seq<seq<Int32>>, k: nat)
    requires k < |chunks|
    ensures ChunkName(k) in StoreChunks(files, chunks)
    ensures StoreChunks(files, chunks)[ChunkName(k)] == EncodeLines(chunks[k])
    decreases |chunks|
  {
    var n := |chunks| - 1;
    if k < n {
      StoreChunksHit(files, chunks[..n], k);
      ChunkNameInjective(k, n);
    }
  }

  /** A file that is not one of the chunk names keeps its text. */
  lemma {:induction false} StoreChunksMiss(files: map<string, string>, chunks: seq<seq<Int32>>, name: string)
    requires forall k :: 0 <= k < |chunks| ==> name != ChunkName(k)
    ensures name in StoreChunks(files, chunks) <==> name in files
    ensures name in files ==> StoreChunks(files, chunks)[name] == files[name]
    decreases |chunks|
  {
    if chunks != [] {
      StoreChunksMiss(files, chunks[..|chunks| - 1], name);
    }
  }

  /** Appending record `i`'s line to a file holding the lines of the
      records before it gives the lines of one more record. */
  lemma WrittenSnoc(files: map<string, string>, name: string, numbers: seq<Int32>, i: nat)
    requires i < |numbers|
    ensures files[name := EncodeLines(numbers[..i])][name := EncodeLines(numbers[..i]) + Line(numbers[i])]
            == files[name := EncodeLines(numbers[..i + 1])]
  {
    assert numbers[..i + 1] == numbers[..i] + [numbers[i]];
    EncodeSnoc(numbers[..i], numbers[i]);
  }

  /** `writeChunkToFile`: writes the records to `chunkFile`, one
      `num + "\n"` line each, replacing what the file held. */
  method WriteChunkToFile(fs: FileSystem, numbers: seq<Int32>, chunkFile: string)
    modifies fs
    ensures fs.files == old(fs.files)[chunkFile := EncodeLines(numbers)]
  {
    fs.Create(chunkFile);
    for i := 0 to |numbers|
      invariant fs.files == old(fs.files)[chunkFile := EncodeLines(numbers[..i])]
    {
      WrittenSnoc(old(fs.files), chunkFile, numbers, i);
      fs.Append(chunkFile, Line(numbers[i]));
    }
    assert numbers[..|numbers|] == numbers;
  }

  /** The chunks sealed before the end of input: the full runs of `cap`
      records at the front of `xs`. */
  function FullChunks(xs: seq<Int32>, cap: nat): seq<seq<Int32>>
    requires cap >= 1
    decreases |xs|
  {
    if |xs| < cap then [] else [xs[..cap]] + FullChunks(xs[cap..], cap)
  }

  /** Full chunks followed by a short remainder are the full chunks of
      their concatenation. */
  lemma {:induction false} FullChunksUnique(chunks: seq<seq<Int32>>, rest: seq<Int32>, cap: nat)
    requires cap >= 1 && |rest| < cap
    requires forall k :: 0 <= k < |chunks| ==> |chunks[k]| == cap
    ensures chunks == FullChunks(Concat(chunks) + rest, cap)
    decreases |chunks|
  {
    var xs := Concat(chunks) + rest;
    if chunks == [] {
      assert xs == rest;
    } else {
      var c, tail := chunks[0], chunks[1..];
      assert chunks == [c] + tail;
      ConcatCons(c, tail);
      assert xs == c + (Concat(tail) + rest);
      assert xs[..cap] == c && xs[cap..] == Concat(tail) + rest;
      FullChunksUnique(tail, rest, cap);
    }
  }

  /** What `splitFile` does to the file system and returns, given the
      files before the call: the chunks are `Partition(xs, cap)` of the
      input's records `xs`; when a line does not parse, the stage stops with
      its `NumberFormatException` and leaves behind the chunks it had
      already sealed, the full chunks of the records before that line. So it
      fails exactly on a missing input, with `FileNotFoundException`, or on a
      line parseInt refuses, with that line's error. */
  ghost function SplitSpec(files: map<string, string>, inputFile: string, chunkBytes: int)
    : (r: (Result<seq<string>>, map<string, string>))
    requires 0 < chunkBytes
    ensures inputFile !in files ==> r.0 == Err(FileNotFound(inputFile))
    ensures inputFile in files ==> (r.0.Ok? <==> DecodeLines(ReadLines(files[inputFile])).Ok?)
    ensures inputFile in files && DecodeLines(ReadLines(files[inputFile])).Err? ==>
              r.0 == Err(DecodeLines(ReadLines(files[inputFile])).error)
  {
    if inputFile !in files then (Err(FileNotFound(inputFile)), files)
    else
      var lines := ReadLines(files[inputFile]);
      var cap := Capacity(chunkBytes);
      match DecodeLines(lines)
      case Ok(xs) => (Ok(ChunkNames(|Partition(xs, cap)|)), StoreChunks(files, Partition(xs, cap)))
      case Err(e) => (Err(e), StoreChunks(files, FullChunks(ValidPrefix(lines), cap)))
  }

  /** Whether it succeeds or fails, `splitFile` leaves every file that is
      not a chunk name as it was, the input file included. */
  lemma SplitKeeps(files: map<string, string>, inputFile: string, chunkBytes: int, name: string)
    requires 0 < chunkBytes && !IsChunkName(name)
    ensures Kept(files, SplitSpec(files, inputFile, chunkBytes).1, name)
  {
    if inputFile in files {
      var lines := ReadLines(files[inputFile]);
      var cap := Capacity(chunkBytes);
      match DecodeLines(lines)
      case Ok(xs) => StoreChunksMiss(files, Partition(xs, cap), name);
      case Err(_) => StoreChunksMiss(files, FullChunks(ValidPrefix(lines), cap), name);
    }
  }

  /** The state of `splitFile` once it has read the records `xs`: they are
      the sealed chunks followed by the buffer `numbers`; every sealed chunk
      is full and the buffer is not; the sealed chunks are stored under their
      names and listed, in order, in `chunkFiles`. */
  ghost predicate Buffered(files0: map<string, string>, cap: nat, xs: seq<Int32>,
                           sealed: seq<seq<Int32>>, numbers: seq<Int32>,
                           counter: nat, chunkFiles: seq<string>, files: map<string, string>)
  {
    && Concat(sealed) + numbers == xs
    && (forall k :: 0 <= k < |sealed| ==> |sealed[k]| == cap)
    && |numbers| < cap
    && counter == |sealed| && chunkFiles == ChunkNames(counter)
    && files == StoreChunks(files0, sealed)
  }

  /** Lines 62-68 of `splitFile`: adds one parsed record to the buffer and,
      once the buffer holds `CHUNK_SIZE` bytes' worth, writes it out as the
      next chunk, lists its name, and clears the buffer. */
  method AddRecord(fs: FileSystem, chunkBytes: int, v: Int32,
                   numbers: seq<Int32>, counter: nat, chunkFiles: seq<string>,
                   ghost files0: map<string, string>, ghost xs: seq<Int32>, ghost sealed: seq<seq<Int32>>)
    returns (numbers': seq<Int32>, counter': nat, chunkFiles': seq<string>, ghost sealed': seq<seq<Int32>>)
    requires 0 < chunkBytes <= MaxChunkBytes
    requires Buffered(files0, Capacity(chunkBytes), xs, sealed, numbers, counter, chunkFiles, fs.files)
    modifies fs
    ensures Buffered(files0, Capacity(chunkBytes), xs + [v], sealed', numbers', counter', chunkFiles', fs.files)
    ensures sealed' == sealed || sealed' == sealed + [numbers + [v]]
  {
    numbers' := numbers + [v];
    counter', chunkFiles', sealed' := counter, chunkFiles, sealed;
    SealTest(chunkBytes, |numbers'|);
    if |numbers'| * IntegerBytes >= chunkBytes {
      var chunkFile := ChunkName(counter);
      SealStep(files0, Capacity(chunkBytes), xs, v, sealed, numbers, counter, chunkFiles, fs.files);
      WriteChunkToFile(fs, numbers', chunkFile);
      counter' := counter + 1;
      chunkFiles' := chunkFiles + [chunkFile];
      sealed' := sealed + [numbers'];
      numbers' := [];
    } else {
      KeepStep(files0, Capacity(chunkBytes), xs, v, sealed, numbers, counter, chunkFiles, fs.files);
    }
  }

  /** A record that fills the buffer seals it as the next chunk. */
  lemma SealStep(files0: map<string, string>, cap: nat, xs: seq<Int32>, v: Int32,
                 sealed: seq<seq<Int32>>, numbers: seq<Int32>,
                 counter: nat, chunkFiles: seq<string>, files: map<string, string>)
    requires Buffered(files0, cap, xs, sealed, numbers, counter, chunkFiles, files)
    requires |numbers| + 1 == cap
    ensures Buffered(files0, cap, xs + [v], sealed + [numbers + [v]], [], counter + 1,
                     chunkFiles + [ChunkName(counter)], files[ChunkName(counter) := EncodeLines(numbers + [v])])
  {
    StoreChunksSnoc(files0, sealed, numbers + [v]);
    SealRecords(cap, xs, v, sealed, numbers);
    assert ChunkNames(counter + 1) == chunkFiles + [ChunkName(counter)];
  }

  /** Sealing a full buffer keeps the records in order and every sealed
      chunk full. */
  lemma SealRecords(cap: nat, xs: seq<Int32>, v: Int32, sealed: seq<seq<Int32>>, numbers: seq<Int32>)
    requires Concat(sealed) + numbers == xs && |numbers| + 1 == cap
    requires forall k :: 0 <= k < |sealed| ==> |sealed[k]| == cap
    ensures Concat(sealed + [numbers + [v]]) + [] == xs + [v]
    ensures forall k :: 0 <= k < |sealed| + 1 ==> |(sealed + [numbers + [v]])[k]| == cap
  {
    var sealed' := sealed + [numbers + [v]];
    assert sealed'[..|sealed|] == sealed;
    assert Concat(sealed') == Concat(sealed) + (numbers + [v]);
  }

  /** A record that does not fill the buffer stays in it. */
  lemma KeepStep(files0: map<string, string>, cap: nat, xs: seq<Int32>, v: Int32,
                 sealed: seq<seq<Int32>>, numbers: seq<Int32>,
                 counter: nat, chunkFiles: seq<string>, files: map<string, string>)
    requires Buffered(files0, cap, xs, sealed, numbers, counter, chunkFiles, files)
    requires |numbers| + 1 < cap
    ensures Buffered(files0, cap, xs + [v], sealed, numbers + [v], counter, chunkFiles, files)
  {
  }

  /** A line that does not parse ends the split with its error, leaving the
      chunks sealed so far: the full chunks of the records before it. */
  lemma SplitAbort(lines: seq<string>, cap: nat, pos: nat,
                   xs: seq<Int32>, sealed: seq<seq<Int32>>, numbers: seq<Int32>)
    requires cap >= 1
    requires pos < |lines| && ParseInt(lines[pos]).Err?
    requires DecodeLines(lines[..pos]) == Ok(xs)
    requires Concat(sealed) + numbers == xs && |numbers| < cap
    requires forall k :: 0 <= k < |sealed| ==> |sealed[k]| == cap
    ensures DecodeLines(lines) == Err(NumberFormat(lines[pos]))
    ensures sealed == FullChunks(ValidPrefix(lines), cap)
  {
    DecodeFailsAt(lines, pos, xs);
    FullChunksUnique(sealed, numbers, cap);
  }

  /** At end of input the sealed chunks, and the buffer when it is not
      empty, are the partition of the input's records. */
  lemma SplitDone(files: map<string, string>, inputFile: string, chunkBytes: int,
                  xs: seq<Int32>, sealed: seq<seq<Int32>>, numbers: seq<Int32>)
    requires 0 < chunkBytes && inputFile in files
    requires DecodeLines(ReadLines(files[inputFile])) == Ok(xs)
    requires Concat(sealed) + numbers == xs && |numbers| < Capacity(chunkBytes)
    requires forall k :: 0 <= k < |sealed| ==> |sealed[k]| == Capacity(chunkBytes)
    ensures var chunks := if numbers == [] then sealed else sealed + [numbers];
            SplitSpec(files, inputFile, chunkBytes) == (Ok(ChunkNames(|chunks|)), StoreChunks(files, chunks))
  {
    var lines := ReadLines(files[inputFile]);
    var cap := Capacity(chunkBytes);
    var chunks := if numbers == [] then sealed else sealed + [numbers];
    assert Concat(chunks) == xs by {
      if numbers != [] { assert chunks[..|chunks| - 1] == sealed; }
    }
    PartitionUnique(chunks, xs, cap);
  }

  /** The loop of `splitFile` (lines 60-69): reads and parses the input's
      lines one at a time, sealing a chunk whenever the buffer fills. Ends
      with the buffer of not yet sealed records, or with the error of the
      first line that does not parse, once the chunks sealed before it are
      stored. */
  method ReadChunks(fs: FileSystem, reader: Reader, chunkBytes: int)
    returns (failure: Option<Error>, numbers: seq<Int32>, counter: nat, chunkFiles: seq<string>,
             ghost xs: seq<Int32>, ghost sealed: seq<seq<Int32>>)
    requires 0 < chunkBytes <= MaxChunkBytes
    requires reader.Valid() && reader.pos == 0
    modifies fs
    ensures failure.Some? ==>
              && DecodeLines(reader.lines) == Err(failure.value)
              && fs.files == StoreChunks(old(fs.files), FullChunks(ValidPrefix(reader.lines), Capacity(chunkBytes)))
    ensures failure.None? ==>
              && DecodeLines(reader.lines) == Ok(xs)
              && Buffered(old(fs.files), Capacity(chunkBytes), xs, sealed, numbers, counter, chunkFiles, fs.files)
  {
    var rd := reader;
    ghost var lines := reader.lines;
    ghost var files0 := fs.files;
    ghost var cap := Capacity(chunkBytes);
    chunkFiles, counter, numbers := [], 0, [];
    sealed, xs := [], [];
    while true
      invariant rd.Valid() && rd.lines == lines
      invariant DecodeLines(lines[..rd.pos]) == Ok(xs)
      invariant Buffered(files0, cap, xs, sealed, numbers, counter, chunkFiles, fs.files)
      decreases |lines| - rd.pos
    {
      var line;
      ghost var pos := rd.pos;
      line, rd := ReadLine(rd);
      if line.None? {
        break;
      }
      var parsed := ParseInt(line.value);
      if parsed.Err? {
        SplitAbort(lines, cap, pos, xs, sealed, numbers);
        return Some(parsed.error), numbers, counter, chunkFiles, xs, sealed;
      }
      DecodeNext(lines, pos, xs, parsed.value);
      numbers, counter, chunkFiles, sealed := AddRecord(fs, chunkBytes, parsed.value, numbers, counter, chunkFiles, files0, xs, sealed);
      xs := xs + [parsed.value];
    }
    assert lines[..rd.pos] == lines;
    failure := None;
  }

  /** `splitFile`: reads the input line by line, parses each line, and seals
      the buffer as chunk file `chunk_<counter>.txt` whenever it reaches the
      chunk capacity; a non-empty remainder becomes the last chunk. Returns
      the chunk names in creation order. */
  method SplitFile(fs: FileSystem, inputFile: string, chunkBytes: int) returns (r: Result<seq<string>>)
    requires 0 < chunkBytes <= MaxChunkBytes
    modifies fs
    ensures (r, fs.files) == SplitSpec(old(fs.files), inputFile, chunkBytes)
  {
    var input := Open(fs.files, inputFile);
    if input.Err? {
      return Err(input.error);
    }
    ghost var files0 := fs.files;
    var failure, numbers, counter, chunkFiles, xs, sealed := ReadChunks(fs, input.value, chunkBytes);
    if failure.Some? {
      return Err(failure.value);
    }
    SplitDone(files0, inputFile, chunkBytes, xs, sealed, numbers);
    if numbers != [] {
      var chunkFile := ChunkName(counter);
      StoreChunksSnoc(files0, sealed, numbers);
      WriteChunkToFile(fs, numbers, chunkFile);
      chunkFiles := chunkFiles + [chunkFile];
    }
    return Ok(chunkFiles);
  }
}
