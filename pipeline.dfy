/** The three stages run one after the other, as the program's main method
    runs them: split the input into chunk files, sort every chunk file, merge
    the chunk files into the output. Composed, they sort the input. */
module Pipeline {
  import opened Failures
  import opened Records
  import opened Files
  import opened Sorting
  import opened Partitioner
  import opened ChunkSorter
  import opened ChunkFiles
  import opened Merger

  /** The file system after `sortChunk` has been called on every name, in
      list order; the first chunk that fails stops the stage with its error. */
  ghost function SortAll(files: map<string, string>, names: seq<string>): (r: Result<map<string, string>>)
    ensures r.Ok? ==> r.value.Keys == files.Keys
  {
    if names == [] then Ok(files)
    else
      match SortAll(files, names[..|names| - 1])
      case Err(e) => Err(e)
      case Ok(f) =>
        var name := names[|names| - 1];
        if name !in f then Err(FileNotFound(name))
        else
          match SortedText(f[name])
          case Ok(text) => Ok(f[name := text])
          case Err(e) => Err(e)
  }

  /** The loop over `sortChunk` in the main method: sorts every chunk file,
      in list order. */
  method SortChunks(fs: FileSystem, chunkFiles: seq<string>) returns (r: Result<()>)
    modifies fs
    ensures SortAll(old(fs.files), chunkFiles).Ok? ==> r == Ok(()) && fs.files == SortAll(old(fs.files), chunkFiles).value
    ensures SortAll(old(fs.files), chunkFiles).Err? ==> r == Err(SortAll(old(fs.files), chunkFiles).error)
  {
    ghost var files0 := fs.files;
    for j := 0 to |chunkFiles|
      invariant SortAll(files0, chunkFiles[..j]) == Ok(fs.files)
    {
      assert chunkFiles[..j + 1][..j] == chunkFiles[..j];
      var sorted := SortChunk(fs, chunkFiles[j]);
      if sorted.Err? {
        DecodeErrStops(files0, chunkFiles, j + 1);
        return sorted;
      }
    }
    assert chunkFiles[..|chunkFiles|] == chunkFiles;
    return Ok(());
  }

  /** Sorting the chunk files rewrites only the files it is given: every
      other file keeps its presence and its text. */
  lemma {:induction false} SortAllKeeps(files: map<string, string>, names: seq<string>, n: string)
    requires SortAll(files, names).Ok? && n !in names
    ensures Kept(files, SortAll(files, names).value, n)
    decreases |names|
  {
    if names != [] {
      SortAllKeeps(files, names[..|names| - 1], n);
    }
  }

  /** Once sorting a prefix of the names fails, sorting all of them fails
      with the same error. */
  lemma {:induction false} DecodeErrStops(files: map<string, string>, names: seq<string>, m: nat)
    requires m <= |names| && SortAll(files, names[..m]).Err?
    ensures SortAll(files, names) == SortAll(files, names[..m])
    decreases |names| - m
  {
    if m < |names| {
      assert names[..m + 1][..m] == names[..m];
      DecodeErrStops(files, names, m + 1);
    } else {
      assert names[..m] == names;
    }
  }

  /** Sorting distinct chunk files that all hold records replaces each by
      its sorted text and leaves every other file as it was. */
  lemma {:induction false} SortAllOk(files: map<string, string>, names: seq<string>)
    requires forall k, l :: 0 <= k < l < |names| ==> names[k] != names[l]
    requires forall k :: 0 <= k < |names| ==> names[k] in files && SortedText(files[names[k]]).Ok?
    ensures SortAll(files, names).Ok?
    ensures SortAll(files, names).value.Keys == files.Keys
    ensures forall k :: 0 <= k < |names| ==>
              SortAll(files, names).value[names[k]] == SortedText(files[names[k]]).value
    ensures forall n :: n in files && n !in names ==> SortAll(files, names).value[n] == files[n]
    decreases |names|
  {
    if names != [] {
      var m := |names| - 1;
      var init, name := names[..m], names[m];
      SortAllOk(files, init);
      var f := SortAll(files, init).value;
      assert name !in init by {
        forall k | 0 <= k < m ensures init[k] != name { assert init[k] == names[k]; }
      }
      var g := f[name := SortedText(files[name]).value];
      assert SortAll(files, names) == Ok(g);
      forall k | 0 <= k < |names|
        ensures g[names[k]] == SortedText(files[names[k]]).value
      {
        if k < m {
          assert names[k] == init[k];
        }
      }
      forall n | n in files && n !in names
        ensures g[n] == files[n]
      {
        assert n !in init;
      }
    }
  }

  /** Records are preserved chunk by chunk, so they are preserved in the
      concatenation. */
  lemma {:induction false} ConcatPermutation(a: seq<seq<Int32>>, b: seq<seq<Int32>>)
    requires |a| == |b| && forall k :: 0 <= k < |a| ==> multiset(a[k]) == multiset(b[k])
    ensures multiset(Concat(a)) == multiset(Concat(b))
    decreases |a|
  {
    if a != [] {
      var m := |a| - 1;
      ConcatPermutation(a[..m], b[..m]);
    }
  }

  /** Chunk files that each hold a chunk's records sorted are readable;
      their records are sorted and, together, are the chunks' records. */
  lemma SortedChunkFiles(files: map<string, string>, names: seq<string>, chunks: seq<seq<Int32>>)
    requires |names| == |chunks|
    requires forall k :: 0 <= k < |names| ==> names[k] in files && files[names[k]] == EncodeLines(Sort(chunks[k]))
    ensures Readable(files, names) && AllSorted(RecordsOf(files, names))
    ensures multiset(Concat(RecordsOf(files, names))) == multiset(Concat(chunks))
  {
    ChunkRecords(files, names, chunks);
    var records := RecordsOf(files, names);
    forall k | 0 <= k < |names|
      ensures Sorted(records[k]) && multiset(records[k]) == multiset(chunks[k])
    {
      assert records[k] == Sort(chunks[k]);
    }
    ConcatPermutation(records, chunks);
  }

  /** Chunk file `k` reads back as chunk `k`'s records sorted. */
  lemma ChunkRecords(files: map<string, string>, names: seq<string>, chunks: seq<seq<Int32>>)
    requires |names| == |chunks|
    requires forall k :: 0 <= k < |names| ==> names[k] in files && files[names[k]] == EncodeLines(Sort(chunks[k]))
    ensures Readable(files, names)
    ensures forall k :: 0 <= k < |names| ==> RecordsOf(files, names)[k] == Sort(chunks[k])
  {
    forall k | 0 <= k < |names|
      ensures DecodeLines(ReadLines(files[names[k]])) == Ok(Sort(chunks[k]))
    {
      DecodeEncoded(Sort(chunks[k]));
    }
  }

  /** Merging chunk files that each hold a chunk's records sorted succeeds
      and writes the sorted concatenation of the chunks to the output. */
  lemma SortedChunksMerge(files: map<string, string>, names: seq<string>, chunks: seq<seq<Int32>>,
                          outputFile: string, files': map<string, string>, r: Result<()>, written: seq<Int32>)
    requires |names| == |chunks|
    requires forall k :: 0 <= k < |names| ==> names[k] in files && files[names[k]] == EncodeLines(Sort(chunks[k]))
    requires Merged(files, files', names, outputFile, r, written)
    ensures r.Ok? && written == Sort(Concat(chunks))
    ensures files' == files[outputFile := EncodeLines(Sort(Concat(chunks)))]
  {
    SortedChunkFiles(files, names, chunks);
    SortPermutation(Concat(RecordsOf(files, names)), Concat(chunks));
  }

  /** A split that reads the records `xs` cuts them into chunks whose
      concatenation is `xs`, stores chunk `k` under `ChunkName(k)` and
      returns those names. */
  lemma SplitOk(files0: map<string, string>, inputFile: string, chunkBytes: int, xs: seq<Int32>)
    returns (chunks: seq<seq<Int32>>)
    requires 0 < chunkBytes && inputFile in files0
    requires DecodeLines(ReadLines(files0[inputFile])) == Ok(xs)
    ensures Concat(chunks) == xs
    ensures SplitSpec(files0, inputFile, chunkBytes) == (Ok(ChunkNames(|chunks|)), StoreChunks(files0, chunks))
  {
    chunks := Partition(xs, Capacity(chunkBytes));
    PartitionCorrect(xs, Capacity(chunkBytes));
  }

  /** Sorting the chunk files a split stored replaces chunk `k` by its
      records sorted. */
  lemma SortStored(files0: map<string, string>, chunks: seq<seq<Int32>>)
    ensures SortAll(StoreChunks(files0, chunks), ChunkNames(|chunks|)).Ok?
    ensures forall k :: 0 <= k < |chunks| ==>
              && ChunkName(k) in SortAll(StoreChunks(files0, chunks), ChunkNames(|chunks|)).value
              && SortAll(StoreChunks(files0, chunks), ChunkNames(|chunks|)).value[ChunkName(k)]
                 == EncodeLines(Sort(chunks[k]))
    ensures forall n :: !IsChunkName(n) ==>
              Kept(files0, SortAll(StoreChunks(files0, chunks), ChunkNames(|chunks|)).value, n)
  {
    var names := ChunkNames(|chunks|);
    var files1 := StoreChunks(files0, chunks);
    forall k, l | 0 <= k < l < |names|
      ensures names[k] != names[l]
    {
      ChunkNameInjective(k, l);
    }
    forall k | 0 <= k < |names|
      ensures names[k] in files1 && SortedText(files1[names[k]]) == Ok(EncodeLines(Sort(chunks[k])))
    {
      StoreChunksHit(files0, chunks, k);
      SortedTextOfChunk(chunks[k]);
    }
    SortAllOk(files1, names);
    forall n | !IsChunkName(n)
      ensures Kept(files0, SortAll(files1, names).value, n)
    {
      StoreChunksMiss(files0, chunks, n);
      assert n !in names by {
        forall k | 0 <= k < |names| ensures names[k] != n { assert names[k] == ChunkName(k); }
      }
    }
  }

  /** The input and output names `main` fixes. */
  const InputFile: string := "unsorted_numbers.txt"
  const OutputFile: string := "sorted_numbers.txt"

  /** Neither of `main`'s file names is a chunk name, and they differ, so
      the stages never overwrite the input and no chunk is the output. */
  lemma MainNamesApart()
    ensures !IsChunkName(InputFile) && !IsChunkName(OutputFile) && InputFile != OutputFile
  {
    forall k: nat ensures ChunkName(k) != InputFile && ChunkName(k) != OutputFile {
      var name := ChunkName(k);
      assert name[0] == name[..6][0] == 'c';
      assert InputFile[0] == 'u' && OutputFile[0] == 's';
    }
  }

  /** The second and third stages on the chunk files a split stored:
      every chunk file is sorted, then the chunks are merged into the
      output file, which then holds all their records in ascending order.
      Only the chunk files and the output file change. */
  method SortAndMerge(fs: FileSystem, chunkFiles: seq<string>, outputFile: string,
                      ghost files0: map<string, string>, ghost chunks: seq<seq<Int32>>)
    returns (r: Result<()>)
    requires chunkFiles == ChunkNames(|chunks|) && fs.files == StoreChunks(files0, chunks)
    modifies fs
    ensures r.Ok? && outputFile in fs.files && fs.files[outputFile] == EncodeLines(Sort(Concat(chunks)))
    ensures forall n :: !IsChunkName(n) && n != outputFile ==> Kept(files0, fs.files, n)
  {
    SortStored(files0, chunks);
    r := SortChunks(fs, chunkFiles);
    assert r.Ok? && fs.files == SortAll(StoreChunks(files0, chunks), ChunkNames(|chunks|)).value;
    ghost var files2 := fs.files;
    ghost var written;
    r, written := MergeSortedFiles(fs, chunkFiles, outputFile);
    SortedChunksMerge(files2, chunkFiles, chunks, outputFile, fs.files, r, written);
    forall n | !IsChunkName(n) && n != outputFile ensures Kept(files0, fs.files, n) {
      assert Kept(files0, files2, n);
    }
  }

  /** The main method's three stages (lines 26-35), without the prompt, the
      generator and the timing: a missing input file or an input line
      parseInt refuses is the error the run stops with; otherwise the run
      succeeds and the output file holds the input's records in ascending
      order, one `num + "\n"` line each. A failed run has done only what
      splitFile did. No file but the chunk files and, on success, the
      output file changes. Neither name may be a chunk name, as neither of
      `main`'s is (`MainNamesApart`): a Java reader sees later writes to
      its own file, which a `Reader` here does not. */
  method ExternalSort(fs: FileSystem, inputFile: string, outputFile: string, chunkBytes: int)
    returns (r: Result<()>)
    requires 0 < chunkBytes <= MaxChunkBytes
    requires !IsChunkName(inputFile) && !IsChunkName(outputFile)
    modifies fs
    ensures inputFile !in old(fs.files) ==> r == Err(FileNotFound(inputFile))
    ensures inputFile in old(fs.files) && DecodeLines(ReadLines(old(fs.files)[inputFile])).Err? ==>
              r == Err(DecodeLines(ReadLines(old(fs.files)[inputFile])).error)
    ensures inputFile in old(fs.files) && DecodeLines(ReadLines(old(fs.files)[inputFile])).Ok? ==>
              && r.Ok?
              && outputFile in fs.files
              && fs.files[outputFile] == EncodeLines(Sort(DecodeLines(ReadLines(old(fs.files)[inputFile])).value))
    ensures r.Err? ==> fs.files == SplitSpec(old(fs.files), inputFile, chunkBytes).1
    ensures forall n :: !IsChunkName(n) && (r.Err? || n != outputFile) ==> Kept(old(fs.files), fs.files, n)
  {
    ghost var files0 := fs.files;
    var split := SplitFile(fs, inputFile, chunkBytes);
    assert split == SplitSpec(files0, inputFile, chunkBytes).0;
    if split.Err? {
      forall n | !IsChunkName(n) ensures Kept(files0, fs.files, n) {
        SplitKeeps(files0, inputFile, chunkBytes, n);
      }
      return Err(split.error);
    }
    ghost var xs := DecodeLines(ReadLines(files0[inputFile])).value;
    ghost var chunks := SplitOk(files0, inputFile, chunkBytes, xs);
    assert split.value == ChunkNames(|chunks|) && fs.files == StoreChunks(files0, chunks);
    r := SortAndMerge(fs, split.value, outputFile, files0, chunks);
  }
}
