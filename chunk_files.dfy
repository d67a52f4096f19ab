/** What the chunk files hold as the merge sees them: their lines, the
    values parseInt gives those lines, when the merge can finish, and what
    its outcome means for the file system. */
module ChunkFiles {
  import opened Failures
  import opened Records
  import opened Files
  import opened Sorting

  /** The value parseInt gives a line (0 for a line it refuses; the merge
      never looks at such a value). */
  ghost function Val(line: string): Int32
  {
    match ParseInt(line)
    case Ok(v) => v
    case Err(_) => 0
  }

  /** The values of a chunk's lines. */
  ghost function Vals(ls: seq<string>): seq<Int32>
  {
    seq(|ls|, k requires 0 <= k < |ls| => Val(ls[k]))
  }

  /** The values of every chunk's lines, chunk by chunk. */
  ghost function AllVals(lines: seq<seq<string>>): seq<seq<Int32>>
  {
    seq(|lines|, i requires 0 <= i < |lines| => Vals(lines[i]))
  }

  /** `vals` has a value for every line, the one parseInt gives wherever it
      gives one. */
  ghost predicate Agree(lines: seq<seq<string>>, vals: seq<seq<Int32>>)
  {
    && |vals| == |lines|
    && (forall i :: 0 <= i < |lines| ==> |vals[i]| == |lines[i]|)
    && (forall i, k :: 0 <= i < |lines| && 0 <= k < |lines[i]| && ParseInt(lines[i][k]).Ok? ==>
          ParseInt(lines[i][k]) == Ok(vals[i][k]))
  }

  /** Every line of every chunk parses. */
  ghost predicate AllParse(lines: seq<seq<string>>)
  {
    forall i, k :: 0 <= i < |lines| && 0 <= k < |lines[i]| ==> ParseInt(lines[i][k]).Ok?
  }

  ghost predicate AllSorted(chunks: seq<seq<Int32>>)
  {
    forall i :: 0 <= i < |chunks| ==> Sorted(chunks[i])
  }

  /** Every chunk is in order, stated on neighbours. */
  ghost predicate AllAscending(chunks: seq<seq<Int32>>)
  {
    forall i :: 0 <= i < |chunks| ==> Ascending(chunks[i])
  }

  lemma SortedAscending(chunks: seq<seq<Int32>>)
    requires AllSorted(chunks)
    ensures AllAscending(chunks)
  {
    forall i, k | 0 <= i < |chunks| && 0 < k < |chunks[i]|
      ensures chunks[i][k - 1] <= chunks[i][k]
    {
      assert Sorted(chunks[i]);
    }
  }

  /** `err` is the `NumberFormatException` of one of the chunks' lines. */
  ghost predicate BadLine(lines: seq<seq<string>>, err: Error)
  {
    match err
    case NumberFormat(l) =>
      ParseInt(l).Err? && exists i, k :: 0 <= i < |lines| && 0 <= k < |lines[i]| && lines[i][k] == l
    case FileNotFound(_) => false
  }

  /** Every chunk name is a file. */
  ghost predicate Present(files: map<string, string>, names: seq<string>)
  {
    forall i :: 0 <= i < |names| ==> names[i] in files
  }

  /** The lines of each chunk, in list order (none for a chunk that is not
      a file). */
  ghost function LinesOf(files: map<string, string>, names: seq<string>): seq<seq<string>>
  {
    seq(|names|, i requires 0 <= i < |names| => if names[i] in files then ReadLines(files[names[i]]) else [])
  }

  /** The merge can finish: every chunk exists and every line parses. */
  ghost predicate Readable(files: map<string, string>, names: seq<string>)
  {
    Present(files, names)
    && forall i :: 0 <= i < |names| ==> DecodeLines(ReadLines(files[names[i]])).Ok?
  }

  /** The records of each chunk, in list order. */
  ghost function RecordsOf(files: map<string, string>, names: seq<string>): seq<seq<Int32>>
    requires Readable(files, names)
  {
    seq(|names|, i requires 0 <= i < |names| => DecodeLines(ReadLines(files[names[i]])).value)
  }

  /** The ways the merge can fail: a chunk that is not a file, or a chunk
      line parseInt refuses. */
  ghost predicate MergeError(files: map<string, string>, names: seq<string>, err: Error)
  {
    match err
    case FileNotFound(n) => n in names && n !in files
    case NumberFormat(l) =>
      ParseInt(l).Err?
      && exists i, k :: 0 <= i < |names| && names[i] in files
                        && 0 <= k < |ReadLines(files[names[i]])| && ReadLines(files[names[i]])[k] == l
  }

  /** Readability in terms of the chunks' lines, and the records as the
      lines' values. */
  lemma ReadableLines(files: map<string, string>, names: seq<string>, vals: seq<seq<Int32>>)
    requires Present(files, names) && Agree(LinesOf(files, names), vals)
    ensures Readable(files, names) <==> AllParse(LinesOf(files, names))
    ensures Readable(files, names) ==> RecordsOf(files, names) == vals
  {
    var lines := LinesOf(files, names);
    forall i | 0 <= i < |names|
      ensures DecodeLines(lines[i]).Ok? <==> forall k :: 0 <= k < |lines[i]| ==> ParseInt(lines[i][k]).Ok?
      ensures DecodeLines(lines[i]).Ok? ==> DecodeLines(lines[i]).value == vals[i]
    {
      DecodeLinesOk(lines[i]);
      if DecodeLines(lines[i]).Ok? {
        var vs := DecodeLines(lines[i]).value;
        assert forall k :: 0 <= k < |vs| ==> ParseInt(lines[i][k]) == Ok(vs[k]);
        assert forall k :: 0 <= k < |vs| ==> vs[k] == vals[i][k];
      }
    }
    assert forall i :: 0 <= i < |names| ==> lines[i] == ReadLines(files[names[i]]);
    if Readable(files, names) {
      assert RecordsOf(files, names) == vals;
    } else if Present(files, names) {
      var i :| 0 <= i < |names| && !DecodeLines(lines[i]).Ok?;
    }
  }

  /** A merge error rules out a readable set of chunks. */
  lemma ErrorNotReadable(files: map<string, string>, names: seq<string>, err: Error)
    requires MergeError(files, names, err)
    ensures !Readable(files, names)
  {
    if err.NumberFormat? {
      var i, k :| 0 <= i < |names| && names[i] in files
                  && 0 <= k < |ReadLines(files[names[i]])| && ReadLines(files[names[i]])[k] == err.input;
      DecodeLinesOk(ReadLines(files[names[i]]));
    } else {
      var j :| 0 <= j < |names| && names[j] == err.name;
    }
  }

  /** Every chunk's values agree with what parseInt gives its lines. */
  lemma AgreeAll(lines: seq<seq<string>>)
    ensures Agree(lines, AllVals(lines))
  {
  }

  /** `lines` holds, chunk by chunk, the lines of every chunk that is a file. */
  ghost predicate ChunkLines(files: map<string, string>, names: seq<string>, lines: seq<seq<string>>)
  {
    && |lines| == |names|
    && forall i :: 0 <= i < |names| && names[i] in files ==> lines[i] == ReadLines(files[names[i]])
  }

  /** The lines of the chunks and the values parseInt gives them. */
  lemma ChunkValues(files: map<string, string>, names: seq<string>)
    returns (lines: seq<seq<string>>, vals: seq<seq<Int32>>)
    ensures ChunkLines(files, names, lines) && Agree(lines, vals)
  {
    lines := LinesOf(files, names);
    vals := AllVals(lines);
    AgreeAll(lines);
  }

  /** What `mergeSortedFiles` promises about the file system `files` it
      leaves, given the one `files0` it started from: it succeeds exactly when
      every chunk is a file whose lines all parse; then the output file holds
      every chunk record exactly once, and, when every chunk is sorted, the
      sorted concatenation of the chunks. On failure the error is a missing
      chunk or a bad line, and no file but the output has changed. */
  ghost predicate Merged(files0: map<string, string>, files: map<string, string>, chunkFiles: seq<string>,
                         outputFile: string, r: Result<()>, written: seq<Int32>): (b: bool)
    ensures b ==> forall n :: n != outputFile ==> Kept(files0, files, n)
    ensures b && r.Ok? ==> files.Keys == files0.Keys + {outputFile}
  {
    && (r.Ok? <==> Readable(files0, chunkFiles))
    && (r.Ok? ==>
          && files == files0[outputFile := EncodeLines(written)]
          && multiset(written) == multiset(Concat(RecordsOf(files0, chunkFiles)))
          && (AllSorted(RecordsOf(files0, chunkFiles)) ==> written == Sort(Concat(RecordsOf(files0, chunkFiles)))))
    && (r.Err? ==>
          && MergeError(files0, chunkFiles, r.error)
          && (files == files0 || files == files0[outputFile := EncodeLines(written)]))
  }

  /** A chunk that cannot be opened, or whose first line does not parse,
      stops the merge before the output file is created. */
  lemma SeedOutcome(files: map<string, string>, chunkFiles: seq<string>, outputFile: string, err: Error)
    requires MergeError(files, chunkFiles, err)
    ensures Merged(files, files, chunkFiles, outputFile, Err(err), [])
  {
    ErrorNotReadable(files, chunkFiles, err);
  }

  /** What the merge loop's outcome means for the chunk files: it succeeds
      exactly when they are readable, writing their records, in order when
      every chunk is; otherwise its error is a merge error. */
  lemma DrainOutcome(files0: map<string, string>, files: map<string, string>, chunkFiles: seq<string>,
                     outputFile: string, lines: seq<seq<string>>, vals: seq<seq<Int32>>,
                     r: Result<()>, written: seq<Int32>)
    requires Present(files0, chunkFiles) && ChunkLines(files0, chunkFiles, lines) && Agree(lines, vals)
    requires files == files0[outputFile := EncodeLines(written)]
    requires r.Ok? <==> AllParse(lines)
    requires r.Ok? ==> multiset(written) == multiset(Concat(vals))
    requires r.Ok? && AllAscending(vals) ==> Sorted(written)
    requires r.Err? ==> BadLine(lines, r.error)
    ensures Merged(files0, files, chunkFiles, outputFile, r, written)
  {
    assert lines == LinesOf(files0, chunkFiles);
    ReadableLines(files0, chunkFiles, vals);
    if r.Err? {
      var i, k :| 0 <= i < |lines| && 0 <= k < |lines[i]| && lines[i][k] == r.error.input;
      assert ReadLines(files0[chunkFiles[i]])[k] == r.error.input;
      ErrorNotReadable(files0, chunkFiles, r.error);
    } else if AllSorted(RecordsOf(files0, chunkFiles)) {
      SortedAscending(vals);
      SortedUnique(written, Sort(Concat(vals)));
    }
  }
}
