/** The second stage, `sortChunk`: each chunk file is read back, its records
    are sorted in memory, and the file is rewritten with them in ascending
    order. */
module ChunkSorter {
  import opened Failures
  import opened Records
  import opened Files
  import opened Sorting
  import opened Partitioner

  /** The read loop of `sortChunk`: `readLine` until `null`, parsing every
      line; the first line parseInt refuses ends it with that error. */
  method ReadRecords(reader: Reader) returns (r: Result<seq<Int32>>)
    requires reader.Valid() && reader.pos == 0
    ensures r == DecodeLines(reader.lines)
  {
    var rd := reader;
    ghost var lines := reader.lines;
    var numbers: seq<Int32> := [];
    while true
      invariant rd.Valid() && rd.lines == lines
      invariant DecodeLines(lines[..rd.pos]) == Ok(numbers)
      decreases |lines| - rd.pos
    {
      var line;
      ghost var pos := rd.pos;
      line, rd := ReadLine(rd);
      if line.None? {
        break;
      }
      var parsed := ParseInt(line.value);
      if parsed.Err? {
        DecodeFailsAt(lines, pos, numbers);
        return Err(parsed.error);
      }
      DecodeNext(lines, pos, numbers, parsed.value);
      numbers := numbers + [parsed.value];
    }
    assert lines[..rd.pos] == lines;
    return Ok(numbers);
  }

  /** What a chunk file holds once `sortChunk` has rewritten it: its records
      in ascending order, one per line; or the error that stops the stage. */
  ghost function SortedText(text: string): (r: Result<string>)
    ensures r.Ok? ==> forall k :: 0 <= k < |ReadLines(text)| ==> ParseInt(ReadLines(text)[k]).Ok?
    ensures r.Err? ==> exists k :: 0 <= k < |ReadLines(text)| && ParseInt(ReadLines(text)[k]).Err?
    ensures r.Err? ==> r.error.NumberFormat? && r.error.input in ReadLines(text)
  {
    DecodeLinesOk(ReadLines(text));
    DecodeLinesRefused(ReadLines(text));
    match DecodeLines(ReadLines(text))
    case Ok(xs) => Ok(EncodeLines(Sort(xs)))
    case Err(e) => Err(e)
  }

  /** `sortChunk(chunkFile)`: a missing file is a `FileNotFoundException`
      and a line parseInt refuses a `NumberFormatException`, and neither
      touches the file; otherwise the file is replaced by its records
      sorted. No other file changes. */
  method SortChunk(fs: FileSystem, chunkFile: string) returns (r: Result<()>)
    modifies fs
    ensures chunkFile !in old(fs.files) ==>
              r == Err(FileNotFound(chunkFile)) && fs.files == old(fs.files)
    ensures chunkFile in old(fs.files) ==>
              match SortedText(old(fs.files)[chunkFile])
              case Ok(text) => r == Ok(()) && fs.files == old(fs.files)[chunkFile := text]
              case Err(e) => r == Err(e) && fs.files == old(fs.files)
  {
    var input := Open(fs.files, chunkFile);
    if input.Err? {
      return Err(input.error);
    }
    var numbers := ReadRecords(input.value);
    if numbers.Err? {
      return Err(numbers.error);
    }
    var xs := numbers.value;
    var a := new Int32[|xs|](i requires 0 <= i < |xs| => xs[i]);
    assert a[..] == xs;
    SortInPlace(a);
    WriteChunkToFile(fs, a[..], chunkFile);
    return Ok(());
  }

  /** A chunk written by `splitFile` sorts to its records in ascending
      order. */
  lemma SortedTextOfChunk(xs: seq<Int32>)
    ensures SortedText(EncodeLines(xs)) == Ok(EncodeLines(Sort(xs)))
  {
    DecodeEncoded(xs);
  }

  /** After `sortChunk` the file reads back as a sorted permutation of the
      records it held. */
  lemma SortedTextRecords(text: string, xs: seq<Int32>)
    requires DecodeLines(ReadLines(text)) == Ok(xs)
    ensures SortedText(text).Ok?
    ensures DecodeLines(ReadLines(SortedText(text).value)) == Ok(Sort(xs))
    ensures Sorted(Sort(xs)) && multiset(Sort(xs)) == multiset(xs)
  {
    DecodeEncoded(Sort(xs));
  }

  /** Sorting a chunk twice leaves it as sorting it once. */
  lemma SortChunkIdempotent(text: string)
    requires SortedText(text).Ok?
    ensures SortedText(SortedText(text).value) == SortedText(text)
  {
    var xs := DecodeLines(ReadLines(text)).value;
    DecodeEncoded(Sort(xs));
    SortIdempotent(xs);
  }

  /** A chunk whose records are already in order is rewritten unchanged. */
  lemma SortedChunkUnchanged(xs: seq<Int32>)
    requires Sorted(xs)
    ensures SortedText(EncodeLines(xs)) == Ok(EncodeLines(xs))
  {
    DecodeEncoded(xs);
    SortOfSorted(xs);
  }
}
