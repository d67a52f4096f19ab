/** The file system the stages read and write, and the line readers they
    open on it. */
module Files {
  import opened Failures
  import opened Records

  /** The working directory: each file's name and its whole text. */
  class FileSystem {
    var files: map<string, string>

    constructor (initial: map<string, string>)
      ensures files == initial
    {
      files := initial;
    }

    /** `new FileWriter(name)`: creates the file, or empties it if it exists. */
    method Create(name: string)
      modifies this
      ensures files == old(files)[name := ""]
    {
      files := files[name := ""];
    }

    /** `writer.write(text)` on a writer opened on `name`. */
    method Append(name: string, text: string)
      requires name in files
      modifies this
      ensures files == old(files)[name := old(files)[name] + text]
    {
      files := files[name := files[name] + text];
    }
  }

  /** The file `name` is present in `after` exactly when it was in `before`,
      and holds the same text. */
  ghost predicate Kept(before: map<string, string>, after: map<string, string>, name: string)
  {
    && (name in after <==> name in before)
    && (name in before ==> after[name] == before[name])
  }

  /** A `BufferedReader`: the lines of the file as it was when the reader
      was opened, and how many of them `readLine` has returned. */
  datatype Reader = Reader(lines: seq<string>, pos: nat)
  {
    ghost predicate Valid() { pos <= |lines| }
  }

  /** `new BufferedReader(new FileReader(name))`. */
  function Open(files: map<string, string>, name: string): (r: Result<Reader>)
    ensures r.Ok? <==> name in files
    ensures r.Ok? ==> r.value.Valid() && r.value.pos == 0 && r.value.lines == ReadLines(files[name])
    ensures r.Err? ==> r.error == FileNotFound(name)
  {
    if name in files then Ok(Reader(ReadLines(files[name]), 0)) else Err(FileNotFound(name))
  }

  /** `reader.readLine()`: the next line, or `None` (Java's `null`) once
      every line has been returned. */
  method ReadLine(rd: Reader) returns (line: Option<string>, rd': Reader)
    requires rd.Valid()
    ensures rd'.Valid() && rd'.lines == rd.lines
    ensures rd.pos < |rd.lines| ==> line == Some(rd.lines[rd.pos]) && rd'.pos == rd.pos + 1
    ensures rd.pos == |rd.lines| ==> line == None && rd'.pos == rd.pos
  {
    if rd.pos < |rd.lines| {
      line := Some(rd.lines[rd.pos]);
      rd' := rd.(pos := rd.pos + 1);
    } else {
      line := None;
      rd' := rd;
    }
  }
}
