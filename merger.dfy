/** The third stage, `mergeSortedFiles`: a k-way merge of the sorted chunk
    files through a priority queue that holds, for every chunk reader not
    yet exhausted, the record it read last. */
module Merger {
  import opened Failures
  import opened Records
  import opened Files
  import opened Sorting
  import opened ChunkFiles

  // ---------------------------------------------------------------------
  // FileEntry and the priority queue
  // ---------------------------------------------------------------------

  /** `FileEntry`: a record together with the reader it came from, named by
      its index in the list of readers. */
  datatype Entry = Entry(value: Int32, reader: nat)
  {
    /** The queue's comparator, `Comparator.comparingInt(e -> e.value)`:
        `Integer.compare` of the two values, so the reader plays no part. */
    function Compare(other: Entry): (c: int)
      ensures -1 <= c <= 1
      ensures c < 0 <==> value < other.value
      ensures c == 0 <==> value == other.value
    {
      if value < other.value then -1 else if value == other.value then 0 else 1
    }
  }

  /** The comparator is a total preorder on entries: it is antisymmetric
      and transitive, and two entries tie exactly when their values are
      equal, whatever their readers. */
  lemma CompareOrder(e: Entry, f: Entry, g: Entry)
    ensures e.Compare(f) == -f.Compare(e)
    ensures e.Compare(f) <= 0 && f.Compare(g) <= 0 ==> e.Compare(g) <= 0
    ensures e.Compare(f) == 0 <==> e.value == f.value
  {
  }

  /** `PriorityQueue<FileEntry>` ordered by `value`. The heap layout is not
      modelled: the queue is the sequence of its entries, and `Poll` scans
      it for a least value. */
  class MinQueue {
    var items: seq<Entry>

    constructor ()
      ensures items == []
    {
      items := [];
    }

    /** `queue.add(e)`. */
    method Add(e: Entry)
      modifies this
      ensures items == old(items) + [e]
    {
      items := items + [e];
    }

    /** `queue.poll()`: removes and returns an entry of least value. Which
        of several entries of equal value comes out is left open, as the
        comparator leaves it open. */
    method Poll() returns (e: Entry)
      requires items != []
      modifies this
      ensures e in old(items)
      ensures forall x :: x in old(items) ==> e.value <= x.value
      ensures multiset(items) == multiset(old(items)) - multiset{e}
    {
      var m := 0;
      for k := 1 to |items|
        invariant 0 <= m < |items|
        invariant forall j :: 0 <= j < k ==> items[m].value <= items[j].value
      {
        if items[k].Compare(items[m]) < 0 {
          m := k;
        }
      }
      e := items[m];
      assert items == items[..m] + [e] + items[m + 1..];
      items := items[..m] + items[m + 1..];
    }
  }

  // ---------------------------------------------------------------------
  // The state of the merge
  // ---------------------------------------------------------------------

  /** `consumed[i]` counts the records of chunk `i` already written to the
      output; it never exceeds the chunk's length. */
  ghost predicate Bounded(vals: seq<seq<Int32>>, consumed: seq<nat>)
  {
    |vals| == |consumed| && forall i :: 0 <= i < |vals| ==> consumed[i] <= |vals[i]|
  }

  /** The entry chunk `i` contributes to the queue: its first record not
      yet written, if it has one. */
  ghost function HeadOf(vs: seq<Int32>, c: nat, i: nat): multiset<Entry>
  {
    if c < |vs| then multiset{Entry(vs[c], i)} else multiset{}
  }

  /** `e` is the first unwritten record of its chunk, one of the first `n`. */
  ghost predicate IsHead(vals: seq<seq<Int32>>, consumed: seq<nat>, n: nat, e: Entry)
    requires n <= |vals| == |consumed|
  {
    e.reader < n && consumed[e.reader] < |vals[e.reader]|
    && e.value == vals[e.reader][consumed[e.reader]]
  }

  /** What the queue holds once the first `n` chunks are open: one entry
      per open chunk not yet exhausted. */
  ghost function Pending(vals: seq<seq<Int32>>, consumed: seq<nat>, n: nat): multiset<Entry>
    requires n <= |vals| == |consumed|
  {
    if n == 0 then multiset{}
    else Pending(vals, consumed, n - 1) + HeadOf(vals[n - 1], consumed[n - 1], n - 1)
  }

  /** The records written so far: the consumed prefix of each of the first
      `n` chunks. */
  ghost function Taken(vals: seq<seq<Int32>>, consumed: seq<nat>, n: nat): multiset<Int32>
    requires Bounded(vals, consumed) && n <= |vals|
  {
    if n == 0 then multiset{}
    else Taken(vals, consumed, n - 1) + multiset(vals[n - 1][..consumed[n - 1]])
  }

  /** The number of records of the first `n` chunks not yet written. */
  ghost function Remaining(vals: seq<seq<Int32>>, consumed: seq<nat>, n: nat): nat
    requires Bounded(vals, consumed) && n <= |vals|
  {
    if n == 0 then 0
    else Remaining(vals, consumed, n - 1) + (|vals[n - 1]| - consumed[n - 1])
  }

  ghost function Zeros(n: nat): (z: seq<nat>)
    ensures |z| == n && forall i :: 0 <= i < n ==> z[i] == 0
  {
    seq(n, i => 0)
  }

  /** Where a chunk's reader stands: one line past the chunk's head while
      it has one, at the end once exhausted. */
  function NextPos(length: nat, c: nat): nat
  {
    if c < length then c + 1 else length
  }

  /** The first `p` lines of a chunk, the ones its reader has returned,
      all parse. */
  ghost predicate ReadOk(ls: seq<string>, p: nat)
  {
    forall k :: 0 <= k < |ls| && k < p ==> ParseInt(ls[k]).Ok?
  }

  /** Reading one more line that parses keeps `ReadOk`. */
  lemma ReadOkNext(ls: seq<string>, p: nat, p': nat)
    requires ReadOk(ls, p) && p <= p' <= p + 1
    requires p < p' && p < |ls| ==> ParseInt(ls[p]).Ok?
    ensures ReadOk(ls, p')
  {
  }

  /** The `i`-th reader reads chunk `i`'s lines and stands just past the
      chunk's head, and every line it has returned parses. */
  ghost predicate Positioned(readers: seq<Reader>, lines: seq<seq<string>>, consumed: seq<nat>)
    requires |readers| <= |lines| == |consumed|
  {
    forall i :: 0 <= i < |readers| ==>
      && readers[i].lines == lines[i] && readers[i].pos == NextPos(|lines[i]|, consumed[i])
      && ReadOk(lines[i], readers[i].pos)
  }

  /** The invariant of the queue and the open readers: the readers are
      positioned, and the queue holds exactly the open chunks' heads. */
  ghost predicate QueueState(items: seq<Entry>, readers: seq<Reader>, lines: seq<seq<string>>,
                             vals: seq<seq<Int32>>, consumed: seq<nat>)
  {
    && Bounded(vals, consumed) && |readers| <= |lines| == |vals|
    && (forall i :: 0 <= i < |lines| ==> |vals[i]| == |lines[i]|)
    && Positioned(readers, lines, consumed)
    && multiset(items) == Pending(vals, consumed, |readers|)
  }

  // ---------------------------------------------------------------------
  // Lemmas about the state
  // ---------------------------------------------------------------------

  /** The queue holds at most one entry per reader: the entry of an open
      chunk's head appears exactly once, and no other entry appears. */
  lemma {:induction false} PendingCount(vals: seq<seq<Int32>>, consumed: seq<nat>, n: nat, e: Entry)
    requires n <= |vals| == |consumed|
    ensures Pending(vals, consumed, n)[e] == if IsHead(vals, consumed, n, e) then 1 else 0
  {
    if n > 0 {
      PendingCount(vals, consumed, n - 1, e);
      var h := HeadOf(vals[n - 1], consumed[n - 1], n - 1);
      assert h[e] == if e.reader == n - 1 && IsHead(vals, consumed, n, e) then 1 else 0;
      assert IsHead(vals, consumed, n, e) <==> IsHead(vals, consumed, n - 1, e) || (e.reader == n - 1 && IsHead(vals, consumed, n, e));
    }
  }

  /** The queue is empty exactly when every open chunk is exhausted, which
      is when the merge loop ends. */
  lemma PendingEmpty(vals: seq<seq<Int32>>, consumed: seq<nat>, n: nat)
    requires Bounded(vals, consumed) && n <= |vals|
    ensures Pending(vals, consumed, n) == multiset{} <==>
            forall i :: 0 <= i < n ==> consumed[i] == |vals[i]|
  {
    if Pending(vals, consumed, n) != multiset{} {
      var e :| e in Pending(vals, consumed, n);
      PendingCount(vals, consumed, n, e);
    } else {
      forall i | 0 <= i < n
        ensures consumed[i] == |vals[i]|
      {
        if consumed[i] < |vals[i]| {
          PendingCount(vals, consumed, n, Entry(vals[i][consumed[i]], i));
        }
      }
    }
  }

  /** Writing chunk `i`'s head (`consumed` becomes `c'`) takes it out of
      the queue, and the chunk's next record, if any, takes its place. */
  lemma AdvancePending(vals: seq<seq<Int32>>, consumed: seq<nat>, c': seq<nat>, n: nat, i: nat)
    requires n <= |vals| == |consumed| && i < n && consumed[i] < |vals[i]|
    requires c' == consumed[i := consumed[i] + 1]
    ensures Pending(vals, c', n)
            == Pending(vals, consumed, n) - multiset{Entry(vals[i][consumed[i]], i)}
               + HeadOf(vals[i], consumed[i] + 1, i)
  {
    var after := Pending(vals, consumed, n) - multiset{Entry(vals[i][consumed[i]], i)}
                 + HeadOf(vals[i], consumed[i] + 1, i);
    forall e
      ensures Pending(vals, c', n)[e] == after[e]
    {
      AdvanceCount(vals, consumed, c', n, i, e);
    }
    assert Pending(vals, c', n) == after;
  }

  /** `AdvancePending` for the count of one entry. */
  lemma AdvanceCount(vals: seq<seq<Int32>>, consumed: seq<nat>, c': seq<nat>, n: nat, i: nat, e: Entry)
    requires n <= |vals| == |consumed| && i < n && consumed[i] < |vals[i]|
    requires c' == consumed[i := consumed[i] + 1]
    ensures Pending(vals, c', n)[e]
            == (Pending(vals, consumed, n) - multiset{Entry(vals[i][consumed[i]], i)}
                + HeadOf(vals[i], consumed[i] + 1, i))[e]
  {
    PendingCount(vals, c', n, e);
    PendingCount(vals, consumed, n, e);
  }

  /** Taken and Remaining over the first `n` chunks look only at those
      chunks' counts. */
  lemma {:induction false} TakenFrame(vals: seq<seq<Int32>>, c1: seq<nat>, c2: seq<nat>, n: nat)
    requires Bounded(vals, c1) && Bounded(vals, c2) && n <= |vals|
    requires forall k :: 0 <= k < n ==> c1[k] == c2[k]
    ensures Taken(vals, c1, n) == Taken(vals, c2, n)
    ensures Remaining(vals, c1, n) == Remaining(vals, c2, n)
  {
    if n > 0 {
      TakenFrame(vals, c1, c2, n - 1);
    }
  }

  /** Writing chunk `i`'s head adds its value to the records written, and
      leaves one record fewer to write. */
  lemma {:induction false} AdvanceTaken(vals: seq<seq<Int32>>, consumed: seq<nat>, c': seq<nat>, n: nat, i: nat)
    requires Bounded(vals, consumed) && n <= |vals| && i < n && consumed[i] < |vals[i]|
    requires c' == consumed[i := consumed[i] + 1]
    ensures Bounded(vals, c')
    ensures Taken(vals, c', n) == Taken(vals, consumed, n) + multiset{vals[i][consumed[i]]}
    ensures Remaining(vals, c', n) == Remaining(vals, consumed, n) - 1
  {
    assert Bounded(vals, c');
    var x := vals[i][consumed[i]];
    if i == n - 1 {
      TakenFrame(vals, c', consumed, n - 1);
      assert vals[i][..c'[i]] == vals[i][..consumed[i]] + [x];
      calc {
        Taken(vals, c', n);
        Taken(vals, consumed, n - 1) + multiset(vals[i][..consumed[i]] + [x]);
        Taken(vals, consumed, n - 1) + multiset(vals[i][..consumed[i]]) + multiset{x};
      }
    } else {
      AdvanceTaken(vals, consumed, c', n - 1, i);
      assert c'[n - 1] == consumed[n - 1];
    }
  }

  /** Before anything is written, nothing is taken. */
  lemma {:induction false} TakenNone(vals: seq<seq<Int32>>, n: nat)
    requires n <= |vals|
    ensures Bounded(vals, Zeros(|vals|)) && Taken(vals, Zeros(|vals|), n) == multiset{}
  {
    if n > 0 {
      TakenNone(vals, n - 1);
      assert vals[n - 1][..0] == [];
    }
  }

  /** Once every chunk is exhausted, every record has been taken. */
  lemma {:induction false} TakenFull(vals: seq<seq<Int32>>, consumed: seq<nat>, n: nat)
    requires Bounded(vals, consumed) && n <= |vals|
    requires forall i :: 0 <= i < |vals| ==> consumed[i] == |vals[i]|
    ensures Taken(vals, consumed, n) == multiset(Concat(vals[..n]))
  {
    if n > 0 {
      TakenFull(vals, consumed, n - 1);
      assert vals[..n][..n - 1] == vals[..n - 1];
      assert vals[n - 1][..consumed[n - 1]] == vals[n - 1];
    }
  }

  // ---------------------------------------------------------------------
  // mergeSortedFiles
  // ---------------------------------------------------------------------

  /** Opening chunk `j` next keeps the queue's invariant: its reader
      joins the open ones and its first record, if any, joins the queue. */
  lemma SeedStep(items: seq<Entry>, readers: seq<Reader>, lines: seq<seq<string>>,
                 vals: seq<seq<Int32>>, rd: Reader, items': seq<Entry>)
    requires QueueState(items, readers, lines, vals, Zeros(|lines|)) && |readers| < |lines|
    requires rd.lines == lines[|readers|] && rd.pos == NextPos(|lines[|readers|]|, 0)
    requires |lines[|readers|]| > 0 ==> ParseInt(lines[|readers|][0]).Ok?
    requires multiset(items') == multiset(items) + HeadOf(vals[|readers|], 0, |readers|)
    ensures QueueState(items', readers + [rd], lines, vals, Zeros(|lines|))
  {
    var z, j := Zeros(|lines|), |readers|;
    assert Pending(vals, z, j + 1) == Pending(vals, z, j) + HeadOf(vals[j], 0, j);
    PositionedSnoc(readers, rd, lines, z);
  }

  /** A reader opened on the next chunk, positioned after its first line,
      joins the positioned ones. */
  lemma PositionedSnoc(readers: seq<Reader>, rd: Reader, lines: seq<seq<string>>, z: seq<nat>)
    requires |readers| < |lines| == |z| && Positioned(readers, lines, z) && z[|readers|] == 0
    requires rd.lines == lines[|readers|] && rd.pos == NextPos(|lines[|readers|]|, 0)
    requires |lines[|readers|]| > 0 ==> ParseInt(lines[|readers|][0]).Ok?
    ensures Positioned(readers + [rd], lines, z)
  {
    var j, rs := |readers|, readers + [rd];
    ReadOkNext(lines[j], 0, rd.pos);
    forall i | 0 <= i < j + 1
      ensures && rs[i].lines == lines[i] && rs[i].pos == NextPos(|lines[i]|, z[i])
              && ReadOk(lines[i], rs[i].pos)
    {
      if i < j {
        assert rs[i] == readers[i];
      }
    }
  }

  /** One turn of the first loop of `mergeSortedFiles` (lines 112-117):
      opens chunk `j` and queues its first record, if it has one. `ls`
      and `vs` are the chunk's lines and their values. */
  method OpenChunk(q: MinQueue, files: map<string, string>, name: string, j: nat,
                   ghost ls: seq<string>, ghost vs: seq<Int32>)
    returns (r: Result<Reader>)
    requires name in files ==> ls == ReadLines(files[name])
    requires |vs| == |ls| && (|ls| > 0 && ParseInt(ls[0]).Ok? ==> ParseInt(ls[0]) == Ok(vs[0]))
    modifies q
    ensures r.Ok? ==> && name in files && r.value.lines == ls && r.value.pos == NextPos(|ls|, 0)
                      && (|ls| > 0 ==> ParseInt(ls[0]).Ok?)
                      && multiset(q.items) == multiset(old(q.items)) + HeadOf(vs, 0, j)
    ensures r.Err? ==> || (name !in files && r.error == FileNotFound(name))
                       || (name in files && |ls| > 0 && r.error == NumberFormat(ls[0]) && ParseInt(ls[0]).Err?)
  {
    var input := Open(files, name);
    if input.Err? {
      return Err(input.error);
    }
    var line, rd := ReadLine(input.value);
    if line.Some? {
      var parsed := ParseInt(line.value);
      if parsed.Err? {
        return Err(parsed.error);
      }
      q.Add(Entry(parsed.value, j));
    }
    return Ok(rd);
  }

  /** The chunk a failed `OpenChunk` was opening is a merge error. */
  lemma OpenError(files: map<string, string>, names: seq<string>, j: nat, err: Error)
    requires j < |names|
    requires || (names[j] !in files && err == FileNotFound(names[j]))
             || (&& names[j] in files && |ReadLines(files[names[j]])| > 0
                 && err == NumberFormat(ReadLines(files[names[j]])[0]) && ParseInt(err.input).Err?)
    ensures MergeError(files, names, err)
  {
  }

  /** Before any chunk is opened the queue is empty, as its invariant
      demands. */
  lemma QueueStart(lines: seq<seq<string>>, vals: seq<seq<Int32>>)
    requires Agree(lines, vals)
    ensures QueueState([], [], lines, vals, Zeros(|lines|))
  {
    var z := Zeros(|lines|);
    assert Bounded(vals, z);
    assert Pending(vals, z, 0) == multiset{};
  }

  /** `OpenChunk` on the next chunk, stated against the queue's invariant:
      the new reader joins the open ones, or the error is a merge error. */
  method SeedNext(q: MinQueue, files: map<string, string>, chunkFiles: seq<string>,
                  readers: seq<Reader>, ghost lines: seq<seq<string>>, ghost vals: seq<seq<Int32>>)
    returns (r: Result<Reader>)
    requires ChunkLines(files, chunkFiles, lines) && Agree(lines, vals) && |readers| < |lines|
    requires QueueState(q.items, readers, lines, vals, Zeros(|lines|))
    modifies q
    ensures r.Ok? ==> chunkFiles[|readers|] in files && QueueState(q.items, readers + [r.value], lines, vals, Zeros(|lines|))
    ensures r.Err? ==> MergeError(files, chunkFiles, r.error)
  {
    ghost var items := q.items;
    var j := |readers|;
    assert chunkFiles[j] in files ==> lines[j] == ReadLines(files[chunkFiles[j]]);
    r := OpenChunk(q, files, chunkFiles[j], j, lines[j], vals[j]);
    if r.Err? {
      OpenError(files, chunkFiles, j, r.error);
    } else {
      SeedStep(items, readers, lines, vals, r.value, q.items);
    }
  }

  /** The first loop of `mergeSortedFiles` (lines 111-118): opens every
      chunk in list order and puts its first record, if it has one, in the
      queue. A chunk that is not a file, or a first line parseInt refuses,
      stops the merge. `lines` and `vals` are the chunks' lines and their
      values, fixed in advance. */
  method SeedQueue(q: MinQueue, files: map<string, string>, chunkFiles: seq<string>,
                   ghost lines: seq<seq<string>>, ghost vals: seq<seq<Int32>>)
    returns (r: Result<seq<Reader>>)
    requires ChunkLines(files, chunkFiles, lines) && Agree(lines, vals)
    requires q.items == []
    modifies q
    ensures r.Ok? ==> && Present(files, chunkFiles) && |r.value| == |lines|
                      && QueueState(q.items, r.value, lines, vals, Zeros(|lines|))
    ensures r.Err? ==> MergeError(files, chunkFiles, r.error)
  {
    var readers: seq<Reader> := [];
    assert |lines| == |chunkFiles|;
    QueueStart(lines, vals);
    for j := 0 to |chunkFiles|
      invariant |readers| == j
      invariant forall i :: 0 <= i < j ==> chunkFiles[i] in files
      invariant QueueState(q.items, readers, lines, vals, Zeros(|lines|))
    {
      var chunk := SeedNext(q, files, chunkFiles, readers, lines, vals);
      if chunk.Err? {
        return Err(chunk.error);
      }
      readers := readers + [chunk.value];
    }
    return Ok(readers);
  }

  /** The refill in the second loop of `mergeSortedFiles` (lines 124-127):
      reads the next line of the chunk whose head `c` was just written and
      queues its value, if there is one. `ls` and `vs` are the chunk's lines
      and their values. */
  method Refill(q: MinQueue, rd: Reader, reader: nat, ghost ls: seq<string>, ghost vs: seq<Int32>,
                ghost c: nat)
    returns (r: Result<Reader>)
    requires rd.lines == ls && c < |ls| && rd.pos == c + 1
    requires |vs| == |ls| && (c + 1 < |ls| && ParseInt(ls[c + 1]).Ok? ==> ParseInt(ls[c + 1]) == Ok(vs[c + 1]))
    modifies q
    ensures r.Ok? ==> && r.value.lines == ls && r.value.pos == NextPos(|ls|, c + 1)
                      && (c + 1 < |ls| ==> ParseInt(ls[c + 1]).Ok?)
                      && multiset(q.items) == multiset(old(q.items)) + HeadOf(vs, c + 1, reader)
    ensures r.Err? ==> c + 1 < |ls| && r.error == NumberFormat(ls[c + 1]) && ParseInt(ls[c + 1]).Err?
  {
    var line, next := ReadLine(rd);
    if line.Some? {
      var parsed := ParseInt(line.value);
      if parsed.Err? {
        return Err(parsed.error);
      }
      q.Add(Entry(parsed.value, reader));
    }
    return Ok(next);
  }

  /** Advancing reader `i` past the head just written keeps the readers
      positioned. */
  lemma ReadersStep(rds: seq<Reader>, rd: Reader, lines: seq<seq<string>>, consumed: seq<nat>,
                    c': seq<nat>, i: nat, c: nat)
    requires |rds| == |lines| == |consumed| && Positioned(rds, lines, consumed)
    requires i < |lines| && c == consumed[i] && c < |lines[i]| && c' == consumed[i := c + 1]
    requires rd.lines == lines[i] && rd.pos == NextPos(|lines[i]|, c + 1)
    requires c + 1 < |lines[i]| ==> ParseInt(lines[i][c + 1]).Ok?
    ensures Positioned(rds[i := rd], lines, c')
  {
    var rs := rds[i := rd];
    assert rds[i].pos == c + 1 && ReadOk(lines[i], rds[i].pos);
    ReadOkNext(lines[i], c + 1, rd.pos);
    forall j | 0 <= j < |rs|
      ensures && rs[j].lines == lines[j] && rs[j].pos == NextPos(|lines[j]|, c'[j])
              && ReadOk(lines[j], rs[j].pos)
    {
      if j != i {
        assert rs[j] == rds[j];
      }
    }
  }

  /** When every chunk is sorted, the entry that replaces the polled least
      one is no smaller than it, so nothing in the queue is. */
  lemma OrderStep(before: seq<Entry>, smallest: Entry, after: seq<Entry>, vals: seq<seq<Int32>>,
                  i: nat, c: nat)
    requires AllAscending(vals) && i < |vals| && c < |vals[i]| && smallest.value == vals[i][c]
    requires forall x :: x in before ==> smallest.value <= x.value
    requires multiset(after) == multiset(before) - multiset{smallest} + HeadOf(vals[i], c + 1, i)
    ensures forall e :: e in after ==> smallest.value <= e.value
  {
    forall e | e in after
      ensures smallest.value <= e.value
    {
      assert e in multiset(after);
      if e !in before {
        assert e.reader == i && c + 1 < |vals[i]| && e.value == vals[i][c + 1];
      }
    }
  }

  /** Polling the least entry, writing it and refilling from its chunk
      keeps the queue's invariant. */
  lemma DrainStep(before: seq<Entry>, smallest: Entry, after: seq<Entry>, rds: seq<Reader>, rd: Reader,
                  lines: seq<seq<string>>, vals: seq<seq<Int32>>, consumed: seq<nat>, c': seq<nat>, i: nat, c: nat)
    requires QueueState(before, rds, lines, vals, consumed) && |rds| == |lines|
    requires i == smallest.reader && i < |lines| && c == consumed[i] && c < |vals[i]|
    requires smallest.value == vals[i][c] && c' == consumed[i := c + 1]
    requires rd.lines == lines[i] && rd.pos == NextPos(|lines[i]|, c + 1)
    requires c + 1 < |lines[i]| ==> ParseInt(lines[i][c + 1]).Ok?
    requires multiset(after) == multiset(before) - multiset{smallest} + HeadOf(vals[i], c + 1, i)
    ensures QueueState(after, rds[i := rd], lines, vals, c')
  {
    var rs := rds[i := rd];
    assert smallest == Entry(vals[i][c], i);
    AdvancePending(vals, consumed, c', |lines|, i);
    assert multiset(after) == Pending(vals, c', |rs|);
    assert Bounded(vals, c');
    ReadersStep(rds, rd, lines, consumed, c', i, c);
  }

  /** The poll and the write in the second loop of `mergeSortedFiles`
      (lines 122-123): takes a least entry out of the queue and appends its
      record to the output file, whose text is `before` with the output
      replaced by the records written so far. */
  method WriteLeast(fs: FileSystem, q: MinQueue, outputFile: string,
                    ghost before: map<string, string>, ghost written: seq<Int32>)
    returns (smallest: Entry, ghost written': seq<Int32>)
    requires q.items != [] && fs.files == before[outputFile := EncodeLines(written)]
    modifies fs, q
    ensures smallest in old(q.items) && forall x :: x in old(q.items) ==> smallest.value <= x.value
    ensures multiset(q.items) == multiset(old(q.items)) - multiset{smallest}
    ensures written' == written + [smallest.value]
    ensures fs.files == before[outputFile := EncodeLines(written')]
  {
    smallest := q.Poll();
    fs.Append(outputFile, Line(smallest.value));
    written' := written + [smallest.value];
    EncodeSnoc(written, smallest.value);
    assert before[outputFile := EncodeLines(written)][outputFile := EncodeLines(written')]
           == before[outputFile := EncodeLines(written')];
  }

  /** The invariant of the merge loop: the queue's invariant, the records
      written are exactly the consumed prefixes of the chunks, and, when
      every chunk is in order, the output is in order and no entry left in
      the queue is smaller than its last record. */
  ghost predicate MergeState(items: seq<Entry>, rds: seq<Reader>, lines: seq<seq<string>>,
                             vals: seq<seq<Int32>>, consumed: seq<nat>, written: seq<Int32>)
  {
    && |rds| == |lines| && QueueState(items, rds, lines, vals, consumed)
    && multiset(written) == Taken(vals, consumed, |lines|)
    && (AllAscending(vals) ==>
          Ascending(written) && (written != [] ==> forall e :: e in items ==> written[|written| - 1] <= e.value))
  }

  /** Writing a least queued value after records no greater than any
      queued value keeps the output in order. */
  lemma AscendingSnoc(written: seq<Int32>, x: Int32, items: seq<Entry>)
    requires Ascending(written) && (written != [] ==> forall e :: e in items ==> written[|written| - 1] <= e.value)
    requires exists e :: e in items && e.value == x
    ensures Ascending(written + [x])
  {
    var w := written + [x];
    forall k | 0 < k < |w|
      ensures w[k - 1] <= w[k]
    {
      if k < |written| {
        assert w[k - 1] == written[k - 1] && w[k] == written[k];
      }
    }
  }

  /** One turn of the merge loop keeps its invariant and leaves one record
      fewer to write. */
  lemma StepState(before: seq<Entry>, smallest: Entry, after: seq<Entry>, rds: seq<Reader>, rd: Reader,
                  lines: seq<seq<string>>, vals: seq<seq<Int32>>, consumed: seq<nat>, c': seq<nat>,
                  written: seq<Int32>, i: nat, c: nat)
    requires MergeState(before, rds, lines, vals, consumed, written)
    requires smallest in before && forall x :: x in before ==> smallest.value <= x.value
    requires i == smallest.reader && i < |lines| && c == consumed[i] && c < |vals[i]|
    requires smallest.value == vals[i][c] && c' == consumed[i := c + 1]
    requires rd.lines == lines[i] && rd.pos == NextPos(|lines[i]|, c + 1)
    requires c + 1 < |lines[i]| ==> ParseInt(lines[i][c + 1]).Ok?
    requires multiset(after) == multiset(before) - multiset{smallest} + HeadOf(vals[i], c + 1, i)
    ensures MergeState(after, rds[i := rd], lines, vals, c', written + [smallest.value])
    ensures Remaining(vals, c', |lines|) < Remaining(vals, consumed, |lines|)
  {
    AdvanceTaken(vals, consumed, c', |lines|, i);
    DrainStep(before, smallest, after, rds, rd, lines, vals, consumed, c', i, c);
    if AllAscending(vals) {
      OrderStep(before, smallest, after, vals, i, c);
      assert smallest in before && smallest.value == smallest.value;
      AscendingSnoc(written, smallest.value, before);
    }
  }

  /** The rest of one turn of the second loop of `mergeSortedFiles`
      (lines 124-127), once the least entry `smallest` has been polled from
      the queue (which held `before`) and its record written after
      `written`: refills the queue from the same chunk. The loop's
      invariant is kept with one record fewer to write, or a line parseInt
      refuses stops the merge. */
  method Advance(q: MinQueue, rds: seq<Reader>, smallest: Entry, ghost before: seq<Entry>,
                 ghost lines: seq<seq<string>>, ghost vals: seq<seq<Int32>>, ghost consumed: seq<nat>,
                 ghost written: seq<Int32>)
    returns (r: Result<seq<Reader>>, ghost consumed': seq<nat>)
    requires Agree(lines, vals) && MergeState(before, rds, lines, vals, consumed, written)
    requires smallest in before && forall x :: x in before ==> smallest.value <= x.value
    requires multiset(q.items) == multiset(before) - multiset{smallest}
    modifies q
    ensures r.Ok? ==> && MergeState(q.items, r.value, lines, vals, consumed', written + [smallest.value])
                      && Remaining(vals, consumed', |lines|) < Remaining(vals, consumed, |lines|)
    ensures r.Err? ==> BadLine(lines, r.error)
  {
    ghost var i := smallest.reader;
    PendingCount(vals, consumed, |lines|, smallest);
    ghost var c := consumed[i];
    consumed' := consumed[i := c + 1];
    var refilled := Refill(q, rds[smallest.reader], smallest.reader, lines[i], vals[i], c);
    if refilled.Err? {
      return Err(refilled.error), consumed';
    }
    StepState(before, smallest, q.items, rds, refilled.value, lines, vals, consumed, consumed', written, i, c);
    r := Ok(rds[smallest.reader := refilled.value]);
  }

  /** The output writer and the second loop of `mergeSortedFiles` (lines
      120-128): creates the output file empty, then polls the
      least entry, appends its record to the output, and replaces it with
      the next record of the same chunk, until the queue is empty. The
      output holds every record exactly once, and is in order when every
      chunk is; a line parseInt refuses stops the loop. */
  method Drain(fs: FileSystem, q: MinQueue, readers: seq<Reader>, outputFile: string,
               ghost lines: seq<seq<string>>, ghost vals: seq<seq<Int32>>)
    returns (r: Result<()>, ghost written: seq<Int32>)
    requires Agree(lines, vals) && |readers| == |lines|
    requires QueueState(q.items, readers, lines, vals, Zeros(|lines|))
    modifies fs, q
    ensures fs.files == old(fs.files)[outputFile := EncodeLines(written)]
    ensures r.Ok? <==> AllParse(lines)
    ensures r.Ok? ==> multiset(written) == multiset(Concat(vals))
    ensures r.Ok? && AllAscending(vals) ==> Sorted(written)
    ensures r.Err? ==> BadLine(lines, r.error)
  {
    var rds := readers;
    ghost var consumed: seq<nat> := Zeros(|lines|);
    written := [];
    TakenNone(vals, |lines|);
    fs.Create(outputFile);
    while q.items != []
      invariant MergeState(q.items, rds, lines, vals, consumed, written)
      invariant fs.files == old(fs.files)[outputFile := EncodeLines(written)]
      decreases Remaining(vals, consumed, |lines|)
    {
      ghost var before := q.items;
      var smallest;
      ghost var written';
      smallest, written' := WriteLeast(fs, q, outputFile, old(fs.files), written);
      var step;
      step, consumed := Advance(q, rds, smallest, before, lines, vals, consumed, written);
      written := written';
      if step.Err? {
        return Err(step.error), written;
      }
      rds := step.value;
    }
    DrainDone(q.items, rds, lines, vals, consumed, written);
    r := Ok(());
  }

  /** When the merge loop ends, every chunk is exhausted: every line was
      read and parsed, every record written, in order when every chunk is. */
  lemma DrainDone(items: seq<Entry>, rds: seq<Reader>, lines: seq<seq<string>>,
                  vals: seq<seq<Int32>>, consumed: seq<nat>, written: seq<Int32>)
    requires MergeState(items, rds, lines, vals, consumed, written) && items == []
    ensures AllParse(lines)
    ensures multiset(written) == multiset(Concat(vals))
    ensures AllAscending(vals) ==> Sorted(written)
  {
    var n := |lines|;
    PendingEmpty(vals, consumed, n);
    TakenFull(vals, consumed, n);
    assert vals[..n] == vals;
    forall i, k | 0 <= i < n && 0 <= k < |lines[i]|
      ensures ParseInt(lines[i][k]).Ok?
    {
      assert rds[i].pos == |lines[i]| && ReadOk(lines[i], rds[i].pos);
    }
    if AllAscending(vals) {
      AscendingSorted(written);
    }
  }

  /** `mergeSortedFiles(chunkFiles, outputFile)`, as `Merged` states it. */
  method MergeSortedFiles(fs: FileSystem, chunkFiles: seq<string>, outputFile: string)
    returns (r: Result<()>, ghost written: seq<Int32>)
    modifies fs
    ensures Merged(old(fs.files), fs.files, chunkFiles, outputFile, r, written)
  {
    var q := new MinQueue();
    ghost var files0 := fs.files;
    ghost var lines, vals := ChunkValues(files0, chunkFiles);
    var seeded := SeedQueue(q, fs.files, chunkFiles, lines, vals);
    if seeded.Err? {
      SeedOutcome(files0, chunkFiles, outputFile, seeded.error);
      return Err(seeded.error), [];
    }
    r, written := Drain(fs, q, seeded.value, outputFile, lines, vals);
    DrainOutcome(files0, fs.files, chunkFiles, outputFile, lines, vals, r, written);
  }

}
