/** `main` (src/main.rs:124-199) with its threads run one after another:
    the scan thread walks the roots, the summers hash every task, the
    collector gathers the records, and the output stage writes the catalog.
    `call` is the metadata call the scan makes when `--no-follow` is off:
    `SymlinkMetadata` is `main` as written, `Metadata` the call the doc
    comment of the `no_follow` option (src/main.rs:30-31) intends. */
module Pipeline {
  import opened Bytes
  import opened Wrappers
  import opened Utf8
  import opened PathFilter
  import opened Records
  import opened Scanner
  import opened Hasher
  import opened Catalog

  datatype Failure =
      /** An `--include` or `--exclude` glob does not compile. */
    | InvalidGlob
      /** The scan thread returned `Err`. */
    | ScanFailed
      /** The payload is longer than `u32::MAX` bytes. */
    | TooLarge

  /** `ExitCode::FAILURE` with nothing written, or success with the catalog
      written on standard output. */
  datatype Outcome = Failed(failure: Failure) | Written(output: seq<Byte>)

  /** What the summers send for the tasks from `i` on: the record of each
      task whose hashing succeeds, in task order. */
  function HashFrom(tasks: seq<Task>, open: Path -> OpenResult, sha256: Hash, i: nat): (rs: seq<FileRecord>)
    requires i <= |tasks|
    decreases |tasks| - i
    ensures |rs| <= |tasks| - i
  {
    if i == |tasks| then []
    else
      var rest := HashFrom(tasks, open, sha256, i + 1);
      match SumFile(tasks[i].path, tasks[i].size, open(tasks[i].path), sha256)
      case Summed(r) => [r] + rest
      case SumFailed(_) => rest
  }

  /** The program: compile the globs (`None` when one fails), scan, hash,
      collect, and write. `records` are the collected results once sorted. */
  method Run(call: StatCall, filter: Option<Filter>, opts: Options, roots: seq<Root>,
             open: Path -> OpenResult, sha256: Hash, compress: Compress) returns (outcome: Outcome, records: seq<FileRecord>)
    ensures filter.None? ==> outcome == Failed(InvalidGlob)
    ensures filter.Some? ==>
              var scan := WalkRoots(opts, filter.value, call, roots, 0);
              if scan.failed then outcome == Failed(ScanFailed)
              else
                SortedByPath(records) &&
                multiset(records) == multiset(HashFrom(scan.tasks, open, sha256, 0)) &&
                outcome == match CatalogOutput(Payload(records), sha256, compress)
                           case None => Failed(TooLarge)
                           case Some(bytes) => Written(bytes)
  {
    records := [];
    if filter.None? {
      return Failed(InvalidGlob), records;
    }
    var tx := new Sender();
    var scanOk := DescendRoots(tx, opts, filter.value, call, roots);
    assert tx.sent == WalkRoots(opts, filter.value, call, roots, 0).tasks by {
      assert [] + WalkRoots(opts, filter.value, call, roots, 0).tasks == tx.sent;
    }
    var results := Summers(tx.sent, open, sha256);
    if !scanOk {
      return Failed(ScanFailed), records;
    }
    var written;
    written, records := Collect(results, sha256, compress);
    match written
    case None =>
      outcome := Failed(TooLarge);
    case Some(bytes) =>
      outcome := Written(bytes);
  }

  /** The summers: `sum_file` on every task, keeping the records sent. */
  method Summers(tasks: seq<Task>, open: Path -> OpenResult, sha256: Hash) returns (results: seq<FileRecord>)
    ensures results == HashFrom(tasks, open, sha256, 0)
  {
    results := [];
    var i := 0;
    while i < |tasks|
      invariant 0 <= i <= |tasks|
      invariant results + HashFrom(tasks, open, sha256, i) == HashFrom(tasks, open, sha256, 0)
    {
      var sum := SumFileLoop(tasks[i].path, tasks[i].size, open(tasks[i].path), sha256);
      if sum.Summed? {
        AppendAssociates(results, [sum.record], HashFrom(tasks, open, sha256, i + 1));
        results := results + [sum.record];
      }
      i := i + 1;
    }
    assert results + [] == results;
  }

  /** The collector's `results` vector handed to the output stage. */
  method Collect(results: seq<FileRecord>, sha256: Hash, compress: Compress)
    returns (written: Option<seq<Byte>>, records: seq<FileRecord>)
    ensures SortedByPath(records) && multiset(records) == multiset(results)
    ensures written == CatalogOutput(Payload(records), sha256, compress)
  {
    var a := new FileRecord[|results|](k requires 0 <= k < |results| => results[k]);
    assert a[..] == results;
    written := WriteCatalog(a, sha256, compress);
    records := a[..];
  }

  /** The records sent are exactly the successful `sum_file` results of the
      tasks: every record comes from a task, and every task that hashes
      successfully yields its record. */
  lemma {:induction false} HashFromMeaning(tasks: seq<Task>, open: Path -> OpenResult, sha256: Hash, i: nat)
    requires i <= |tasks|
    decreases |tasks| - i
    ensures forall r :: r in HashFrom(tasks, open, sha256, i) ==>
              exists k :: i <= k < |tasks| &&
                SumFile(tasks[k].path, tasks[k].size, open(tasks[k].path), sha256) == Summed(r)
    ensures forall k :: i <= k < |tasks| ==>
              var sum := SumFile(tasks[k].path, tasks[k].size, open(tasks[k].path), sha256);
              sum.Summed? ==> sum.record in HashFrom(tasks, open, sha256, i)
  {
    if i < |tasks| {
      HashFromMeaning(tasks, open, sha256, i + 1);
    }
  }

  /** Every file in the catalog lies at or beneath a root, is kept by the
      filter, has a UTF-8 path, and carries the digest of its whole content,
      which has exactly the recorded size. */
  lemma CatalogedFilesKept(call: StatCall, opts: Options, f: Filter, roots: seq<Root>, open: Path -> OpenResult, sha256: Hash, r: FileRecord)
    requires r in HashFrom(WalkRoots(opts, f, call, roots, 0).tasks, open, sha256, 0)
    ensures !Pruned(f, r.path) && IsUtf8(r.path)
    ensures exists k :: 0 <= k < |roots| && (r.path == roots[k].path || DirPrefix(roots[k].path) <= r.path)
    ensures open(r.path).Opened? && Contents(open(r.path).calls, 0) == Some(ContentOf(open(r.path)))
    ensures |ContentOf(open(r.path))| == r.size && r.digest == sha256(ContentOf(open(r.path)))
  {
    var tasks := WalkRoots(opts, f, call, roots, 0).tasks;
    HashFromMeaning(tasks, open, sha256, 0);
    WalkRootsTasksKept(opts, f, call, roots, 0);
    var k :| 0 <= k < |tasks| && SumFile(tasks[k].path, tasks[k].size, open(tasks[k].path), sha256) == Summed(r);
    assert tasks[k] in tasks;
    SumFileMeaning(tasks[k].path, tasks[k].size, open(tasks[k].path), sha256);
  }

  /** The whole content of an opened file that reads to its end. */
  function ContentOf(file: OpenResult): seq<Byte>
  {
    if file.Opened? && Contents(file.calls, 0).Some? then Contents(file.calls, 0).value else []
  }

  /** A symlink `l` whose own metadata reports 8 bytes, pointing at a file
      holding `hi`: as written it is queued with length 8, the read stops
      after 2 bytes, and the file is left out of the catalog; with
      `fs::metadata` it is cataloged with its 2 bytes. */
  lemma SymlinkedFileDroppedAsWritten(open: Path -> OpenResult, sha256: Hash)
    requires open([0x6C]) == Opened([Chunk([0x68, 0x69])])
    ensures var roots := [Root([0x6C], Symlink(8, File(2)))];
            var opts, noGlobs := Options(false, false), Filter([], []);
            HashFrom(WalkRoots(opts, noGlobs, SymlinkMetadata, roots, 0).tasks, open, sha256, 0) == [] &&
            HashFrom(WalkRoots(opts, noGlobs, Metadata, roots, 0).tasks, open, sha256, 0)
              == [FileRecord([0x6C], sha256([0x68, 0x69]), 2)]
  {
    var roots := [Root([0x6C], Symlink(8, File(2)))];
    var opts, noGlobs := Options(false, false), Filter([], []);
    assert IsUtf8([0x6C]) by {
      assert [0x6C][1..] == [];
    }
    var calls := [Chunk([0x68, 0x69])];
    assert ReadLoop(calls, 8, 1, [0x68, 0x69]) == Drain([0x68, 0x69], false);
    assert ReadLoop(calls, 2, 1, [0x68, 0x69]) == Drain([0x68, 0x69], false);
    assert [] + [0x68, 0x69] == [0x68, 0x69];
    assert WalkRoots(opts, noGlobs, SymlinkMetadata, roots, 1) == Scan([], false);
    assert WalkRoots(opts, noGlobs, SymlinkMetadata, roots, 0).tasks == [Task([0x6C], 8)];
    assert WalkRoots(opts, noGlobs, Metadata, roots, 0).tasks == [Task([0x6C], 2)];
  }
}
