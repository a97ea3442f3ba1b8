/** `sum_file` (src/main.rs:85-110): refuse a path that is not UTF-8, open
    the file, feed it to SHA-256 chunk by chunk while at most the declared
    size has been read, and accept only when exactly the declared size was
    read. An open file is the sequence of results its `read` calls return;
    a call past the end of the sequence returns `Ok(0)`. */
module Hasher {
  import opened Bytes
  import opened Wrappers
  import opened Utf8
  import opened PathFilter
  import opened Records

  /** The length of the read buffer `buf`. */
  const BUFFER_SIZE: nat := 32768

  /** The result of one `f.read(&mut buf)`: the bytes read (none at end of
      file) or an error. */
  datatype Read = Chunk(data: seq<Byte>) | ReadError

  /** The result of `File::open`. */
  datatype OpenResult = OpenError | Opened(calls: seq<Read>)

  datatype SumError = InvalidUnicode | OpenFailed | ReadFailed | SizeMismatch

  /** `Ok` with the record sent on `result_tx`, or the error logged. */
  datatype Sum = Summed(record: FileRecord) | SumFailed(error: SumError)

  /** Where the read loop stops: the bytes fed to the hasher, and whether a
      read failed. */
  datatype Drain = Drain(fed: seq<Byte>, readFailed: bool)

  /** The `while read_size <= meta_size` loop from read call `i` on, with
      `fed` already hashed. */
  function ReadLoop(calls: seq<Read>, metaSize: nat, i: nat, fed: seq<Byte>): (d: Drain)
    requires i <= |calls|
    decreases |calls| - i
    ensures |d.fed| >= |fed|
  {
    if |fed| > metaSize || i == |calls| then Drain(fed, false)
    else match calls[i]
      case ReadError => Drain(fed, true)
      case Chunk(data) =>
        if data == [] then Drain(fed, false)
        else ReadLoop(calls, metaSize, i + 1, fed + data)
  }

  /** What `sum_file` returns for `path` with declared size `metaSize`. */
  function SumFile(path: Path, metaSize: U64, file: OpenResult, sha256: Hash): (r: Sum)
    ensures !IsUtf8(path) ==> r == SumFailed(InvalidUnicode)
    ensures file.OpenError? && IsUtf8(path) ==> r == SumFailed(OpenFailed)
    ensures r.Summed? ==> r.record.path == path && r.record.size == metaSize
  {
    if !IsUtf8(path) then SumFailed(InvalidUnicode)
    else match file
      case OpenError => SumFailed(OpenFailed)
      case Opened(calls) =>
        var d := ReadLoop(calls, metaSize, 0, []);
        if d.readFailed then SumFailed(ReadFailed)
        else if |d.fed| != metaSize then SumFailed(SizeMismatch)
        else Summed(FileRecord(path, sha256(d.fed), metaSize))
  }

  /** The whole file, read from call `i` to end of file; `None` if a read
      fails first. */
  function Contents(calls: seq<Read>, i: nat): Option<seq<Byte>>
    requires i <= |calls|
    decreases |calls| - i
  {
    if i == |calls| then Some([])
    else match calls[i]
      case ReadError => None
      case Chunk(data) =>
        if data == [] then Some([])
        else match Contents(calls, i + 1)
          case None => None
          case Some(rest) => Some(data + rest)
  }

  /** `sum_file` as a loop over `read` calls: it computes `SumFile`. */
  method SumFileLoop(path: Path, metaSize: U64, file: OpenResult, sha256: Hash) returns (r: Sum)
    ensures r == SumFile(path, metaSize, file, sha256)
  {
    if !IsUtf8(path) {
      return SumFailed(InvalidUnicode);
    }
    if file.OpenError? {
      return SumFailed(OpenFailed);
    }
    var calls := file.calls;
    ghost var drain := ReadLoop(calls, metaSize, 0, []);
    var hashed: seq<Byte> := [];
    var readSize: nat := 0;
    var next := 0;
    while readSize <= metaSize
      invariant next <= |calls| && readSize == |hashed|
      invariant ReadLoop(calls, metaSize, next, hashed) == drain
      decreases |calls| - next
    {
      if next == |calls| {
        break;
      }
      var res := calls[next];
      next := next + 1;
      match res
      case ReadError =>
        return SumFailed(ReadFailed);
      case Chunk(data) =>
        if |data| == 0 {
          break;
        }
        readSize := readSize + |data|;
        hashed := hashed + data;
    }
    assert drain == Drain(hashed, false);
    if readSize != metaSize {
      return SumFailed(SizeMismatch);
    }
    return Summed(FileRecord(path, sha256(hashed), metaSize));
  }

  /** The loop accepts exactly when the file, read to its end without error,
      holds `metaSize` bytes; the bytes it hashed are then the whole file. */
  lemma {:induction false} ReadLoopMeaning(calls: seq<Read>, metaSize: nat, i: nat, fed: seq<Byte>)
    requires i <= |calls| && |fed| <= metaSize
    decreases |calls| - i
    ensures var d, c := ReadLoop(calls, metaSize, i, fed), Contents(calls, i);
            (!d.readFailed && |d.fed| == metaSize) <==> (c.Some? && |fed| + |c.value| == metaSize)
    ensures var d, c := ReadLoop(calls, metaSize, i, fed), Contents(calls, i);
            c.Some? && |fed| + |c.value| == metaSize ==> d.fed == fed + c.value
  {
    if i < |calls| && calls[i].Chunk? && calls[i].data != [] {
      var data := calls[i].data;
      var fed' := fed + data;
      if |fed'| <= metaSize {
        ReadLoopMeaning(calls, metaSize, i + 1, fed');
        var c := Contents(calls, i + 1);
        if c.Some? {
          AppendAssociates(fed, data, c.value);
        }
      }
    }
  }

  /** `sum_file` succeeds exactly when the path is UTF-8, the file opens, and
      reading it to its end yields `metaSize` bytes without error; the record
      then carries the digest of exactly those bytes. In particular a file
      whose size changed since its metadata was read is rejected. */
  lemma SumFileMeaning(path: Path, metaSize: U64, file: OpenResult, sha256: Hash)
    ensures SumFile(path, metaSize, file, sha256).Summed? <==>
              IsUtf8(path) && file.Opened? &&
              Contents(file.calls, 0).Some? && |Contents(file.calls, 0).value| == metaSize
    ensures SumFile(path, metaSize, file, sha256).Summed? ==>
              SumFile(path, metaSize, file, sha256).record
                == FileRecord(path, sha256(Contents(file.calls, 0).value), metaSize)
  {
    if file.Opened? {
      ReadLoopMeaning(file.calls, metaSize, 0, []);
      var c := Contents(file.calls, 0);
      if c.Some? {
        assert [] + c.value == c.value;
      }
    }
  }

  /** A path holding a byte that never occurs in UTF-8 (C0, C1, F5 to FF) is
      refused with `InvalidUnicode`. */
  lemma ForeignByteRefused(path: Path, i: nat, metaSize: U64, file: OpenResult, sha256: Hash)
    requires i < |path| && (path[i] == 0xC0 || path[i] == 0xC1 || path[i] >= 0xF5)
    ensures SumFile(path, metaSize, file, sha256) == SumFailed(InvalidUnicode)
  {
    if IsUtf8(path) {
      Utf8ExcludesBytes(path, i);
    }
  }

  /** Every read fills at most the buffer. */
  predicate ChunksFit(calls: seq<Read>) {
    forall i :: 0 <= i < |calls| && calls[i].Chunk? ==> |calls[i].data| <= BUFFER_SIZE
  }

  /** The loop calls at most one buffer past the declared size, however long
      the file has grown. */
  lemma {:induction false} ReadLoopBound(calls: seq<Read>, metaSize: nat, i: nat, fed: seq<Byte>)
    requires i <= |calls| && ChunksFit(calls) && |fed| <= metaSize + BUFFER_SIZE
    decreases |calls| - i
    ensures |ReadLoop(calls, metaSize, i, fed).fed| <= metaSize + BUFFER_SIZE
  {
    if |fed| <= metaSize && i < |calls| && calls[i].Chunk? && calls[i].data != [] {
      ReadLoopBound(calls, metaSize, i + 1, fed + calls[i].data);
    }
  }
}
