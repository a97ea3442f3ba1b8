# tupdate-catgen, modelled in Dafny

`tupdate-catgen` walks filesystem roots and hashes every file it finds with
SHA-256. It then writes one binary catalog: the records `(path, digest,
size)` sorted by path, serialized, checksummed and zlib-compressed. This
project models the program's core, `src/main.rs`, and proves properties of
that model.

- **Path filter** (`path_filter.dfy`). A path is pruned when some
  `--exclude` glob matches it and no `--include` glob does. A compiled glob
  is modelled by its `is_match` predicate.
- **Scan** (`scanner.dfy`). `descend` walks an abstract filesystem tree of
  files, directories, symlinks and unreadable entries. Listing and entry
  errors are part of the tree.
  - The recursive spec functions `Walk`, `WalkEntries` and `WalkRoots` say
    what is sent and whether the walk fails.
  - The methods `Descend`, `DescendEntries` and `DescendRoots` follow the
    source's control flow. They send on a `Sender` object whose `sent` field
    records the channel's history, and are proved to send exactly what
    `Walk` says.
- **Hashing** (`hasher.dfy`).
  - An opened file is the sequence of results its `read` calls return.
  - `SumFileLoop` is the `while read_size <= meta_size` loop, proved equal to
    the spec function `SumFile`.
  - `SumFile` is in turn characterised against the whole file read to its end.
  - `Path::to_str` is the UTF-8 check in `utf8.dfy`, per Unicode table 3-7.
- **Catalog** (`catalog.dfy`).
  - The in-place insertion sort orders records by `String` order, which is
    bytewise lexicographic.
  - The serialization loop builds the output. Each record is: path, `\n`,
    32 digest bytes, the size as 8 big-endian bytes, and two zero bytes.
  - A payload over `u32::MAX` bytes aborts the run.
  - The 41-byte header holds the 5-byte magic `FF 54 43 61 74`, the payload's
    SHA-256, and the payload length as 4 big-endian bytes.
  - A reader (`DecodePayload`, `ReadCatalog`) is the partner that the
    round-trip lemmas invert the writer with.
- **Pipeline** (`pipeline.dfy`). `main` runs as a sequential composition:
  scan, then hash every task, then collect, sort and write.

SHA-256 and zlib are opaque functions (`Records.Hash`, `Catalog.Compress`).
Big-endian encodings (`to_be_bytes`) are in `bytes.dfy`.

The magic is the five bytes `b"\xFFTCat"` (src/main.rs:194). The program
writes only the catalog; it has no per-file listing.

The scan has a symlink bug; see "## Findings". The metadata call is a
parameter (`Scanner.StatCall`) of `Scanner.Stat`, `Walk`, `WalkEntries`,
`WalkRoots`, the three `Descend` methods, the general lemmas about them, and
`Pipeline.Run` and `Pipeline.CatalogedFilesKept`. The symlink lemmas
`SymlinkQueuedAsItself`, `FollowedSymlinkScansTarget` and
`SymlinkToDirectoryExample` fix it to one value. `SymlinkMetadata` is the call
as written, so `Run(SymlinkMetadata, …)` is `main` as written. `Metadata` is
the call the documentation of `--no-follow` (src/main.rs:30-31) intends, and
`Run(Metadata, …)` is the corrected program.

## Model

| member | source | states |
|---|---|---|
| PathFilter.Pruned | src/main.rs:37-41 | the early `return Ok(())` of `descend`: some exclude glob matches and no include glob does (its meaning is stated by `PrunedIff`) |
| PathFilter.AnyMatch | src/main.rs:37-38 | `globs.iter().any(…)` over `is_match`: some glob of the list matches the path (meaning in `AnyMatchIff`) |
| PathFilter.AnyMatchIff | src/main.rs:37-38 | `globs.iter().any(is_match)` holds exactly when some glob of the list matches the path |
| PathFilter.PrunedIff | src/main.rs:37-41 | a path is pruned exactly when an exclude glob matches and no include glob matches; with no exclude match it is kept whatever the includes say |
| Scanner.Join | src/main.rs:72 | `el.path()`: the directory's path with the entry's name pushed on, a separator added unless the path is empty or ends in one (stated by `JoinExtends` and `JoinKeepsUtf8`) |
| Scanner.DirPrefix | src/main.rs:72 | what every path beneath a directory starts with: the directory's path, ending in a separator unless empty, with one separator added exactly when the path did not already end in one |
| Scanner.JoinKeepsUtf8 | src/main.rs:72 | a child of a UTF-8 directory path with a UTF-8 name has a UTF-8 path, so `sum_file` never refuses it for its path |
| Scanner.Walk | src/main.rs:36-83 | what `descend` sends for one path and whether it fails: prune, metadata call, symlink skip under `--no-follow`, directory entered only with `-r`, one task otherwise (stated by `WalkOfEntry`, `WalkTasksKept`, `ErrorFreeWalkSucceeds`, and `Descend`'s contract) |
| Scanner.WalkEntries | src/main.rs:60-74 | the `read_dir` loop from one entry on: children in order, stopping at the first error (stated by `WalkEntriesAppend` and `DescendEntries`'s contract) |
| Scanner.WalkRoots | src/main.rs:148-151 | the scan thread's loop over the roots, stopping at the first `Err` (stated by `WalkRootsTasksKept` and `DescendRoots`'s contract) |
| Scanner.Stat | src/main.rs:42-50 | `symlink_metadata` reports the node itself and fails only on an unreadable node; `metadata` never reports a symlink; a successful call reports no error node |
| Scanner.Sender.constructor | src/main.rs:126 | a new channel has had nothing sent on it |
| Scanner.Sender.Send | src/main.rs:81 | sending appends exactly the one task to the channel's history |
| Scanner.Descend | src/main.rs:36-83 | `descend` sends exactly the tasks of `Walk`, in order, and returns `Ok` exactly when `Walk` does not fail |
| Scanner.DescendEntries | src/main.rs:60-74 | the loop over `read_dir` sends exactly the tasks of the entries' walks in order and returns `Err` at the first failing entry or child |
| Scanner.DescendRoots | src/main.rs:148-151 | the scan thread sends exactly the tasks of the roots' walks in order, stopping at the first root that fails |
| Scanner.JoinExtends | src/main.rs:72 | a child's path `el.path()` is its directory's `DirPrefix` followed by the entry's name, so exactly one separator stands between them |
| Scanner.PrunedSendsNothing | src/main.rs:37-41 | a pruned path sends nothing and does not fail, whatever lies at or beneath it |
| Scanner.WalkOfEntry | src/main.rs:42-82 | for a kept path: an unreadable node fails; a file sends one task with its metadata length; under `--no-follow` a symlink sends nothing; a directory sends nothing without `-r`, fails when its listing fails, and is its entries' walk otherwise |
| Scanner.SymlinkQueuedAsItself | src/main.rs:42-50 | as written, without `--no-follow` a symlink is sent as one task carrying the link's own length, and is never entered |
| Scanner.FollowedSymlinkScansTarget | src/main.rs:30-31 | with `fs::metadata`, a symlink is scanned exactly as what it points at, under the link's path |
| Scanner.SymlinkToDirectoryExample | src/main.rs:42-50 | a link `l` to a directory holding a 2-byte file `f`, scanned with `-r`: as written `l` is sent with length 8; followed, `l/f` is sent with length 2 |
| Scanner.WalkTasksKept | src/main.rs:36-83 | every task sent is for a path the filter keeps that is the walked path itself or starts with its `DirPrefix`; a sibling such as `ab` of `a` is never reached |
| Scanner.WalkEntriesTasksKept | src/main.rs:60-73 | every task sent for a directory's entries is kept by the filter and starts with the directory's `DirPrefix` |
| Scanner.WalkEntriesAppend | src/main.rs:60-73 | fail-fast: once earlier entries fail, later entries are never visited; otherwise their tasks follow in order |
| Scanner.WalkEntriesShift | src/main.rs:60-73 | entries after a prefix are walked as if they stood alone |
| Scanner.ErrorFreeWalkSucceeds | src/main.rs:51-72 | errors come only from the filesystem: a tree without failing metadata calls, listings or entries is walked without failure |
| Scanner.StatOfErrorFree | src/main.rs:42-50 | a metadata call on an error-free node succeeds and reports an error-free node |
| Scanner.ErrorFreeEntriesSucceed | src/main.rs:60-73 | the entries of an error-free listing are walked without failure |
| Scanner.WalkRootsTasksKept | src/main.rs:148-151 | every task of the scan thread is kept by the filter and is one of the roots or starts with a root's `DirPrefix` |
| Utf8.IsUtf8 | src/main.rs:86 | `path.to_str()` succeeds: the path's bytes are well-formed UTF-8 per Unicode table 3-7 (stated by `AsciiIsUtf8`, `Utf8Concat` and `Utf8ExcludesBytes`) |
| Utf8.SequenceLength | src/main.rs:86 | the length of a well-formed UTF-8 sequence is at most 4 and within the input, and is 1 exactly for an ASCII lead byte |
| Utf8.AsciiIsUtf8 | src/main.rs:86-91 | every ASCII path has a `&str` view |
| Utf8.Utf8Concat | src/main.rs:86-91 | valid UTF-8 is closed under concatenation |
| Utf8.Utf8ConcatStep | src/main.rs:86-91 | a well-formed first sequence followed by valid UTF-8 is valid UTF-8 |
| Utf8.Utf8ExcludesBytes | src/main.rs:86-91 | the bytes C0, C1 and F5 to FF never occur in a path that `to_str` accepts |
| Hasher.ReadLoop | src/main.rs:96-102 | the read loop from one call on: stops past the declared size, at end of file or at a read error, and never unfeeds the hasher (meaning in `ReadLoopMeaning`, `ReadLoopBound`) |
| Hasher.SumFile | src/main.rs:85-110 | `sum_file`'s result: a non-UTF-8 path is refused first, an open failure next, and a success carries the path and declared size it was given (meaning in `SumFileMeaning`) |
| Hasher.ForeignByteRefused | src/main.rs:86-91 | a path holding C0, C1 or F5 to FF is refused with `InvalidUnicode` |
| Hasher.SumFileLoop | src/main.rs:85-110 | the read loop of `sum_file` returns exactly `SumFile`: `InvalidUnicode` before opening, open and read errors, `SizeMismatch` unless exactly `meta_size` bytes were read, else the digest of the bytes read |
| Hasher.ReadLoopMeaning | src/main.rs:96-105 | the loop accepts exactly when the file, read to its end without error, holds `meta_size` bytes, and the bytes it hashed are then the whole file |
| Hasher.SumFileMeaning | src/main.rs:85-110 | `sum_file` succeeds exactly when the path is UTF-8, the file opens, and reading it to its end yields `meta_size` bytes without error; the record is then the path, the digest of the whole content, and the size |
| Hasher.ReadLoopBound | src/main.rs:93-102 | with a 32768-byte buffer, the loop hashes at most one buffer beyond the declared size, however the file has grown |
| Bytes.ToBigEndian | src/main.rs:185 | `to_be_bytes` gives exactly `width` bytes |
| Bytes.Be64 | src/main.rs:185 | `u64::to_be_bytes` gives 8 bytes |
| Bytes.Be32 | src/main.rs:196 | `u32::to_be_bytes` gives 4 bytes |
| Bytes.TruncateToU32 | src/main.rs:196 | `as u32` gives a value below 2^32 and leaves one that fits unchanged |
| Bytes.Pow256 | src/main.rs:185 | helper for the big-endian lemmas: the number of values a byte width holds, at least 1 |
| Bytes.FromBigEndianBound | src/main.rs:185 | `n` big-endian bytes denote a number below 256^n |
| Bytes.BigEndianRoundTrip | src/main.rs:185 | decoding the big-endian bytes of a number that fits the width gives back the number |
| Bytes.BigEndianOfDecoded | src/main.rs:185 | every byte string is the big-endian encoding of the number it denotes |
| Bytes.BigEndianDigit | src/main.rs:185 | byte `i` of the encoding is base-256 digit `width - 1 - i` of the number: most significant first |
| Catalog.LexLe | src/main.rs:177 | `a.0.cmp(&b.0)` on the paths (meaning in `LexLeMeaning`) |
| Catalog.LexLeMeaning | src/main.rs:176-178 | `a.0.cmp(&b.0)` puts `a` first exactly when `a` is a prefix of `b` or the first differing byte is smaller in `a` |
| Catalog.LexLeSound | src/main.rs:176-178 | the order only puts `a` first when `a` is a prefix or has the smaller first differing byte |
| Catalog.PrefixLexLe | src/main.rs:176-178 | a prefix comes first |
| Catalog.DiffersLexLe | src/main.rs:176-178 | the string with the smaller first differing byte comes first |
| Catalog.LexLeTotal | src/main.rs:176-178 | any two paths are comparable |
| Catalog.LexLeAntisymmetric | src/main.rs:176-178 | paths that each come first are equal |
| Catalog.LexLeTransitive | src/main.rs:176-178 | the order is transitive |
| Catalog.SortByPath | src/main.rs:176-178 | after the in-place sort every pair of records is in path order and the records are a permutation of the input |
| Catalog.Insert | src/main.rs:176-178 | inserting the next record keeps the sorted prefix sorted, one longer, and a permutation of the input |
| Catalog.SwapStep | src/main.rs:176-178 | swapping the inserted record with a greater predecessor keeps the insertion invariant and the multiset |
| Catalog.InsertDone | src/main.rs:176-178 | once the inserted record is not below its predecessor, the prefix is sorted |
| Catalog.EncodeRecord | src/main.rs:182-188 | a record serializes to exactly its path length plus 43 bytes |
| Catalog.Payload | src/main.rs:182-188 | the records' encodings concatenated in order (inverted by `DecodePayload` in `PayloadRoundTrip`) |
| Catalog.Capacity | src/main.rs:179-181 | the capacity fold is at least 43 bytes per record beyond its start (equal to the payload length by `CapacityIsPayloadLength`) |
| Catalog.PayloadAppend | src/main.rs:182-188 | appending a record appends its encoding to the payload |
| Catalog.CapacityIsPayloadLength | src/main.rs:179-181 | the capacity fold `a + 43 + x.0.len()` equals the payload's length |
| Catalog.Serialize | src/main.rs:182-188 | the output loop produces exactly the payload of the records in order |
| Catalog.Header | src/main.rs:194-196 | the header is 41 bytes: the magic, then the payload's SHA-256 (its length field in `HeaderLayout`) |
| Catalog.CatalogOutput | src/main.rs:189-199 | a catalog is written exactly when the payload has at most `u32::MAX` bytes, and then begins with the header |
| Catalog.HeaderLayout | src/main.rs:194-196 | when the payload fits, the header is 41 bytes: the magic, the payload's digest, and a length field that decodes back to the payload's length |
| Catalog.CatalogOutputLayout | src/main.rs:189-199 | a catalog is written exactly when the payload has at most `u32::MAX` bytes; it is then the header followed by the compressed payload |
| Catalog.WriteCatalog | src/main.rs:176-199 | the output stage sorts the records in place into a permutation and writes exactly the catalog of their payload, or nothing when it is too large |
| Catalog.FindNewline | src/main.rs:183-184 | finds the first newline at or after a position, or the end |
| Catalog.RecordLayout | src/main.rs:182-188 | a record followed by more bytes decodes as that record and then those bytes when its path holds no newline |
| Catalog.PayloadRoundTrip | src/main.rs:182-188 | decoding the payload gives back the records when no path holds a newline |
| Catalog.CatalogRoundTrip | src/main.rs:189-199 | when no path holds a newline, reading a written catalog back, with a decompressor that inverts the compressor, gives back the records |
| Catalog.NewlineInPathIsAmbiguous | src/main.rs:183-184 | a path holding a newline can encode exactly as two records, so the payload does not determine the records |
| Catalog.SortedArrangementUnique | src/main.rs:176-178 | two sorted arrangements of the same records are equal when equal paths have equal records, so the catalog does not depend on the order results arrive in |
| Catalog.SameFirst | src/main.rs:176-178 | two such arrangements start with the same record |
| Catalog.Tails | src/main.rs:176-178 | their tails are again sorted arrangements of the same records |
| Catalog.TailMultiset | src/main.rs:176-178 | dropping the first record removes it from the multiset |
| Catalog.TailSorted | src/main.rs:176-178 | the tail of a sorted sequence is sorted |
| Catalog.TailDetermines | src/main.rs:176-178 | the tail keeps "equal paths have equal records" |
| Pipeline.Run | src/main.rs:124-199 | for either metadata call (`SymlinkMetadata` is `main` as written): a bad glob or a failed scan ends in failure with nothing written; otherwise the collected records are sorted, are a permutation of the summers' records, and the output is their catalog, or failure when too large |
| Pipeline.HashFrom | src/main.rs:112-122 | what the summers send: at most one record per task (exactly the successful ones by `HashFromMeaning`) |
| Pipeline.Summers | src/main.rs:112-122 | running `sum_file` on every task keeps exactly the records of the tasks that hash successfully, in task order |
| Pipeline.Collect | src/main.rs:161-199 | the collected results are sorted into a permutation and written as the catalog of their payload |
| Pipeline.HashFromMeaning | src/main.rs:112-122 | every record sent comes from a task's successful `sum_file`, and every such result is sent |
| Pipeline.CatalogedFilesKept | src/main.rs:36-122 | for either metadata call, every cataloged file is kept by the filter, is a root or starts with a root's `DirPrefix`, has a UTF-8 path, and its digest is that of its whole content, which has exactly the recorded size |
| Pipeline.SymlinkedFileDroppedAsWritten | src/main.rs:42-50 | a link with own length 8 to a 2-byte file: as written it reaches `sum_file` with size 8 and is left out of the catalog; followed, it is cataloged with size 2 |

## Left out

- Threads and the bounded `crossbeam` channels (src/main.rs:126-175) run as one sequential composition: scan, then hash each task, then collect. Results arrive in the order of the tasks that produced them. `Catalog.SortedArrangementUnique` shows the catalog does not depend on that order when equal paths have equal records.
- The worker count (`num_cpus`), thread names, `join` results and exit-code plumbing are not modelled. The summers always return `Ok`, so only a panic could fail a join.
- Failed channel sends (src/main.rs:81, 107-109) are not modelled: every receiver outlives its senders in `main`.
- Command-line parsing with `clap` is not modelled. Glob compilation with `wax::Glob::new` (src/main.rs:130-147) is reduced to `Pipeline.Run`'s `filter` being `None` when a glob is invalid. Glob matching is an uninterpreted predicate.
- The real filesystem (`symlink_metadata`, `metadata`, `read_dir`, `File::open`, `read`) is an abstract finite tree plus, per path, a sequence of read results. A symlink cycle cannot be written as a finite tree. The program as written never follows a link; the corrected scan (`Metadata`) would follow one, and would go round a cycle through a directory until the OS refuses the ever longer path (`ELOOP` once it holds more than 40 links), which fails the whole scan at src/main.rs:51-56. A finite tree cannot express this.
- SHA-256 (`lsx::sha256`) and zlib (`flate2`) are opaque functions. Their internals and the incremental `BufSha256` state are not modelled; the hasher's state is the sequence of bytes fed to it.
- `eprintln!` diagnostics, stdout locking, and the `unwrap` panics on a failed write are I/O and are not modelled.
- Hasher.SumFileLoop: `read_size` is an unbounded `nat`, not a wrapping `u64`. A file would need more than 2^64 bytes to overflow it.
- Catalog.Capacity: the `usize` fold is unbounded. Overflowing it would need far more than the 4 GiB the output stage allows.
- Catalog.SortByPath: the insertion sort keeps equal paths in order, as the stable `sort_by` does. Its contract states only sortedness and permutation, not stability.
- Duplicate paths are kept, as in the code. They arise when roots overlap or repeat.
- `Path::to_str` is modelled by its Unix meaning: the path's bytes are valid UTF-8.

## Findings

| source | as written | input that shows it | evidently intended | confidence | as-written member | corrected member |
|---|---|---|---|---|---|---|
| src/main.rs:42-50 | without `--no-follow`, the `else` branch also calls `fs::symlink_metadata`, so a symlink is queued with the link's own length and never descended. A link to a file then fails `sum_file`'s size check and drops out of the catalog (`Pipeline.SymlinkedFileDroppedAsWritten`), unless the file's size equals the link's own length, the length of its target path; it is then cataloged under the link's path | `-r l`, where `l` is a symlink (own length 8) to a directory holding the 2-byte file `f`: `(l, 8)` is sent instead of `(l/f, 2)` | `fs::metadata`, so that a symlink is processed or descended through, as the `--no-follow` documentation (src/main.rs:30-31) says | high, not executed | Scanner.SymlinkToDirectoryExample | Scanner.FollowedSymlinkScansTarget |
