/** The scan thread: `descend` (src/main.rs:36-83) and the loop over the
    command-line roots (src/main.rs:148-151). The filesystem is an abstract
    tree; `read_dir` yields a directory's entries in the order given; the
    channel `scan_tx` is a `Sender` object whose `sent` field is everything
    sent on it so far. */
module Scanner {
  import opened Bytes
  import opened Wrappers
  import opened PathFilter
  import opened Utf8

  /** `--recursive` and `--no-follow`. */
  datatype Options = Options(recursive: bool, noFollow: bool)

  /** What the filesystem holds at a path. */
  datatype Node =
      /** Anything that is neither a directory nor a symlink; `len` is `metadata.len()`. */
    | File(len: U64)
    | Dir(listing: Listing)
      /** `len` is the length the link's own metadata reports; `target` is what
          it points at (`Unreadable` when it dangles). */
    | Symlink(len: U64, target: Node)
      /** The metadata call for this path fails. */
    | Unreadable

  /** The outcome of `fs::read_dir`. */
  datatype Listing = ListFailed | Listed(entries: seq<DirEntry>)

  /** One item of the `read_dir` iterator: an error or a named entry. */
  datatype DirEntry = EntryFailed | Entry(name: Path, node: Node)

  /** A root named on the command line and what the filesystem holds there. */
  datatype Root = Root(path: Path, node: Node)

  /** The `(PathBuf, u64)` pair sent on `scan_tx`. */
  datatype Task = Task(path: Path, size: U64)

  /** Which std call reads a path's metadata: `fs::symlink_metadata` reports
      a symlink itself, `fs::metadata` what the chain of links resolves to. */
  datatype StatCall = SymlinkMetadata | Metadata

  /** The tasks a walk sends, and whether it ended in `Err(())`. */
  datatype Scan = Scan(tasks: seq<Task>, failed: bool)

  const SEPARATOR: Byte := 0x2F

  /** `el.path()`: the directory's path with the entry's name pushed on
      (`PathBuf::push` adds a separator unless the path is empty or already
      ends in one). */
  function Join(parent: Path, name: Path): Path
  {
    if parent == [] || parent[|parent| - 1] == SEPARATOR then parent + name
    else parent + [SEPARATOR] + name
  }

  /** What every path strictly beneath the directory `dir` starts with: `dir`
      itself when it is empty or ends in a separator, else `dir` and one
      separator. A sibling such as `ab` of `a` does not start with it. */
  function DirPrefix(dir: Path): (p: Path)
    ensures dir <= p
    ensures p == [] || p[|p| - 1] == SEPARATOR
    ensures |p| <= |dir| + 1
    ensures |p| == |dir| <==> dir == [] || dir[|dir| - 1] == SEPARATOR
  {
    if dir == [] || dir[|dir| - 1] == SEPARATOR then dir else dir + [SEPARATOR]
  }

  /** The metadata a call reports for `node`; `None` when the call fails. */
  function Stat(node: Node, call: StatCall): (r: Option<Node>)
    ensures r.Some? ==> (node decreases to r.value) || r.value == node
    ensures r.Some? ==> !r.value.Unreadable?
    ensures r.Some? && call == Metadata ==> !r.value.Symlink?
    ensures call == SymlinkMetadata ==> r == if node.Unreadable? then None else Some(node)
  {
    match node
    case Unreadable => None
    case Symlink(_, target) => if call == Metadata then Stat(target, call) else Some(node)
    case _ => Some(node)
  }

  /** What `descend` sends for `path` holding `node`, and whether it fails.
      `call` is the metadata call made when `--no-follow` is off. */
  function Walk(opts: Options, f: Filter, call: StatCall, path: Path, node: Node): Scan
    decreases node
  {
    if Pruned(f, path) then Scan([], false)
    else
      var res := Stat(node, if opts.noFollow then SymlinkMetadata else call);
      if res.None? then Scan([], true)
      else
        var meta := res.value;
        if opts.noFollow && meta.Symlink? then Scan([], false)
        else if meta.Dir? then
          if !opts.recursive then Scan([], false)
          else if meta.listing.ListFailed? then Scan([], true)
          else WalkEntries(opts, f, call, path, meta.listing.entries, 0)
        else Scan([Task(path, meta.len)], false)
  }

  /** The `for` loop over a directory's entries, from entry `i` on: each
      child in order, stopping at the first error. */
  function WalkEntries(opts: Options, f: Filter, call: StatCall, parent: Path, entries: seq<DirEntry>, i: nat): Scan
    requires i <= |entries|
    decreases entries, |entries| - i
  {
    if i == |entries| then Scan([], false)
    else match entries[i]
      case EntryFailed => Scan([], true)
      case Entry(name, child) =>
        var first := Walk(opts, f, call, Join(parent, name), child);
        if first.failed then first
        else
          var rest := WalkEntries(opts, f, call, parent, entries, i + 1);
          Scan(first.tasks + rest.tasks, rest.failed)
  }

  /** The scan thread's loop over the roots from root `i` on, stopping at the
      first `Err`. */
  function WalkRoots(opts: Options, f: Filter, call: StatCall, roots: seq<Root>, i: nat): Scan
    requires i <= |roots|
    decreases |roots| - i
  {
    if i == |roots| then Scan([], false)
    else
      var first := Walk(opts, f, call, roots[i].path, roots[i].node);
      if first.failed then first
      else
        var rest := WalkRoots(opts, f, call, roots, i + 1);
        Scan(first.tasks + rest.tasks, rest.failed)
  }

  /** The sending end of the bounded channel, as the sequence of tasks sent. */
  class Sender {
    var sent: seq<Task>

    constructor ()
      ensures sent == []
    {
      sent := [];
    }

    method Send(t: Task)
      modifies this
      ensures sent == old(sent) + [t]
    {
      sent := sent + [t];
    }
  }

  /** `descend`: sends exactly the tasks of `Walk` and returns `Ok` (true)
      exactly when `Walk` does not fail. */
  method Descend(tx: Sender, opts: Options, f: Filter, call: StatCall, path: Path, node: Node) returns (ok: bool)
    modifies tx
    decreases node
    ensures tx.sent == old(tx.sent) + Walk(opts, f, call, path, node).tasks
    ensures ok == !Walk(opts, f, call, path, node).failed
  {
    if AnyMatch(f.excludes, path) {
      if !AnyMatch(f.includes, path) {
        return true;
      }
    }
    var res: Option<Node>;
    if opts.noFollow {
      res := Stat(node, SymlinkMetadata);
      if res.Some? && res.value.Symlink? {
        return true;
      }
    } else {
      res := Stat(node, call);
    }
    if res.None? {
      return false;
    }
    var metadata := res.value;
    if metadata.Dir? {
      if opts.recursive {
        if metadata.listing.ListFailed? {
          return false;
        }
        ok := DescendEntries(tx, opts, f, call, path, metadata.listing.entries);
        return ok;
      }
      return true;
    } else {
      tx.Send(Task(path, metadata.len));
      return true;
    }
  }

  /** The `for el in read_dir(path)` loop of `descend`: each entry in turn,
      returning `Err` at the first failing entry or child. */
  method DescendEntries(tx: Sender, opts: Options, f: Filter, call: StatCall, path: Path, entries: seq<DirEntry>)
    returns (ok: bool)
    modifies tx
    decreases entries
    ensures tx.sent == old(tx.sent) + WalkEntries(opts, f, call, path, entries, 0).tasks
    ensures ok == !WalkEntries(opts, f, call, path, entries, 0).failed
  {
    var i := 0;
    while i < |entries|
      invariant 0 <= i <= |entries|
      invariant tx.sent + WalkEntries(opts, f, call, path, entries, i).tasks
                == old(tx.sent) + WalkEntries(opts, f, call, path, entries, 0).tasks
      invariant WalkEntries(opts, f, call, path, entries, i).failed
                == WalkEntries(opts, f, call, path, entries, 0).failed
    {
      var el := entries[i];
      if el.EntryFailed? {
        return false;
      }
      ghost var before := tx.sent;
      ghost var first := Walk(opts, f, call, Join(path, el.name), el.node);
      ghost var rest := WalkEntries(opts, f, call, path, entries, i + 1);
      var childOk := Descend(tx, opts, f, call, Join(path, el.name), el.node);
      if !childOk {
        return false;
      }
      AppendAssociates(before, first.tasks, rest.tasks);
      i := i + 1;
    }
    return true;
  }

  /** The scan thread's `for path in invocation.files` loop. */
  method DescendRoots(tx: Sender, opts: Options, f: Filter, call: StatCall, roots: seq<Root>) returns (ok: bool)
    modifies tx
    ensures tx.sent == old(tx.sent) + WalkRoots(opts, f, call, roots, 0).tasks
    ensures ok == !WalkRoots(opts, f, call, roots, 0).failed
  {
    var i := 0;
    while i < |roots|
      invariant 0 <= i <= |roots|
      invariant tx.sent + WalkRoots(opts, f, call, roots, i).tasks
                == old(tx.sent) + WalkRoots(opts, f, call, roots, 0).tasks
      invariant WalkRoots(opts, f, call, roots, i).failed == WalkRoots(opts, f, call, roots, 0).failed
    {
      ghost var before := tx.sent;
      ghost var first := Walk(opts, f, call, roots[i].path, roots[i].node);
      ghost var rest := WalkRoots(opts, f, call, roots, i + 1);
      var rootOk := Descend(tx, opts, f, call, roots[i].path, roots[i].node);
      if !rootOk {
        return false;
      }
      AppendAssociates(before, first.tasks, rest.tasks);
      i := i + 1;
    }
    return true;
  }

  /** A child's path is its directory's prefix followed by the entry's name:
      exactly one separator stands between them. */
  lemma JoinExtends(parent: Path, name: Path)
    ensures Join(parent, name) == DirPrefix(parent) + name
    ensures DirPrefix(parent) <= Join(parent, name)
  {
  }

  /** A child of a directory whose path is valid UTF-8, with a valid UTF-8
      name, has a valid UTF-8 path: `sum_file` never refuses it for its path. */
  lemma JoinKeepsUtf8(parent: Path, name: Path)
    requires IsUtf8(parent) && IsUtf8(name)
    ensures IsUtf8(Join(parent, name))
  {
    if parent == [] || parent[|parent| - 1] == SEPARATOR {
      Utf8Concat(parent, name);
    } else {
      AsciiIsUtf8([SEPARATOR]);
      Utf8Concat(parent, [SEPARATOR]);
      Utf8Concat(parent + [SEPARATOR], name);
    }
  }

  lemma PrefixTransitive(a: Path, b: Path, c: Path)
    requires a <= b && b <= c
    ensures a <= c
  {
  }

  /** A pruned path is dropped before any metadata is read: nothing is sent
      and nothing fails, whatever lies at or beneath it. */
  lemma PrunedSendsNothing(opts: Options, f: Filter, call: StatCall, path: Path, node: Node)
    requires Pruned(f, path)
    ensures Walk(opts, f, call, path, node) == Scan([], false)
  {
  }

  /** What `descend` does with a path that is not pruned, entry kind by entry
      kind: under `--no-follow` a symlink is skipped; a directory sends nothing
      itself and is entered only with `--recursive`; any other entry sends one
      task carrying its metadata length; a metadata or listing error fails. */
  lemma WalkOfEntry(opts: Options, f: Filter, call: StatCall, path: Path, node: Node)
    requires !Pruned(f, path)
    ensures node.Unreadable? ==> Walk(opts, f, call, path, node) == Scan([], true)
    ensures node.File? ==> Walk(opts, f, call, path, node) == Scan([Task(path, node.len)], false)
    ensures node.Symlink? && opts.noFollow ==> Walk(opts, f, call, path, node) == Scan([], false)
    ensures node.Dir? && !opts.recursive ==> Walk(opts, f, call, path, node) == Scan([], false)
    ensures node.Dir? && opts.recursive && node.listing.ListFailed? ==>
              Walk(opts, f, call, path, node) == Scan([], true)
    ensures node.Dir? && opts.recursive && node.listing.Listed? ==>
              Walk(opts, f, call, path, node) == WalkEntries(opts, f, call, path, node.listing.entries, 0)
  {
  }

  /** As written, without `--no-follow` a symlink's own metadata is read: the
      link is sent as a task with the link's length and never entered. */
  lemma SymlinkQueuedAsItself(opts: Options, f: Filter, path: Path, node: Node)
    requires !Pruned(f, path) && !opts.noFollow && node.Symlink?
    ensures Walk(opts, f, SymlinkMetadata, path, node) == Scan([Task(path, node.len)], false)
  {
  }

  /** With `fs::metadata` when `--no-follow` is off, a symlink is scanned
      exactly as what it points at, under the link's own path. */
  lemma FollowedSymlinkScansTarget(opts: Options, f: Filter, path: Path, node: Node)
    requires !opts.noFollow && node.Symlink?
    ensures Walk(opts, f, Metadata, path, node) == Walk(opts, f, Metadata, path, node.target)
  {
  }

  /** A link `l` (8 bytes of metadata) to a directory holding a 2-byte file
      `f`, scanned with `-r`: as written the link itself is queued with length
      8; following it queues `l/f` with length 2. */
  lemma SymlinkToDirectoryExample()
    ensures var link := Symlink(8, Dir(Listed([Entry([0x66], File(2))])));
            var opts := Options(true, false);
            Walk(opts, Filter([], []), SymlinkMetadata, [0x6C], link) == Scan([Task([0x6C], 8)], false) &&
            Walk(opts, Filter([], []), Metadata, [0x6C], link) == Scan([Task([0x6C, 0x2F, 0x66], 2)], false)
  {
    var opts, noGlobs := Options(true, false), Filter([], []);
    var entries := [Entry([0x66], File(2))];
    assert Join([0x6C], [0x66]) == [0x6C, 0x2F, 0x66];
    assert Walk(opts, noGlobs, Metadata, [0x6C, 0x2F, 0x66], File(2)) == Scan([Task([0x6C, 0x2F, 0x66], 2)], false);
    assert WalkEntries(opts, noGlobs, Metadata, [0x6C], entries, 1) == Scan([], false);
    assert WalkEntries(opts, noGlobs, Metadata, [0x6C], entries, 0) == Scan([Task([0x6C, 0x2F, 0x66], 2)], false);
    assert Stat(Symlink(8, Dir(Listed(entries))), Metadata) == Some(Dir(Listed(entries)));
  }

  /** Every task sent is for a path the filter keeps that is the walked path
      itself or lies beneath it. */
  lemma {:induction false} WalkTasksKept(opts: Options, f: Filter, call: StatCall, path: Path, node: Node)
    decreases node
    ensures forall t :: t in Walk(opts, f, call, path, node).tasks ==> !Pruned(f, t.path) && (t.path == path || DirPrefix(path) <= t.path)
  {
    if !Pruned(f, path) {
      var res := Stat(node, if opts.noFollow then SymlinkMetadata else call);
      if res.Some? && res.value.Dir? && opts.recursive && res.value.listing.Listed? {
        WalkEntriesTasksKept(opts, f, call, path, res.value.listing.entries, 0);
      }
    }
  }

  lemma {:induction false} WalkEntriesTasksKept(opts: Options, f: Filter, call: StatCall, parent: Path, entries: seq<DirEntry>, i: nat)
    requires i <= |entries|
    decreases entries, |entries| - i
    ensures forall t :: t in WalkEntries(opts, f, call, parent, entries, i).tasks ==> !Pruned(f, t.path) && DirPrefix(parent) <= t.path
  {
    if i < |entries| && entries[i].Entry? {
      var child := Join(parent, entries[i].name);
      WalkTasksKept(opts, f, call, child, entries[i].node);
      WalkEntriesTasksKept(opts, f, call, parent, entries, i + 1);
      JoinExtends(parent, entries[i].name);
      forall t | t in Walk(opts, f, call, child, entries[i].node).tasks
        ensures DirPrefix(parent) <= t.path
      {
        if t.path != child {
          PrefixTransitive(child, DirPrefix(child), t.path);
        }
        PrefixTransitive(DirPrefix(parent), child, t.path);
      }
    }
  }

  /** Fail-fast: once the entries `a` (from `i` on) fail, the entries `b`
      after them are never visited; otherwise the tasks of `b` follow those of
      `a`. */
  lemma {:induction false} WalkEntriesAppend(opts: Options, f: Filter, call: StatCall, parent: Path, a: seq<DirEntry>, b: seq<DirEntry>, i: nat)
    requires i <= |a|
    decreases |a| - i
    ensures var wa := WalkEntries(opts, f, call, parent, a, i);
            var wb := WalkEntries(opts, f, call, parent, b, 0);
            WalkEntries(opts, f, call, parent, a + b, i)
              == if wa.failed then wa else Scan(wa.tasks + wb.tasks, wb.failed)
  {
    if i == |a| {
      WalkEntriesShift(opts, f, call, parent, a, b, 0);
    } else {
      assert (a + b)[i] == a[i];
      if a[i].Entry? {
        var first := Walk(opts, f, call, Join(parent, a[i].name), a[i].node);
        if !first.failed {
          WalkEntriesAppend(opts, f, call, parent, a, b, i + 1);
          var restA := WalkEntries(opts, f, call, parent, a, i + 1);
          var wb := WalkEntries(opts, f, call, parent, b, 0);
          AppendAssociates(first.tasks, restA.tasks, wb.tasks);
        }
      }
    }
  }

  /** Entries after a prefix `a` are walked as if they stood alone. */
  lemma {:induction false} WalkEntriesShift(opts: Options, f: Filter, call: StatCall, parent: Path, a: seq<DirEntry>, b: seq<DirEntry>, j: nat)
    requires j <= |b|
    decreases |b| - j
    ensures WalkEntries(opts, f, call, parent, a + b, |a| + j) == WalkEntries(opts, f, call, parent, b, j)
  {
    if j < |b| {
      assert (a + b)[|a| + j] == b[j];
      WalkEntriesShift(opts, f, call, parent, a, b, j + 1);
    }
  }

  /** The tree holds no failing metadata call, listing or entry. */
  predicate ErrorFree(node: Node)
    decreases node
  {
    match node
    case Unreadable => false
    case File(_) => true
    case Symlink(_, target) => ErrorFree(target)
    case Dir(listing) => listing.Listed? && EntriesErrorFree(listing.entries)
  }

  predicate EntriesErrorFree(entries: seq<DirEntry>)
    decreases entries
  {
    forall i :: 0 <= i < |entries| ==> entries[i].Entry? && ErrorFree(entries[i].node)
  }

  /** Errors come only from the filesystem: a walk over an error-free tree
      never fails. */
  lemma {:induction false} ErrorFreeWalkSucceeds(opts: Options, f: Filter, call: StatCall, path: Path, node: Node)
    requires ErrorFree(node)
    decreases node
    ensures !Walk(opts, f, call, path, node).failed
  {
    if !Pruned(f, path) {
      var c := if opts.noFollow then SymlinkMetadata else call;
      StatOfErrorFree(node, c);
      var res := Stat(node, c);
      if res.value.Dir? && opts.recursive {
        ErrorFreeEntriesSucceed(opts, f, call, path, res.value.listing.entries, 0);
      }
    }
  }

  lemma {:induction false} StatOfErrorFree(node: Node, call: StatCall)
    requires ErrorFree(node)
    ensures Stat(node, call).Some? && ErrorFree(Stat(node, call).value)
  {
    if node.Symlink? && call == Metadata {
      StatOfErrorFree(node.target, call);
    }
  }

  lemma {:induction false} ErrorFreeEntriesSucceed(opts: Options, f: Filter, call: StatCall, parent: Path, entries: seq<DirEntry>, i: nat)
    requires EntriesErrorFree(entries) && i <= |entries|
    decreases entries, |entries| - i
    ensures !WalkEntries(opts, f, call, parent, entries, i).failed
  {
    if i < |entries| {
      ErrorFreeWalkSucceeds(opts, f, call, Join(parent, entries[i].name), entries[i].node);
      ErrorFreeEntriesSucceed(opts, f, call, parent, entries, i + 1);
    }
  }

  /** Every task the scan thread sends is for a kept path that is one of the
      roots or lies beneath one. */
  lemma {:induction false} WalkRootsTasksKept(opts: Options, f: Filter, call: StatCall, roots: seq<Root>, i: nat)
    requires i <= |roots|
    decreases |roots| - i
    ensures forall t :: t in WalkRoots(opts, f, call, roots, i).tasks ==>
              !Pruned(f, t.path) &&
              exists k :: i <= k < |roots| && (t.path == roots[k].path || DirPrefix(roots[k].path) <= t.path)
  {
    if i < |roots| {
      WalkTasksKept(opts, f, call, roots[i].path, roots[i].node);
      WalkRootsTasksKept(opts, f, call, roots, i + 1);
    }
  }
}
