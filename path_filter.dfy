/** The exclude/include decision made at the top of `descend`
    (src/main.rs:37-41). Glob compilation and matching belong to the `wax`
    crate; a compiled glob is modelled by its `is_match` predicate. */
module PathFilter {
  import opened Bytes

  /** A filesystem path as the bytes of its `OsStr`. */
  type Path = seq<Byte>

  /** A compiled glob, given by the paths it matches. */
  type Glob = Path -> bool

  /** The compiled `--include` and `--exclude` globs. */
  datatype Filter = Filter(includes: seq<Glob>, excludes: seq<Glob>)

  /** `globs.iter().any(|x| x.is_match(path))`, glob by glob in order. */
  function AnyMatch(globs: seq<Glob>, path: Path): bool
  {
    globs != [] && (globs[0](path) || AnyMatch(globs[1..], path))
  }

  /** `AnyMatch` holds exactly when some glob of the list matches. */
  lemma {:induction false} AnyMatchIff(globs: seq<Glob>, path: Path)
    ensures AnyMatch(globs, path) <==> exists i :: 0 <= i < |globs| && globs[i](path)
  {
    if globs != [] {
      AnyMatchIff(globs[1..], path);
      assert forall i :: 1 <= i < |globs| ==> globs[i] == globs[1..][i - 1];
    }
  }

  /** `descend` returns `Ok(())` at once for a pruned path: some exclude glob
      matches it and no include glob rescues it. */
  predicate Pruned(f: Filter, path: Path) {
    AnyMatch(f.excludes, path) && !AnyMatch(f.includes, path)
  }

  /** A path is pruned exactly when an exclude glob matches and no include
      glob does; with no exclude match it is kept whatever the includes say. */
  lemma PrunedIff(f: Filter, path: Path)
    ensures Pruned(f, path) <==>
              (exists i :: 0 <= i < |f.excludes| && f.excludes[i](path)) &&
              !(exists j :: 0 <= j < |f.includes| && f.includes[j](path))
    ensures (forall i :: 0 <= i < |f.excludes| ==> !f.excludes[i](path)) ==> !Pruned(f, path)
  {
    AnyMatchIff(f.excludes, path);
    AnyMatchIff(f.includes, path);
  }
}
