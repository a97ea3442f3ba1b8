/** The collector's output stage (src/main.rs:176-196): sort the results by
    path, serialize them, refuse a payload longer than `u32::MAX`, and write
    the header and the compressed payload. SHA-256 and zlib are black boxes. */
module Catalog {
  import opened Bytes
  import opened Wrappers
  import opened Records

  /** The bytes `\xFFTCat` that open every catalog. */
  const MAGIC: seq<Byte> := [0xFF, 0x54, 0x43, 0x61, 0x74]
  const NEWLINE: Byte := 0x0A
  /** The two bytes written after each record "for future expansion". */
  const RESERVED: seq<Byte> := [0, 0]
  /** What a record adds to its path: the newline, the digest, the size and the reserved bytes. */
  const RECORD_OVERHEAD: nat := 43
  /** The magic, the payload's digest and its length. */
  const HEADER_LENGTH: nat := 41

  /** zlib compression at the best level; its internals are not modelled. */
  type Compress = seq<Byte> -> seq<Byte>

  // ---------------------------------------------------------------- ordering

  /** `String::cmp` on the paths: bytewise lexicographic, a prefix first. */
  predicate LexLe(a: seq<Byte>, b: seq<Byte>)
    decreases |a|
  {
    a == [] || (b != [] && (a[0] < b[0] || (a[0] == b[0] && LexLe(a[1..], b[1..]))))
  }

  /** `a` and `b` agree before position `k`, where `a` has the smaller byte. */
  predicate DiffersFirstAt(a: seq<Byte>, b: seq<Byte>, k: nat) {
    k < |a| && k < |b| && a[..k] == b[..k] && a[k] < b[k]
  }

  /** `a` comes before or equals `b` exactly when `a` is a prefix of `b` or
      the first byte where they differ is smaller in `a`. */
  lemma LexLeMeaning(a: seq<Byte>, b: seq<Byte>)
    ensures LexLe(a, b) <==> a <= b || exists k :: DiffersFirstAt(a, b, k)
  {
    if LexLe(a, b) {
      LexLeSound(a, b);
    } else if a <= b {
      PrefixLexLe(a, b);
    } else if k: nat :| DiffersFirstAt(a, b, k) {
      DiffersLexLe(a, b, k);
    }
  }

  lemma {:induction false} LexLeSound(a: seq<Byte>, b: seq<Byte>)
    requires LexLe(a, b)
    decreases |a|
    ensures a <= b || exists k :: DiffersFirstAt(a, b, k)
  {
    if a != [] {
      if a[0] < b[0] {
        assert DiffersFirstAt(a, b, 0);
      } else {
        var a', b' := a[1..], b[1..];
        LexLeSound(a', b');
        assert a == [a[0]] + a' && b == [b[0]] + b';
        if k: nat :| DiffersFirstAt(a', b', k) {
          assert a[..k + 1] == [a[0]] + a'[..k] && b[..k + 1] == [b[0]] + b'[..k];
          assert DiffersFirstAt(a, b, k + 1);
        }
      }
    }
  }

  lemma {:induction false} PrefixLexLe(a: seq<Byte>, b: seq<Byte>)
    requires a <= b
    decreases |a|
    ensures LexLe(a, b)
  {
    if a != [] {
      assert a[1..] <= b[1..] by {
        assert a[1..] == b[..|a|][1..];
      }
      PrefixLexLe(a[1..], b[1..]);
    }
  }

  lemma {:induction false} DiffersLexLe(a: seq<Byte>, b: seq<Byte>, k: nat)
    requires DiffersFirstAt(a, b, k)
    decreases k
    ensures LexLe(a, b)
  {
    if k > 0 {
      assert a[0] == a[..k][0] && b[0] == b[..k][0];
      assert a[1..][..k - 1] == a[..k][1..] && b[1..][..k - 1] == b[..k][1..];
      DiffersLexLe(a[1..], b[1..], k - 1);
    }
  }

  lemma {:induction false} LexLeTotal(a: seq<Byte>, b: seq<Byte>)
    decreases |a|
    ensures LexLe(a, b) || LexLe(b, a)
  {
    if a != [] && b != [] && a[0] == b[0] {
      LexLeTotal(a[1..], b[1..]);
    }
  }

  lemma {:induction false} LexLeAntisymmetric(a: seq<Byte>, b: seq<Byte>)
    decreases |a|
    requires LexLe(a, b) && LexLe(b, a)
    ensures a == b
  {
    if a != [] {
      LexLeAntisymmetric(a[1..], b[1..]);
      assert a == [a[0]] + a[1..] && b == [b[0]] + b[1..];
    }
  }

  lemma {:induction false} LexLeTransitive(a: seq<Byte>, b: seq<Byte>, c: seq<Byte>)
    decreases |a|
    requires LexLe(a, b) && LexLe(b, c)
    ensures LexLe(a, c)
  {
    if a != [] && a[0] == b[0] && b[0] == c[0] {
      LexLeTransitive(a[1..], b[1..], c[1..]);
    }
  }

  /** The records are in `results.sort_by(|a, b| a.0.cmp(&b.0))` order. */
  predicate SortedByPath(rs: seq<FileRecord>) {
    forall i, j :: 0 <= i < j < |rs| ==> LexLe(rs[i].path, rs[j].path)
  }

  /** Every pair of positions other than `skip` (from the first `n`) is in order. */
  predicate SortedExcept(rs: seq<FileRecord>, n: nat, skip: nat)
    requires n <= |rs|
  {
    forall i, j :: 0 <= i < j < n && i != skip && j != skip ==> LexLe(rs[i].path, rs[j].path)
  }

  /** Sorts the results by path in place, keeping them a permutation of what
      they were; equal paths keep their order, as `sort_by` does. */
  method SortByPath(a: array<FileRecord>)
    modifies a
    ensures SortedByPath(a[..])
    ensures multiset(a[..]) == multiset(old(a[..]))
  {
    var i := 0;
    while i < a.Length
      invariant 0 <= i <= a.Length
      invariant SortedExcept(a[..], i, a.Length)
      invariant multiset(a[..]) == multiset(old(a[..]))
    {
      Insert(a, i);
      i := i + 1;
    }
  }

  /** Moves `a[i]` left past every record with a greater path, so that the
      first `i + 1` records are sorted. */
  method Insert(a: array<FileRecord>, i: nat)
    requires i < a.Length && SortedExcept(a[..], i, a.Length)
    modifies a
    ensures SortedExcept(a[..], i + 1, a.Length)
    ensures multiset(a[..]) == multiset(old(a[..]))
  {
    var j := i;
    while j > 0 && !LexLe(a[j - 1].path, a[j].path)
      invariant 0 <= j <= i
      invariant Inserting(a[..], i + 1, j)
      invariant multiset(a[..]) == multiset(old(a[..]))
    {
      ghost var s := a[..];
      LexLeTotal(s[j - 1].path, s[j].path);
      SwapStep(s, i + 1, j);
      a[j - 1], a[j] := a[j], a[j - 1];
      assert a[..] == s[j - 1 := s[j]][j := s[j - 1]];
      j := j - 1;
    }
    InsertDone(a[..], i + 1, j);
  }

  /** Midway through inserting the record at `j` into the first `n`: all other
      pairs are in order, and the record at `j` precedes every record after it. */
  predicate Inserting(s: seq<FileRecord>, n: nat, j: nat)
    requires j < n <= |s|
  {
    SortedExcept(s, n, j) && forall l :: j < l < n ==> LexLe(s[j].path, s[l].path)
  }

  /** Swapping the inserted record with a larger predecessor keeps the
      insertion invariants, one position further left. */
  lemma SwapStep(s: seq<FileRecord>, n: nat, j: nat)
    requires 0 < j < n <= |s| && Inserting(s, n, j)
    requires LexLe(s[j].path, s[j - 1].path)
    ensures var t := s[j - 1 := s[j]][j := s[j - 1]];
            Inserting(t, n, j - 1) && multiset(t) == multiset(s)
  {
  }

  /** When the inserted record at `j` is not smaller than its predecessor,
      the first `n` records are sorted. */
  lemma InsertDone(s: seq<FileRecord>, n: nat, j: nat)
    requires j < n <= |s| && Inserting(s, n, j)
    requires j > 0 ==> LexLe(s[j - 1].path, s[j].path)
    ensures SortedExcept(s, n, |s|)
  {
    forall i | 0 <= i < j
      ensures LexLe(s[i].path, s[j].path)
    {
      if i < j - 1 {
        LexLeTransitive(s[i].path, s[j - 1].path, s[j].path);
      }
    }
  }

  // ----------------------------------------------------------- serializing

  /** One record: the path, a newline, the digest, the size as eight
      big-endian bytes, and two reserved zero bytes. */
  function EncodeRecord(r: FileRecord): (e: seq<Byte>)
    ensures |e| == |r.path| + RECORD_OVERHEAD
  {
    r.path + [NEWLINE] + r.digest + Be64(r.size) + RESERVED
  }

  /** The uncompressed catalog: the records' encodings in order. */
  function Payload(rs: seq<FileRecord>): seq<Byte>
  {
    if rs == [] then [] else EncodeRecord(rs[0]) + Payload(rs[1..])
  }

  lemma {:induction false} PayloadAppend(rs: seq<FileRecord>, r: FileRecord)
    ensures Payload(rs + [r]) == Payload(rs) + EncodeRecord(r)
  {
    if rs == [] {
      assert [] + [r] == [r];
      assert Payload([r]) == EncodeRecord(r) + Payload([]);
    } else {
      assert (rs + [r])[1..] == rs[1..] + [r];
      PayloadAppend(rs[1..], r);
      AppendAssociates(EncodeRecord(rs[0]), Payload(rs[1..]), EncodeRecord(r));
    }
  }

  /** The capacity reserved for the output:
      `results.iter().fold(0, |a, x| a + 43 + x.0.len())`, from `acc` on. */
  function Capacity(acc: nat, rs: seq<FileRecord>): (c: nat)
    decreases |rs|
    ensures c >= acc + RECORD_OVERHEAD * |rs|
  {
    if rs == [] then acc else Capacity(acc + RECORD_OVERHEAD + |rs[0].path|, rs[1..])
  }

  /** The reserved capacity is exactly the payload's length. */
  lemma {:induction false} CapacityIsPayloadLength(acc: nat, rs: seq<FileRecord>)
    decreases |rs|
    ensures Capacity(acc, rs) == acc + |Payload(rs)|
  {
    if rs != [] {
      CapacityIsPayloadLength(acc + RECORD_OVERHEAD + |rs[0].path|, rs[1..]);
    }
  }

  /** The `for result in results.iter()` loop: appends each record's bytes to
      `output`, and ends with the payload of all the records. */
  method Serialize(a: array<FileRecord>) returns (output: seq<Byte>)
    ensures output == Payload(a[..])
  {
    output := [];
    var i := 0;
    while i < a.Length
      invariant 0 <= i <= a.Length
      invariant output == Payload(a[..i])
    {
      var r := a[i];
      output := output + r.path;
      output := output + [NEWLINE];
      output := output + r.digest;
      output := output + Be64(r.size);
      output := output + RESERVED;
      PayloadAppend(a[..i], r);
      assert a[..i + 1] == a[..i] + [r];
      i := i + 1;
    }
    assert a[..] == a[..a.Length];
  }

  // ---------------------------------------------------------------- output

  /** `\xFFTCat`, the SHA-256 of the payload, and `output.len() as u32` in big-endian. */
  function Header(payload: seq<Byte>, sha256: Hash): (h: seq<Byte>)
    ensures |h| == HEADER_LENGTH && h[..5] == MAGIC && h[5..37] == sha256(payload)
  {
    MAGIC + sha256(payload) + Be32(TruncateToU32(|payload|))
  }

  /** What the process writes on standard output, or `None` when it panics
      because the payload is longer than `u32::MAX`. */
  function CatalogOutput(payload: seq<Byte>, sha256: Hash, compress: Compress): (out: Option<seq<Byte>>)
    ensures out.Some? <==> |payload| <= U32_MAX
    ensures out.Some? ==> |out.value| >= HEADER_LENGTH && out.value[..HEADER_LENGTH] == Header(payload, sha256)
  {
    if |payload| > U32_MAX then None
    else Some(Header(payload, sha256) + compress(payload))
  }

  /** The header is 41 bytes: the magic, the payload's digest, and a length
      field that gives back the payload's length whenever a catalog is written. */
  lemma HeaderLayout(payload: seq<Byte>, sha256: Hash)
    requires |payload| <= U32_MAX
    ensures var h := Header(payload, sha256);
            |h| == HEADER_LENGTH && h[..5] == MAGIC && h[5..37] == sha256(payload) &&
            FromBigEndian(h[37..41]) == |payload|
  {
    var h := Header(payload, sha256);
    assert h[37..41] == Be32(|payload|);
    Pow256Values();
    BigEndianRoundTrip(|payload|, 4);
  }

  /** A catalog is written exactly when the payload fits in `u32::MAX`
      bytes; it is then the 41-byte header followed by the compressed payload. */
  lemma CatalogOutputLayout(payload: seq<Byte>, sha256: Hash, compress: Compress)
    ensures CatalogOutput(payload, sha256, compress).Some? <==> |payload| <= U32_MAX
    ensures CatalogOutput(payload, sha256, compress).Some? ==>
              var out := CatalogOutput(payload, sha256, compress).value;
              out[..HEADER_LENGTH] == Header(payload, sha256) && out[HEADER_LENGTH..] == compress(payload)
  {
  }

  /** The output stage: sorts the results in place, serializes them, and
      yields the catalog (or `None` for the 4 GiB panic). */
  method WriteCatalog(results: array<FileRecord>, sha256: Hash, compress: Compress) returns (out: Option<seq<Byte>>)
    modifies results
    ensures SortedByPath(results[..]) && multiset(results[..]) == multiset(old(results[..]))
    ensures out == CatalogOutput(Payload(results[..]), sha256, compress)
  {
    SortByPath(results);
    var output := Serialize(results);
    if |output| > U32_MAX {
      return None;
    }
    var header := MAGIC + sha256(output) + Be32(TruncateToU32(|output|));
    return Some(header + compress(output));
  }

  // --------------------------------------------------------------- reading

  /** The index of the first newline in `s` at or after `i`, or `|s|`. */
  function FindNewline(s: seq<Byte>, i: nat): (k: nat)
    requires i <= |s|
    decreases |s| - i
    ensures i <= k <= |s|
    ensures forall m :: i <= m < k ==> s[m] != NEWLINE
    ensures k < |s| ==> s[k] == NEWLINE
  {
    if i == |s| || s[i] == NEWLINE then i else FindNewline(s, i + 1)
  }

  /** Reads a payload back into records: a path up to the first newline, then
      32 digest bytes, 8 size bytes and the two reserved zero bytes; `None`
      when the bytes do not have that shape. */
  function DecodePayload(s: seq<Byte>): Option<seq<FileRecord>>
    decreases |s|
  {
    if s == [] then Some([])
    else
      var k := FindNewline(s, 0);
      if k + RECORD_OVERHEAD > |s| then None
      else
        var body := s[k + 1..];
        var fields := body[DIGEST_LENGTH..];
        var sizeBytes, after := fields[..8], fields[8..];
        if after[..2] != RESERVED then None
        else
          FromBigEndianBound(sizeBytes);
          Pow256Values();
          var r := FileRecord(s[..k], body[..DIGEST_LENGTH], FromBigEndian(sizeBytes));
          match DecodePayload(after[2..])
          case None => None
          case Some(rest) => Some([r] + rest)
  }

  /** A catalog as written, read back: checks the magic, decompresses, and
      checks the recorded length and digest before decoding the payload. */
  function ReadCatalog(bytes: seq<Byte>, sha256: Hash, decompress: Compress): Option<seq<FileRecord>>
  {
    if |bytes| < HEADER_LENGTH || bytes[..5] != MAGIC then None
    else
      var payload := decompress(bytes[HEADER_LENGTH..]);
      if FromBigEndian(bytes[37..41]) != |payload| || bytes[5..37] != sha256(payload) then None
      else DecodePayload(payload)
  }

  predicate NoNewlineInPaths(rs: seq<FileRecord>) {
    forall i :: 0 <= i < |rs| ==> NEWLINE !in rs[i].path
  }

  /** A record followed by more bytes decodes as the record and then those
      bytes. */
  lemma RecordLayout(r: FileRecord, rest: seq<Byte>)
    requires NEWLINE !in r.path
    ensures var s := EncodeRecord(r) + rest;
            DecodePayload(s) == match DecodePayload(rest)
              case None => None
              case Some(rs) => Some([r] + rs)
  {
    var size := Be64(r.size);
    var after := RESERVED + rest;
    var fields := size + after;
    var body := r.digest + fields;
    var line := [NEWLINE] + body;
    var s := EncodeRecord(r) + rest;
    assert s == r.path + line by {
      AppendAssociates(r.path + [NEWLINE] + r.digest + size, RESERVED, rest);
      AppendAssociates(r.path + [NEWLINE] + r.digest, size, after);
      AppendAssociates(r.path + [NEWLINE], r.digest, fields);
      AppendAssociates(r.path, [NEWLINE], body);
    }
    var k := |r.path|;
    assert FindNewline(s, 0) == k by {
      assert s[k] == NEWLINE;
      assert forall m :: 0 <= m < k ==> s[m] == r.path[m];
    }
    assert s[..k] == r.path && s[k + 1..] == body;
    assert body[DIGEST_LENGTH..] == fields && body[..DIGEST_LENGTH] == r.digest;
    assert fields[..8] == size && fields[8..] == after;
    assert after[..2] == RESERVED && after[2..] == rest;
    Pow256Values();
    BigEndianRoundTrip(r.size, 8);
  }

  /** Decoding undoes serializing when no path holds a newline. */
  lemma {:induction false} PayloadRoundTrip(rs: seq<FileRecord>)
    requires NoNewlineInPaths(rs)
    ensures DecodePayload(Payload(rs)) == Some(rs)
  {
    if rs != [] {
      var r, rest := rs[0], Payload(rs[1..]);
      assert NoNewlineInPaths(rs[1..]) by {
        assert forall i :: 0 <= i < |rs| - 1 ==> rs[1..][i] == rs[i + 1];
      }
      PayloadRoundTrip(rs[1..]);
      RecordLayout(r, rest);
      assert [r] + rs[1..] == rs;
    }
  }

  /** Reading a written catalog gives back the sorted records, provided the
      decompressor inverts the compressor on this payload and no path holds
      a newline. */
  lemma CatalogRoundTrip(rs: seq<FileRecord>, sha256: Hash, compress: Compress, decompress: Compress)
    requires NoNewlineInPaths(rs)
    requires decompress(compress(Payload(rs))) == Payload(rs)
    requires CatalogOutput(Payload(rs), sha256, compress).Some?
    ensures ReadCatalog(CatalogOutput(Payload(rs), sha256, compress).value, sha256, decompress) == Some(rs)
  {
    var p := Payload(rs);
    var h := Header(p, sha256);
    HeaderLayout(p, sha256);
    var bytes := h + compress(p);
    assert bytes[..5] == h[..5] && bytes[5..37] == h[5..37] && bytes[37..41] == h[37..41];
    assert bytes[HEADER_LENGTH..] == compress(p);
    PayloadRoundTrip(rs);
  }

  /** The format cannot tell a path holding a newline apart from two
      records: one record whose path is `a`, newline, the bytes of a second
      record and `b` encodes exactly as that second record's pair. */
  lemma NewlineInPathIsAmbiguous(d: Digest, size: U64, e: Digest, size2: U64)
    ensures var first := FileRecord([0x61], d, size);
            var second := FileRecord([0x62], e, size2);
            var merged := FileRecord([0x61, NEWLINE] + d + Be64(size) + RESERVED + [0x62], e, size2);
            first != merged && Payload([merged]) == Payload([first, second])
  {
    var first := FileRecord([0x61], d, size);
    var second := FileRecord([0x62], e, size2);
    var merged := FileRecord([0x61, NEWLINE] + d + Be64(size) + RESERVED + [0x62], e, size2);
    assert [first, second][1..] == [second] && [second][1..] == [] && [merged][1..] == [];
    assert Payload([second]) == EncodeRecord(second) + [];
    assert Payload([first, second]) == EncodeRecord(first) + EncodeRecord(second);
    assert Payload([merged]) == EncodeRecord(merged) + [];
    assert [0x61, NEWLINE] == [0x61] + [NEWLINE];
  }

  /** The catalog does not depend on the order results arrived in: two
      sorted arrangements of the same records are equal whenever records with
      equal paths are equal. */
  lemma {:induction false} SortedArrangementUnique(s: seq<FileRecord>, t: seq<FileRecord>)
    requires SortedByPath(s) && SortedByPath(t) && multiset(s) == multiset(t)
    requires PathDetermines(s)
    ensures s == t
  {
    if s != [] {
      SameFirst(s, t);
      Tails(s, t);
      SortedArrangementUnique(s[1..], t[1..]);
      assert s == [s[0]] + s[1..] && t == [t[0]] + t[1..];
    }
  }

  /** Records with equal paths are equal. */
  predicate PathDetermines(s: seq<FileRecord>) {
    forall i, j :: 0 <= i < |s| && 0 <= j < |s| && s[i].path == s[j].path ==> s[i] == s[j]
  }

  lemma SameFirst(s: seq<FileRecord>, t: seq<FileRecord>)
    requires s != [] && SortedByPath(s) && SortedByPath(t) && multiset(s) == multiset(t)
    requires PathDetermines(s)
    ensures t != [] && s[0] == t[0]
  {
    assert s[0] in multiset(s);
    assert t != [];
    assert t[0] in multiset(t);
    var i :| 0 <= i < |s| && s[i] == t[0];
    var j :| 0 <= j < |t| && t[j] == s[0];
    if i > 0 && j > 0 {
      assert LexLe(s[0].path, s[i].path) && LexLe(t[0].path, t[j].path);
      LexLeAntisymmetric(s[0].path, t[0].path);
    }
  }

  lemma Tails(s: seq<FileRecord>, t: seq<FileRecord>)
    requires s != [] && t != [] && s[0] == t[0] && multiset(s) == multiset(t)
    requires SortedByPath(s) && SortedByPath(t) && PathDetermines(s)
    ensures multiset(s[1..]) == multiset(t[1..])
    ensures SortedByPath(s[1..]) && SortedByPath(t[1..]) && PathDetermines(s[1..])
  {
    TailMultiset(s);
    TailMultiset(t);
    TailSorted(s);
    TailSorted(t);
    TailDetermines(s);
  }

  lemma TailMultiset(s: seq<FileRecord>)
    requires s != []
    ensures multiset(s[1..]) == multiset(s) - multiset{s[0]}
  {
    assert s == [s[0]] + s[1..];
  }

  lemma TailSorted(s: seq<FileRecord>)
    requires s != [] && SortedByPath(s)
    ensures SortedByPath(s[1..])
  {
  }

  lemma TailDetermines(s: seq<FileRecord>)
    requires s != [] && PathDetermines(s)
    ensures PathDetermines(s[1..])
  {
  }
}
