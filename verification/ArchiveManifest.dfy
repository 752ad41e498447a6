/**
 The archive manifest (versions one and two): its constructor, its canonical
 CBOR form, and the strict streaming decoder.
 */
module ArchiveManifest {
  import opened Bytes
  import opened Utf8
  import Cbor
  import opened ArchiveCatalog

  datatype Manifest = Manifest(
    version: nat,
    electionHash: bytes,
    algorithm: bytes,
    lifecycle: Option<bytes>,
    files: seq<FileEntry>)

  const MAX_OBJECT_BYTES := 1_048_576
  const MAX_ALGORITHM_BYTES := 128
  const FINALIZED := Ascii("FINALIZED")

  // ---------------------------------------------------------------------
  // Construction
  // ---------------------------------------------------------------------

  /** `trim().is_empty()`. */
  predicate Blank(s: bytes) {
    s == [] || (var n := WhitespaceLength(s); n > 0 && Blank(s[n..]))
  }

  /** Neither the manifest itself nor a detached signature is a content file. */
  predicate ContentPath(path: bytes) {
    path != Ascii("archive-manifest.cbor") && !(Ascii("archive-signatures/") <= path)
  }

  predicate InScope(files: seq<FileEntry>) {
    forall i :: 0 <= i < |files| ==> ContentPath(files[i].path)
  }

  function NewManifest(version: nat, electionHash: bytes, algorithm: bytes, lifecycle: Option<bytes>,
                       files: seq<FileEntry>): Result<Manifest, Code>
  {
    if version == 1 && lifecycle.Some? then Err(InvalidArchiveManifest)
    else if version == 2 && lifecycle != Some(FINALIZED) then Err(InvalidArchiveManifest)
    else if version != 1 && version != 2 then Err(UnsupportedProtocolVersion)
    else if Blank(algorithm) then Err(EmptyHashAlgorithmId)
    else if |algorithm| > MAX_ALGORITHM_BYTES then Err(ProtocolLimitExceeded)
    else if !InScope(files) then Err(InvalidArchiveManifest)
    else Ok(Manifest(version, electionHash, algorithm, lifecycle, files))
  }

  /** What the constructors can build from a catalog and 32-byte digests. */
  predicate ValidManifest(m: Manifest) {
    && ValidCatalog(m.files) && |m.electionHash| == 32 && ValidUtf8(m.algorithm)
    && NewManifest(m.version, m.electionHash, m.algorithm, m.lifecycle, m.files) == Ok(m)
  }

  // ---------------------------------------------------------------------
  // Encoding
  // ---------------------------------------------------------------------

  /** Definite-length byte string (major 2) or text string (major 3). */
  function StringItem(major: Cbor.Major, b: bytes): bytes
    requires |b| <= Cbor.MAX_U64
  {
    Cbor.Head(major, |b|) + b
  }

  function FileBytes(e: FileEntry): bytes
    requires ValidEntry(e)
  {
    Cbor.Head(4, 2) + (StringItem(3, e.path) + StringItem(2, e.digest))
  }

  function FilesBytes(files: seq<FileEntry>): bytes
    requires ValidEntries(files)
  {
    if files == [] then [] else FileBytes(files[0]) + FilesBytes(files[1..])
  }

  function LifecycleBytes(m: Manifest): bytes {
    if m.version == 2 then StringItem(3, FINALIZED) else []
  }

  function Body(m: Manifest): bytes
    requires ValidManifest(m)
  {
    Cbor.Head(4, if m.version == 2 then 5 else 4) + (Cbor.Head(0, m.version) + (StringItem(2, m.electionHash)
    + (StringItem(3, m.algorithm) + (LifecycleBytes(m) + (Cbor.Head(4, |m.files|) + FilesBytes(m.files))))))
  }

  function ToCanonicalCbor(m: Manifest): Result<bytes, Code>
    requires ValidManifest(m)
  {
    if |Body(m)| > MAX_OBJECT_BYTES then Err(ProtocolLimitExceeded) else Ok(Body(m))
  }

  // ---------------------------------------------------------------------
  // The strict reader
  // ---------------------------------------------------------------------

  function ReaderCode(e: Cbor.Error): Code {
    if e.NotShortest? || e.IndefiniteLength? then NonCanonicalCbor else InvalidCbor
  }

  /** One argument of the expected major type. */
  function ReadArgument(s: bytes, major: Cbor.Major): (r: Result<(nat, bytes), Code>)
    ensures r.Ok? ==> |r.value.1| < |s|
  {
    if s == [] then Err(InvalidCbor)
    else if s[0] / 32 != major then Err(UnexpectedCborType)
    else match Cbor.ReadArgument(s[1..], s[0] % 32)
         case Ok((n, rest)) => Ok((n, rest))
         case Err(e) => Err(ReaderCode(e))
  }

  function ReadString(s: bytes, major: Cbor.Major): Result<(bytes, bytes), Code> {
    var length :- ReadArgument(s, major);
    if |length.1| < length.0 then Err(InvalidCbor)
    else if major == 3 && !ValidUtf8(length.1[..length.0]) then Err(InvalidCbor)
    else Ok((length.1[..length.0], length.1[length.0..]))
  }

  function ReadDigest(s: bytes): Result<(bytes, bytes), Code> {
    var d :- ReadString(s, 2);
    if |d.0| != 32 then Err(InvalidCbor) else Ok(d)
  }

  function ReadEntry(s: bytes): Result<(FileEntry, bytes), Code> {
    var fields :- ReadArgument(s, 4);
    if fields.0 != 2 then Err(InvalidCbor) else
    var text :- ReadString(fields.1, 3);
    var path :- NewPath(text.0);
    var digest :- ReadDigest(text.1);
    Ok((FileEntry(path, digest.0), digest.1))
  }

  function ReadEntries(s: bytes, count: nat): Result<(seq<FileEntry>, bytes), Code>
    decreases count
  {
    if count == 0 then Ok(([], s)) else
      var e :- ReadEntry(s);
      var others :- ReadEntries(e.1, count - 1);
      Ok(([e.0] + others.0, others.1))
  }

  /** Neighbours in weakly ascending path order. */
  predicate NeighboursOrdered(entries: seq<FileEntry>) {
    forall i :: 0 <= i < |entries| - 1 ==> !PathLess(entries[i + 1], entries[i])
  }

  datatype Header = Header(version: nat, electionHash: bytes, algorithm: bytes, lifecycle: Option<bytes>)

  /** Field count, version, election hash, algorithm and lifecycle. */
  function ReadHeader(s: bytes): Result<(Header, bytes), Code> {
    var fields :- ReadArgument(s, 4);
    if fields.0 != 4 && fields.0 != 5 then Err(InvalidCbor) else
    var version :- ReadArgument(fields.1, 0);
    if version.0 > 0xFFFF then Err(InvalidCbor)
    else if (version.0 == 1 && fields.0 != 4) || (version.0 == 2 && fields.0 != 5) then Err(InvalidCbor)
    else if version.0 != 1 && version.0 != 2 then Err(UnsupportedProtocolVersion) else
    var hash :- ReadDigest(version.1);
    var algorithm :- ReadString(hash.1, 3);
    if Blank(algorithm.0) then Err(EmptyHashAlgorithmId)
    else if |algorithm.0| > MAX_ALGORITHM_BYTES then Err(ProtocolLimitExceeded)
    else if version.0 == 1 then Ok((Header(1, hash.0, algorithm.0, None), algorithm.1)) else
    var state :- ReadString(algorithm.1, 3);
    if state.0 != FINALIZED then Err(InvalidArchiveManifest)
    else Ok((Header(2, hash.0, algorithm.0, Some(FINALIZED)), state.1))
  }

  /** The whole input: header, file count, entries, and nothing after them. */
  function ReadItems(s: bytes): Result<(Header, seq<FileEntry>), Code> {
    var header :- ReadHeader(s);
    var count :- ReadArgument(header.1, 4);
    if count.0 == 0 then Err(EmptyArchiveFileSet)
    else if count.0 > MAX_FILES then Err(ProtocolLimitExceeded) else
    var entries :- ReadEntries(count.1, count.0);
    if entries.1 != [] then Err(TrailingCborData) else Ok((header.0, entries.0))
  }

  function FromCanonicalCbor(s: bytes): Result<Manifest, Code> {
    if |s| > MAX_OBJECT_BYTES then Err(ProtocolLimitExceeded) else
    var items :- ReadItems(s);
    if !NeighboursOrdered(items.1) then Err(NonCanonicalCbor) else
    var files :- NewCatalog(items.1);
    NewManifest(items.0.version, items.0.electionHash, items.0.algorithm, items.0.lifecycle, files)
  }

  // ---------------------------------------------------------------------
  // Reading back what was written
  // ---------------------------------------------------------------------

  lemma ReadArgumentInverse(major: Cbor.Major, n: nat, rest: bytes)
    requires n <= Cbor.MAX_U64
    ensures ReadArgument(Cbor.Head(major, n) + rest, major) == Ok((n, rest))
  {
    Cbor.ReadHeadInverse(major, n, rest);
  }

  lemma ReadStringInverse(major: Cbor.Major, b: bytes, rest: bytes)
    requires |b| <= Cbor.MAX_U64 && (major == 3 ==> ValidUtf8(b))
    ensures ReadString(StringItem(major, b) + rest, major) == Ok((b, rest))
  {
    hide ReadArgument, Cbor.Head, ValidUtf8;
    ReadArgumentInverse(major, |b|, b + rest);
    Associative(Cbor.Head(major, |b|), b, rest);
    assert (b + rest)[..|b|] == b && (b + rest)[|b|..] == rest;
  }

  lemma ReadEntryInverse(e: FileEntry, rest: bytes)
    requires ValidEntry(e)
    ensures ReadEntry(FileBytes(e) + rest) == Ok((e, rest))
  {
    var digest := StringItem(2, e.digest);
    var path := StringItem(3, e.path);
    assert FileBytes(e) + rest == Cbor.Head(4, 2) + (path + (digest + rest));
    ReadArgumentInverse(4, 2, path + (digest + rest));
    AsciiIsUtf8(e.path);
    ReadStringInverse(3, e.path, digest + rest);
    ReadStringInverse(2, e.digest, rest);
  }

  lemma {:induction false} ReadEntriesInverse(files: seq<FileEntry>, rest: bytes)
    requires ValidEntries(files)
    ensures ReadEntries(FilesBytes(files) + rest, |files|) == Ok((files, rest))
  {
    if files == [] {
      assert [] + rest == rest;
    } else {
      hide ReadEntry, FileBytes, ValidPath;
      var after := FilesBytes(files[1..]) + rest;
      Associative(FileBytes(files[0]), FilesBytes(files[1..]), rest);
      ReadEntryInverse(files[0], after);
      ReadEntriesInverse(files[1..], rest);
      assert files == [files[0]] + files[1..];
    }
  }

  lemma ReadHeaderInverse(m: Manifest, rest: bytes)
    requires ValidManifest(m)
    ensures var s := Cbor.Head(4, if m.version == 2 then 5 else 4) + (Cbor.Head(0, m.version)
                     + (StringItem(2, m.electionHash) + (StringItem(3, m.algorithm) + (LifecycleBytes(m) + rest))));
            ReadHeader(s) == Ok((Header(m.version, m.electionHash, m.algorithm, m.lifecycle), rest))
  {
    var s4 := LifecycleBytes(m) + rest;
    var s3 := StringItem(3, m.algorithm) + s4;
    var s2 := StringItem(2, m.electionHash) + s3;
    var s1 := Cbor.Head(0, m.version) + s2;
    ReadArgumentInverse(4, if m.version == 2 then 5 else 4, s1);
    ReadArgumentInverse(0, m.version, s2);
    ReadStringInverse(2, m.electionHash, s3);
    ReadStringInverse(3, m.algorithm, s4);
    if m.version == 2 {
      AsciiIsUtf8(FINALIZED);
      ReadStringInverse(3, FINALIZED, rest);
    } else {
      assert s4 == rest;
    }
  }

  lemma StrictNeighbours(files: seq<FileEntry>)
    requires StrictlySorted(files)
    ensures NeighboursOrdered(files)
  {
    forall i | 0 <= i < |files| - 1
      ensures !PathLess(files[i + 1], files[i])
    {
      assert PathLess(files[i], files[i + 1]);
      LexTrichotomy(files[i].path, files[i + 1].path);
    }
  }

  /** What follows the header, when it lists the files of a catalog. */
  lemma ReadFilesInverse(files: seq<FileEntry>)
    requires ValidCatalog(files)
    ensures ReadArgument(Cbor.Head(4, |files|) + FilesBytes(files), 4) == Ok((|files|, FilesBytes(files)))
    ensures ReadEntries(FilesBytes(files), |files|) == Ok((files, []))
    ensures NeighboursOrdered(files) && NewCatalog(files) == Ok(files)
  {
    ReadArgumentInverse(4, |files|, FilesBytes(files));
    ReadEntriesInverse(files, []);
    assert FilesBytes(files) + [] == FilesBytes(files);
    StrictNeighbours(files);
    CatalogOfCanonical(files);
  }

  /** Every manifest the encoder accepts decodes to itself. */
  lemma EncodeThenDecode(m: Manifest)
    requires ValidManifest(m) && ToCanonicalCbor(m).Ok?
    ensures FromCanonicalCbor(ToCanonicalCbor(m).value) == Ok(m)
  {
    hide ReadHeader, ReadArgument, ReadEntries, NewCatalog, NeighboursOrdered, Blank, ValidUtf8, Cbor.Head, StringItem,
         FilesBytes, StrictlySorted, CollisionFree, ValidEntry, InScope;
    ReadHeaderInverse(m, Cbor.Head(4, |m.files|) + FilesBytes(m.files));
    ReadFilesInverse(m.files);
  }

  // ---------------------------------------------------------------------
  // Writing back what was read
  // ---------------------------------------------------------------------

  lemma ReadArgumentSound(s: bytes, major: Cbor.Major, n: nat, rest: bytes)
    requires ReadArgument(s, major) == Ok((n, rest))
    ensures n <= Cbor.MAX_U64 && s == Cbor.Head(major, n) + rest
  {
    Cbor.ReadHeadSound(s);
  }

  lemma ReadStringSound(s: bytes, major: Cbor.Major, b: bytes, rest: bytes)
    requires ReadString(s, major) == Ok((b, rest))
    ensures |b| <= Cbor.MAX_U64 && s == StringItem(major, b) + rest
    ensures major == 3 ==> ValidUtf8(b)
  {
    hide ReadArgument, Cbor.Head, ValidUtf8;
    var (n, body) := ReadArgument(s, major).value;
    ReadArgumentSound(s, major, n, body);
    assert body == b + rest;
    Associative(Cbor.Head(major, n), b, rest);
  }

  lemma ReadEntrySound(s: bytes, e: FileEntry, rest: bytes)
    requires ReadEntry(s) == Ok((e, rest))
    ensures ValidEntry(e) && s == FileBytes(e) + rest
  {
    hide ReadArgument, ReadString, Cbor.Head, StringItem;
    var (n, s1) := ReadArgument(s, 4).value;
    ReadArgumentSound(s, 4, n, s1);
    var (path, s2) := ReadString(s1, 3).value;
    ReadStringSound(s1, 3, path, s2);
    ReadStringSound(s2, 2, e.digest, rest);
    assert path == e.path;
    assert s == Cbor.Head(4, 2) + (StringItem(3, path) + StringItem(2, e.digest)) + rest;
  }

  lemma FilesBytesCons(e: FileEntry, others: seq<FileEntry>)
    requires ValidEntry(e) && ValidEntries(others)
    ensures ValidEntries([e] + others) && FilesBytes([e] + others) == FileBytes(e) + FilesBytes(others)
  {
    assert ([e] + others)[1..] == others;
  }

  lemma {:induction false} ReadEntriesSound(s: bytes, count: nat)
    ensures ReadEntries(s, count).Ok? ==>
            var (files, rest) := ReadEntries(s, count).value;
            |files| == count && ValidEntries(files) && s == FilesBytes(files) + rest
    decreases count
  {
    hide ReadEntry, FileBytes, ValidPath;
    if count == 0 {
      assert s == [] + s;
    } else if ReadEntry(s).Ok? {
      var (e, after) := ReadEntry(s).value;
      ReadEntrySound(s, e, after);
      ReadEntriesSound(after, count - 1);
      if ReadEntries(after, count - 1).Ok? {
        var (others, rest) := ReadEntries(after, count - 1).value;
        FilesBytesCons(e, others);
        Associative(FileBytes(e), FilesBytes(others), rest);
      }
    }
  }

  lemma {:induction false} NeighboursSorted(files: seq<FileEntry>, i: nat, j: nat)
    requires NeighboursOrdered(files) && i < j < |files|
    ensures !PathLess(files[j], files[i])
    decreases j - i
  {
    if i + 1 < j {
      NeighboursSorted(files, i + 1, j);
      LexTrichotomy(files[i].path, files[i + 1].path);
      LexTrichotomy(files[i + 1].path, files[j].path);
      if PathLess(files[j], files[i]) && files[i].path != files[i + 1].path {
        LexTransitive(files[j].path, files[i].path, files[i + 1].path);
      }
    }
  }

  /** A list in weakly ascending order that makes a catalog is that catalog. */
  lemma OrderedCatalog(entries: seq<FileEntry>)
    requires NeighboursOrdered(entries) && NewCatalog(entries).Ok?
    ensures NewCatalog(entries).value == entries && StrictlySorted(entries) && CollisionFree(entries)
  {
    forall i, j | 0 <= i < j < |entries|
      ensures !PathLess(entries[j], entries[i])
    {
      NeighboursSorted(entries, i, j);
    }
    CatalogCanonical(entries);
    CollisionFreeIsBag(entries);
    CollisionFreeIsBag(NewCatalog(entries).value);
    CollisionFreeStrict(entries);
    StrictUnique(NewCatalog(entries).value, entries);
  }

  lemma ReadHeaderSound(s: bytes, h: Header, rest: bytes)
    requires ReadHeader(s) == Ok((h, rest))
    ensures h.version == 1 || h.version == 2
    ensures |h.electionHash| == 32 && ValidUtf8(h.algorithm) && |h.algorithm| <= MAX_ALGORITHM_BYTES
    ensures !Blank(h.algorithm) && h.lifecycle == if h.version == 2 then Some(FINALIZED) else None
    ensures s == Cbor.Head(4, if h.version == 2 then 5 else 4) + (Cbor.Head(0, h.version)
                 + (StringItem(2, h.electionHash) + (StringItem(3, h.algorithm)
                 + ((if h.version == 2 then StringItem(3, FINALIZED) else []) + rest))))
  {
    var (fields, s1) := ReadArgument(s, 4).value;
    ReadArgumentSound(s, 4, fields, s1);
    var (version, s2) := ReadArgument(s1, 0).value;
    ReadArgumentSound(s1, 0, version, s2);
    var (hash, s3) := ReadDigest(s2).value;
    ReadStringSound(s2, 2, hash, s3);
    var (algorithm, s4) := ReadString(s3, 3).value;
    ReadStringSound(s3, 3, algorithm, s4);
    if version == 2 {
      ReadStringSound(s4, 3, FINALIZED, rest);
    } else {
      assert [] + rest == rest;
    }
  }

  /** Every accepted byte string is the encoding of the valid manifest it yields. */
  lemma DecodeThenEncode(s: bytes)
    requires FromCanonicalCbor(s).Ok?
    ensures ValidManifest(FromCanonicalCbor(s).value)
    ensures ToCanonicalCbor(FromCanonicalCbor(s).value) == Ok(s)
  {
    hide ReadHeader, ReadArgument, ReadEntries, NewCatalog, NeighboursOrdered, Blank, ValidUtf8, Cbor.Head, StringItem,
         FilesBytes, StrictlySorted, CollisionFree, ValidEntry;
    var m := FromCanonicalCbor(s).value;
    var (h, s1) := ReadHeader(s).value;
    ReadHeaderSound(s, h, s1);
    var (count, s2) := ReadArgument(s1, 4).value;
    ReadArgumentSound(s1, 4, count, s2);
    ReadEntriesSound(s2, count);
    var (entries, s3) := ReadEntries(s2, count).value;
    OrderedCatalog(entries);
    assert s2 == FilesBytes(entries);
  }

  /** The decoder accepts exactly the encoder's image and inverts it. */
  lemma DecoderInvertsEncoder(m: Manifest, s: bytes)
    ensures FromCanonicalCbor(s) == Ok(m) <==> ValidManifest(m) && ToCanonicalCbor(m) == Ok(s)
  {
    if FromCanonicalCbor(s) == Ok(m) {
      DecodeThenEncode(s);
    } else if ValidManifest(m) && ToCanonicalCbor(m) == Ok(s) {
      EncodeThenDecode(m);
    }
  }

  /** Equal sets of files, in whatever order they are listed, give equal archive bytes. */
  lemma EqualFilesEqualBytes(version: nat, electionHash: bytes, algorithm: bytes, lifecycle: Option<bytes>,
                             a: seq<FileEntry>, b: seq<FileEntry>)
    requires multiset(a) == multiset(b) && NewCatalog(a).Ok?
    requires ValidEntries(a)
    requires |electionHash| == 32 && ValidUtf8(algorithm)
    requires NewManifest(version, electionHash, algorithm, lifecycle, NewCatalog(a).value).Ok?
    ensures NewCatalog(b).Ok?
    ensures var ma := NewManifest(version, electionHash, algorithm, lifecycle, NewCatalog(a).value);
            var mb := NewManifest(version, electionHash, algorithm, lifecycle, NewCatalog(b).value);
            ma == mb && ValidManifest(ma.value) && ToCanonicalCbor(ma.value) == ToCanonicalCbor(mb.value)
  {
    hide NewCatalog, ValidCatalog, ToCanonicalCbor, ValidUtf8;
    CatalogOrderFree(a, b);
    CatalogOfValid(a);
  }

  lemma CatalogOfValid(entries: seq<FileEntry>)
    requires ValidEntries(entries) && NewCatalog(entries).Ok?
    ensures ValidCatalog(NewCatalog(entries).value)
  {
    hide CollisionFreeBag, StrictlySorted, CollisionFree, ValidEntry, SortByPath;
    CatalogCanonical(entries);
    var files := NewCatalog(entries).value;
    forall i | 0 <= i < |files|
      ensures ValidEntry(files[i])
    {
      assert files[i] in multiset(files);
      assert files[i] in entries;
    }
    assert |multiset(files)| == |multiset(entries)|;
  }

  // ---------------------------------------------------------------------
  // The manifest as one item of the deterministic CBOR profile
  // ---------------------------------------------------------------------

  function FileTree(e: FileEntry): Cbor.Value {
    Cbor.Array([Cbor.TextString(e.path), Cbor.ByteString(e.digest)])
  }

  function FileTrees(files: seq<FileEntry>): (r: seq<Cbor.Value>)
    ensures |r| == |files|
  {
    if files == [] then [] else [FileTree(files[0])] + FileTrees(files[1..])
  }

  function Tree(m: Manifest): Cbor.Value {
    Cbor.Array([Cbor.Int(m.version), Cbor.ByteString(m.electionHash), Cbor.TextString(m.algorithm)]
               + (if m.version == 2 then [Cbor.TextString(FINALIZED)] else [])
               + [Cbor.Array(FileTrees(m.files))])
  }

  lemma EncodeItemsCons(v: Cbor.Value, items: seq<Cbor.Value>)
    requires Cbor.Encode(v).Ok? && Cbor.EncodeItems(items).Ok?
    ensures Cbor.EncodeItems([v] + items) == Ok(Cbor.Encode(v).value + Cbor.EncodeItems(items).value)
  {
    assert ([v] + items)[1..] == items;
  }

  /** An array of `n` items is its head followed by the items. */
  lemma ArrayBytes(items: seq<Cbor.Value>, body: bytes)
    requires Cbor.EncodeItems(items) == Ok(body) && |items| <= Cbor.MAX_U64
    ensures Cbor.Encode(Cbor.Array(items)) == Ok(Cbor.Head(4, |items|) + body)
  {
  }

  lemma PairBytes(t: bytes, b: bytes)
    requires |t| <= Cbor.MAX_U64 && |b| <= Cbor.MAX_U64 && ValidUtf8(t)
    ensures Cbor.EncodeItems([Cbor.TextString(t), Cbor.ByteString(b)]) == Ok(StringItem(3, t) + StringItem(2, b))
  {
    var text, blob := Cbor.TextString(t), Cbor.ByteString(b);
    EncodeItemsCons(blob, []);
    EncodeItemsCons(text, [blob]);
    assert [text] + [blob] == [text, blob] && [blob] + [] == [blob];
    assert StringItem(2, b) + [] == StringItem(2, b);
  }

  lemma FileTreeBytes(e: FileEntry)
    requires ValidEntry(e)
    ensures Cbor.Encode(FileTree(e)) == Ok(FileBytes(e))
  {
    AsciiIsUtf8(e.path);
    PairBytes(e.path, e.digest);
    ArrayBytes(FileTree(e).items, StringItem(3, e.path) + StringItem(2, e.digest));
  }

  lemma {:induction false} FileTreesBytes(files: seq<FileEntry>)
    requires ValidEntries(files)
    ensures Cbor.EncodeItems(FileTrees(files)) == Ok(FilesBytes(files))
  {
    if files != [] {
      FileTreeBytes(files[0]);
      FileTreesBytes(files[1..]);
      EncodeItemsCons(FileTree(files[0]), FileTrees(files[1..]));
    }
  }

  lemma {:induction false} ItemsDepthBound(items: seq<Cbor.Value>, d: nat)
    requires forall i :: 0 <= i < |items| ==> Cbor.Depth(items[i]) < d
    ensures Cbor.ItemsDepth(items) <= d
  {
    if items != [] {
      ItemsDepthBound(items[1..], d);
    }
  }

  lemma {:induction false} FileTreesDepth(files: seq<FileEntry>)
    ensures Cbor.ItemsDepth(FileTrees(files)) <= 2
  {
    if files != [] {
      FileTreesDepth(files[1..]);
      ItemsDepthBound(FileTree(files[0]).items, 1);
      assert FileTrees(files)[1..] == FileTrees(files[1..]);
    }
  }

  lemma TreeDepth(m: Manifest)
    ensures Cbor.Depth(Tree(m)) <= 3
  {
    FileTreesDepth(m.files);
    ItemsDepthBound(Tree(m).items, 3);
  }

  /** The Rust encoder's bytes are the deterministic encoding of the manifest's tree. */
  lemma BodyIsTree(m: Manifest)
    requires ValidManifest(m)
    ensures Cbor.Encode(Tree(m)) == Ok(Body(m))
  {
    hide Cbor.Head, FilesBytes, FileTrees, LifecycleBytes;
    TailIsTree(m);
    var algorithm, hash, version := Cbor.TextString(m.algorithm), Cbor.ByteString(m.electionHash), Cbor.Int(m.version);
    var tail := TailTrees(m);
    EncodeItemsCons(algorithm, tail);
    EncodeItemsCons(hash, [algorithm] + tail);
    EncodeItemsCons(version, [hash] + ([algorithm] + tail));
    assert [version] + ([hash] + ([algorithm] + tail)) == Tree(m).items;
    ArrayBytes(Tree(m).items, Cbor.EncodeItems(Tree(m).items).value);
  }

  /** The lifecycle, when there is one, and the files. */
  function TailTrees(m: Manifest): seq<Cbor.Value> {
    (if m.version == 2 then [Cbor.TextString(FINALIZED)] else []) + [Cbor.Array(FileTrees(m.files))]
  }

  lemma TailIsTree(m: Manifest)
    requires ValidManifest(m)
    ensures Cbor.EncodeItems(TailTrees(m)) == Ok(LifecycleBytes(m) + (Cbor.Head(4, |m.files|) + FilesBytes(m.files)))
  {
    FileTreesBytes(m.files);
    ArrayBytes(FileTrees(m.files), FilesBytes(m.files));
    var files := Cbor.Array(FileTrees(m.files));
    var listed := Cbor.Head(4, |m.files|) + FilesBytes(m.files);
    hide Cbor.Head, FilesBytes, FileTrees;
    EncodeItemsCons(files, []);
    assert [files] + [] == [files] && listed + [] == listed;
    if m.version == 2 {
      AsciiIsUtf8(FINALIZED);
      EncodeItemsCons(Cbor.TextString(FINALIZED), [files]);
    } else {
      assert TailTrees(m) == [files] && [] + listed == listed;
    }
  }

  /** The independent decoder accepts every encoded manifest and reads the same fields. */
  lemma IndependentDecoderAgrees(m: Manifest)
    requires ValidManifest(m) && ToCanonicalCbor(m).Ok?
    ensures Cbor.DecodeCanonical(ToCanonicalCbor(m).value) == Ok(Tree(m))
  {
    BodyIsTree(m);
    TreeDepth(m);
    Cbor.EncodeThenDecode(Tree(m));
  }
}
