/** What archive paths, manifests and directories are accepted, said of their bytes alone. */
module ArchiveVerdicts {
  import opened Bytes
  import opened Utf8
  import opened Unicode
  import Cbor
  import opened ArchiveCatalog
  import opened ArchiveManifest
  import opened ArchiveIdentity

  // ---------------------------------------------------------------------
  // Paths
  // ---------------------------------------------------------------------

  /** `s[i..j]` lies between two separators, or a separator and an end. */
  ghost predicate Piece(s: bytes, separator: byte, i: int, j: int) {
    && 0 <= i <= j <= |s|
    && (i == 0 || s[i - 1] == separator) && (j == |s| || s[j] == separator)
    && forall k :: i <= k < j ==> s[k] != separator
  }

  lemma SplitFirst(s: bytes, separator: byte)
    requires s != []
    ensures var parts, tail := Split(s, separator), Split(s[1..], separator);
            && (s[0] == separator ==> parts[0] == [] && parts[1..] == tail)
            && (s[0] != separator ==> parts[0] == [s[0]] + tail[0] && parts[1..] == tail[1..])
  {
  }

  /** The first part ends at the first separator. */
  lemma {:induction false} FirstPart(s: bytes, separator: byte)
    ensures var part := Split(s, separator)[0];
            && |part| <= |s| && part == s[..|part|] && Piece(s, separator, 0, |part|)
  {
    hide Piece;
    if s != [] {
      SplitFirst(s, separator);
      hide Split;
      if s[0] == separator {
        assert Piece(s, separator, 0, 0) by { PieceHere(s, separator); }
      } else {
        FirstPart(s[1..], separator);
        var n := |Split(s[1..], separator)[0]|;
        assert Piece(s, separator, 0, n + 1) by { PieceLonger(s, separator, n); }
        assert s[..n + 1] == [s[0]] + s[1..][..n];
      }
    } else {
      assert Piece([], separator, 0, 0) by { PieceEmpty(separator); }
    }
  }

  lemma PieceEmpty(separator: byte)
    ensures Piece([], separator, 0, 0)
  {
  }

  lemma PieceHere(s: bytes, separator: byte)
    requires s != [] && s[0] == separator
    ensures Piece(s, separator, 0, 0)
  {
  }

  lemma PieceLonger(s: bytes, separator: byte, n: nat)
    requires s != [] && s[0] != separator && Piece(s[1..], separator, 0, n)
    ensures Piece(s, separator, 0, n + 1)
  {
    assert s[0..n + 1] == [s[0]] + s[1..][0..n];
  }

  /** Moving past the first byte shifts every piece that does not start at it. */
  lemma PieceShift(s: bytes, separator: byte, i: nat, j: nat)
    requires s != [] && 0 < i <= j <= |s| && (i == 1 ==> s[0] == separator)
    ensures Piece(s, separator, i, j) <==> Piece(s[1..], separator, i - 1, j - 1)
    ensures s[i..j] == s[1..][i - 1..j - 1]
  {
  }

  lemma PieceUnique(s: bytes, separator: byte, j: int, k: int)
    requires Piece(s, separator, 0, j) && Piece(s, separator, 0, k)
    ensures j == k
  {
  }

  /** Every part is a piece. */
  lemma {:induction false} PartIsPiece(s: bytes, separator: byte, k: nat) returns (i: nat, j: nat)
    requires k < |Split(s, separator)|
    ensures Piece(s, separator, i, j) && s[i..j] == Split(s, separator)[k]
    ensures k > 0 ==> i > 0
  {
    FirstPart(s, separator);
    if k == 0 {
      i, j := 0, |Split(s, separator)[0]|;
    } else {
      SplitFirst(s, separator);
      var k' := if s[0] == separator then k - 1 else k;
      i, j := PartIsPiece(s[1..], separator, k');
      hide Split;
      PieceShift(s, separator, i + 1, j + 1);
      i, j := i + 1, j + 1;
    }
  }

  /** Every piece is a part. */
  lemma {:induction false} PieceIsPart(s: bytes, separator: byte, i: nat, j: nat) returns (k: nat)
    requires Piece(s, separator, i, j)
    ensures k < |Split(s, separator)| && Split(s, separator)[k] == s[i..j]
    ensures i > 0 ==> k > 0
  {
    FirstPart(s, separator);
    if i == 0 {
      k := 0;
      PieceUnique(s, separator, j, |Split(s, separator)[0]|);
    } else {
      SplitFirst(s, separator);
      PieceShift(s, separator, i, j);
      k := PieceIsPart(s[1..], separator, i - 1, j - 1);
      k := if s[0] == separator then k + 1 else k;
    }
  }

  /** Equal up to the case of ASCII letters. */
  predicate SameLetter(x: byte, y: byte) {
    || x == y
    || ('A' as int <= x as int <= 'Z' as int && y == x + 32)
    || ('A' as int <= y as int <= 'Z' as int && x == y + 32)
  }

  predicate EqualUpToCase(a: bytes, b: bytes) {
    |a| == |b| && forall k :: 0 <= k < |a| ==> SameLetter(a[k], b[k])
  }

  lemma UppercaseIff(a: bytes, b: bytes)
    ensures Uppercase(a) == Uppercase(b) <==> EqualUpToCase(a, b)
  {
    if Uppercase(a) == Uppercase(b) {
      forall k | 0 <= k < |a| ensures SameLetter(a[k], b[k]) {
        assert Uppercase(a)[k] == Uppercase(b)[k];
      }
    }
  }

  lemma LowercaseIff(a: bytes, b: bytes)
    ensures Lowercase(a) == Lowercase(b) <==> EqualUpToCase(a, b)
  {
    if Lowercase(a) == Lowercase(b) {
      forall k | 0 <= k < |a| ensures SameLetter(a[k], b[k]) {
        assert Lowercase(a)[k] == Lowercase(b)[k];
      }
    }
  }

  /** The device names of the portable profile, in any case. */
  predicate Device(name: bytes) {
    || EqualUpToCase(name, Ascii("CON")) || EqualUpToCase(name, Ascii("PRN"))
    || EqualUpToCase(name, Ascii("AUX")) || EqualUpToCase(name, Ascii("NUL"))
    || (&& |name| == 4 && '1' as int <= name[3] as int <= '9' as int
        && (EqualUpToCase(name[..3], Ascii("COM")) || EqualUpToCase(name[..3], Ascii("LPT"))))
  }

  predicate ThreeUpper(s: bytes) {
    |s| == 3 && IsUpper(s[0]) && IsUpper(s[1]) && IsUpper(s[2])
  }

  lemma UpperLiteral(name: bytes, literal: bytes)
    requires ThreeUpper(literal)
    ensures Uppercase(name) == literal <==> EqualUpToCase(name, literal)
  {
    assert Uppercase(literal) == literal;
    UppercaseIff(name, literal);
  }

  lemma UpperLiterals()
    ensures ThreeUpper(Ascii("CON")) && ThreeUpper(Ascii("PRN")) && ThreeUpper(Ascii("AUX")) && ThreeUpper(Ascii("NUL"))
    ensures ThreeUpper(Ascii("COM")) && ThreeUpper(Ascii("LPT"))
  {
  }

  lemma ReservedIff(name: bytes)
    ensures ReservedName(Uppercase(name)) <==> Device(name)
  {
    UpperLiterals();
    hide Ascii, ThreeUpper;
    UpperLiteral(name, Ascii("CON"));
    UpperLiteral(name, Ascii("PRN"));
    UpperLiteral(name, Ascii("AUX"));
    UpperLiteral(name, Ascii("NUL"));
    if |name| == 4 {
      assert Uppercase(name)[..3] == Uppercase(name[..3]);
      UpperLiteral(name[..3], Ascii("COM"));
      UpperLiteral(name[..3], Ascii("LPT"));
      LastDigit(name[3]);
    }
    hide Uppercase, EqualUpToCase;
    assert |Uppercase(name)| == |name| by { UppercaseLength(name); }
    assert |name| == 4 ==> Uppercase(name)[3] == UpperByte(name[3]) by { if |name| == 4 { UppercaseAt(name, 3); } }
  }

  lemma UppercaseLength(name: bytes)
    ensures |Uppercase(name)| == |name|
  {
  }

  lemma UppercaseAt(name: bytes, i: nat)
    requires i < |name|
    ensures |Uppercase(name)| == |name| && Uppercase(name)[i] == UpperByte(name[i])
  {
  }

  lemma LastDigit(b: byte)
    ensures 49 <= UpperByte(b) <= 57 <==> '1' as int <= b as int <= '9' as int
  {
  }

  predicate PathCharacter(c: char) {
    'A' <= c <= 'Z' || 'a' <= c <= 'z' || '0' <= c <= '9' || c in {'-', '_', '.', '/'}
  }

  /** A name that is not empty, does not end in a dot, and is no device before its first dot. */
  ghost predicate PortableName(name: bytes) {
    && name != [] && name[|name| - 1] != '.' as byte
    && forall n :: Piece(name, '.' as byte, 0, n) ==> !Device(name[..n])
  }

  ghost predicate Portable(path: bytes) {
    && (forall k :: 0 <= k < |path| ==> PathCharacter(path[k] as char))
    && forall i, j :: Piece(path, '/' as byte, i, j) ==> PortableName(path[i..j])
  }

  lemma SegmentIff(segment: bytes)
    ensures ValidSegment(segment) <==> PortableName(segment)
  {
    hide Device, ReservedName, Split, Uppercase;
    FirstPart(segment, 46);
    var n := |Split(segment, 46)[0]|;
    ReservedIff(segment[..n]);
    forall k | Piece(segment, 46, 0, k) ensures k == n {
      PieceUnique(segment, 46, k, n);
    }
  }

  lemma SegmentsIff(path: bytes)
    ensures ValidSegments(Split(path, 47)) <==>
            forall i, j :: Piece(path, '/' as byte, i, j) ==> PortableName(path[i..j])
  {
    hide ValidSegment, PortableName, Piece, Split;
    if ValidSegments(Split(path, 47)) {
      forall i, j | Piece(path, 47, i, j) ensures 0 <= i <= j <= |path| && PortableName(path[i..j]) {
        PieceInside(path, 47, i, j);
        var k := PieceIsPart(path, 47, i, j);
        SegmentIff(path[i..j]);
      }
    }
    if forall i, j :: Piece(path, 47, i, j) ==> 0 <= i <= j <= |path| && PortableName(path[i..j]) {
      forall k | 0 <= k < |Split(path, 47)| ensures ValidSegment(Split(path, 47)[k]) {
        var i, j := PartIsPiece(path, 47, k);
        SegmentIff(path[i..j]);
      }
    }
    assert forall i, j :: Piece(path, 47, i, j) ==> 0 <= i <= j <= |path| by {
      forall i, j | Piece(path, 47, i, j) ensures 0 <= i <= j <= |path| {
        PieceInside(path, 47, i, j);
      }
    }
  }

  lemma PieceInside(s: bytes, separator: byte, i: int, j: int)
    requires Piece(s, separator, i, j)
    ensures 0 <= i <= j <= |s|
  {
  }

  /** The answer to every path. */
  lemma PathVerdict(path: bytes)
    ensures NewPath(path) ==
            if |path| == 0 then Err(EmptyArchivePath)
            else if |path| > 1_024 then Err(ProtocolLimitExceeded)
            else if Portable(path) then Ok(path)
            else Err(InvalidArchivePath)
  {
    hide ValidSegments, Split, PortableName;
    SegmentsIff(path);
    if path != [] {
      EmptyEnds(path);
      AllowedIff(path);
    }
  }

  /** A separator at either end leaves an empty name there. */
  lemma EmptyEnds(path: bytes)
    requires path != []
    ensures path[0] == 47 ==> Piece(path, 47, 0, 0) && !PortableName(path[0..0])
    ensures path[|path| - 1] == 47 ==> Piece(path, 47, |path|, |path|) && !PortableName(path[|path|..|path|])
  {
    hide Device;
  }

  lemma AllowedIff(path: bytes)
    ensures AllowedBytes(path) <==> forall k :: 0 <= k < |path| ==> PathCharacter(path[k] as char)
    ensures AllowedBytes(path) ==> IsAscii(path) && 92 !in path && 58 !in path
  {
  }

  /** Two entries collide exactly when their paths are equal up to case. */
  lemma CollisionIff(a: FileEntry, b: FileEntry)
    ensures CollisionKey(a) == CollisionKey(b) <==> EqualUpToCase(a.path, b.path)
  {
    LowercaseIff(a.path, b.path);
  }

  ghost predicate Clash(entries: seq<FileEntry>, i: int, j: int) {
    0 <= i < j < |entries| && EqualUpToCase(entries[i].path, entries[j].path)
  }

  lemma CollisionFreeIff(entries: seq<FileEntry>)
    ensures CollisionFree(entries) <==> !exists i, j :: Clash(entries, i, j)
  {
    hide CollisionKey, EqualUpToCase;
    forall i, j | 0 <= i < j < |entries|
      ensures CollisionKey(entries[i]) == CollisionKey(entries[j]) <==> Clash(entries, i, j)
    {
      CollisionIff(entries[i], entries[j]);
    }
  }

  /** The answer to every list of entries: the sorted list, or the first objection. */
  lemma CatalogVerdict(entries: seq<FileEntry>)
    ensures match NewCatalog(entries)
            case Ok(files) => multiset(files) == multiset(entries) && StrictlySorted(files) && 0 < |entries| <= 65_536
            case Err(code) => code == if |entries| == 0 then EmptyArchiveFileSet
                                      else if |entries| > 65_536 then ProtocolLimitExceeded
                                      else DuplicateArchivePath
    ensures NewCatalog(entries).Ok? <==> 0 < |entries| <= 65_536 && !exists i, j :: Clash(entries, i, j)
  {
    hide Clash, CollisionFreeBag, StrictlySorted, CollisionFree, SortByPath;
    CatalogCanonical(entries);
    CollisionFreeIsBag(entries);
    CollisionFreeIff(entries);
  }

  // ---------------------------------------------------------------------
  // Manifests
  // ---------------------------------------------------------------------

  ghost predicate AllWhite(text: seq<nat>) {
    forall i :: 0 <= i < |text| ==> WhiteSpace(text[i])
  }

  /** A text is blank exactly when all its characters are white space. */
  lemma {:induction false} BlankIff(s: bytes)
    requires ValidUtf8(s)
    ensures Blank(s) <==> AllWhite(TextOf(s))
  {
    hide WhitespaceLength, CharLength, WhiteSpace;
    if s != [] {
      WhitespaceIff(s);
      var n := CharLength(s);
      BlankIff(s[n..]);
      var rest := TextOf(s[n..]);
      assert TextOf(s) == [FirstScalar(s)] + rest;
      assert forall i :: 1 <= i < |TextOf(s)| ==> TextOf(s)[i] == rest[i - 1];
    }
  }

  /** The path of a file that a manifest may not list. */
  predicate OutOfScope(path: bytes) {
    path == Ascii("archive-manifest.cbor") || StartsWith(path, Ascii("archive-signatures/"))
  }

  /** The answer to every choice of fields. */
  lemma ManifestVerdict(version: nat, electionHash: bytes, algorithm: bytes, lifecycle: Option<bytes>, files: seq<FileEntry>)
    requires ValidUtf8(algorithm)
    ensures NewManifest(version, electionHash, algorithm, lifecycle, files) ==
            if version != 1 && version != 2 then Err(UnsupportedProtocolVersion)
            else if lifecycle != (if version == 2 then Some(Ascii("FINALIZED")) else None) then Err(InvalidArchiveManifest)
            else if AllWhite(TextOf(algorithm)) then Err(EmptyHashAlgorithmId)
            else if |algorithm| > 128 then Err(ProtocolLimitExceeded)
            else if exists i :: 0 <= i < |files| && OutOfScope(files[i].path) then Err(InvalidArchiveManifest)
            else Ok(Manifest(version, electionHash, algorithm, lifecycle, files))
  {
    hide Blank, AllWhite, TextOf, ValidUtf8, Ascii;
    BlankIff(algorithm);
    assert forall i :: 0 <= i < |files| ==> ContentPath(files[i].path) == !OutOfScope(files[i].path);
  }

  /** One listed file: its path and its digest. */
  ghost predicate ListsFile(v: Cbor.Value, e: FileEntry) {
    v == Cbor.Array([Cbor.TextString(e.path), Cbor.ByteString(e.digest)])
  }

  /** The item a manifest is written as. */
  ghost predicate ManifestItem(v: Cbor.Value, m: Manifest, files: seq<Cbor.Value>) {
    && |files| == |m.files| && (forall i :: 0 <= i < |files| ==> ListsFile(files[i], m.files[i]))
    && v == if m.version == 1
            then Cbor.Array([Cbor.Int(1), Cbor.ByteString(m.electionHash), Cbor.TextString(m.algorithm), Cbor.Array(files)])
            else Cbor.Array([Cbor.Int(2), Cbor.ByteString(m.electionHash), Cbor.TextString(m.algorithm),
                             Cbor.TextString(Ascii("FINALIZED")), Cbor.Array(files)])
  }

  lemma {:induction false} FileTreesAre(files: seq<FileEntry>, i: nat)
    requires i < |files|
    ensures ListsFile(FileTrees(files)[i], files[i])
  {
    if i > 0 {
      FileTreesAre(files[1..], i - 1);
    }
  }

  lemma TreeIs(m: Manifest)
    requires m.version == 1 || m.version == 2
    ensures ManifestItem(Tree(m), m, FileTrees(m.files))
  {
    hide FileTrees, ListsFile, Ascii;
    forall i: nat | i < |m.files| ensures ListsFile(FileTrees(m.files)[i], m.files[i]) {
      FileTreesAre(m.files, i);
    }
  }

  /** A manifest's bytes are the deterministic encoding of its item, unless they are too many. */
  lemma ManifestBytes(m: Manifest) returns (v: Cbor.Value)
    requires ValidManifest(m)
    ensures exists files :: ManifestItem(v, m, files)
    ensures Cbor.Encode(v).Ok?
    ensures ToCanonicalCbor(m) ==
            if |Cbor.Encode(v).value| > 1_048_576 then Err(ProtocolLimitExceeded) else Ok(Cbor.Encode(v).value)
  {
    hide ManifestItem, Tree, Body, ValidCatalog, ValidUtf8;
    v := Tree(m);
    TreeIs(m);
    BodyIsTree(m);
  }

  /** The items before the file list, for any values of the fields. */
  function HeaderBytes(fields: nat, version: nat, hash: bytes, algorithm: bytes, state: Option<bytes>, rest: bytes): bytes
    requires fields <= Cbor.MAX_U64 && version <= Cbor.MAX_U64 && |hash| <= Cbor.MAX_U64 && |algorithm| <= Cbor.MAX_U64
    requires state.Some? ==> |state.value| <= Cbor.MAX_U64
  {
    Cbor.Head(4, fields) + (Cbor.Head(0, version) + (StringItem(2, hash) + (StringItem(3, algorithm)
    + ((if state.Some? then StringItem(3, state.value) else []) + rest))))
  }

  /** What the decoder objects to in the fields before the file list. */
  lemma HeaderVerdict(fields: nat, version: nat, hash: bytes, algorithm: bytes, state: Option<bytes>, rest: bytes)
    requires fields <= Cbor.MAX_U64 && version <= Cbor.MAX_U64 && |hash| <= Cbor.MAX_U64 && |algorithm| <= Cbor.MAX_U64
    requires ValidUtf8(algorithm) && (state.Some? <==> version == 2)
    requires state.Some? ==> |state.value| <= Cbor.MAX_U64 && ValidUtf8(state.value)
    ensures ReadHeader(HeaderBytes(fields, version, hash, algorithm, state, rest)) ==
            if fields != 4 && fields != 5 then Err(InvalidCbor)
            else if version > 65_535 then Err(InvalidCbor)
            else if (version == 1 && fields == 5) || (version == 2 && fields == 4) then Err(InvalidCbor)
            else if version != 1 && version != 2 then Err(UnsupportedProtocolVersion)
            else if |hash| != 32 then Err(InvalidCbor)
            else if AllWhite(TextOf(algorithm)) then Err(EmptyHashAlgorithmId)
            else if |algorithm| > 128 then Err(ProtocolLimitExceeded)
            else if version == 2 && state.value != Ascii("FINALIZED") then Err(InvalidArchiveManifest)
            else Ok((Header(version, hash, algorithm, state), rest))
  {
    hide Blank, AllWhite, TextOf, ValidUtf8, Ascii, StringItem, Cbor.Head, ReadArgument, ReadString;
    BlankIff(algorithm);
    var s4 := (if state.Some? then StringItem(3, state.value) else []) + rest;
    var s3 := StringItem(3, algorithm) + s4;
    var s2 := StringItem(2, hash) + s3;
    var s1 := Cbor.Head(0, version) + s2;
    ReadArgumentInverse(4, fields, s1);
    ReadArgumentInverse(0, version, s2);
    ReadStringInverse(2, hash, s3);
    ReadStringInverse(3, algorithm, s4);
    if state.Some? {
      ReadStringInverse(3, state.value, rest);
    } else {
      assert s4 == rest;
    }
  }

  /** The file list after a header, and whatever follows it. */
  function ListBytes(files: seq<FileEntry>, extra: bytes): bytes
    requires ValidEntries(files) && |files| <= Cbor.MAX_U64
  {
    Cbor.Head(4, |files|) + (FilesBytes(files) + extra)
  }

  ghost predicate Descends(files: seq<FileEntry>, i: int) {
    0 <= i < |files| - 1 && PathLess(files[i + 1], files[i])
  }

  /** What the decoder objects to in the file list, after a header it accepts. */
  lemma ListVerdict(s: bytes, h: Header, files: seq<FileEntry>, extra: bytes)
    requires ValidEntries(files) && |files| <= Cbor.MAX_U64 && |s| <= 1_048_576
    requires ReadHeader(s) == Ok((h, ListBytes(files, extra)))
    ensures FromCanonicalCbor(s) ==
            if |files| == 0 then Err(EmptyArchiveFileSet)
            else if |files| > 65_536 then Err(ProtocolLimitExceeded)
            else if extra != [] then Err(TrailingCborData)
            else if exists i :: Descends(files, i) then Err(NonCanonicalCbor)
            else if exists i, j :: Clash(files, i, j) then Err(DuplicateArchivePath)
            else if exists i :: 0 <= i < |files| && OutOfScope(files[i].path) then Err(InvalidArchiveManifest)
            else Ok(Manifest(h.version, h.electionHash, h.algorithm, h.lifecycle, files))
  {
    hide ReadHeader, NeighboursOrdered, NewCatalog, NewManifest, Cbor.Head, FilesBytes, OutOfScope, ReadEntries, ReadArgument, Clash, Descends,
         ValidEntry, Blank, ValidUtf8;
    ReadArgumentInverse(4, |files|, FilesBytes(files) + extra);
    ReadEntriesInverse(files, extra);
    OrderedIff(files);
    ReadHeaderSound(s, h, ListBytes(files, extra));
    CatalogVerdict(files);
    if NeighboursOrdered(files) && NewCatalog(files).Ok? {
      OrderedCatalog(files);
      ScopeVerdict(h, files);
    }
  }

  lemma OrderedIff(files: seq<FileEntry>)
    ensures NeighboursOrdered(files) <==> !exists i :: Descends(files, i)
  {
    hide PathLess;
    if !NeighboursOrdered(files) {
      var i :| 0 <= i < |files| - 1 && PathLess(files[i + 1], files[i]);
      assert Descends(files, i);
    }
  }

  lemma ScopeVerdict(h: Header, files: seq<FileEntry>)
    requires h.version == 1 || h.version == 2
    requires !Blank(h.algorithm) && |h.algorithm| <= 128 && h.lifecycle == if h.version == 2 then Some(FINALIZED) else None
    ensures NewManifest(h.version, h.electionHash, h.algorithm, h.lifecycle, files) ==
            if exists i :: 0 <= i < |files| && OutOfScope(files[i].path) then Err(InvalidArchiveManifest)
            else Ok(Manifest(h.version, h.electionHash, h.algorithm, h.lifecycle, files))
  {
    hide Blank, Ascii;
    assert forall i :: 0 <= i < |files| ==> ContentPath(files[i].path) == !OutOfScope(files[i].path);
  }

  /** Longer input is refused unread. */
  lemma SizeVerdict(s: bytes)
    requires |s| > 1_048_576
    ensures FromCanonicalCbor(s) == Err(ProtocolLimitExceeded)
  {
  }

  // ---------------------------------------------------------------------
  // Directories
  // ---------------------------------------------------------------------

  ghost predicate Unlisted(m: Manifest, path: bytes) {
    forall i :: 0 <= i < |m.files| ==> m.files[i].path != path
  }

  /** The answer to every directory, by its manifest bytes and its files. */
  lemma DirectoryVerdict(p: Provider, dir: Directory)
    ensures dir.manifest == None ==> Establish(p, dir) == Failed(ArchiveManifestStage, MissingFile)
    ensures dir.manifest.Some? && FromCanonicalCbor(dir.manifest.value).Err? ==>
              Establish(p, dir) == Failed(ArchiveManifestStage, Protocol(FromCanonicalCbor(dir.manifest.value).error))
    ensures forall m :: ValidManifest(m) && ToCanonicalCbor(m).Ok? && dir.manifest == Some(ToCanonicalCbor(m).value) ==>
              Establish(p, dir) ==
              if m.algorithm != p.algorithm then Failed(ArchiveManifestStage, Protocol(UnsupportedHashAlgorithm))
              else if exists i :: 0 <= i < |m.files| && m.files[i].path !in dir.files then Failed(CatalogFilesStage, MissingFile)
              else if exists path :: path in dir.files && Unlisted(m, path) then Failed(CatalogFilesStage, UnexpectedFile)
              else if exists i :: 0 <= i < |m.files| && p.fileHash(dir.files[m.files[i].path]) != m.files[i].digest
              then Failed(CatalogFilesStage, Protocol(ArchiveFileDigestMismatch))
              else Established(Identity(p.manifestHash(dir.manifest.value), m, dir.files))
  {
    hide FromCanonicalCbor, ToCanonicalCbor, ValidManifest, Unlisted;
    forall m | ValidManifest(m) && ToCanonicalCbor(m).Ok? && dir.manifest == Some(ToCanonicalCbor(m).value)
      ensures FromCanonicalCbor(dir.manifest.value) == Ok(m)
      ensures Paths(m.files) <= dir.files.Keys <==> !exists i :: 0 <= i < |m.files| && m.files[i].path !in dir.files
      ensures dir.files.Keys <= Paths(m.files) <==> !exists path :: path in dir.files && Unlisted(m, path)
    {
      EncodeThenDecode(m);
      PathsMissing(m.files, dir.files);
      PathsExtra(m, dir.files);
    }
  }

  lemma PathsMissing(files: seq<FileEntry>, disk: map<bytes, bytes>)
    ensures Paths(files) <= disk.Keys <==> !exists i :: 0 <= i < |files| && files[i].path !in disk
  {
    if i :| 0 <= i < |files| && files[i].path !in disk {
      assert files[i].path in Paths(files);
    }
  }

  lemma PathsExtra(m: Manifest, disk: map<bytes, bytes>)
    ensures disk.Keys <= Paths(m.files) <==> !exists path :: path in disk && Unlisted(m, path)
  {
    assert forall path :: path in Paths(m.files) <==> !Unlisted(m, path);
  }
}
