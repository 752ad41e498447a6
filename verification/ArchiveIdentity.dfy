/**
 Re-establishing the identity of an archive directory from its bytes, and the
 rebuild stage that recomputes the manifest from the files just read.
 */
module ArchiveIdentity {
  import opened Bytes
  import opened Utf8
  import opened ArchiveCatalog
  import opened ArchiveManifest

  /** The hash provider: its identifier and its two domain-separated digests. */
  datatype Provider = Provider(algorithm: bytes, fileHash: bytes -> bytes, manifestHash: bytes -> bytes)

  ghost predicate ValidProvider(p: Provider) {
    && ValidUtf8(p.algorithm) && !Blank(p.algorithm) && |p.algorithm| <= MAX_ALGORITHM_BYTES
    && forall b :: |p.fileHash(b)| == 32
  }

  /** What the directory holds: the manifest file, and every content file by its relative path. */
  datatype Directory = Directory(manifest: Option<bytes>, files: map<bytes, bytes>)

  datatype Stage = ArchiveManifestStage | CatalogFilesStage
  datatype Reason = MissingFile | UnexpectedFile | Protocol(code: Code)

  datatype Identity = Identity(archiveHash: bytes, manifest: Manifest, files: map<bytes, bytes>)
  datatype Outcome = Failed(stage: Stage, reason: Reason) | Established(identity: Identity)

  function Paths(files: seq<FileEntry>): set<bytes> {
    set i | 0 <= i < |files| :: files[i].path
  }

  predicate DigestsMatch(p: Provider, entries: seq<FileEntry>, files: map<bytes, bytes>) {
    forall i :: 0 <= i < |entries| ==> entries[i].path in files && p.fileHash(files[entries[i].path]) == entries[i].digest
  }

  /** `canonical_hash`; the encoder cannot refuse a manifest that was just decoded. */
  function ArchiveHash(p: Provider, m: Manifest): Result<bytes, Code>
    requires ValidManifest(m)
  {
    if m.algorithm != p.algorithm then Err(UnsupportedHashAlgorithm) else
    var encoded :- ToCanonicalCbor(m);
    Ok(p.manifestHash(encoded))
  }

  function Establish(p: Provider, dir: Directory): Outcome {
    if dir.manifest.None? then Failed(ArchiveManifestStage, MissingFile) else
    match FromCanonicalCbor(dir.manifest.value)
    case Err(code) => Failed(ArchiveManifestStage, Protocol(code))
    case Ok(m) =>
      if m.algorithm != p.algorithm then Failed(ArchiveManifestStage, Protocol(UnsupportedHashAlgorithm))
      else if !(Paths(m.files) <= dir.files.Keys) then Failed(CatalogFilesStage, MissingFile)
      else if !(dir.files.Keys <= Paths(m.files)) then Failed(CatalogFilesStage, UnexpectedFile)
      else if !DigestsMatch(p, m.files, dir.files) then Failed(CatalogFilesStage, Protocol(ArchiveFileDigestMismatch))
      else Established(Identity(p.manifestHash(dir.manifest.value), m, dir.files))
  }

  /** Files are read, digested and kept one catalog entry at a time. */
  method DigestFiles(p: Provider, entries: seq<FileEntry>, disk: map<bytes, bytes>)
    returns (r: Result<map<bytes, bytes>, Code>)
    requires Paths(entries) <= disk.Keys
    ensures r.Err? <==> !DigestsMatch(p, entries, disk)
    ensures r.Err? ==> r.error == ArchiveFileDigestMismatch
    ensures r.Ok? ==> r.value.Keys == Paths(entries) && forall path :: path in r.value ==> r.value[path] == disk[path]
  {
    var files: map<bytes, bytes>, i := map[], 0;
    while i < |entries|
      invariant 0 <= i <= |entries|
      invariant DigestsMatch(p, entries[..i], disk)
      invariant files.Keys == Paths(entries[..i])
      invariant forall path :: path in files ==> path in disk && files[path] == disk[path]
    {
      var e := entries[i];
      assert e.path in Paths(entries);
      var content := disk[e.path];
      if p.fileHash(content) != e.digest {
        return Err(ArchiveFileDigestMismatch);
      }
      files, i := files[e.path := content], i + 1;
      PathsStep(entries, i);
    }
    assert entries[..i] == entries;
    return Ok(files);
  }

  method EstablishIdentity(p: Provider, dir: Directory) returns (r: Outcome)
    ensures r == Establish(p, dir)
  {
    if dir.manifest.None? {
      return Failed(ArchiveManifestStage, MissingFile);
    }
    hide FromCanonicalCbor, ToCanonicalCbor, ValidManifest, DigestsMatch;
    var decoded := FromCanonicalCbor(dir.manifest.value);
    if decoded.Err? {
      return Failed(ArchiveManifestStage, Protocol(decoded.error));
    }
    var m := decoded.value;
    if m.algorithm != p.algorithm {
      return Failed(ArchiveManifestStage, Protocol(UnsupportedHashAlgorithm));
    }
    DecodeThenEncode(dir.manifest.value);
    var archiveHash := ArchiveHash(p, m);
    assert archiveHash == Ok(p.manifestHash(dir.manifest.value));
    var catalog := Paths(m.files);
    if !(catalog <= dir.files.Keys) {
      return Failed(CatalogFilesStage, MissingFile);
    }
    if !(dir.files.Keys <= catalog) {
      return Failed(CatalogFilesStage, UnexpectedFile);
    }
    var files := DigestFiles(p, m.files, dir.files);
    if files.Err? {
      return Failed(CatalogFilesStage, Protocol(files.error));
    }
    assert files.value == dir.files;
    return Established(Identity(archiveHash.value, m, files.value));
  }

  lemma PathsStep(files: seq<FileEntry>, i: nat)
    requires 0 < i <= |files|
    ensures Paths(files[..i]) == Paths(files[..i - 1]) + {files[i - 1].path}
    ensures files[..i] == files[..i - 1] + [files[i - 1]]
  {
    var a, b := files[..i], files[..i - 1];
    forall x | x in Paths(a)
      ensures x in Paths(b) + {files[i - 1].path}
    {
      var k :| 0 <= k < i && a[k].path == x;
      assert k < i - 1 ==> b[k].path == x;
    }
    forall x | x in Paths(b) + {files[i - 1].path}
      ensures x in Paths(a)
    {
      if x in Paths(b) {
        var k :| 0 <= k < i - 1 && b[k].path == x;
        assert a[k].path == x;
      } else {
        assert a[i - 1].path == x;
      }
    }
  }

  /** What an established identity guarantees about itself. */
  ghost predicate Intact(p: Provider, id: Identity) {
    && ValidManifest(id.manifest) && id.manifest.algorithm == p.algorithm
    && ToCanonicalCbor(id.manifest).Ok? && id.archiveHash == p.manifestHash(ToCanonicalCbor(id.manifest).value)
    && id.files.Keys == Paths(id.manifest.files)
    && DigestsMatch(p, id.manifest.files, id.files)
  }

  /** A directory establishes an identity exactly when it holds that intact identity and nothing else. */
  lemma EstablishedIffIntact(p: Provider, dir: Directory, id: Identity)
    ensures Establish(p, dir) == Established(id) <==>
            Intact(p, id) && dir.manifest == Some(ToCanonicalCbor(id.manifest).value) && dir.files == id.files
  {
    hide FromCanonicalCbor, ToCanonicalCbor, ValidManifest, Paths, DigestsMatch;
    if dir.manifest.Some? {
      DecoderInvertsEncoder(id.manifest, dir.manifest.value);
      if FromCanonicalCbor(dir.manifest.value).Ok? {
        DecoderInvertsEncoder(FromCanonicalCbor(dir.manifest.value).value, dir.manifest.value);
      }
    }
  }

  /**
   A collision between two identities: their manifests have different encodings with one hash,
   or at one path they hold different bytes with one digest.
   */
  ghost predicate Collide(p: Provider, a: Identity, b: Identity) {
    || (&& ValidManifest(a.manifest) && ValidManifest(b.manifest)
        && ToCanonicalCbor(a.manifest).Ok? && ToCanonicalCbor(b.manifest).Ok?
        && ToCanonicalCbor(a.manifest) != ToCanonicalCbor(b.manifest)
        && p.manifestHash(ToCanonicalCbor(a.manifest).value) == p.manifestHash(ToCanonicalCbor(b.manifest).value))
    || exists path :: CollideAt(p, a, b, path)
  }

  predicate CollideAt(p: Provider, a: Identity, b: Identity, path: bytes) {
    && path in a.files && path in b.files
    && a.files[path] != b.files[path] && p.fileHash(a.files[path]) == p.fileHash(b.files[path])
  }

  /** Two intact identities with one archive hash are the same identity, or the two collide. */
  lemma SameHashSameIdentity(p: Provider, a: Identity, b: Identity)
    requires Intact(p, a) && Intact(p, b) && a.archiveHash == b.archiveHash
    ensures a == b || Collide(p, a, b)
  {
    if ToCanonicalCbor(a.manifest) == ToCanonicalCbor(b.manifest) {
      EncodeThenDecode(a.manifest);
      EncodeThenDecode(b.manifest);
      assert a.manifest == b.manifest;
      hide ToCanonicalCbor, FromCanonicalCbor, ValidManifest;
      if a.files != b.files {
        var path :| path in a.files && a.files[path] != b.files[path];
        assert CollideAt(p, a, b, path);
      }
    }
  }

  // ---------------------------------------------------------------------
  // Rebuilding the manifest from the files
  // ---------------------------------------------------------------------

  /** Re-digested entries in the order the file map is iterated. */
  function RebuiltEntries(p: Provider, files: map<bytes, bytes>, order: seq<bytes>): (r: seq<FileEntry>)
    requires forall i :: 0 <= i < |order| ==> order[i] in files
    ensures |r| == |order|
    ensures forall i :: 0 <= i < |order| ==> r[i] == FileEntry(order[i], p.fileHash(files[order[i]]))
  {
    seq(|order|, i requires 0 <= i < |order| => FileEntry(order[i], p.fileHash(files[order[i]])))
  }

  /** The rebuild stage; every constructor error is an I/O failure of the verifier. */
  function Rebuild(p: Provider, id: Identity, electionHash: bytes, order: seq<bytes>): Result<(Manifest, bytes), ()>
    requires forall i :: 0 <= i < |order| ==> order[i] in id.files
  {
    if exists i :: 0 <= i < |order| && !ValidPath(order[i]) then Err(()) else
    match NewCatalog(RebuiltEntries(p, id.files, order))
    case Err(_) => Err(())
    case Ok(files) =>
      var finalized := id.manifest.version == 2 && id.manifest.lifecycle == Some(FINALIZED);
      match NewManifest(if finalized then 2 else 1, electionHash, p.algorithm, if finalized then Some(FINALIZED) else None, files)
      case Err(_) => Err(())
      case Ok(m) =>
        if !ValidManifest(m) then Err(()) else
        match ArchiveHash(p, m)
        case Err(_) => Err(())
        case Ok(h) => Ok((m, h))
  }

  /** `archive_hash_consistent`. */
  function Consistent(id: Identity, rebuilt: (Manifest, bytes)): bool {
    rebuilt.0 == id.manifest && rebuilt.1 == id.archiveHash
  }

  lemma {:induction false} SameElementsSameBag(a: seq<FileEntry>, b: seq<FileEntry>)
    requires forall i, j :: 0 <= i < j < |a| ==> a[i] != a[j]
    requires forall i, j :: 0 <= i < j < |b| ==> b[i] != b[j]
    requires forall e :: e in a <==> e in b
    ensures multiset(a) == multiset(b)
  {
    forall e
      ensures multiset(a)[e] == multiset(b)[e]
    {
      CountAtMostOne(a, e);
      CountAtMostOne(b, e);
      assert e in multiset(a) <==> e in a;
      assert e in multiset(b) <==> e in b;
    }
  }

  /** Re-digesting the files of an intact identity gives back its catalog. */
  lemma RebuiltCatalog(p: Provider, id: Identity, order: seq<bytes>)
    requires Intact(p, id)
    requires forall path :: path in order <==> path in id.files
    requires forall i, j :: 0 <= i < j < |order| ==> order[i] != order[j]
    ensures NewCatalog(RebuiltEntries(p, id.files, order)) == Ok(id.manifest.files)
    ensures forall i :: 0 <= i < |order| ==> ValidPath(order[i])
  {
    var files, rebuilt := id.manifest.files, RebuiltEntries(p, id.files, order);
    forall i | 0 <= i < |order|
      ensures rebuilt[i] in files && ValidPath(order[i])
    {
      assert order[i] in Paths(files);
      var k :| 0 <= k < |files| && files[k].path == order[i];
      assert rebuilt[i] == files[k];
      assert ValidEntry(files[k]);
    }
    forall k | 0 <= k < |files|
      ensures files[k] in rebuilt
    {
      assert files[k].path in Paths(files);
      var i :| 0 <= i < |order| && order[i] == files[k].path;
      assert rebuilt[i] == files[k];
    }
    forall i, j | 0 <= i < j < |files|
      ensures files[i] != files[j]
    {
      assert PathLess(files[i], files[j]);
      LexIrreflexive(files[i].path);
    }
    SameElementsSameBag(rebuilt, files);
    CatalogOrderFree(rebuilt, files);
    CatalogOfCanonical(files);
  }

  lemma SameLengthOtherHash(m: Manifest, electionHash: bytes)
    requires ValidManifest(m) && |electionHash| == 32
    ensures ValidManifest(m.(electionHash := electionHash))
    ensures |Body(m.(electionHash := electionHash))| == |Body(m)|
  {
    hide Blank, ValidPath, StrictlySorted, CollisionFree, FilesBytes;
  }

  /**
   The rebuild stage cannot fail on an intact identity: it reproduces the
   catalog entry for entry, and the archive-hash stage fails exactly when the
   archived election hash differs from the recomputed one.
   */
  lemma RebuildExact(p: Provider, id: Identity, electionHash: bytes, order: seq<bytes>)
    requires ValidProvider(p) && Intact(p, id) && |electionHash| == 32
    requires forall path :: path in order <==> path in id.files
    requires forall i, j :: 0 <= i < j < |order| ==> order[i] != order[j]
    ensures Rebuild(p, id, electionHash, order).Ok?
    ensures var rebuilt := Rebuild(p, id, electionHash, order).value;
            && rebuilt.0 == id.manifest.(electionHash := electionHash)
            && ValidManifest(rebuilt.0) && ToCanonicalCbor(rebuilt.0).Ok?
            && rebuilt.1 == p.manifestHash(ToCanonicalCbor(rebuilt.0).value)
            && (Consistent(id, rebuilt) <==> id.manifest.electionHash == electionHash)
  {
    hide NewCatalog, Blank, ValidPath, Body, ValidCatalog;
    RebuiltCatalog(p, id, order);
    SameLengthOtherHash(id.manifest, electionHash);
  }
}
