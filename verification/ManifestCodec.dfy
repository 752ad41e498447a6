/** The manifest encoder and decoder as written: a writer that appends and a reader that advances. */
module ManifestCodec {
  import opened Bytes
  import opened Utf8
  import Cbor
  import opened ArchiveCatalog
  import opened ArchiveManifest

  class CanonicalCborWriter {
    var output: bytes

    constructor ()
      ensures output == []
    {
      output := [];
    }

    method WriteArgument(major: Cbor.Major, n: nat)
      requires n <= Cbor.MAX_U64
      modifies this
      ensures output == old(output) + Cbor.Head(major, n)
    {
      output := output + Cbor.Head(major, n);
    }

    method WriteString(major: Cbor.Major, b: bytes)
      requires |b| <= Cbor.MAX_U64
      modifies this
      ensures output == old(output) + StringItem(major, b)
    {
      WriteArgument(major, |b|);
      output := output + b;
    }

    method WriteEntry(e: FileEntry)
      requires ValidEntry(e)
      modifies this
      ensures output == old(output) + FileBytes(e)
    {
      ghost var start := output;
      WriteArgument(4, 2);
      WriteString(3, e.path);
      WriteString(2, e.digest);
      Regroup(start, Cbor.Head(4, 2), StringItem(3, e.path), StringItem(2, e.digest));
    }

    method WriteHeader(m: Manifest)
      requires ValidManifest(m)
      modifies this
      ensures output == old(output) + HeaderBytes(m)
    {
      hide Cbor.Head, StringItem;
      WriteArgument(4, if m.version == 2 then 5 else 4);
      ghost var written := Cbor.Head(4, if m.version == 2 then 5 else 4);
      WriteArgument(0, m.version);
      written := written + Cbor.Head(0, m.version);
      assert output == old(output) + written;
      WriteString(2, m.electionHash);
      written := written + StringItem(2, m.electionHash);
      assert output == old(output) + written;
      WriteString(3, m.algorithm);
      written := written + StringItem(3, m.algorithm);
      assert output == old(output) + written;
      if m.version == 2 {
        WriteString(3, FINALIZED);
      }
      written := written + LifecycleBytes(m);
      assert output == old(output) + written;
      WriteArgument(4, |m.files|);
    }
  }

  lemma Regroup(a: bytes, b: bytes, c: bytes, d: bytes)
    ensures a + b + c + d == a + (b + (c + d))
  {
  }

  /** Everything before the file entries. */
  function HeaderBytes(m: Manifest): bytes
    requires ValidManifest(m)
  {
    Cbor.Head(4, if m.version == 2 then 5 else 4) + Cbor.Head(0, m.version) + StringItem(2, m.electionHash)
    + StringItem(3, m.algorithm) + LifecycleBytes(m) + Cbor.Head(4, |m.files|)
  }

  lemma HeaderThenFiles(m: Manifest)
    requires ValidManifest(m)
    ensures HeaderBytes(m) + FilesBytes(m.files) == Body(m)
  {
    hide StringItem, Cbor.Head, FilesBytes, LifecycleBytes;
    var h, v, e, a, l, n := Cbor.Head(4, if m.version == 2 then 5 else 4), Cbor.Head(0, m.version),
      StringItem(2, m.electionHash), StringItem(3, m.algorithm), LifecycleBytes(m), Cbor.Head(4, |m.files|);
    var files := FilesBytes(m.files);
    Regroup(h + v + e + a, l, n, files);
    Regroup(h, v, e, a + (l + (n + files)));
    Associative(h + v + e, a, l + (n + files));
  }

  method EncodeManifest(m: Manifest) returns (r: Result<bytes, Code>)
    requires ValidManifest(m)
    ensures r == ToCanonicalCbor(m)
  {
    HeaderThenFiles(m);
    hide Body, HeaderBytes, FileBytes, ValidPath;
    var writer := new CanonicalCborWriter();
    writer.WriteHeader(m);
    var i := 0;
    assert m.files[0..] == m.files;
    assert [] + HeaderBytes(m) == HeaderBytes(m);
    while i < |m.files|
      invariant 0 <= i <= |m.files|
      invariant writer.output + FilesBytes(m.files[i..]) == Body(m)
    {
      ghost var before := writer.output;
      writer.WriteEntry(m.files[i]);
      assert m.files[i..][1..] == m.files[i + 1..];
      Associative(before, FileBytes(m.files[i]), FilesBytes(m.files[i + 1..]));
      i := i + 1;
    }
    assert writer.output + [] == writer.output;
    if |writer.output| > MAX_OBJECT_BYTES {
      return Err(ProtocolLimitExceeded);
    }
    return Ok(writer.output);
  }

  class CanonicalCborReader {
    const input: bytes
    var offset: nat

    ghost predicate Valid()
      reads this
    {
      offset <= |input|
    }

    ghost function Unread(): bytes
      reads this
      requires Valid()
    {
      input[offset..]
    }

    constructor (input: bytes)
      ensures Valid() && Unread() == input && this.input == input
    {
      this.input := input;
      offset := 0;
    }

    method Argument(major: Cbor.Major) returns (r: Result<nat, Code>)
      requires Valid()
      modifies this`offset
      ensures Valid()
      ensures match ReadArgument(old(Unread()), major)
              case Ok((n, rest)) => r == Ok(n) && Unread() == rest
              case Err(e) => r == Err(e)
    {
      if offset == |input| {
        return Err(InvalidCbor);
      }
      var initial := input[offset];
      if initial / 32 != major {
        return Err(UnexpectedCborType);
      }
      ghost var body := Unread()[1..];
      offset := offset + 1;
      assert Unread() == body;
      var additional := initial % 32;
      if additional <= 23 {
        return Ok(additional as nat);
      }
      if additional == 31 {
        return Err(NonCanonicalCbor);
      }
      if additional > 27 {
        return Err(InvalidCbor);
      }
      var width := if additional == 24 then 1 else if additional == 25 then 2 else if additional == 26 then 4 else 8;
      var above := if additional == 24 then 23 else if additional == 25 then 0xFF
                   else if additional == 26 then 0xFFFF else 0xFFFF_FFFF;
      if |input| - offset < width {
        return Err(InvalidCbor);
      }
      var value := Cbor.FromBigEndian(input[offset..offset + width]);
      assert input[offset..offset + width] == body[..width];
      if value <= above {
        return Err(NonCanonicalCbor);
      }
      offset := offset + width;
      return Ok(value);
    }

    method String(major: Cbor.Major) returns (r: Result<bytes, Code>)
      requires Valid()
      modifies this`offset
      ensures Valid()
      ensures match ReadString(old(Unread()), major)
              case Ok((b, rest)) => r == Ok(b) && Unread() == rest
              case Err(e) => r == Err(e)
    {
      var length := Argument(major);
      if length.Err? {
        return Err(length.error);
      }
      if |input| - offset < length.value {
        return Err(InvalidCbor);
      }
      var b := input[offset..offset + length.value];
      assert b == Unread()[..length.value];
      offset := offset + length.value;
      if major == 3 && !ValidUtf8(b) {
        return Err(InvalidCbor);
      }
      return Ok(b);
    }

    method Digest() returns (r: Result<bytes, Code>)
      requires Valid()
      modifies this`offset
      ensures Valid()
      ensures match ReadDigest(old(Unread()))
              case Ok((b, rest)) => r == Ok(b) && Unread() == rest
              case Err(e) => r == Err(e)
    {
      r := String(2);
      if r.Ok? && |r.value| != 32 {
        return Err(InvalidCbor);
      }
    }

    method FileEntryItem() returns (r: Result<FileEntry, Code>)
      requires Valid()
      modifies this`offset
      ensures Valid()
      ensures match ReadEntry(old(Unread()))
              case Ok((e, rest)) => r == Ok(e) && Unread() == rest
              case Err(e) => r == Err(e)
    {
      var fields := Argument(4);
      if fields.Err? {
        return Err(fields.error);
      }
      if fields.value != 2 {
        return Err(InvalidCbor);
      }
      var text := String(3);
      if text.Err? {
        return Err(text.error);
      }
      var path := NewPath(text.value);
      if path.Err? {
        return Err(path.error);
      }
      var digest := Digest();
      if digest.Err? {
        return Err(digest.error);
      }
      return Ok(FileEntry(path.value, digest.value));
    }

    method HeaderItems() returns (r: Result<Header, Code>)
      requires Valid()
      modifies this`offset
      ensures Valid()
      ensures match ReadHeader(old(Unread()))
              case Ok((h, rest)) => r == Ok(h) && Unread() == rest
              case Err(e) => r == Err(e)
    {
      var fields := Argument(4);
      if fields.Err? {
        return Err(fields.error);
      }
      if fields.value != 4 && fields.value != 5 {
        return Err(InvalidCbor);
      }
      var version := Argument(0);
      if version.Err? {
        return Err(version.error);
      }
      if version.value > 0xFFFF {
        return Err(InvalidCbor);
      }
      if (version.value == 1 && fields.value != 4) || (version.value == 2 && fields.value != 5) {
        return Err(InvalidCbor);
      }
      if version.value != 1 && version.value != 2 {
        return Err(UnsupportedProtocolVersion);
      }
      var hash := Digest();
      if hash.Err? {
        return Err(hash.error);
      }
      var algorithm := String(3);
      if algorithm.Err? {
        return Err(algorithm.error);
      }
      if Blank(algorithm.value) {
        return Err(EmptyHashAlgorithmId);
      }
      if |algorithm.value| > MAX_ALGORITHM_BYTES {
        return Err(ProtocolLimitExceeded);
      }
      if version.value == 1 {
        return Ok(Header(1, hash.value, algorithm.value, None));
      }
      var state := String(3);
      if state.Err? {
        return Err(state.error);
      }
      if state.value != FINALIZED {
        return Err(InvalidArchiveManifest);
      }
      return Ok(Header(2, hash.value, algorithm.value, Some(FINALIZED)));
    }

    /** The loop over the announced number of file entries. */
    method FileEntries(count: nat) returns (r: Result<seq<FileEntry>, Code>)
      requires Valid()
      modifies this`offset
      ensures Valid()
      ensures match ReadEntries(old(Unread()), count)
              case Ok((entries, rest)) => r == Ok(entries) && Unread() == rest
              case Err(e) => r == Err(e)
    {
      hide ReadEntry;
      var entries: seq<FileEntry>, i := [], 0;
      NothingYet(ReadEntries(Unread(), count));
      while i < count
        invariant Valid() && 0 <= i <= count
        invariant Behind(entries, ReadEntries(Unread(), count - i)) == ReadEntries(old(Unread()), count)
      {
        BehindStep(Unread(), count - i, entries);
        var e := FileEntryItem();
        if e.Err? {
          return Err(e.error);
        }
        entries, i := entries + [e.value], i + 1;
      }
      assert entries + [] == entries;
      return Ok(entries);
    }
  }

  function Behind(done: seq<FileEntry>, r: Result<(seq<FileEntry>, bytes), Code>): Result<(seq<FileEntry>, bytes), Code> {
    match r
    case Ok((more, rest)) => Ok((done + more, rest))
    case Err(e) => Err(e)
  }

  lemma NothingYet(r: Result<(seq<FileEntry>, bytes), Code>)
    ensures Behind([], r) == r
  {
    if r.Ok? {
      assert [] + r.value.0 == r.value.0;
    }
  }

  lemma BehindStep(s: bytes, count: nat, done: seq<FileEntry>)
    requires count > 0
    ensures Behind(done, ReadEntries(s, count)) ==
            match ReadEntry(s)
            case Err(e) => Err(e)
            case Ok((e, rest)) => Behind(done + [e], ReadEntries(rest, count - 1))
  {
    if ReadEntry(s).Ok? {
      var (e, rest) := ReadEntry(s).value;
      if ReadEntries(rest, count - 1).Ok? {
        var (others, _) := ReadEntries(rest, count - 1).value;
        assert done + ([e] + others) == done + [e] + others;
      }
    }
  }

  method InOrder(entries: seq<FileEntry>) returns (ordered: bool)
    ensures ordered == NeighboursOrdered(entries)
  {
    var i := 1;
    while i < |entries|
      invariant 1 <= i && (i <= |entries| || |entries| == 0)
      invariant forall j :: 0 <= j < i - 1 && j < |entries| - 1 ==> !PathLess(entries[j + 1], entries[j])
    {
      if PathLess(entries[i], entries[i - 1]) {
        return false;
      }
      i := i + 1;
    }
    return true;
  }

  method DecodeItems(encoded: bytes) returns (r: Result<(Header, seq<FileEntry>), Code>)
    ensures r == ReadItems(encoded)
  {
    hide ReadHeader, ReadArgument, ReadEntries;
    var reader := new CanonicalCborReader(encoded);
    var header := reader.HeaderItems();
    if header.Err? {
      return Err(header.error);
    }
    var count := reader.Argument(4);
    if count.Err? {
      return Err(count.error);
    }
    if count.value == 0 {
      return Err(EmptyArchiveFileSet);
    }
    if count.value > MAX_FILES {
      return Err(ProtocolLimitExceeded);
    }
    var entries := reader.FileEntries(count.value);
    if entries.Err? {
      return Err(entries.error);
    }
    assert |reader.Unread()| == |encoded| - reader.offset;
    if reader.offset != |encoded| {
      return Err(TrailingCborData);
    }
    return Ok((header.value, entries.value));
  }

  method DecodeManifest(encoded: bytes) returns (r: Result<Manifest, Code>)
    ensures r == FromCanonicalCbor(encoded)
  {
    hide ReadItems, NeighboursOrdered, NewCatalog, NewManifest;
    if |encoded| > MAX_OBJECT_BYTES {
      return Err(ProtocolLimitExceeded);
    }
    var items := DecodeItems(encoded);
    if items.Err? {
      return Err(items.error);
    }
    var (h, entries) := items.value;
    var ordered := InOrder(entries);
    if !ordered {
      return Err(NonCanonicalCbor);
    }
    var files := BuildCatalog(entries);
    if files.Err? {
      return Err(files.error);
    }
    return NewManifest(h.version, h.electionHash, h.algorithm, h.lifecycle, files.value);
  }
}
