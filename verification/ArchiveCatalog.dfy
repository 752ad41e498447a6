/**
 Portable archive paths and the canonical file catalog: entries sorted by exact
 path bytes with no two paths equal up to ASCII case.
 */
module ArchiveCatalog {
  import opened Bytes
  import opened Utf8

  datatype Code =
    | EmptyArchivePath | InvalidArchivePath | ProtocolLimitExceeded
    | EmptyArchiveFileSet | DuplicateArchivePath | ArchiveFileDigestMismatch
    | InvalidCbor | NonCanonicalCbor | UnexpectedCborType | TrailingCborData
    | UnsupportedProtocolVersion | InvalidArchiveManifest | EmptyHashAlgorithmId | UnsupportedHashAlgorithm

  const MAX_PATH_BYTES := 1_024
  const MAX_FILES := 65_536

  // ---------------------------------------------------------------------
  // Paths
  // ---------------------------------------------------------------------

  predicate IsUpper(b: byte) {
    65 <= b <= 90
  }

  predicate IsLower(b: byte) {
    97 <= b <= 122
  }

  predicate AllowedPathByte(b: byte) {
    IsUpper(b) || IsLower(b) || 48 <= b <= 57 || b == 45 || b == 95 || b == 46 || b == 47
  }

  function LowerByte(b: byte): byte {
    if IsUpper(b) then b + 32 else b
  }

  function UpperByte(b: byte): byte {
    if IsLower(b) then b - 32 else b
  }

  function Lowercase(s: bytes): bytes {
    seq(|s|, i requires 0 <= i < |s| => LowerByte(s[i]))
  }

  function Uppercase(s: bytes): bytes {
    seq(|s|, i requires 0 <= i < |s| => UpperByte(s[i]))
  }

  /** `str::split` on one separator byte: always at least one segment. */
  function Split(s: bytes, separator: byte): (r: seq<bytes>)
    ensures r != []
  {
    if s == [] then [[]]
    else
      var tail := Split(s[1..], separator);
      if s[0] == separator then [[]] + tail else [[s[0]] + tail[0]] + tail[1..]
  }

  /** Device names of the portable profile: four fixed ones, and `COM` or `LPT` with a digit from 1 to 9. */
  predicate ReservedName(name: bytes) {
    || name in [Ascii("CON"), Ascii("PRN"), Ascii("AUX"), Ascii("NUL")]
    || (|name| == 4 && name[..3] in [Ascii("COM"), Ascii("LPT")] && 49 <= name[3] <= 57)
  }

  predicate ValidSegment(segment: bytes) {
    && segment != []
    && segment[|segment| - 1] != 46
    && !ReservedName(Uppercase(Split(segment, 46)[0]))
  }

  predicate AllowedBytes(path: bytes) {
    forall i :: 0 <= i < |path| ==> AllowedPathByte(path[i])
  }

  predicate ValidSegments(segments: seq<bytes>) {
    forall i :: 0 <= i < |segments| ==> ValidSegment(segments[i])
  }

  /** `ArchivePathV1::new`. */
  function NewPath(path: bytes): Result<bytes, Code> {
    if path == [] then Err(EmptyArchivePath)
    else if |path| > MAX_PATH_BYTES then Err(ProtocolLimitExceeded)
    else if !IsAscii(path) then Err(InvalidArchivePath)
    else if path[0] == 47 || path[|path| - 1] == 47 then Err(InvalidArchivePath)
    else if 92 in path || 58 in path then Err(InvalidArchivePath)
    else if !AllowedBytes(path) then Err(InvalidArchivePath)
    else if !ValidSegments(Split(path, 47)) then Err(InvalidArchivePath)
    else Ok(path)
  }

  predicate ValidPath(path: bytes) {
    NewPath(path).Ok?
  }

  // ---------------------------------------------------------------------
  // Entries and their stable sort
  // ---------------------------------------------------------------------

  datatype FileEntry = FileEntry(path: bytes, digest: bytes)

  predicate ValidEntry(e: FileEntry) {
    ValidPath(e.path) && |e.digest| == 32
  }

  predicate ValidEntries(s: seq<FileEntry>) {
    forall i :: 0 <= i < |s| ==> ValidEntry(s[i])
  }

  predicate PathLess(a: FileEntry, b: FileEntry) {
    LexLess(a.path, b.path)
  }

  predicate StrictlySorted(s: seq<FileEntry>) {
    forall i, j :: 0 <= i < j < |s| ==> PathLess(s[i], s[j])
  }

  predicate WeaklySorted(s: seq<FileEntry>) {
    forall i, j :: 0 <= i < j < |s| ==> !PathLess(s[j], s[i])
  }

  /** Puts `e` behind every entry of a sorted list whose path is not greater. */
  function Insert(e: FileEntry, s: seq<FileEntry>): (r: seq<FileEntry>)
    ensures multiset(r) == multiset(s) + multiset{e}
  {
    if s == [] || !PathLess(e, s[|s| - 1]) then s + [e]
    else
      assert s == s[..|s| - 1] + [s[|s| - 1]];
      Insert(e, s[..|s| - 1]) + [s[|s| - 1]]
  }

  /** The library's stable sort by path. */
  function SortByPath(s: seq<FileEntry>): (r: seq<FileEntry>)
    ensures multiset(r) == multiset(s) && |r| == |s|
  {
    if s == [] then []
    else
      assert s == s[..|s| - 1] + [s[|s| - 1]];
      var r := Insert(s[|s| - 1], SortByPath(s[..|s| - 1]));
      assert |multiset(r)| == |multiset(s)|;
      r
  }

  lemma {:induction false} InsertSorted(e: FileEntry, s: seq<FileEntry>)
    requires WeaklySorted(s)
    ensures WeaklySorted(Insert(e, s))
  {
    if s == [] {
    } else {
      var last := s[|s| - 1];
      if PathLess(e, last) {
        InsertSorted(e, s[..|s| - 1]);
        var r := Insert(e, s[..|s| - 1]);
        forall i | 0 <= i < |r|
          ensures !PathLess(last, r[i])
        {
          assert r[i] in multiset(r);
          if r[i] == e {
            LexTrichotomy(e.path, last.path);
          } else {
            assert r[i] in multiset(s[..|s| - 1]);
          }
        }
      } else {
        forall i | 0 <= i < |s|
          ensures !PathLess(e, s[i])
        {
          if PathLess(e, s[i]) {
            LexTrichotomy(s[i].path, last.path);
            if s[i].path != last.path {
              LexTransitive(e.path, s[i].path, last.path);
            }
          }
        }
      }
    }
  }

  lemma {:induction false} SortSorted(s: seq<FileEntry>)
    ensures WeaklySorted(SortByPath(s))
  {
    if s != [] {
      SortSorted(s[..|s| - 1]);
      InsertSorted(s[|s| - 1], SortByPath(s[..|s| - 1]));
    }
  }

  // ---------------------------------------------------------------------
  // Collisions
  // ---------------------------------------------------------------------

  function CollisionKey(e: FileEntry): bytes {
    Lowercase(e.path)
  }

  /** No two positions hold paths equal up to ASCII case. */
  predicate CollisionFree(s: seq<FileEntry>) {
    forall i, j :: 0 <= i < j < |s| ==> CollisionKey(s[i]) != CollisionKey(s[j])
  }

  /** The same, said of the unordered collection of entries. */
  ghost predicate CollisionFreeBag(m: multiset<FileEntry>) {
    && (forall e :: e in m ==> m[e] == 1)
    && (forall e, f :: e in m && f in m && e != f ==> CollisionKey(e) != CollisionKey(f))
  }

  lemma TwiceInBag(s: seq<FileEntry>, i: nat, j: nat)
    requires i < j < |s| && s[i] == s[j]
    ensures multiset(s)[s[i]] >= 2
  {
    assert s == s[..i] + [s[i]] + s[i + 1..j] + [s[j]] + s[j + 1..];
  }

  lemma {:induction false} CountAtMostOne(s: seq<FileEntry>, e: FileEntry)
    requires forall i, j :: 0 <= i < j < |s| ==> s[i] != s[j]
    ensures multiset(s)[e] <= 1
  {
    if s != [] {
      var init := s[..|s| - 1];
      assert s == init + [s[|s| - 1]];
      CountAtMostOne(init, e);
    }
  }

  lemma CollisionFreeIsBag(s: seq<FileEntry>)
    ensures CollisionFree(s) <==> CollisionFreeBag(multiset(s))
  {
    if CollisionFree(s) {
      forall e | e in multiset(s)
        ensures multiset(s)[e] == 1
      {
        CountAtMostOne(s, e);
      }
      forall e, f | e in multiset(s) && f in multiset(s) && e != f
        ensures CollisionKey(e) != CollisionKey(f)
      {
        assert e in s && f in s;
      }
    }
    if CollisionFreeBag(multiset(s)) {
      forall i, j | 0 <= i < j < |s|
        ensures CollisionKey(s[i]) != CollisionKey(s[j])
      {
        assert s[i] in multiset(s) && s[j] in multiset(s);
        if s[i] == s[j] {
          TwiceInBag(s, i, j);
        }
      }
    }
  }

  lemma CollisionFreeStrict(s: seq<FileEntry>)
    requires WeaklySorted(s) && CollisionFree(s)
    ensures StrictlySorted(s)
  {
    forall i, j | 0 <= i < j < |s|
      ensures PathLess(s[i], s[j])
    {
      LexTrichotomy(s[i].path, s[j].path);
      assert CollisionKey(s[i]) != CollisionKey(s[j]);
    }
  }

  lemma SameLeast(a: seq<FileEntry>, b: seq<FileEntry>)
    requires StrictlySorted(a) && StrictlySorted(b) && multiset(a) == multiset(b) && a != [] && b != []
    ensures a[0] == b[0]
  {
    assert a[0] in multiset(b) && b[0] in multiset(a);
    var i :| 0 <= i < |b| && b[i] == a[0];
    var j :| 0 <= j < |a| && a[j] == b[0];
    LexTrichotomy(a[0].path, b[0].path);
  }

  /** A strictly sorted list is determined by its entries. */
  lemma {:induction false} StrictUnique(a: seq<FileEntry>, b: seq<FileEntry>)
    requires StrictlySorted(a) && StrictlySorted(b) && multiset(a) == multiset(b)
    ensures a == b
  {
    assert |multiset(a)| == |a| && |multiset(b)| == |b|;
    if a != [] {
      SameLeast(a, b);
      assert a == [a[0]] + a[1..] && b == [b[0]] + b[1..];
      assert multiset(a[1..]) == multiset(a) - multiset{a[0]};
      assert multiset(b[1..]) == multiset(b) - multiset{b[0]};
      StrictUnique(a[1..], b[1..]);
    }
  }

  // ---------------------------------------------------------------------
  // The catalog constructor
  // ---------------------------------------------------------------------

  /** `ArchiveFileCatalogV1::new`: the sorted entries, or the first objection. */
  function NewCatalog(entries: seq<FileEntry>): (r: Result<seq<FileEntry>, Code>)
    ensures r.Ok? ==> multiset(r.value) == multiset(entries)
  {
    if entries == [] then Err(EmptyArchiveFileSet)
    else if |entries| > MAX_FILES then Err(ProtocolLimitExceeded)
    else if !CollisionFree(SortByPath(entries)) then Err(DuplicateArchivePath)
    else Ok(SortByPath(entries))
  }

  /** The constructor as written: sort, then grow a set of lowercased paths. */
  method BuildCatalog(entries: seq<FileEntry>) returns (r: Result<seq<FileEntry>, Code>)
    ensures r == NewCatalog(entries)
  {
    if entries == [] {
      return Err(EmptyArchiveFileSet);
    }
    if |entries| > MAX_FILES {
      return Err(ProtocolLimitExceeded);
    }
    var sorted := SortByPath(entries);
    var portable, i := {}, 0;
    while i < |sorted|
      invariant 0 <= i <= |sorted|
      invariant forall k :: k in portable <==> exists j :: 0 <= j < i && CollisionKey(sorted[j]) == k
      invariant forall j, k :: 0 <= j < k < i ==> CollisionKey(sorted[j]) != CollisionKey(sorted[k])
    {
      var key := CollisionKey(sorted[i]);
      if key in portable {
        return Err(DuplicateArchivePath);
      }
      portable, i := portable + {key}, i + 1;
    }
    return Ok(sorted);
  }

  /** A catalog: what the constructor can return. */
  predicate ValidCatalog(files: seq<FileEntry>) {
    && 0 < |files| <= MAX_FILES
    && StrictlySorted(files) && CollisionFree(files) && ValidEntries(files)
  }

  /**
   A catalog is refused exactly when the entries are none, too many, or two of them have paths
   equal up to ASCII case; an accepted one is strictly sorted, collision-free and a fixed point.
   */
  lemma CatalogCanonical(entries: seq<FileEntry>)
    ensures NewCatalog(entries).Err? <==>
            entries == [] || |entries| > MAX_FILES || !CollisionFreeBag(multiset(entries))
    ensures var r := NewCatalog(entries);
            r.Ok? ==> && StrictlySorted(r.value) && CollisionFree(r.value)
                      && multiset(r.value) == multiset(entries) && NewCatalog(r.value) == r
  {
    SortSorted(entries);
    CollisionFreeIsBag(SortByPath(entries));
    hide CollisionFreeBag, SortByPath;
    if NewCatalog(entries).Ok? {
      CollisionFreeStrict(NewCatalog(entries).value);
      CatalogOrderFree(NewCatalog(entries).value, entries);
    }
  }

  /** Any permutation of the same entries gives the same catalog or the same refusal. */
  lemma CatalogOrderFree(a: seq<FileEntry>, b: seq<FileEntry>)
    requires multiset(a) == multiset(b)
    ensures NewCatalog(a) == NewCatalog(b)
  {
    assert |multiset(a)| == |a| && |multiset(b)| == |b|;
    var sa, sb := SortByPath(a), SortByPath(b);
    SortSorted(a);
    SortSorted(b);
    CollisionFreeIsBag(sa);
    CollisionFreeIsBag(sb);
    if CollisionFree(sa) {
      CollisionFreeStrict(sa);
      CollisionFreeStrict(sb);
      StrictUnique(sa, sb);
    }
  }

  /** Entries already in canonical order are taken over unchanged. */
  lemma CatalogOfCanonical(files: seq<FileEntry>)
    requires 0 < |files| <= MAX_FILES && StrictlySorted(files) && CollisionFree(files)
    ensures NewCatalog(files) == Ok(files)
  {
    var s := SortByPath(files);
    SortSorted(files);
    CollisionFreeIsBag(files);
    CollisionFreeIsBag(s);
    CollisionFreeStrict(s);
    StrictUnique(s, files);
  }
}
