/**
 The deterministic CBOR profile: shortest arguments, definite lengths, and map
 keys in length-first order of their encodings (section 4.2.3 of RFC 8949).

 `Encode` and `Decode` specify the encoder and the decoder; the lemmas state
 that they are mutual inverses and that encodings are prefix-free.
 */
module Cbor {
  import opened Bytes
  import opened Utf8
  import opened Arithmetic

  datatype Value =
    | Int(n: int)
    | ByteString(b: bytes)
    | TextString(t: bytes)
    | Array(items: seq<Value>)
    | Map(entries: seq<Entry>)
    | Bool(v: bool)
    | OtherType

  datatype Entry = Entry(key: Value, value: Value)

  datatype Error =
    | NegativeInteger | ArgumentRange | TextNotUtf8 | DuplicateKey | KeyOrder | UnsupportedType
    | Truncated | NotShortest | IndefiniteLength | ReservedInformation | UnsupportedMajor
    | TooDeep | TooLarge | TrailingBytes

  const MAX_U64 := 0xFFFF_FFFF_FFFF_FFFF
  const MAX_INPUT_BYTES := 1_048_576
  const MAX_DEPTH := 64

  // ---------------------------------------------------------------------
  // Arguments
  // ---------------------------------------------------------------------

  /** `w` bytes, most significant first. */
  function BigEndian(n: nat, w: nat): (r: bytes)
    ensures |r| == w
  {
    if w == 0 then [] else BigEndian(n / 256, w - 1) + [(n % 256) as byte]
  }

  function FromBigEndian(s: bytes): nat {
    if s == [] then 0 else 256 * FromBigEndian(s[..|s| - 1]) + s[|s| - 1] as int
  }

  lemma {:induction false} BigEndianInverse(n: nat, w: nat)
    requires n < Pow256(w)
    ensures FromBigEndian(BigEndian(n, w)) == n
  {
    if w > 0 {
      BigEndianInverse(n / 256, w - 1);
      assert BigEndian(n, w)[..w - 1] == BigEndian(n / 256, w - 1);
    }
  }

  lemma {:induction false} FromBigEndianInverse(s: bytes)
    ensures FromBigEndian(s) < Pow256(|s|)
    ensures BigEndian(FromBigEndian(s), |s|) == s
  {
    if s != [] {
      FromBigEndianInverse(s[..|s| - 1]);
      assert s == s[..|s| - 1] + [s[|s| - 1]];
    }
  }

  lemma Pow256Values()
    ensures Pow256(1) == 0x100 && Pow256(2) == 0x1_0000 && Pow256(4) == 0x1_0000_0000
    ensures Pow256(8) == 0x1_0000_0000_0000_0000
  {
    assert Pow256(3) == 0x100_0000;
    assert Pow256(5) == 256 * Pow256(4);
    assert Pow256(6) == 256 * Pow256(5);
    assert Pow256(7) == 256 * Pow256(6);
  }

  type Major = m: byte | m < 8

  /** Initial byte plus the shortest spelling of the argument. */
  function Head(major: Major, n: nat): (r: bytes)
    requires n <= MAX_U64
    ensures r != []
  {
    if n <= 23 then [32 * major + n as byte]
    else if n <= 0xFF then [32 * major + 24, n as byte]
    else if n <= 0xFFFF then [32 * major + 25] + BigEndian(n, 2)
    else if n <= 0xFFFF_FFFF then [32 * major + 26] + BigEndian(n, 4)
    else [32 * major + 27] + BigEndian(n, 8)
  }

  function EncodeArgument(major: Major, n: nat): Result<bytes, Error> {
    if n <= MAX_U64 then Ok(Head(major, n)) else Err(ArgumentRange)
  }

  /** Reads `w` big-endian bytes and refuses a value a shorter form could hold. */
  function ReadWide(s: bytes, w: nat, above: nat): Result<(nat, bytes), Error> {
    if |s| < w then Err(Truncated)
    else if FromBigEndian(s[..w]) <= above then Err(NotShortest)
    else Ok((FromBigEndian(s[..w]), s[w..]))
  }

  /** The argument announced by the low five bits of the initial byte. */
  function ReadArgument(s: bytes, additional: byte): (r: Result<(nat, bytes), Error>)
    requires additional < 32
    ensures r.Ok? ==> |r.value.1| <= |s|
  {
    if additional <= 23 then Ok((additional as nat, s))
    else if additional == 24 then ReadWide(s, 1, 23)
    else if additional == 25 then ReadWide(s, 2, 0xFF)
    else if additional == 26 then ReadWide(s, 4, 0xFFFF)
    else if additional == 27 then ReadWide(s, 8, 0xFFFF_FFFF)
    else if additional == 31 then Err(IndefiniteLength)
    else Err(ReservedInformation)
  }

  /** The initial byte and argument at the front of `s`. */
  function ReadHead(s: bytes): (r: Result<(Major, nat, bytes), Error>)
    ensures r.Ok? ==> |r.value.2| < |s|
  {
    if s == [] then Err(Truncated)
    else
      var arg :- ReadArgument(s[1..], s[0] % 32);
      Ok((s[0] / 32, arg.0, arg.1))
  }

  lemma ReadWideInverse(n: nat, w: nat, above: nat, rest: bytes)
    requires above < n < Pow256(w)
    ensures ReadWide(BigEndian(n, w) + rest, w, above) == Ok((n, rest))
  {
    BigEndianInverse(n, w);
    var s := BigEndian(n, w) + rest;
    assert s[..w] == BigEndian(n, w) && s[w..] == rest;
  }

  lemma ReadHeadWide(major: Major, code: byte, n: nat, w: nat, above: nat, rest: bytes)
    requires (code, w, above) in {(24, 1, 23), (25, 2, 0xFF), (26, 4, 0xFFFF), (27, 8, 0xFFFF_FFFF)}
    requires above < n < Pow256(w)
    ensures ReadHead([32 * major + code] + BigEndian(n, w) + rest) == Ok((major, n, rest))
  {
    var s := [32 * major + code] + BigEndian(n, w) + rest;
    assert s[1..] == BigEndian(n, w) + rest;
    ReadWideInverse(n, w, above, rest);
    assert s[0] % 32 == code && s[0] / 32 == major;
  }

  lemma ReadHeadInverse(major: Major, n: nat, rest: bytes)
    requires n <= MAX_U64
    ensures ReadHead(Head(major, n) + rest) == Ok((major, n, rest))
    ensures (Head(major, n) + rest)[0] / 32 == major
  {
    Pow256Values();
    if n <= 23 {
      assert (Head(major, n) + rest)[1..] == rest;
    } else if n <= 0xFF {
      assert BigEndian(n, 1) == [n as byte];
      assert Head(major, n) == [32 * major + 24] + BigEndian(n, 1);
      ReadHeadWide(major, 24, n, 1, 23, rest);
    } else if n <= 0xFFFF {
      ReadHeadWide(major, 25, n, 2, 0xFF, rest);
    } else if n <= 0xFFFF_FFFF {
      ReadHeadWide(major, 26, n, 4, 0xFFFF, rest);
    } else {
      ReadHeadWide(major, 27, n, 8, 0xFFFF_FFFF, rest);
    }
  }

  lemma ReadHeadSound(s: bytes)
    requires ReadHead(s).Ok?
    ensures var (major, n, rest) := ReadHead(s).value;
            n <= MAX_U64 && s == Head(major, n) + rest
  {
    Pow256Values();
    var (major, n, rest) := ReadHead(s).value;
    var additional := s[0] % 32;
    assert s == [s[0]] + s[1..];
    if additional >= 24 {
      var w := if additional == 24 then 1 else if additional == 25 then 2 else if additional == 26 then 4 else 8;
      var wide := s[1..][..w];
      FromBigEndianInverse(wide);
      assert s[1..] == wide + rest;
      if w == 1 {
        assert wide == [n as byte];
      }
    }
  }

  // ---------------------------------------------------------------------
  // The encoder
  // ---------------------------------------------------------------------

  /** Length-first order of encoded map keys. */
  predicate KeyLess(a: bytes, b: bytes) {
    |a| < |b| || (|a| == |b| && LexLess(a, b))
  }

  function Encode(v: Value): (r: Result<bytes, Error>)
    ensures r.Ok? ==> r.value != []
    decreases v, 1
  {
    match v
    case Bool(b) => Ok([if b then 0xF5 else 0xF4])
    case Int(n) => if n < 0 then Err(NegativeInteger) else EncodeArgument(0, n)
    case ByteString(b) =>
      var head :- EncodeArgument(2, |b|);
      Ok(head + b)
    case TextString(t) =>
      if !ValidUtf8(t) then Err(TextNotUtf8) else
      var head :- EncodeArgument(3, |t|);
      Ok(head + t)
    case Array(items) =>
      var head :- EncodeArgument(4, |items|);
      var body :- EncodeItems(items);
      Ok(head + body)
    case Map(entries) =>
      var body :- EncodeEntries(entries, {}, None);
      var head :- EncodeArgument(5, |entries|);
      Ok(head + body)
    case OtherType => Err(UnsupportedType)
  }

  function EncodeItems(items: seq<Value>): Result<bytes, Error>
    decreases items, 0
  {
    if items == [] then Ok([]) else
      var first :- Encode(items[0]);
      var others :- EncodeItems(items[1..]);
      Ok(first + others)
  }

  /** The map loop: `seen` holds the keys so far and `previous` the last one. */
  function EncodeEntries(entries: seq<Entry>, seen: set<bytes>, previous: Option<bytes>): Result<bytes, Error>
    decreases entries, 0
  {
    if entries == [] then Ok([]) else
      var entry :- EncodeEntry(entries[0]);
      if entry.0 in seen then Err(DuplicateKey)
      else if previous.Some? && !KeyLess(previous.value, entry.0) then Err(KeyOrder)
      else
        var others :- EncodeEntries(entries[1..], seen + {entry.0}, Some(entry.0));
        Ok(entry.0 + entry.1 + others)
  }

  function EncodeEntry(entry: Entry): Result<(bytes, bytes), Error>
    decreases entry, 2
  {
    var key :- Encode(entry.key);
    var value :- Encode(entry.value);
    Ok((key, value))
  }

  // ---------------------------------------------------------------------
  // The decoder
  // ---------------------------------------------------------------------

  /** One item at the front of `s`, at nesting `depth`; yields the value and the unread bytes. */
  function Decode(s: bytes, depth: nat, limit: nat): (r: Result<(Value, bytes), Error>)
    ensures r.Ok? ==> |r.value.1| < |s|
    decreases |s|, 0
  {
    if depth > limit then Err(TooDeep)
    else if s == [] then Err(Truncated)
    else
      var major := s[0] / 32;
      if major == 0 then
        var head :- ReadHead(s);
        Ok((Int(head.1), head.2))
      else if major == 2 || major == 3 then
        var head :- ReadHead(s);
        if |head.2| < head.1 then Err(Truncated)
        else if major == 2 then Ok((ByteString(head.2[..head.1]), head.2[head.1..]))
        else if !ValidUtf8(head.2[..head.1]) then Err(TextNotUtf8)
        else Ok((TextString(head.2[..head.1]), head.2[head.1..]))
      else if major == 4 then
        var head :- ReadHead(s);
        var items :- DecodeItems(head.2, head.1, depth + 1, limit);
        Ok((Array(items.0), items.1))
      else if major == 5 then
        var head :- ReadHead(s);
        var entries :- DecodeEntries(head.2, head.1, depth + 1, limit, {}, None);
        Ok((Map(entries.0), entries.1))
      else if major == 7 && (s[0] % 32 == 20 || s[0] % 32 == 21) then
        Ok((Bool(s[0] % 32 == 21), s[1..]))
      else if major == 1 then Err(NegativeInteger)
      else Err(UnsupportedMajor)
  }

  function DecodeItems(s: bytes, count: nat, depth: nat, limit: nat): (r: Result<(seq<Value>, bytes), Error>)
    ensures r.Ok? ==> |r.value.1| <= |s| && |r.value.0| == count
    decreases |s|, 1
  {
    if count == 0 then Ok(([], s)) else
      var item :- Decode(s, depth, limit);
      var others :- DecodeItems(item.1, count - 1, depth, limit);
      Ok(([item.0] + others.0, others.1))
  }

  /** One key, checked against the keys before it, and its value; also yields the key's own bytes. */
  function DecodeEntry(s: bytes, depth: nat, limit: nat, seen: set<bytes>, previous: Option<bytes>)
    : (r: Result<(Entry, bytes, bytes), Error>)
    ensures r.Ok? ==> |r.value.2| < |s|
    decreases |s|, 1
  {
    var key :- Decode(s, depth, limit);
    var raw := s[..|s| - |key.1|];
    if raw in seen then Err(DuplicateKey)
    else if previous.Some? && !KeyLess(previous.value, raw) then Err(KeyOrder)
    else
      var value :- Decode(key.1, depth, limit);
      Ok((Entry(key.0, value.0), raw, value.1))
  }

  function DecodeEntries(s: bytes, count: nat, depth: nat, limit: nat, seen: set<bytes>, previous: Option<bytes>)
    : (r: Result<(seq<Entry>, bytes), Error>)
    ensures r.Ok? ==> |r.value.1| <= |s| && |r.value.0| == count
    decreases |s|, 2
  {
    if count == 0 then Ok(([], s)) else
      var entry :- DecodeEntry(s, depth, limit, seen, previous);
      var others :- DecodeEntries(entry.2, count - 1, depth, limit, seen + {entry.1}, Some(entry.1));
      Ok(([entry.0] + others.0, others.1))
  }

  function DecodeCanonical(s: bytes): Result<Value, Error> {
    if |s| > MAX_INPUT_BYTES then Err(TooLarge) else
      var item :- Decode(s, 0, MAX_DEPTH);
      if item.1 != [] then Err(TrailingBytes) else Ok(item.0)
  }

  // ---------------------------------------------------------------------
  // Nesting
  // ---------------------------------------------------------------------

  /** Container levels above the deepest item of `v`. */
  function Depth(v: Value): nat
    decreases v, 1
  {
    match v
    case Array(items) => ItemsDepth(items)
    case Map(entries) => EntriesDepth(entries)
    case _ => 0
  }

  /** 0 when there are no items, otherwise one more than the deepest item. */
  function ItemsDepth(items: seq<Value>): nat
    decreases items, 0
  {
    if items == [] then 0 else Max(1 + Depth(items[0]), ItemsDepth(items[1..]))
  }

  function EntryDepth(entry: Entry): nat
    decreases entry, 2
  {
    Max(Depth(entry.key), Depth(entry.value))
  }

  function EntriesDepth(entries: seq<Entry>): nat
    decreases entries, 0
  {
    if entries == [] then 0
    else Max(1 + EntryDepth(entries[0]), EntriesDepth(entries[1..]))
  }

  // ---------------------------------------------------------------------
  // Whatever is decoded re-encodes to the bytes read
  // ---------------------------------------------------------------------

  /** `s` is the encoding of `v` followed by `rest`. */
  predicate Spells(v: Value, s: bytes, rest: bytes) {
    Encode(v).Ok? && s == Encode(v).value + rest
  }

  predicate SpellsItems(items: seq<Value>, s: bytes, rest: bytes) {
    EncodeItems(items).Ok? && s == EncodeItems(items).value + rest
  }

  predicate SpellsEntries(entries: seq<Entry>, seen: set<bytes>, previous: Option<bytes>, s: bytes, rest: bytes) {
    EncodeEntries(entries, seen, previous).Ok? && s == EncodeEntries(entries, seen, previous).value + rest
  }

  lemma SpellsArray(items: seq<Value>, s: bytes, body: bytes, rest: bytes)
    requires ReadHead(s) == Ok((4, |items|, body)) && SpellsItems(items, body, rest)
    ensures Spells(Array(items), s, rest)
  {
    ReadHeadSound(s);
    assert s == Head(4, |items|) + EncodeItems(items).value + rest;
  }

  lemma SpellsMap(entries: seq<Entry>, s: bytes, body: bytes, rest: bytes)
    requires ReadHead(s) == Ok((5, |entries|, body)) && SpellsEntries(entries, {}, None, body, rest)
    ensures Spells(Map(entries), s, rest)
  {
    ReadHeadSound(s);
    assert s == Head(5, |entries|) + EncodeEntries(entries, {}, None).value + rest;
  }

  lemma SpellsString(s: bytes, body: bytes, n: nat)
    requires n <= |body|
    ensures ReadHead(s) == Ok((2, n, body)) ==> Spells(ByteString(body[..n]), s, body[n..])
    ensures ReadHead(s) == Ok((3, n, body)) && ValidUtf8(body[..n]) ==> Spells(TextString(body[..n]), s, body[n..])
  {
    assert body == body[..n] + body[n..];
    if ReadHead(s) == Ok((2, n, body)) {
      ReadHeadSound(s);
      assert s == Head(2, n) + body[..n] + body[n..];
    } else if ReadHead(s) == Ok((3, n, body)) {
      ReadHeadSound(s);
      assert s == Head(3, n) + body[..n] + body[n..];
    }
  }

  lemma {:induction false} DecodeSound(s: bytes, depth: nat, limit: nat, v: Value, rest: bytes)
    requires Decode(s, depth, limit) == Ok((v, rest))
    ensures Spells(v, s, rest) && depth + Depth(v) <= limit
    decreases |s|, 0
  {
    if v.Bool? {
      assert s == [s[0]] + rest;
    } else {
      var (major, n, body) := ReadHead(s).value;
      match v
      case Int(_) =>
        ReadHeadSound(s);
      case Array(items) =>
        ItemsSound(body, n, depth + 1, limit, items, rest);
        SpellsArray(items, s, body, rest);
      case Map(entries) =>
        EntriesSound(body, n, depth + 1, limit, {}, None, entries, rest);
        SpellsMap(entries, s, body, rest);
      case _ =>
        SpellsString(s, body, n);
    }
  }

  lemma {:induction false} ItemsSound(s: bytes, count: nat, depth: nat, limit: nat, items: seq<Value>, rest: bytes)
    requires depth > 0 && depth <= limit + 1 && DecodeItems(s, count, depth, limit) == Ok((items, rest))
    ensures SpellsItems(items, s, rest) && depth - 1 + ItemsDepth(items) <= limit
    decreases |s|, 1
  {
    hide Decode, Encode, Depth;
    if count > 0 {
      var (v, after) := Decode(s, depth, limit).value;
      var (others, _) := DecodeItems(after, count - 1, depth, limit).value;
      DecodeSound(s, depth, limit, v, after);
      ItemsSound(after, count - 1, depth, limit, others, rest);
      assert items[1..] == others;
      assert s == Encode(v).value + EncodeItems(others).value + rest;
    }
  }

  lemma {:induction false} EntrySound(s: bytes, depth: nat, limit: nat, seen: set<bytes>, previous: Option<bytes>,
                                      entry: Entry, raw: bytes, rest: bytes)
    requires DecodeEntry(s, depth, limit, seen, previous) == Ok((entry, raw, rest))
    ensures EncodeEntry(entry).Ok? && EncodeEntry(entry).value.0 == raw
    ensures s == raw + EncodeEntry(entry).value.1 + rest && depth + EntryDepth(entry) <= limit
    decreases |s|, 1
  {
    var afterKey := Decode(s, depth, limit).value.1;
    DecodeSound(s, depth, limit, entry.key, afterKey);
    DecodeSound(afterKey, depth, limit, entry.value, rest);
  }

  lemma {:induction false} EntriesSound(s: bytes, count: nat, depth: nat, limit: nat, seen: set<bytes>,
                                        previous: Option<bytes>, entries: seq<Entry>, rest: bytes)
    requires depth > 0 && depth <= limit + 1
    requires DecodeEntries(s, count, depth, limit, seen, previous) == Ok((entries, rest))
    ensures SpellsEntries(entries, seen, previous, s, rest) && depth - 1 + EntriesDepth(entries) <= limit
    decreases |s|, 2
  {
    hide EncodeEntry, EntryDepth, Decode, Encode;
    if count > 0 {
      var (entry, raw, after) := DecodeEntry(s, depth, limit, seen, previous).value;
      EntrySound(s, depth, limit, seen, previous, entry, raw, after);
      var others := entries[1..];
      EntriesSound(after, count - 1, depth, limit, seen + {raw}, Some(raw), others, rest);
      assert s == raw + EncodeEntry(entry).value.1 + EncodeEntries(others, seen + {raw}, Some(raw)).value + rest;
    }
  }

  // ---------------------------------------------------------------------
  // Whatever is encoded decodes to the value written
  // ---------------------------------------------------------------------

  lemma HeadThenBody(major: Major, n: nat, body: bytes, rest: bytes)
    requires n <= MAX_U64
    ensures ReadHead(Head(major, n) + body + rest) == Ok((major, n, body + rest))
    ensures (body + rest)[..|body|] == body && (body + rest)[|body|..] == rest
    ensures (Head(major, n) + body + rest)[0] / 32 == major
  {
    ReadHeadInverse(major, n, body + rest);
    assert Head(major, n) + body + rest == Head(major, n) + (body + rest);
  }

  lemma NumberComplete(v: Value, rest: bytes, depth: nat, limit: nat)
    requires Encode(v).Ok? && depth <= limit && (v.Int? || v.Bool?)
    ensures Decode(Encode(v).value + rest, depth, limit) == Ok((v, rest))
  {
    if v.Int? {
      ReadHeadInverse(0, v.n, rest);
    } else {
      assert (Encode(v).value + rest)[1..] == rest;
    }
  }

  lemma StringComplete(v: Value, rest: bytes, depth: nat, limit: nat)
    requires Encode(v).Ok? && depth <= limit && (v.ByteString? || v.TextString?)
    ensures Decode(Encode(v).value + rest, depth, limit) == Ok((v, rest))
  {
    if v.ByteString? {
      HeadThenBody(2, |v.b|, v.b, rest);
    } else {
      HeadThenBody(3, |v.t|, v.t, rest);
    }
  }

  lemma DecodeOfBody(s: bytes, n: nat, body: bytes, depth: nat, limit: nat)
    requires depth <= limit && s != [] && ReadHead(s) == Ok((s[0] / 32, n, body))
    ensures s[0] / 32 == 4 && DecodeItems(body, n, depth + 1, limit).Ok? ==>
              var (items, rest) := DecodeItems(body, n, depth + 1, limit).value;
              Decode(s, depth, limit) == Ok((Array(items), rest))
    ensures s[0] / 32 == 5 && DecodeEntries(body, n, depth + 1, limit, {}, None).Ok? ==>
              var (entries, rest) := DecodeEntries(body, n, depth + 1, limit, {}, None).value;
              Decode(s, depth, limit) == Ok((Map(entries), rest))
  {
  }

  lemma {:induction false} EncodeComplete(v: Value, rest: bytes, depth: nat, limit: nat)
    requires Encode(v).Ok? && depth + Depth(v) <= limit
    ensures Decode(Encode(v).value + rest, depth, limit) == Ok((v, rest))
    decreases v, 1
  {
    var s := Encode(v).value + rest;
    if v.Array? {
      var body := EncodeItems(v.items).value;
      ItemsComplete(v.items, rest, depth + 1, limit);
      HeadThenBody(4, |v.items|, body, rest);
      DecodeOfBody(s, |v.items|, body + rest, depth, limit);
    } else if v.Map? {
      var body := EncodeEntries(v.entries, {}, None).value;
      EntriesComplete(v.entries, rest, depth + 1, limit, {}, None);
      HeadThenBody(5, |v.entries|, body, rest);
      DecodeOfBody(s, |v.entries|, body + rest, depth, limit);
    } else if v.Int? || v.Bool? {
      NumberComplete(v, rest, depth, limit);
    } else {
      StringComplete(v, rest, depth, limit);
    }
  }

  lemma {:induction false} ItemsComplete(items: seq<Value>, rest: bytes, depth: nat, limit: nat)
    requires EncodeItems(items).Ok? && depth > 0 && depth - 1 + ItemsDepth(items) <= limit
    ensures DecodeItems(EncodeItems(items).value + rest, |items|, depth, limit) == Ok((items, rest))
    decreases items, 0
  {
    if items == [] {
      assert [] + rest == rest;
    } else {
      var first, others := Encode(items[0]).value, EncodeItems(items[1..]).value;
      assert first + others + rest == first + (others + rest);
      EncodeComplete(items[0], others + rest, depth, limit);
      ItemsComplete(items[1..], rest, depth, limit);
      assert items == [items[0]] + items[1..];
    }
  }

  lemma {:induction false} EntryComplete(entry: Entry, after: bytes, depth: nat, limit: nat,
                                         seen: set<bytes>, previous: Option<bytes>)
    requires EncodeEntry(entry).Ok? && depth + EntryDepth(entry) <= limit
    requires EncodeEntry(entry).value.0 !in seen
    requires previous.Some? ==> KeyLess(previous.value, EncodeEntry(entry).value.0)
    ensures var (key, value) := EncodeEntry(entry).value;
            DecodeEntry(key + (value + after), depth, limit, seen, previous) == Ok((entry, key, after))
    decreases entry, 2
  {
    var (key, value) := EncodeEntry(entry).value;
    EncodeComplete(entry.key, value + after, depth, limit);
    EncodeComplete(entry.value, after, depth, limit);
    var s := key + (value + after);
    assert s[..|s| - |value + after|] == key;
  }

  lemma {:induction false} EntriesComplete(entries: seq<Entry>, rest: bytes, depth: nat, limit: nat,
                                           seen: set<bytes>, previous: Option<bytes>)
    requires EncodeEntries(entries, seen, previous).Ok? && depth > 0 && depth - 1 + EntriesDepth(entries) <= limit
    ensures DecodeEntries(EncodeEntries(entries, seen, previous).value + rest, |entries|, depth, limit, seen, previous)
         == Ok((entries, rest))
    decreases entries, 0
  {
    if entries == [] {
      assert [] + rest == rest;
    } else {
      var (key, value) := EncodeEntry(entries[0]).value;
      var after := EncodeEntries(entries[1..], seen + {key}, Some(key)).value + rest;
      var s := EncodeEntries(entries, seen, previous).value + rest;
      assert s == key + (value + after);
      EntryComplete(entries[0], after, depth, limit, seen, previous);
      EntriesComplete(entries[1..], rest, depth, limit, seen + {key}, Some(key));
      assert entries == [entries[0]] + entries[1..];
    }
  }

  // ---------------------------------------------------------------------
  // The codec theorems
  // ---------------------------------------------------------------------

  /** Every accepted byte string is the encoding of the value it yields, nested at most 64 deep. */
  lemma DecodeThenEncode(s: bytes)
    requires DecodeCanonical(s).Ok?
    ensures Encode(DecodeCanonical(s).value) == Ok(s)
    ensures Depth(DecodeCanonical(s).value) <= MAX_DEPTH
  {
    var (v, rest) := Decode(s, 0, MAX_DEPTH).value;
    DecodeSound(s, 0, MAX_DEPTH, v, rest);
    assert Encode(v).value + [] == Encode(v).value;
  }

  /** An encodable value decodes back to itself exactly when it fits the size and nesting limits. */
  lemma EncodeThenDecode(v: Value)
    requires Encode(v).Ok?
    ensures DecodeCanonical(Encode(v).value) == Ok(v)
       <==> |Encode(v).value| <= 1_048_576 && Depth(v) <= 64
  {
    var s := Encode(v).value;
    if |s| <= MAX_INPUT_BYTES && Depth(v) <= MAX_DEPTH {
      EncodeComplete(v, [], 0, MAX_DEPTH);
      assert s + [] == s;
    } else if DecodeCanonical(s) == Ok(v) {
      DecodeThenEncode(s);
    }
  }

  /** No encoding is a prefix of another value's encoding, at any size and nesting. */
  lemma PrefixFree(v: Value, w: Value)
    requires Encode(v).Ok? && Encode(w).Ok?
    requires Encode(v).value <= Encode(w).value
    ensures v == w
  {
    var a, b := Encode(v).value, Encode(w).value;
    var limit := Max(Depth(v), Depth(w));
    EncodeComplete(v, b[|a|..], 0, limit);
    EncodeComplete(w, [], 0, limit);
    assert a + b[|a|..] == b == b + [];
  }

  // ---------------------------------------------------------------------
  // What the map loop accepts
  // ---------------------------------------------------------------------

  predicate AllEncodable(entries: seq<Entry>) {
    forall i :: 0 <= i < |entries| ==> EncodeEntry(entries[i]).Ok?
  }

  /** Encoded keys strictly ascend, length first. */
  predicate Ascending(entries: seq<Entry>)
    requires AllEncodable(entries)
  {
    forall i, j :: 0 <= i < j < |entries| ==>
      KeyLess(EncodeEntry(entries[i]).value.0, EncodeEntry(entries[j]).value.0)
  }

  lemma KeyLessTransitive(a: bytes, b: bytes, c: bytes)
    requires KeyLess(a, b) && KeyLess(b, c)
    ensures KeyLess(a, c) && a != c
  {
    if |a| == |c| {
      LexTransitive(a, b, c);
    }
    LexIrreflexive(a);
  }

  /** With ascending keys behind it, the loop goes through exactly when the rest ascends too. */
  lemma {:induction false} EntriesAscend(entries: seq<Entry>, seen: set<bytes>, previous: Option<bytes>)
    requires previous.None? ==> seen == {}
    requires previous.Some? ==> forall k :: k in seen ==> k == previous.value || KeyLess(k, previous.value)
    ensures EncodeEntries(entries, seen, previous).Ok? <==>
            && AllEncodable(entries) && Ascending(entries)
            && (previous.Some? && entries != [] ==> KeyLess(previous.value, EncodeEntry(entries[0]).value.0))
  {
    if entries != [] {
      if EncodeEntry(entries[0]).Ok? {
        var key := EncodeEntry(entries[0]).value.0;
        if previous.Some? && KeyLess(previous.value, key) {
          forall k | k in seen
            ensures KeyLess(k, key) && k != key
          {
            if k == previous.value {
              LexIrreflexive(key);
            } else {
              KeyLessTransitive(k, previous.value, key);
            }
          }
        }
        if previous.None? || KeyLess(previous.value, key) {
          EntriesAscend(entries[1..], seen + {key}, Some(key));
          AscendingCons(entries);
        }
      }
    }
  }

  lemma AscendingCons(entries: seq<Entry>)
    requires entries != [] && EncodeEntry(entries[0]).Ok?
    ensures AllEncodable(entries) && Ascending(entries) <==>
            && AllEncodable(entries[1..]) && Ascending(entries[1..])
            && (|entries| > 1 ==> KeyLess(EncodeEntry(entries[0]).value.0, EncodeEntry(entries[1]).value.0))
  {
    if AllEncodable(entries[1..]) {
      forall i | 0 <= i < |entries|
        ensures EncodeEntry(entries[i]).Ok?
      {
        assert i > 0 ==> entries[i] == entries[1..][i - 1];
      }
      if Ascending(entries[1..]) && (|entries| > 1 ==> KeyLess(EncodeEntry(entries[0]).value.0, EncodeEntry(entries[1]).value.0)) {
        forall i, j | 0 <= i < j < |entries|
          ensures KeyLess(EncodeEntry(entries[i]).value.0, EncodeEntry(entries[j]).value.0)
        {
          assert entries[j] == entries[1..][j - 1];
          if i > 0 {
            assert entries[i] == entries[1..][i - 1];
          } else if j > 1 {
            assert entries[1] == entries[1..][0];
            KeyLessTransitive(EncodeEntry(entries[0]).value.0, EncodeEntry(entries[1]).value.0, EncodeEntry(entries[j]).value.0);
          }
        }
      }
    }
  }

  /** A map is encodable exactly when its entries are and its encoded keys strictly ascend. */
  lemma MapEncodable(entries: seq<Entry>)
    requires |entries| <= MAX_U64
    ensures Encode(Map(entries)).Ok? <==> AllEncodable(entries) && Ascending(entries)
  {
    EntriesAscend(entries, {}, None);
  }
}
