/** The encoder with its map loop and the decoder object that advances an offset. */
module CborDecoder {
  import opened Bytes
  import opened Utf8
  import opened Cbor

  /** What the loop still has to do, put behind what it has done. */
  function After<T>(done: seq<T>, r: Result<(seq<T>, bytes), Error>): Result<(seq<T>, bytes), Error> {
    match r
    case Ok((more, rest)) => Ok((done + more, rest))
    case Err(e) => Err(e)
  }

  function Prefixed(done: bytes, r: Result<bytes, Error>): Result<bytes, Error> {
    match r
    case Ok(more) => Ok(done + more)
    case Err(e) => Err(e)
  }

  lemma ItemsStep(s: bytes, count: nat, depth: nat, done: seq<Value>)
    requires count > 0
    ensures After(done, DecodeItems(s, count, depth, MAX_DEPTH)) ==
            match Decode(s, depth, MAX_DEPTH)
            case Err(e) => Err(e)
            case Ok((v, rest)) => After(done + [v], DecodeItems(rest, count - 1, depth, MAX_DEPTH))
  {
    if DecodeItems(s, count, depth, MAX_DEPTH).Ok? {
      var (v, rest) := Decode(s, depth, MAX_DEPTH).value;
      var (others, _) := DecodeItems(rest, count - 1, depth, MAX_DEPTH).value;
      assert done + ([v] + others) == done + [v] + others;
    }
  }

  lemma EntriesStep(s: bytes, count: nat, depth: nat, seen: set<bytes>, previous: Option<bytes>, done: seq<Entry>)
    requires count > 0
    ensures After(done, DecodeEntries(s, count, depth, MAX_DEPTH, seen, previous)) ==
            match DecodeEntry(s, depth, MAX_DEPTH, seen, previous)
            case Err(e) => Err(e)
            case Ok((entry, raw, rest)) =>
              After(done + [entry], DecodeEntries(rest, count - 1, depth, MAX_DEPTH, seen + {raw}, Some(raw)))
  {
    if DecodeEntries(s, count, depth, MAX_DEPTH, seen, previous).Ok? {
      var (entry, raw, rest) := DecodeEntry(s, depth, MAX_DEPTH, seen, previous).value;
      var (others, _) := DecodeEntries(rest, count - 1, depth, MAX_DEPTH, seen + {raw}, Some(raw)).value;
      assert done + ([entry] + others) == done + [entry] + others;
    }
  }

  lemma AfterNothing<T>(r: Result<(seq<T>, bytes), Error>)
    ensures After([], r) == r
  {
    if r.Ok? {
      assert [] + r.value.0 == r.value.0;
    }
  }

  lemma PrefixedTwice(a: bytes, b: bytes, r: Result<bytes, Error>)
    ensures Prefixed([], r) == r
    ensures Prefixed(a, Prefixed(b, r)) == Prefixed(a + b, r)
  {
    if r.Ok? {
      assert [] + r.value == r.value;
      assert a + (b + r.value) == a + b + r.value;
    }
  }

  method EncodeCanonical(v: Value) returns (r: Result<bytes, Error>)
    ensures r == Encode(v)
    decreases v
  {
    match v
    case Array(items) =>
      var head := EncodeArgument(4, |items|);
      if head.Err? {
        return head;
      }
      var body: bytes, i := [], 0;
      PrefixedTwice([], [], EncodeItems(items));
      assert items[0..] == items;
      while i < |items|
        invariant 0 <= i <= |items|
        invariant Prefixed(body, EncodeItems(items[i..])) == EncodeItems(items)
      {
        var item := EncodeCanonical(items[i]);
        if item.Err? {
          return item;
        }
        assert items[i..][1..] == items[i + 1..];
        PrefixedTwice(body, item.value, EncodeItems(items[i + 1..]));
        body, i := body + item.value, i + 1;
      }
      assert body + [] == body;
      return Ok(head.value + body);
    case Map(entries) =>
      var body: bytes, i := [], 0;
      var previous, seen := None, {};
      PrefixedTwice([], [], EncodeEntries(entries, {}, None));
      assert entries[0..] == entries;
      while i < |entries|
        invariant 0 <= i <= |entries|
        invariant Prefixed(body, EncodeEntries(entries[i..], seen, previous)) == EncodeEntries(entries, {}, None)
      {
        var key, value := EncodeMapEntry(entries[i]);
        if key.Err? {
          return key;
        }
        if value.Err? {
          return value;
        }
        if key.value in seen {
          return Err(DuplicateKey);
        }
        if previous.Some? && !KeyLess(previous.value, key.value) {
          return Err(KeyOrder);
        }
        assert entries[i..][1..] == entries[i + 1..];
        PrefixedTwice(body, key.value + value.value,
                      EncodeEntries(entries[i + 1..], seen + {key.value}, Some(key.value)));
        seen, previous := seen + {key.value}, Some(key.value);
        body, i := body + (key.value + value.value), i + 1;
      }
      assert body + [] == body;
      var head := EncodeArgument(5, |entries|);
      if head.Err? {
        return head;
      }
      return Ok(head.value + body);
    case Bool(b) =>
      return Ok([if b then 0xF5 else 0xF4]);
    case Int(n) =>
      if n < 0 {
        return Err(NegativeInteger);
      }
      return EncodeArgument(0, n);
    case ByteString(b) =>
      var head := EncodeArgument(2, |b|);
      return if head.Err? then head else Ok(head.value + b);
    case TextString(s) =>
      if !ValidUtf8(s) {
        return Err(TextNotUtf8);
      }
      var head := EncodeArgument(3, |s|);
      return if head.Err? then head else Ok(head.value + s);
    case OtherType =>
      return Err(UnsupportedType);
  }

  method EncodeMapEntry(entry: Entry) returns (key: Result<bytes, Error>, value: Result<bytes, Error>)
    ensures key == Encode(entry.key)
    ensures key.Ok? ==> value == Encode(entry.value)
    decreases entry
  {
    key := EncodeCanonical(entry.key);
    value := key;
    if key.Ok? {
      value := EncodeCanonical(entry.value);
    }
  }

  class CanonicalCborDecoder {
    const encoded: bytes
    var offset: nat

    ghost predicate Valid()
      reads this
    {
      offset <= |encoded|
    }

    /** The bytes not read yet. */
    ghost function Unread(): bytes
      reads this
      requires Valid()
    {
      encoded[offset..]
    }

    constructor (encoded: bytes)
      ensures Valid() && this.encoded == encoded && Unread() == encoded
    {
      this.encoded := encoded;
      offset := 0;
    }

    method Read(length: nat) returns (r: Result<bytes, Error>)
      requires Valid()
      modifies this`offset
      ensures Valid()
      ensures if length <= |old(Unread())|
              then r == Ok(old(Unread())[..length]) && Unread() == old(Unread())[length..]
              else r == Err(Truncated) && offset == old(offset)
    {
      var end := offset + length;
      if end > |encoded| {
        return Err(Truncated);
      }
      r := Ok(encoded[offset..end]);
      assert encoded[offset..end] == Unread()[..length];
      offset := end;
    }

    method ReadArgument(additional: byte) returns (r: Result<nat, Error>)
      requires Valid() && additional < 32
      modifies this`offset
      ensures Valid()
      ensures match Cbor.ReadArgument(old(Unread()), additional)
              case Ok((n, rest)) => r == Ok(n) && Unread() == rest
              case Err(e) => r == Err(e)
    {
      if additional <= 23 {
        return Ok(additional as nat);
      }
      if additional == 31 {
        return Err(IndefiniteLength);
      }
      if additional > 27 {
        return Err(ReservedInformation);
      }
      var width := if additional == 24 then 1 else if additional == 25 then 2 else if additional == 26 then 4 else 8;
      var above := if additional == 24 then 23 else if additional == 25 then 0xFF
                   else if additional == 26 then 0xFFFF else 0xFFFF_FFFF;
      var raw := Read(width);
      if raw.Err? {
        return Err(raw.error);
      }
      var value := FromBigEndian(raw.value);
      if value <= above {
        return Err(NotShortest);
      }
      return Ok(value);
    }

    /** Decodes one item and leaves the offset behind it. */
    method DecodeValue(depth: nat) returns (r: Result<Value, Error>)
      requires Valid()
      modifies this`offset
      ensures Valid()
      ensures match Decode(old(Unread()), depth, MAX_DEPTH)
              case Ok((v, rest)) => r == Ok(v) && Unread() == rest
              case Err(e) => r == Err(e)
      decreases |encoded| - offset, 0
    {
      if depth > MAX_DEPTH {
        return Err(TooDeep);
      }
      ghost var start := Unread();
      var initial := Read(1);
      if initial.Err? {
        return Err(initial.error);
      }
      var major, additional := initial.value[0] / 32, initial.value[0] % 32;
      assert start[1..] == Unread();
      if major == 7 && (additional == 20 || additional == 21) {
        return Ok(Bool(additional == 21));
      }
      if major == 1 {
        return Err(NegativeInteger);
      }
      if major > 5 {
        return Err(UnsupportedMajor);
      }
      var argument := ReadArgument(additional);
      if argument.Err? {
        return Err(argument.error);
      }
      if major == 0 {
        return Ok(Int(argument.value));
      }
      if major == 4 {
        var items := DecodeArray(argument.value, depth);
        if items.Err? {
          return Err(items.error);
        }
        return Ok(Array(items.value));
      }
      if major == 5 {
        var entries := DecodeMap(argument.value, depth);
        if entries.Err? {
          return Err(entries.error);
        }
        return Ok(Map(entries.value));
      }
      var raw := Read(argument.value);
      if raw.Err? {
        return Err(raw.error);
      }
      if major == 2 {
        return Ok(ByteString(raw.value));
      }
      if !ValidUtf8(raw.value) {
        return Err(TextNotUtf8);
      }
      return Ok(TextString(raw.value));
    }

    method DecodeArray(length: nat, depth: nat) returns (r: Result<seq<Value>, Error>)
      requires Valid()
      modifies this`offset
      ensures Valid()
      ensures match DecodeItems(old(Unread()), length, depth + 1, MAX_DEPTH)
              case Ok((items, rest)) => r == Ok(items) && Unread() == rest
              case Err(e) => r == Err(e)
      decreases |encoded| - offset, 1
    {
      var items: seq<Value>, i := [], 0;
      AfterNothing(DecodeItems(Unread(), length, depth + 1, MAX_DEPTH));
      while i < length
        invariant Valid() && 0 <= i <= length && old(offset) <= offset
        invariant After(items, DecodeItems(Unread(), length - i, depth + 1, MAX_DEPTH))
               == DecodeItems(old(Unread()), length, depth + 1, MAX_DEPTH)
      {
        ItemsStep(Unread(), length - i, depth + 1, items);
        var item := DecodeValue(depth + 1);
        if item.Err? {
          return Err(item.error);
        }
        items, i := items + [item.value], i + 1;
      }
      assert items + [] == items;
      return Ok(items);
    }

    method DecodeMap(length: nat, depth: nat) returns (r: Result<seq<Entry>, Error>)
      requires Valid()
      modifies this`offset
      ensures Valid()
      ensures match DecodeEntries(old(Unread()), length, depth + 1, MAX_DEPTH, {}, None)
              case Ok((entries, rest)) => r == Ok(entries) && Unread() == rest
              case Err(e) => r == Err(e)
      decreases |encoded| - offset, 2
    {
      var entries: seq<Entry>, i := [], 0;
      var previous, seen := None, {};
      AfterNothing(DecodeEntries(Unread(), length, depth + 1, MAX_DEPTH, {}, None));
      while i < length
        invariant Valid() && 0 <= i <= length && old(offset) <= offset
        invariant After(entries, DecodeEntries(Unread(), length - i, depth + 1, MAX_DEPTH, seen, previous))
               == DecodeEntries(old(Unread()), length, depth + 1, MAX_DEPTH, {}, None)
      {
        EntriesStep(Unread(), length - i, depth + 1, seen, previous, entries);
        var entry, encodedKey := DecodeKeyAndValue(depth + 1, seen, previous);
        if entry.Err? {
          return Err(entry.error);
        }
        entries, i := entries + [entry.value], i + 1;
        seen, previous := seen + {encodedKey}, Some(encodedKey);
      }
      assert entries + [] == entries;
      return Ok(entries);
    }

    /** The body of the map loop. */
    method DecodeKeyAndValue(depth: nat, seen: set<bytes>, previous: Option<bytes>)
      returns (r: Result<Entry, Error>, encodedKey: bytes)
      requires Valid()
      modifies this`offset
      ensures Valid()
      ensures match DecodeEntry(old(Unread()), depth, MAX_DEPTH, seen, previous)
              case Ok((entry, raw, rest)) => r == Ok(entry) && encodedKey == raw && Unread() == rest
              case Err(e) => r == Err(e)
      decreases |encoded| - offset, 1
    {
      encodedKey := [];
      var keyStart := offset;
      ghost var s := Unread();
      var key := DecodeValue(depth);
      if key.Err? {
        return Err(key.error), [];
      }
      encodedKey := encoded[keyStart..offset];
      assert encodedKey == s[..|s| - |Unread()|];
      if encodedKey in seen {
        return Err(DuplicateKey), [];
      }
      if previous.Some? && !KeyLess(previous.value, encodedKey) {
        return Err(KeyOrder), [];
      }
      var value := DecodeValue(depth);
      if value.Err? {
        return Err(value.error), [];
      }
      r := Ok(Entry(key.value, value.value));
    }
  }

  /** Whole-input decoding: the size limit, one item, and nothing after it. */
  method DecodeComplete(encoded: bytes) returns (r: Result<Value, Error>)
    ensures r == DecodeCanonical(encoded)
  {
    hide Decode;
    if |encoded| > MAX_INPUT_BYTES {
      return Err(TooLarge);
    }
    var decoder := new CanonicalCborDecoder(encoded);
    var value := decoder.DecodeValue(0);
    if value.Ok? && decoder.offset != |encoded| {
      return Err(TrailingBytes);
    }
    return value;
  }
}
