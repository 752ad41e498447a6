/** What CBOR encodings look like, byte by byte. */
module CborBytes {
  import opened Bytes
  import opened Utf8
  import opened Arithmetic
  import opened Cbor

  /** Byte `i` of a `w`-byte argument has weight 256^(w-1-i). */
  lemma {:induction false} BigEndianAt(n: nat, w: nat, i: nat)
    requires i < w
    ensures BigEndian(n, w)[i] as int == Digit(n, w - 1 - i)
  {
    Pow256Positive(w - 1 - i);
    if i < w - 1 {
      BigEndianAt(n / 256, w - 1, i);
      Pow256Positive(w - 2 - i);
      DivideTwice(n, Pow256(w - 2 - i));
    }
  }

  /** The literal spelling of a head with initial byte `base`, argument `n`. */
  ghost predicate HeadSpelling(base: byte, n: nat, r: bytes)
    requires base <= 0xE0
  {
    if n <= 23 then r == [base + n as byte]
    else if n <= 0xFF then r == [base + 0x18, n as byte]
    else if n <= 0xFFFF then r == [base + 0x19, (n / 0x100) as byte, (n % 0x100) as byte]
    else if n <= 0xFFFF_FFFF then
      r == [base + 0x1A, (n / 0x100_0000) as byte, (n / 0x1_0000 % 0x100) as byte, (n / 0x100 % 0x100) as byte, (n % 0x100) as byte]
    else
      && |r| == 9 && r[0] == base + 0x1B
      && forall i :: 1 <= i <= 8 ==> r[i] as int == Digit(n, 8 - i)
  }

  lemma SmallDigits(n: nat)
    ensures Digit(n, 0) == n % 0x100 && Digit(n, 1) == n / 0x100 % 0x100
    ensures Digit(n, 2) == n / 0x1_0000 % 0x100 && Digit(n, 3) == n / 0x100_0000 % 0x100
  {
    SmallPowers();
    hide Pow256;
  }

  lemma TwoBytes(n: nat)
    requires n <= 0xFFFF
    ensures BigEndian(n, 2) == [(n / 0x100) as byte, (n % 0x100) as byte]
  {
    hide BigEndian, Pow256, Digit;
    BigEndianAt(n, 2, 0);
    BigEndianAt(n, 2, 1);
    SmallDigits(n);
  }

  lemma FourBytes(n: nat)
    requires n <= 0xFFFF_FFFF
    ensures BigEndian(n, 4) ==
            [(n / 0x100_0000) as byte, (n / 0x1_0000 % 0x100) as byte, (n / 0x100 % 0x100) as byte, (n % 0x100) as byte]
  {
    hide BigEndian, Pow256, Digit;
    BigEndianAt(n, 4, 0);
    BigEndianAt(n, 4, 1);
    BigEndianAt(n, 4, 2);
    BigEndianAt(n, 4, 3);
    SmallDigits(n);
  }

  lemma EightBytes(lead: byte, n: nat)
    ensures var r := [lead] + BigEndian(n, 8);
            |r| == 9 && r[0] == lead && forall i :: 1 <= i <= 8 ==> r[i] as int == Digit(n, 8 - i)
  {
    hide BigEndian, Digit;
    var r := [lead] + BigEndian(n, 8);
    forall i | 1 <= i <= 8
      ensures r[i] as int == Digit(n, 8 - i)
    {
      BigEndianAt(n, 8, i - 1);
    }
  }

  lemma HeadIs(major: Major, n: nat)
    requires n <= 0xFFFF_FFFF_FFFF_FFFF
    ensures HeadSpelling(32 * major, n, Head(major, n))
  {
    hide BigEndian, Digit;
    if 0xFF < n <= 0xFFFF {
      TwoBytes(n);
    } else if 0xFFFF < n <= 0xFFFF_FFFF {
      FourBytes(n);
    } else if n > 0xFFFF_FFFF {
      EightBytes(32 * major + 27, n);
    }
  }

  lemma SmallPowers()
    ensures Pow256(0) == 1 && Pow256(1) == 0x100 && Pow256(2) == 0x1_0000 && Pow256(3) == 0x100_0000
  {
    assert Pow256(2) == 256 * Pow256(1);
    assert Pow256(3) == 256 * Pow256(2);
  }

  // ---------------------------------------------------------------------
  // Every kind of value
  // ---------------------------------------------------------------------

  /** Encodings of the items, one after another. */
  function Flat(items: seq<Value>): bytes
    requires forall i :: 0 <= i < |items| ==> Encode(items[i]).Ok?
  {
    if items == [] then [] else Flat(items[..|items| - 1]) + Encode(items[|items| - 1]).value
  }

  /** Keys and values in turn. */
  function FlatEntries(entries: seq<Entry>): bytes
    requires forall i :: 0 <= i < |entries| ==> Encode(entries[i].key).Ok? && Encode(entries[i].value).Ok?
  {
    if entries == [] then []
    else
      var n := |entries| - 1;
      FlatEntries(entries[..n]) + Encode(entries[n].key).value + Encode(entries[n].value).value
  }

  lemma {:induction false} ItemsEncode(items: seq<Value>)
    ensures EncodeItems(items).Ok? ==> forall i :: 0 <= i < |items| ==> Encode(items[i]).Ok?
    decreases |items|
  {
    hide Encode;
    if items != [] {
      ItemsEncode(items[1..]);
      assert forall i :: 1 <= i < |items| ==> items[i] == items[1..][i - 1];
    }
  }

  lemma {:induction false} FlatCons(v: Value, items: seq<Value>)
    requires Encode(v).Ok? && forall i :: 0 <= i < |items| ==> Encode(items[i]).Ok?
    ensures Flat([v] + items) == Encode(v).value + Flat(items)
    decreases |items|
  {
    hide Encode;
    var all := [v] + items;
    if items == [] {
      assert all[..0] == [] && all == [v];
      assert Flat(all) == [] + Encode(v).value;
    } else {
      var n := |items| - 1;
      assert all[..|all| - 1] == [v] + items[..n];
      FlatCons(v, items[..n]);
      Associative(Encode(v).value, Flat(items[..n]), Encode(items[n]).value);
    }
  }

  lemma {:induction false} ItemsAreFlat(items: seq<Value>)
    requires EncodeItems(items).Ok?
    ensures (forall i :: 0 <= i < |items| ==> Encode(items[i]).Ok?) && EncodeItems(items).value == Flat(items)
    decreases |items|
  {
    hide Encode;
    ItemsEncode(items);
    if items != [] {
      ItemsAreFlat(items[1..]);
      FlatCons(items[0], items[1..]);
      assert items == [items[0]] + items[1..];
    }
  }

  lemma {:induction false} FlatEntriesCons(e: Entry, entries: seq<Entry>)
    requires Encode(e.key).Ok? && Encode(e.value).Ok?
    requires forall i :: 0 <= i < |entries| ==> Encode(entries[i].key).Ok? && Encode(entries[i].value).Ok?
    ensures FlatEntries([e] + entries) == Encode(e.key).value + Encode(e.value).value + FlatEntries(entries)
    decreases |entries|
  {
    hide Encode;
    var all := [e] + entries;
    var head := Encode(e.key).value + Encode(e.value).value;
    if entries == [] {
      assert all[..0] == [] && all == [e];
      assert FlatEntries(all) == [] + Encode(e.key).value + Encode(e.value).value;
      assert head + [] == head;
    } else {
      var n := |entries| - 1;
      assert all[..|all| - 1] == [e] + entries[..n];
      FlatEntriesCons(e, entries[..n]);
      var k, v := Encode(entries[n].key).value, Encode(entries[n].value).value;
      Associative(head, FlatEntries(entries[..n]), k);
      Associative(head, FlatEntries(entries[..n]) + k, v);
    }
  }

  lemma {:induction false} EntriesAreFlat(entries: seq<Entry>, seen: set<bytes>, previous: Option<bytes>)
    requires EncodeEntries(entries, seen, previous).Ok?
    ensures forall i :: 0 <= i < |entries| ==> Encode(entries[i].key).Ok? && Encode(entries[i].value).Ok?
    ensures EncodeEntries(entries, seen, previous).value == FlatEntries(entries)
    decreases |entries|
  {
    hide Encode;
    if entries != [] {
      var key := Encode(entries[0].key).value;
      EntriesAreFlat(entries[1..], seen + {key}, Some(key));
      assert forall i :: 1 <= i < |entries| ==> entries[i] == entries[1..][i - 1];
      FlatEntriesCons(entries[0], entries[1..]);
      assert entries == [entries[0]] + entries[1..];
    }
  }

  lemma {:induction false} ItemsEncodable(items: seq<Value>)
    ensures EncodeItems(items).Ok? <==> forall i :: 0 <= i < |items| ==> Encode(items[i]).Ok?
    decreases |items|
  {
    hide Encode;
    if items != [] {
      ItemsEncodable(items[1..]);
      assert forall i :: 1 <= i < |items| ==> items[i] == items[1..][i - 1];
    }
  }

  /** Exactly which values have an encoding. */
  lemma EncodableIff(v: Value)
    ensures Encode(v).Ok? <==>
            match v
            case Bool(_) => true
            case Int(n) => 0 <= n <= 0xFFFF_FFFF_FFFF_FFFF
            case ByteString(b) => |b| <= 0xFFFF_FFFF_FFFF_FFFF
            case TextString(t) => ValidUtf8(t) && |t| <= 0xFFFF_FFFF_FFFF_FFFF
            case Array(items) =>
              |items| <= 0xFFFF_FFFF_FFFF_FFFF && forall i :: 0 <= i < |items| ==> Encode(items[i]).Ok?
            case Map(entries) =>
              |entries| <= 0xFFFF_FFFF_FFFF_FFFF && AllEncodable(entries) && Ascending(entries)
            case OtherType => false
  {
    hide Head, ValidUtf8, EncodeItems, EncodeEntries, AllEncodable, Ascending;
    match v
    case Array(items) => ItemsEncodable(items);
    case Map(entries) => EntriesAscend(entries, {}, None);
    case _ =>
  }

  /** The bytes of every encodable value: its initial byte, its argument, and its contents in order. */
  lemma EncodingIs(v: Value)
    requires Encode(v).Ok?
    ensures var r := Encode(v).value;
            match v
            case Bool(b) => r == [if b then 0xF5 else 0xF4]
            case Int(n) => 0 <= n && HeadSpelling(0x00, n, r)
            case ByteString(b) => exists head :: HeadSpelling(0x40, |b|, head) && r == head + b
            case TextString(t) => ValidUtf8(t) && exists head :: HeadSpelling(0x60, |t|, head) && r == head + t
            case Array(items) =>
              && (forall i :: 0 <= i < |items| ==> Encode(items[i]).Ok?)
              && exists head :: HeadSpelling(0x80, |items|, head) && r == head + Flat(items)
            case Map(entries) =>
              && (forall i :: 0 <= i < |entries| ==> Encode(entries[i].key).Ok? && Encode(entries[i].value).Ok?)
              && exists head :: HeadSpelling(0xA0, |entries|, head) && r == head + FlatEntries(entries)
            case OtherType => false
  {
    hide HeadSpelling, Flat, FlatEntries, Head, ValidUtf8, EncodeItems, EncodeEntries;
    match v
    case Int(n) => HeadIs(0, n);
    case ByteString(b) => HeadIs(2, |b|);
    case TextString(t) => HeadIs(3, |t|);
    case Array(items) =>
      HeadIs(4, |items|);
      ItemsAreFlat(items);
    case Map(entries) =>
      HeadIs(5, |entries|);
      EntriesAreFlat(entries, {}, None);
    case Bool(_) =>
  }

  // ---------------------------------------------------------------------
  // Integers sort as their encodings
  // ---------------------------------------------------------------------

  lemma {:induction false} BigEndianOrder(m: nat, n: nat, w: nat)
    requires m < Pow256(w) && n < Pow256(w)
    ensures LexLess(BigEndian(m, w), BigEndian(n, w)) <==> m < n
    ensures BigEndian(m, w) == BigEndian(n, w) <==> m == n
  {
    if w > 0 {
      BigEndianOrder(m / 256, n / 256, w - 1);
      var a, b := BigEndian(m / 256, w - 1), BigEndian(n / 256, w - 1);
      LexConcat(a, b, [(m % 256) as byte], [(n % 256) as byte]);
      BigEndianInverse(m, w);
      BigEndianInverse(n, w);
    }
  }

  lemma WideOrder(lead: byte, m: nat, n: nat, w: nat)
    requires m < Pow256(w) && n < Pow256(w)
    ensures LexLess([lead] + BigEndian(m, w), [lead] + BigEndian(n, w)) <==> m < n
  {
    BigEndianOrder(m, n, w);
    LexIrreflexive([lead]);
    LexConcat([lead], [lead], BigEndian(m, w), BigEndian(n, w));
  }

  lemma OneByteOrder(x: byte, y: byte)
    ensures LexLess([x], [y]) <==> x < y
  {
    assert [x][1..] == [] && [y][1..] == [];
  }

  /** The map-key order puts encoded integers in numeric order. */
  lemma IntegerOrder(m: nat, n: nat)
    requires m <= 0xFFFF_FFFF_FFFF_FFFF && n <= 0xFFFF_FFFF_FFFF_FFFF
    ensures Encode(Int(m)).Ok? && Encode(Int(n)).Ok?
    ensures KeyLess(Encode(Int(m)).value, Encode(Int(n)).value) <==> m < n
  {
    var a, b := Head(0, m), Head(0, n);
    assert Encode(Int(m)) == Ok(a) && Encode(Int(n)) == Ok(b);
    Pow256Values();
    hide Encode;
    if |a| == |b| {
      if m > 0xFF {
        hide Pow256;
        WideOrder(a[0], m, n, |a| - 1);
      } else if m > 23 {
        OneByteOrder(m as byte, n as byte);
        LexConcat([24], [24], [m as byte], [n as byte]);
        LexIrreflexive([24]);
        assert a == [24] + [m as byte] && b == [24] + [n as byte];
      } else {
        OneByteOrder(m as byte, n as byte);
      }
    }
  }

  // ---------------------------------------------------------------------
  // Refusals
  // ---------------------------------------------------------------------

  /** Why the decoder refuses an input by its size, its first byte, or what follows a value. */
  lemma DecodeRefusals(s: bytes)
    ensures |s| > 1_048_576 ==> DecodeCanonical(s) == Err(TooLarge)
    ensures |s| == 0 ==> DecodeCanonical(s) == Err(Truncated)
    ensures 0 < |s| <= 1_048_576 ==>
              var b, r := s[0], DecodeCanonical(s);
              && (0x20 <= b <= 0x3F ==> r == Err(NegativeInteger))
              && (0xC0 <= b && b != 0xF4 && b != 0xF5 ==> r == Err(UnsupportedMajor))
              && (b in {0x1F, 0x5F, 0x7F, 0x9F, 0xBF} ==> r == Err(IndefiniteLength))
              && (b < 0xC0 && !(0x20 <= b <= 0x3F) && 28 <= b % 32 <= 30 ==> r == Err(ReservedInformation))
  {
  }

  /** A longer spelling of an argument is refused, whatever kind of value it announces. */
  lemma LongArgument(major: Major, n: nat, rest: bytes)
    requires major != 1 && major < 6
    ensures n <= 23 ==> Decode([32 * major + 24] + BigEndian(n, 1) + rest, 0, 64) == Err(NotShortest)
    ensures n <= 0xFF ==> Decode([32 * major + 25] + BigEndian(n, 2) + rest, 0, 64) == Err(NotShortest)
    ensures n <= 0xFFFF ==> Decode([32 * major + 26] + BigEndian(n, 4) + rest, 0, 64) == Err(NotShortest)
    ensures n <= 0xFFFF_FFFF ==> Decode([32 * major + 27] + BigEndian(n, 8) + rest, 0, 64) == Err(NotShortest)
  {
    hide BigEndian, Decode;
    Pow256Values();
    if n <= 23 {
      LongHead(major, 24, n, 1, 23, rest);
    }
    if n <= 0xFF {
      LongHead(major, 25, n, 2, 0xFF, rest);
    }
    if n <= 0xFFFF {
      LongHead(major, 26, n, 4, 0xFFFF, rest);
    }
    if n <= 0xFFFF_FFFF {
      LongHead(major, 27, n, 8, 0xFFFF_FFFF, rest);
    }
  }

  lemma LongHead(major: Major, code: byte, n: nat, w: nat, above: nat, rest: bytes)
    requires major != 1 && major < 6
    requires (code, w, above) in {(24, 1, 23), (25, 2, 0xFF), (26, 4, 0xFFFF), (27, 8, 0xFFFF_FFFF)}
    requires n <= above && n < Pow256(w)
    ensures Decode([32 * major + code] + BigEndian(n, w) + rest, 0, 64) == Err(NotShortest)
  {
    hide BigEndian, FromBigEndian;
    var s := [32 * major + code] + BigEndian(n, w) + rest;
    assert s[0] == 32 * major + code && s[1..] == BigEndian(n, w) + rest;
    BigEndianInverse(n, w);
    assert s[1..][..w] == BigEndian(n, w);
    assert ReadHead(s) == Err(NotShortest);
    hide ReadHead;
    assert s[0] / 32 == major;
  }

  /** Whatever follows a value that would be accepted alone makes the input refused. */
  lemma TrailingRefused(v: Value, extra: bytes)
    requires Encode(v).Ok? && Depth(v) <= 64 && extra != [] && |Encode(v).value + extra| <= 1_048_576
    ensures DecodeCanonical(Encode(v).value + extra) == Err(TrailingBytes)
  {
    hide Encode, Decode, Depth;
    EncodeComplete(v, extra, 0, 64);
  }
}
