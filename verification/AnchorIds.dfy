/** Identifiers of the anchor transport and the hash frames they are derived from. */
module AnchorIds {
  import opened Bytes
  import opened Utf8
  import opened Arithmetic

  /** `OotleNetworkIdV1::new`. */
  predicate ValidNetwork(s: bytes) {
    0 < |s| <= 32 && forall i :: 0 <= i < |s| ==> NetworkByte(s[i])
  }

  predicate NetworkByte(b: byte) {
    65 <= b <= 90 || 97 <= b <= 122 || 48 <= b <= 57 || b == 45 || b == 95
  }

  /** A control character at the front of `s`. */
  predicate ControlAt(s: bytes)
    requires s != []
  {
    s[0] < 0x20 || s[0] == 0x7F || (|s| >= 2 && s[0] == 0xC2 && s[1] <= 0x9F)
  }

  predicate PlainText(s: bytes) {
    s == [] || (var n := CharLength(s); n > 0 && !ControlAt(s) && WhitespaceLength(s) == 0 && PlainText(s[n..]))
  }

  /** A bounded opaque token: nonempty, at most 128 bytes, no control or white-space character. */
  predicate ValidIdentifier(s: bytes) {
    0 < |s| <= 128 && PlainText(s)
  }

  lemma {:induction false} PlainTextNoNul(s: bytes)
    requires PlainText(s)
    ensures 0 !in s
  {
    if s != [] {
      var n := CharLength(s);
      PlainTextNoNul(s[n..]);
      assert s == s[..n] + s[n..];
      assert forall i :: 0 <= i < n ==> s[i] != 0;
    }
  }

  /** Network, fee account and anchored digest of one request. */
  datatype Binding = Binding(network: bytes, account: bytes, digest: bytes)

  predicate ValidBinding(b: Binding) {
    ValidNetwork(b.network) && ValidIdentifier(b.account) && |b.digest| == 32
  }

  // ---------------------------------------------------------------------
  // Frames
  // ---------------------------------------------------------------------

  function RequestFrame(b: Binding, disambiguator: bytes): bytes {
    Ascii("tari-cc-private-ballot/anchor-transport-fake/request-id/v1") + [0]
    + (b.network + [0] + (b.account + [0] + (b.digest + [0] + disambiguator)))
  }

  function TransactionFrame(requestId: bytes, digest: bytes): bytes {
    Ascii("tari-cc-private-ballot/anchor-transport-fake/transaction-id/v1") + [0] + (requestId + [0] + digest)
  }

  lemma {:induction false} SplitAtNul(a: bytes, x: bytes, b: bytes, y: bytes)
    requires 0 !in a && 0 !in b && a + [0] + x == b + [0] + y
    ensures a == b && x == y
  {
    var s, t := a + [0] + x, b + [0] + y;
    assert s[0] == (a + [0])[0] && t[0] == (b + [0])[0];
    assert s[1..] == t[1..];
    if a != [] && b != [] {
      assert s[1..] == a[1..] + [0] + x && t[1..] == b[1..] + [0] + y;
      SplitAtNul(a[1..], x, b[1..], y);
      assert a == [a[0]] + a[1..] && b == [b[0]] + b[1..];
    } else if a == b {
      assert s[1..] == x && t[1..] == y;
    }
  }

  lemma NetworkNoNul(s: bytes)
    requires ValidNetwork(s)
    ensures 0 !in s
  {
  }

  /** A request frame determines its binding and its disambiguator. */
  lemma RequestFrameInjective(a: Binding, x: bytes, b: Binding, y: bytes)
    requires ValidBinding(a) && ValidBinding(b) && RequestFrame(a, x) == RequestFrame(b, y)
    ensures a == b && x == y
  {
    NetworkNoNul(a.network);
    NetworkNoNul(b.network);
    PlainTextNoNul(a.account);
    PlainTextNoNul(b.account);
    hide PlainText, ValidNetwork;
    var domain := Ascii("tari-cc-private-ballot/anchor-transport-fake/request-id/v1") + [0];
    var a3, b3 := a.digest + [0] + x, b.digest + [0] + y;
    var a2, b2 := a.account + [0] + a3, b.account + [0] + b3;
    var a1, b1 := a.network + [0] + a2, b.network + [0] + b2;
    assert a1 == RequestFrame(a, x)[|domain|..] && b1 == RequestFrame(b, y)[|domain|..];
    SplitAtNul(a.network, a2, b.network, b2);
    SplitAtNul(a.account, a3, b.account, b3);
    assert a.digest == a3[..32] && b.digest == b3[..32];
    assert x == a3[33..] && y == b3[33..];
  }

  lemma TransactionFrameInjective(a: bytes, d: bytes, b: bytes, e: bytes)
    requires 0 !in a && 0 !in b && TransactionFrame(a, d) == TransactionFrame(b, e)
    ensures a == b && d == e
  {
    var domain := Ascii("tari-cc-private-ballot/anchor-transport-fake/transaction-id/v1") + [0];
    assert a + [0] + d == TransactionFrame(a, d)[|domain|..];
    assert b + [0] + e == TransactionFrame(b, e)[|domain|..];
    SplitAtNul(a, d, b, e);
  }

  // ---------------------------------------------------------------------
  // Counters
  // ---------------------------------------------------------------------

  /** `w` bytes, least significant first. */
  function LittleEndian(n: nat, w: nat): (r: bytes)
    ensures |r| == w
  {
    if w == 0 then [] else [(n % 256) as byte] + LittleEndian(n / 256, w - 1)
  }

  /** `u64::to_le_bytes`. */
  function CounterBytes(counter: nat): bytes {
    LittleEndian(counter, 8)
  }

  /** Byte `i` has weight 256^i. */
  lemma {:induction false} LittleEndianAt(n: nat, w: nat, i: nat)
    requires i < w
    ensures LittleEndian(n, w)[i] as int == Digit(n, i)
  {
    if i > 0 {
      LittleEndianAt(n / 256, w - 1, i - 1);
      Pow256Positive(i - 1);
      DivideTwice(n, Pow256(i - 1));
    }
  }

  lemma {:induction false} LittleEndianInjective(m: nat, n: nat, w: nat)
    requires m < Pow256(w) && n < Pow256(w) && LittleEndian(m, w) == LittleEndian(n, w)
    ensures m == n
  {
    if w > 0 {
      var a, b := LittleEndian(m, w), LittleEndian(n, w);
      assert a[0] == b[0];
      assert a[1..] == LittleEndian(m / 256, w - 1) && b[1..] == LittleEndian(n / 256, w - 1);
      LittleEndianInjective(m / 256, n / 256, w - 1);
    }
  }

  lemma {:induction false} TopByteZero(n: nat, w: nat)
    requires n < Pow256(w)
    ensures LittleEndian(n, w + 1)[w] == 0
  {
    if w > 0 {
      TopByteZero(n / 256, w - 1);
    }
  }

  const COUNTER_BOUND := 0x100_0000_0000_0000

  lemma CounterBound()
    ensures Pow256(7) == COUNTER_BOUND && Pow256(8) == 0x1_0000_0000_0000_0000
  {
    assert Pow256(2) == 0x1_0000 && Pow256(4) == 0x1_0000_0000 && Pow256(6) == 0x1_0000_0000_0000;
  }

  /** Below 2^56 a counter's bytes end in NUL, so no client reference can equal them. */
  lemma CounterIsNoIdentifier(counter: nat, reference: bytes)
    requires counter < COUNTER_BOUND && ValidIdentifier(reference)
    ensures CounterBytes(counter) != reference
  {
    CounterBound();
    TopByteZero(counter, 7);
    PlainTextNoNul(reference);
    assert CounterBytes(counter)[7] in CounterBytes(counter);
  }

  /** The number all of whose `w` bytes are the letter A. */
  function RepeatedA(w: nat): nat {
    if w == 0 then 0 else 256 * RepeatedA(w - 1) + 65
  }

  lemma {:induction false} RepeatedABytes(w: nat)
    ensures |LittleEndian(RepeatedA(w), w)| == w
    ensures forall i :: 0 <= i < w ==> LittleEndian(RepeatedA(w), w)[i] == 65
  {
    if w > 0 {
      RepeatedABytes(w - 1);
      assert RepeatedA(w) % 256 == 65 && RepeatedA(w) / 256 == RepeatedA(w - 1);
    }
  }

  lemma RepeatedAValue()
    ensures RepeatedA(8) == 0x4141_4141_4141_4141
  {
    assert RepeatedA(2) == 0x4141;
    assert RepeatedA(4) == 0x4141_4141;
    assert RepeatedA(6) == 0x4141_4141_4141;
  }

  /** The bound matters: a later counter spells the client reference "AAAAAAAA". */
  lemma LargeCounterIsIdentifier()
    ensures ValidIdentifier(Ascii("AAAAAAAA")) && CounterBytes(0x4141_4141_4141_4141) == Ascii("AAAAAAAA")
  {
    hide PlainText, RepeatedA, LittleEndian;
    var s := Ascii("AAAAAAAA");
    assert |s| == 8 && forall i :: 0 <= i < 8 ==> s[i] == 65;
    AllAsPlain(s);
    RepeatedAValue();
    RepeatedABytes(8);
  }

  lemma {:induction false} AllAsPlain(s: bytes)
    requires forall i :: 0 <= i < |s| ==> s[i] == 65
    ensures PlainText(s)
  {
    if s != [] {
      AllAsPlain(s[1..]);
    }
  }
}
