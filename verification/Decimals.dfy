/** Shortest decimal text of a natural number, its reader, and zero padding. */
module Decimals {
  import opened Bytes
  import opened Arithmetic

  predicate IsDigit(b: byte) {
    48 <= b <= 57
  }

  predicate AllDigits(s: bytes) {
    forall i :: 0 <= i < |s| ==> IsDigit(s[i])
  }

  /** `u64::to_string`: decimal digits without leading zeros. */
  function Decimal(n: nat): (r: bytes)
    ensures r != [] && AllDigits(r)
    ensures n > 0 ==> r[0] != 48
    ensures n == 0 ==> |r| == 1
  {
    if n < 10 then [48 + n as byte] else Decimal(n / 10) + [48 + (n % 10) as byte]
  }

  /** The number a digit string denotes. */
  function DigitsValue(s: bytes): nat
    requires AllDigits(s)
  {
    if s == [] then 0 else 10 * DigitsValue(s[..|s| - 1]) + (s[|s| - 1] - 48) as int
  }

  lemma {:induction false} DecimalValue(n: nat)
    ensures DigitsValue(Decimal(n)) == n
  {
    if n < 10 {
      assert Decimal(n)[..0] == [];
    } else {
      DecimalValue(n / 10);
      assert Decimal(n)[..|Decimal(n)| - 1] == Decimal(n / 10);
    }
  }

  /** A nonempty digit string without a leading zero is the decimal text of its value. */
  lemma {:induction false} ValueDecimal(s: bytes)
    requires s != [] && AllDigits(s) && (|s| > 1 ==> s[0] != 48)
    ensures Decimal(DigitsValue(s)) == s
    ensures s[0] != 48 ==> DigitsValue(s) > 0
  {
    var init, last := s[..|s| - 1], s[|s| - 1];
    assert s == init + [last];
    var v, d := DigitsValue(init), (last - 48) as int;
    assert DigitsValue(s) == 10 * v + d;
    if init == [] {
      assert v == 0;
    } else {
      ValueDecimal(init);
      assert init[0] == s[0];
      assert (10 * v + d) / 10 == v && (10 * v + d) % 10 == d;
      assert Decimal(10 * v + d) == Decimal(v) + [48 + d as byte];
    }
  }

  function Pow10(w: nat): nat {
    if w == 0 then 1 else 10 * Pow10(w - 1)
  }

  /** Rust's `{:0w}`: decimal text padded with zeros to at least `w` characters. */
  function Padded(n: nat, w: nat): bytes {
    var text := Decimal(n);
    if |text| >= w then text else seq(w - |text|, _ => 48 as byte) + text
  }

  /** Exactly `w` digits. */
  function FixedWidth(n: nat, w: nat): (r: bytes)
    ensures |r| == w
  {
    if w == 0 then [] else FixedWidth(n / 10, w - 1) + [48 + (n % 10) as byte]
  }

  lemma {:induction false} FixedZero(w: nat)
    ensures FixedWidth(0, w) == seq(w, _ => 48 as byte)
  {
    if w > 0 {
      FixedZero(w - 1);
    }
  }

  lemma {:induction false} PaddedIsFixed(n: nat, w: nat)
    requires n < Pow10(w) && w > 0
    ensures Padded(n, w) == FixedWidth(n, w)
  {
    if n < 10 {
      FixedZero(w - 1);
    } else {
      PaddedIsFixed(n / 10, w - 1);
      assert Decimal(n) == Decimal(n / 10) + [48 + (n % 10) as byte];
    }
  }

  lemma {:induction false} FixedValue(n: nat, w: nat)
    requires n < Pow10(w)
    ensures AllDigits(FixedWidth(n, w)) && DigitsValue(FixedWidth(n, w)) == n
  {
    if w > 0 {
      FixedValue(n / 10, w - 1);
      assert FixedWidth(n, w)[..w - 1] == FixedWidth(n / 10, w - 1);
    }
  }

  /** On fixed-width texts the lexicographic order is the numeric order. */
  lemma {:induction false} FixedOrder(m: nat, n: nat, w: nat)
    requires m < Pow10(w) && n < Pow10(w)
    ensures LexLess(FixedWidth(m, w), FixedWidth(n, w)) <==> m < n
    ensures FixedWidth(m, w) == FixedWidth(n, w) <==> m == n
  {
    if w > 0 {
      FixedOrder(m / 10, n / 10, w - 1);
      LexConcat(FixedWidth(m / 10, w - 1), FixedWidth(n / 10, w - 1), [48 + (m % 10) as byte], [48 + (n % 10) as byte]);
      if FixedWidth(m, w) == FixedWidth(n, w) {
        var fm, fn := FixedWidth(m, w), FixedWidth(n, w);
        assert fm[..w - 1] == FixedWidth(m / 10, w - 1) && fn[..w - 1] == FixedWidth(n / 10, w - 1);
        assert fm[w - 1] == fn[w - 1];
      }
    }
  }

  /** The digit of weight 10^i stands `i` places from the end. */
  lemma {:induction false} DecimalAt(n: nat, i: nat)
    requires i < |Decimal(n)|
    ensures Pow10(i) > 0
    ensures Decimal(n)[|Decimal(n)| - 1 - i] as int == 48 + n / Pow10(i) % 10
  {
    if i > 0 {
      DecimalAt(n / 10, i - 1);
      TenthOf(n, Pow10(i - 1));
    }
  }

  lemma TenthOf(n: nat, p: nat)
    requires p > 0
    ensures n / 10 / p == n / (10 * p)
  {
    var q := n / 10 / p;
    assert n / 10 == q * p + n / 10 % p;
    assert 10 * (q * p) == q * (10 * p);
    DivIs(n, 10 * p, q);
  }
}
