/** The fast integer printers, in machine arithmetic. */
module DecimalPrinting {
  import opened CEscaping

  const TWO_31: int := 0x8000_0000
  const TWO_32: int := 0x1_0000_0000
  const TWO_63: int := 0x8000_0000_0000_0000
  const TWO_64: int := 0x1_0000_0000_0000_0000

  type uint32 = n: int | 0 <= n < TWO_32
  type uint64 = n: int | 0 <= n < TWO_64

  const ZERO: byte := 48
  const MINUS: byte := 45

  // ----- Numerals

  function Ascii(d: nat): byte
    requires d < 10
  {
    ZERO + d
  }

  /** The decimal numeral of n. */
  function Decimal(n: nat): (s: seq<byte>)
    ensures s != []
  {
    if n < 10 then [Ascii(n)] else Decimal(n / 10) + [Ascii(n % 10)]
  }

  /** The last w decimal digits of n, with leading zeros. */
  function Padded(n: nat, w: nat): (s: seq<byte>)
    ensures |s| == w
  {
    if w == 0 then [] else Padded(n / 10, w - 1) + [Ascii(n % 10)]
  }

  function SignedDecimal(i: int): seq<byte> {
    if i < 0 then [MINUS] + Decimal(-i) else Decimal(i)
  }

  /** a times ten to the w. */
  function Scale(a: nat, w: nat): (p: nat)
    ensures a <= p
  {
    if w == 0 then a else 10 * Scale(a, w - 1)
  }

  predicate IsDigit(b: byte) {
    48 <= b < 58
  }

  function Parse(s: seq<byte>): nat
    requires forall k :: 0 <= k < |s| ==> IsDigit(s[k])
  {
    if s == [] then 0
    else
      assert IsDigit(s[|s| - 1]);
      10 * Parse(s[..|s| - 1]) + (s[|s| - 1] - 48)
  }

  /** Reading the numeral back gives n, and it has no superfluous zero. */
  lemma {:induction false} ParseDecimal(n: nat)
    ensures forall k :: 0 <= k < |Decimal(n)| ==> IsDigit(Decimal(n)[k])
    ensures Parse(Decimal(n)) == n
    ensures Decimal(n)[0] == 48 ==> n == 0
  {
    if 10 <= n {
      ParseDecimal(n / 10);
      assert Decimal(n)[..|Decimal(n)| - 1] == Decimal(n / 10);
    } else {
      assert Decimal(n)[..0] == [];
    }
  }

  /** A hyphen and the numeral of the magnitude for negative numbers, and for these alone. */
  lemma SignedDecimalReads(i: int)
    ensures var s := SignedDecimal(i);
      && s != [] && (s[0] == 45 <==> i < 0)
      && var digits := if i < 0 then s[1..] else s;
         (forall k :: 0 <= k < |digits| ==> IsDigit(digits[k])) && Parse(digits) == if i < 0 then -i else i
  {
    ParseDecimal(if i < 0 then -i else i);
  }

  /** The widths of the machine's integers, and the buffers the right-aligned printers are given. */
  lemma Widths()
    ensures TWO_31 == 2147483648 && TWO_32 == 4294967296
    ensures TWO_63 == 9223372036854775808 && TWO_64 == 18446744073709551616
    ensures INT32_OFFSET == 11 && INT64_OFFSET == 21
  {
  }

  lemma {:induction false} DecimalLength(n: nat, w: nat)
    requires 0 < w
    ensures |Decimal(n)| <= w <==> n < Scale(1, w)
  {
    if 10 <= n && 1 < w {
      DecimalLength(n / 10, w - 1);
    } else if w == 1 {
      assert Scale(1, 1) == 10 * Scale(1, 0);
      assert 10 <= n ==> |Decimal(n)| == |Decimal(n / 10)| + 1;
    }
  }

  /** A numeral is its leading part followed by the padded rest. */
  lemma {:induction false} DecimalSplit(a: nat, b: nat, w: nat)
    requires 0 < a && b < Scale(1, w)
    ensures Decimal(Scale(a, w) + b) == Decimal(a) + Padded(b, w)
  {
    if w == 0 {
      assert Decimal(a) + [] == Decimal(a);
    } else {
      var n := Scale(a, w) + b;
      assert n / 10 == Scale(a, w - 1) + b / 10 && n % 10 == b % 10;
      DecimalSplit(a, b / 10, w - 1);
      assert Decimal(a) + Padded(b / 10, w - 1) + [Ascii(b % 10)] == Decimal(a) + Padded(b, w);
    }
  }

  lemma {:induction false} PaddedSplit(a: nat, b: nat, v: nat, w: nat)
    requires b < Scale(1, w)
    ensures Padded(Scale(a, w) + b, v + w) == Padded(a, v) + Padded(b, w)
  {
    if w == 0 {
      assert Padded(a, v) + [] == Padded(a, v);
    } else {
      var n := Scale(a, w) + b;
      assert n / 10 == Scale(a, w - 1) + b / 10 && n % 10 == b % 10;
      PaddedSplit(a, b / 10, v, w - 1);
      assert Padded(a, v) + Padded(b / 10, w - 1) + [Ascii(b % 10)] == Padded(a, v) + Padded(b, w);
    }
  }

  /** No leading zero is needed. */
  lemma {:induction false} DecimalIsPadded(n: nat, w: nat)
    requires 0 < w && Scale(1, w - 1) <= n < Scale(1, w)
    ensures Decimal(n) == Padded(n, w)
  {
    if w == 1 {
      assert Padded(n, 1) == Padded(n / 10, 0) + [Ascii(n % 10)];
    } else {
      DecimalIsPadded(n / 10, w - 1);
    }
  }

  lemma {:induction false} ScaleIsProduct(a: nat, w: nat)
    ensures Scale(a, w) == a * Scale(1, w)
  {
    if w > 0 {
      ScaleIsProduct(a, w - 1);
      var unit := Scale(1, w - 1);
      assert 10 * (a * unit) == a * (10 * unit);
    }
  }

  /** The powers of ten up to ten billion. */
  lemma Powers()
    ensures Scale(1, 0) == 1 && Scale(1, 1) == 10 && Scale(1, 2) == 100 && Scale(1, 3) == 1000
    ensures Scale(1, 4) == 10_000 && Scale(1, 5) == 100_000 && Scale(1, 6) == 1_000_000
    ensures Scale(1, 7) == 10_000_000 && Scale(1, 8) == 100_000_000 && Scale(1, 9) == 1_000_000_000
    ensures Scale(1, 10) == 10_000_000_000
  {
  }

  lemma Quotient(u: nat, unit: nat, bound: nat)
    requires 0 < unit && u < bound * unit
    ensures u / unit < bound && 0 <= (u / unit) * unit <= u && u - (u / unit) * unit == u % unit < unit
  {
  }

  // ----- Left-aligned printing of unsigned numbers

  /** A signed result in n bits: the value congruent to x modulo 2^n. */
  function Wrap32(x: int): int {
    (x + TWO_31) % TWO_32 - TWO_31
  }

  function Wrap64(x: int): int {
    (x + TWO_63) % TWO_64 - TWO_63
  }

  /** `u -= digits * unit`: the product is a signed 32-bit multiplication, which wraps for large digits, and
      the difference is taken modulo 2^32. */
  function SubtractMultiple(u: uint32, digits: nat, unit: nat): uint32 {
    (u - Wrap32(digits * unit)) % TWO_32
  }

  /** The wrap-around of the product is undone by the wrap-around of the difference. */
  lemma SubtractIsExact(u: uint32, digits: nat, unit: nat)
    requires digits * unit <= u
    ensures SubtractMultiple(u, digits, unit) == u - digits * unit
  {
  }

  /** Row d of the table of two-digit numerals; the table has 100 rows. */
  function TwoDigits(d: nat): (row: (byte, byte))
    requires d < 100
    ensures [row.0, row.1] == Padded(d, 2)
  {
    assert Padded(d, 2) == Padded(d / 10, 1) + [Ascii(d % 10)];
    assert Padded(d / 10, 1) == Padded(d / 10 / 10, 0) + [Ascii(d / 10 % 10)];
    (Ascii(d / 10), Ascii(d % 10))
  }

  lemma SplitAt(before: seq<byte>, digits: nat, rest: nat, u: nat, v: nat, w: nat)
    requires rest < Scale(1, w) && u == digits * Scale(1, w) + rest
    ensures (before + Padded(digits, v)) + Padded(rest, w) == before + Padded(u, v + w)
  {
    ScaleIsProduct(digits, w);
    PaddedSplit(digits, rest, v, w);
  }

  /** `digits = u / unit`, its two digits, and `u -= digits * unit`. */
  method WritePair(u: uint32, unit: nat, ghost w: nat, buffer: array<byte>, at: nat) returns (rest: uint32)
    requires unit == Scale(1, w) && u < 100 * unit && at + 2 <= buffer.Length
    modifies buffer
    ensures rest == u % unit < unit
    ensures buffer[..at + 2] + Padded(rest, w) == old(buffer[..at]) + Padded(u, 2 + w)
    ensures forall k :: at + 2 <= k < buffer.Length ==> buffer[k] == old(buffer[k])
  {
    Quotient(u, unit, 100);
    var digits := u / unit;
    var row := TwoDigits(digits);
    buffer[at] := row.0;
    buffer[at + 1] := row.1;
    assert buffer[..at + 2] == old(buffer[..at]) + Padded(digits, 2);
    SubtractIsExact(u, digits, unit);
    rest := SubtractMultiple(u, digits, unit);
    SplitAt(old(buffer[..at]), digits, rest, u, 2, w);
  }

  /** The same with one digit. */
  method WriteOne(u: uint32, unit: nat, ghost w: nat, buffer: array<byte>, at: nat) returns (rest: uint32)
    requires unit == Scale(1, w) && u < 10 * unit && at < buffer.Length
    modifies buffer
    ensures rest == u % unit < unit
    ensures buffer[..at + 1] + Padded(rest, w) == old(buffer[..at]) + Padded(u, 1 + w)
    ensures forall k :: at + 1 <= k < buffer.Length ==> buffer[k] == old(buffer[k])
  {
    Quotient(u, unit, 10);
    var digits := u / unit;
    buffer[at] := ZERO + digits;
    assert Padded(digits, 1) == Padded(digits / 10, 0) + [Ascii(digits)];
    assert buffer[..at + 1] == old(buffer[..at]) + Padded(digits, 1);
    SubtractIsExact(u, digits, unit);
    rest := SubtractMultiple(u, digits, unit);
    SplitAt(old(buffer[..at]), digits, rest, u, 1, w);
  }

  /** Label lt100: the last two digits and the terminator. */
  method Lt100(u: uint32, buffer: array<byte>, at: nat) returns (end: nat)
    requires u < 100 && at + 2 < buffer.Length
    modifies buffer
    ensures end == at + 2 && buffer[..end] == old(buffer[..at]) + Padded(u, 2) && buffer[end] == NUL
    ensures forall k :: end < k < buffer.Length ==> buffer[k] == old(buffer[k])
  {
    var row := TwoDigits(u);
    buffer[at] := row.0;
    buffer[at + 1] := row.1;
    buffer[at + 2] := NUL;
    end := at + 2;
  }

  /** Label lt10_000. */
  method Lt10K(u: uint32, buffer: array<byte>, at: nat) returns (end: nat)
    requires u < 10_000 && at + 4 < buffer.Length
    modifies buffer
    ensures end == at + 4 && buffer[..end] == old(buffer[..at]) + Padded(u, 4) && buffer[end] == NUL
    ensures forall k :: end < k < buffer.Length ==> buffer[k] == old(buffer[k])
  {
    Powers();
    var rest := WritePair(u, 100, 2, buffer, at);
    end := Lt100(rest, buffer, at + 2);
  }

  /** Label lt1_000_000. */
  method Lt1M(u: uint32, buffer: array<byte>, at: nat) returns (end: nat)
    requires u < 1_000_000 && at + 6 < buffer.Length
    modifies buffer
    ensures end == at + 6 && buffer[..end] == old(buffer[..at]) + Padded(u, 6) && buffer[end] == NUL
    ensures forall k :: end < k < buffer.Length ==> buffer[k] == old(buffer[k])
  {
    Powers();
    var rest := WritePair(u, 10_000, 4, buffer, at);
    end := Lt10K(rest, buffer, at + 2);
  }

  /** Label lt100_000_000. */
  method Lt100M(u: uint32, buffer: array<byte>, at: nat) returns (end: nat)
    requires u < 100_000_000 && at + 8 < buffer.Length
    modifies buffer
    ensures end == at + 8 && buffer[..end] == old(buffer[..at]) + Padded(u, 8) && buffer[end] == NUL
    ensures forall k :: end < k < buffer.Length ==> buffer[k] == old(buffer[k])
  {
    Powers();
    var rest := WritePair(u, 1_000_000, 6, buffer, at);
    end := Lt1M(rest, buffer, at + 2);
  }

  // The ladder of ranges: an even number of digits enters at a label, an odd number writes one digit
  // first and enters just before the subtraction.

  method Below100(u: uint32, buffer: array<byte>, at: nat) returns (end: nat)
    requires u < 100 && at + |Decimal(u)| < buffer.Length
    modifies buffer
    ensures end == at + |Decimal(u)| && buffer[..end] == old(buffer[..at]) + Decimal(u) && buffer[end] == NUL
    ensures forall k :: end < k < buffer.Length ==> buffer[k] == old(buffer[k])
  {
    Powers();
    if 10 <= u {
      DecimalIsPadded(u, 2);
      end := Lt100(u, buffer, at);
    } else {
      buffer[at] := ZERO + u;
      end := at + 1;
      buffer[end] := NUL;
    }
  }

  method Below10K(u: uint32, buffer: array<byte>, at: nat) returns (end: nat)
    requires 100 <= u < 10_000 && at + |Decimal(u)| < buffer.Length
    modifies buffer
    ensures end == at + |Decimal(u)| && buffer[..end] == old(buffer[..at]) + Decimal(u) && buffer[end] == NUL
    ensures forall k :: end < k < buffer.Length ==> buffer[k] == old(buffer[k])
  {
    Powers();
    if 1000 <= u {
      DecimalIsPadded(u, 4);
      end := Lt10K(u, buffer, at);
    } else {
      DecimalIsPadded(u, 3);
      var rest := WriteOne(u, 100, 2, buffer, at);
      end := Lt100(rest, buffer, at + 1);
    }
  }

  method Below1M(u: uint32, buffer: array<byte>, at: nat) returns (end: nat)
    requires 10_000 <= u < 1_000_000 && at + |Decimal(u)| < buffer.Length
    modifies buffer
    ensures end == at + |Decimal(u)| && buffer[..end] == old(buffer[..at]) + Decimal(u) && buffer[end] == NUL
    ensures forall k :: end < k < buffer.Length ==> buffer[k] == old(buffer[k])
  {
    Powers();
    if 100_000 <= u {
      DecimalIsPadded(u, 6);
      end := Lt1M(u, buffer, at);
    } else {
      DecimalIsPadded(u, 5);
      var rest := WriteOne(u, 10_000, 4, buffer, at);
      end := Lt10K(rest, buffer, at + 1);
    }
  }

  method Below100M(u: uint32, buffer: array<byte>, at: nat) returns (end: nat)
    requires 1_000_000 <= u < 100_000_000 && at + |Decimal(u)| < buffer.Length
    modifies buffer
    ensures end == at + |Decimal(u)| && buffer[..end] == old(buffer[..at]) + Decimal(u) && buffer[end] == NUL
    ensures forall k :: end < k < buffer.Length ==> buffer[k] == old(buffer[k])
  {
    Powers();
    if 10_000_000 <= u {
      DecimalIsPadded(u, 8);
      end := Lt100M(u, buffer, at);
    } else {
      DecimalIsPadded(u, 7);
      var rest := WriteOne(u, 1_000_000, 6, buffer, at);
      end := Lt1M(rest, buffer, at + 1);
    }
  }

  method TenDigits(u: uint32, buffer: array<byte>, at: nat) returns (end: nat)
    requires 1_000_000_000 <= u && at + |Decimal(u)| < buffer.Length
    modifies buffer
    ensures end == at + |Decimal(u)| && buffer[..end] == old(buffer[..at]) + Decimal(u) && buffer[end] == NUL
    ensures forall k :: end < k < buffer.Length ==> buffer[k] == old(buffer[k])
  {
    Powers();
    DecimalIsPadded(u, 10);
    var rest := WritePair(u, 100_000_000, 8, buffer, at);
    end := Lt100M(rest, buffer, at + 2);
  }

  method NineDigitNumeral(u: uint32, buffer: array<byte>, at: nat) returns (end: nat)
    requires 100_000_000 <= u < 1_000_000_000 && at + |Decimal(u)| < buffer.Length
    modifies buffer
    ensures end == at + |Decimal(u)| && buffer[..end] == old(buffer[..at]) + Decimal(u) && buffer[end] == NUL
    ensures forall k :: end < k < buffer.Length ==> buffer[k] == old(buffer[k])
  {
    Powers();
    DecimalIsPadded(u, 9);
    var rest := WriteOne(u, 100_000_000, 8, buffer, at);
    end := Lt100M(rest, buffer, at + 1);
  }

  /** For every 32-bit number, the canonical numeral and the terminator. */
  method FastUInt32ToBufferLeft(u: uint32, buffer: array<byte>, at: nat) returns (end: nat)
    requires at + |Decimal(u)| < buffer.Length
    modifies buffer
    ensures end == at + |Decimal(u)| && buffer[..end] == old(buffer[..at]) + Decimal(u) && buffer[end] == NUL
    ensures forall k :: end < k < buffer.Length ==> buffer[k] == old(buffer[k])
  {
    if 1_000_000_000 <= u {
      end := TenDigits(u, buffer, at);
    } else if u < 100 {
      end := Below100(u, buffer, at);
    } else if u < 10_000 {
      end := Below10K(u, buffer, at);
    } else if u < 1_000_000 {
      end := Below1M(u, buffer, at);
    } else if u < 100_000_000 {
      end := Below100M(u, buffer, at);
    } else {
      end := NineDigitNumeral(u, buffer, at);
    }
  }

  /** A signed value assigned to an unsigned variable. */
  function Unsigned32(x: int): uint32 {
    x % TWO_32
  }

  function Unsigned64(x: int): uint64 {
    x % TWO_64
  }

  /** Also for the minimum, whose negation overflows. */
  lemma NegationIsExact(i: int)
    ensures -TWO_31 <= i < 0 ==> Unsigned32(Wrap32(-i)) == -i
    ensures -TWO_63 <= i < 0 ==> Unsigned64(Wrap64(-i)) == -i
  {
  }

  /** `uint32 u = i; if (i < 0) u = -i;` */
  method Magnitude32(i: int) returns (u: uint32)
    requires -TWO_31 <= i < TWO_31
    ensures u == if i < 0 then -i else i
  {
    u := Unsigned32(i);
    if i < 0 {
      u := Unsigned32(Wrap32(-i));
      NegationIsExact(i);
    }
  }

  method Magnitude64(i: int) returns (u: uint64)
    requires -TWO_63 <= i < TWO_63
    ensures u == if i < 0 then -i else i
  {
    u := Unsigned64(i);
    if i < 0 {
      u := Unsigned64(Wrap64(-i));
      NegationIsExact(i);
    }
  }

  method FastInt32ToBufferLeft(i: int, buffer: array<byte>, at: nat) returns (end: nat)
    requires -TWO_31 <= i < TWO_31 && at + |SignedDecimal(i)| < buffer.Length
    modifies buffer
    ensures end == at + |SignedDecimal(i)| && buffer[..end] == old(buffer[..at]) + SignedDecimal(i)
    ensures buffer[end] == NUL
    ensures forall k :: end < k < buffer.Length ==> buffer[k] == old(buffer[k])
  {
    var u := Magnitude32(i);
    var p := at;
    if i < 0 {
      buffer[p] := MINUS;
      p := p + 1;
    }
    end := FastUInt32ToBufferLeft(u, buffer, p);
  }

  // ----- 64 bits: split off nine digits at a time

  lemma LeadingNine(before: seq<byte>, u: nat)
    requires 1_000_000_000 <= u
    ensures u / 1_000_000_000 < u && |Decimal(u / 1_000_000_000)| + 9 == |Decimal(u)|
    ensures (before + Decimal(u / 1_000_000_000)) + Padded(u % 1_000_000_000, 9) == before + Decimal(u)
  {
    Powers();
    var top, low := u / 1_000_000_000, u % 1_000_000_000;
    ScaleIsProduct(top, 9);
    DecimalSplit(top, low, 9);
  }

  /** The low nine digits, zero-padded. */
  method NineDigits(u: uint32, buffer: array<byte>, at: nat) returns (end: nat)
    requires u < 1_000_000_000 && at + 9 < buffer.Length
    modifies buffer
    ensures end == at + 9 && buffer[..end] == old(buffer[..at]) + Padded(u, 9) && buffer[end] == NUL
    ensures forall k :: end < k < buffer.Length ==> buffer[k] == old(buffer[k])
  {
    Powers();
    var seven := WritePair(u, 10_000_000, 7, buffer, at);
    var five := WritePair(seven, 100_000, 5, buffer, at + 2);
    end := FiveDigits(five, buffer, at + 4);
  }

  method OneDigit(u: uint32, buffer: array<byte>, at: nat) returns (end: nat)
    requires u < 10 && at + 1 < buffer.Length
    modifies buffer
    ensures end == at + 1 && buffer[..end] == old(buffer[..at]) + Padded(u, 1) && buffer[end] == NUL
    ensures forall k :: end < k < buffer.Length ==> buffer[k] == old(buffer[k])
  {
    assert Padded(u, 1) == Padded(u / 10, 0) + [Ascii(u)];
    buffer[at] := ZERO + u;
    buffer[at + 1] := NUL;
    end := at + 1;
  }

  method FiveDigits(u: uint32, buffer: array<byte>, at: nat) returns (end: nat)
    requires u < 100_000 && at + 5 < buffer.Length
    modifies buffer
    ensures end == at + 5 && buffer[..end] == old(buffer[..at]) + Padded(u, 5) && buffer[end] == NUL
    ensures forall k :: end < k < buffer.Length ==> buffer[k] == old(buffer[k])
  {
    Powers();
    var three := WritePair(u, 1000, 3, buffer, at);
    var one := WritePair(three, 10, 1, buffer, at + 2);
    end := OneDigit(one, buffer, at + 4);
  }

  method Truncate32(u64: uint64) returns (u: uint32)
    ensures u == u64 <==> u64 < TWO_32
  {
    u := Unsigned32(u64);
  }

  /** `u = u64 - (top_11_digits * 1000000000)`, truncated to 32 bits. */
  method LowNine(u64: uint64, top11Digits: nat) returns (u: uint32)
    requires top11Digits == u64 / 1_000_000_000
    ensures u == u64 % 1_000_000_000
  {
    var product := top11Digits * 1_000_000_000;
    assert 0 <= product <= u64 && u64 - product == u64 % 1_000_000_000;
    u := Unsigned32(Unsigned64(u64 - Unsigned64(product)));
  }

  method FastUInt64ToBufferLeft(u64: uint64, buffer: array<byte>, at: nat) returns (end: nat)
    requires at + |Decimal(u64)| < buffer.Length
    modifies buffer
    ensures end == at + |Decimal(u64)| && buffer[..end] == old(buffer[..at]) + Decimal(u64) && buffer[end] == NUL
    ensures forall k :: end < k < buffer.Length ==> buffer[k] == old(buffer[k])
    decreases u64
  {
    var u := Truncate32(u64);
    if u == u64 {
      end := FastUInt32ToBufferLeft(u, buffer, at);
      return;
    }
    var top11Digits := u64 / 1_000_000_000;
    LeadingNine(old(buffer[..at]), u64);
    var middle := FastUInt64ToBufferLeft(top11Digits, buffer, at);
    u := LowNine(u64, top11Digits);
    end := NineDigits(u, buffer, middle);
  }

  method FastInt64ToBufferLeft(i: int, buffer: array<byte>, at: nat) returns (end: nat)
    requires -TWO_63 <= i < TWO_63 && at + |SignedDecimal(i)| < buffer.Length
    modifies buffer
    ensures end == at + |SignedDecimal(i)| && buffer[..end] == old(buffer[..at]) + SignedDecimal(i)
    ensures buffer[end] == NUL
    ensures forall k :: end < k < buffer.Length ==> buffer[k] == old(buffer[k])
  {
    var u := Magnitude64(i);
    var p := at;
    if i < 0 {
      buffer[p] := MINUS;
      p := p + 1;
    }
    end := FastUInt64ToBufferLeft(u, buffer, p);
  }

  // ----- Right-aligned printing of signed numbers

  /** Offsets of the terminator: 12 and 22 bytes of buffer. */
  const INT32_OFFSET: nat := 11
  const INT64_OFFSET: nat := 21

  lemma LongestNumerals(n: nat)
    ensures n <= TWO_31 ==> |Decimal(n)| <= 10
    ensures n <= TWO_63 ==> |Decimal(n)| <= 19
  {
    Powers();
    assert Scale(1, 11) == 100 * Scale(1, 9);
    assert Scale(1, 13) == 100 * Scale(1, 11);
    assert Scale(1, 15) == 100 * Scale(1, 13);
    assert Scale(1, 17) == 100 * Scale(1, 15);
    assert Scale(1, 19) == 100 * Scale(1, 17);
    DecimalLength(n, 10);
    DecimalLength(n, 19);
  }

  /** `*p-- = '0' + digit`, where p has come down to q and the digits written so far end at `last`. */
  method PutDown(digit: nat, buffer: array<byte>, q: nat, last: nat)
    requires digit < 10 && q <= last < buffer.Length
    modifies buffer
    ensures buffer[q..last + 1] == [Ascii(digit)] + old(buffer[q + 1..last + 1])
    ensures buffer[last + 1..] == old(buffer[last + 1..]) && buffer[..q] == old(buffer[..q])
  {
    buffer[q] := ZERO + digit;
  }

  /** The digits of n that are still to be written: none once n is used up. */
  function Left(n: nat): seq<byte> {
    if n == 0 then [] else Decimal(n)
  }

  lemma LastDigit(n: nat, written: seq<byte>)
    ensures Decimal(n) + written == Left(n / 10) + ([Ascii(n % 10)] + written)
  {
  }

  /** One pass of the loop: the last digit of i goes in front of what was written. */
  method DigitDown(i: nat, buffer: array<byte>, q: nat, last: nat, ghost numeral: seq<byte>)
    requires q <= last < buffer.Length && Decimal(i) + buffer[q + 1..last + 1] == numeral
    modifies buffer
    ensures Left(i / 10) + buffer[q..last + 1] == numeral && |Left(i / 10)| == |Decimal(i)| - 1
    ensures buffer[last + 1..] == old(buffer[last + 1..]) && buffer[..q] == old(buffer[..q])
  {
    LastDigit(i, buffer[q + 1..last + 1]);
    LastDigit(i, []);
    PutDown(i % 10, buffer, q, last);
  }

  /** The do-while loop that writes digits downward from p; q is just below the last one written. */
  method DigitsDown(n: nat, buffer: array<byte>, p: nat) returns (q: int)
    requires |Decimal(n)| <= p + 1 <= buffer.Length
    modifies buffer
    ensures q == p - |Decimal(n)|
    ensures buffer[q + 1..p + 1] == Decimal(n) && buffer[p + 1..] == old(buffer[p + 1..])
    ensures buffer[..q + 1] == old(buffer[..q + 1])
  {
    ghost var numeral, above, whole := Decimal(n), buffer[p + 1..], buffer[..];
    assert numeral + buffer[p + 1..p + 1] == numeral;
    DigitDown(n, buffer, p, p, numeral);
    q := p - 1;
    var i := n / 10;
    while i > 0
      invariant 0 <= i && -1 <= q < p && |Left(i)| <= q + 1
      invariant Left(i) + buffer[q + 1..p + 1] == numeral
      invariant buffer[p + 1..] == above && buffer[..q + 1] == whole[..q + 1]
    {
      ghost var below := buffer[..q];
      assert below == whole[..q];
      DigitDown(i, buffer, q, p, numeral);
      q, i := q - 1, i / 10;
    }
  }

  method NonNegative(value: int, buffer: array<byte>, offset: nat) returns (start: nat)
    requires 0 <= value && |SignedDecimal(value)| <= offset < buffer.Length && buffer[offset] == NUL
    modifies buffer
    ensures start + |SignedDecimal(value)| == offset
    ensures buffer[start..offset] == SignedDecimal(value) && buffer[offset] == NUL
    ensures forall k :: 0 <= k < start || offset < k < buffer.Length ==> buffer[k] == old(buffer[k])
  {
    var q := DigitsDown(value, buffer, offset - 1);
    assert forall k :: offset <= k < buffer.Length ==> buffer[k] == buffer[offset..][k - offset];
    assert forall k :: 0 <= k <= q ==> buffer[k] == buffer[..q + 1][k];
    start := q + 1;
  }

  /** The numbers from -9 to -1. */
  method SmallNegative(value: int, buffer: array<byte>, offset: nat) returns (start: nat)
    requires -10 < value < 0 && 2 <= offset < buffer.Length && buffer[offset] == NUL
    modifies buffer
    ensures start + |SignedDecimal(value)| == offset
    ensures buffer[start..offset] == SignedDecimal(value) && buffer[offset] == NUL
    ensures forall k :: 0 <= k < start || offset < k < buffer.Length ==> buffer[k] == old(buffer[k])
  {
    var i, p := -value, offset - 1;
    buffer[p] := ZERO + i;
    buffer[p - 1] := MINUS;
    assert buffer[p - 1..offset] == [MINUS, Ascii(i)];
    start := p - 1;
  }

  lemma TenLess(n: nat)
    requires 10 <= n
    ensures (n - 10) % 10 == n % 10 && (n - 10) / 10 + 1 == n / 10
    ensures Decimal(n) == Decimal(n / 10) + [Ascii(n % 10)]
  {
  }

  /** Ten is added before the sign is changed, so that the minimum does not overflow, and taken away after the
      first division. */
  method LargeDigits(value: int, buffer: array<byte>, offset: nat, half: int) returns (q: int)
    requires -half <= value <= -10 && 10 < half && |Decimal(-value)| <= offset < buffer.Length
    modifies buffer
    ensures q == offset - 1 - |Decimal(-value)|
    ensures buffer[q + 1..offset] == Decimal(-value)
    ensures forall k :: 0 <= k <= q || offset <= k < buffer.Length ==> buffer[k] == old(buffer[k])
  {
    var i, p := value, offset - 1;
    i := i + 10;
    assert -half <= i && -i < half;
    i := -i;
    TenLess(-value);
    PutDown(i % 10, buffer, p, p);
    ghost var written := buffer[p..];
    i := i / 10 + 1;
    q := DigitsDown(i, buffer, p - 1);
    assert buffer[p..] == written;
    assert buffer[q + 1..offset] == buffer[q + 1..p] + written[..1];
    assert forall k :: offset <= k < buffer.Length ==> buffer[k] == written[k - p];
    assert forall k :: 0 <= k <= q ==> buffer[k] == buffer[..q + 1][k];
  }

  method LargeNegative(value: int, buffer: array<byte>, offset: nat, half: int) returns (start: nat)
    requires -half <= value <= -10 && 10 < half
    requires |SignedDecimal(value)| <= offset < buffer.Length && buffer[offset] == NUL
    modifies buffer
    ensures start + |SignedDecimal(value)| == offset
    ensures buffer[start..offset] == SignedDecimal(value) && buffer[offset] == NUL
    ensures forall k :: 0 <= k < start || offset < k < buffer.Length ==> buffer[k] == old(buffer[k])
  {
    var q := LargeDigits(value, buffer, offset, half);
    ghost var digits := buffer[q + 1..offset];
    buffer[q] := MINUS;
    assert buffer[q..offset] == [MINUS] + digits;
    start := q;
  }

  /** FastInt32ToBuffer and FastInt64ToBuffer, which differ in the width: `half` is 2^31 or 2^63.  No step
      overflows, and the pointer never goes below the start of the buffer. */
  method FastIntToBuffer(value: int, buffer: array<byte>, offset: nat, half: int) returns (start: nat)
    requires (offset == INT32_OFFSET && half == TWO_31) || (offset == INT64_OFFSET && half == TWO_63)
    requires -half <= value < half && offset < buffer.Length
    modifies buffer
    ensures start + |SignedDecimal(value)| == offset
    ensures buffer[start..offset] == SignedDecimal(value) && buffer[offset] == NUL
    ensures forall k :: 0 <= k < start || offset < k < buffer.Length ==> buffer[k] == old(buffer[k])
  {
    LongestNumerals(if value < 0 then -value else value);
    buffer[offset] := NUL;
    if 0 <= value {
      start := NonNegative(value, buffer, offset);
    } else if -10 < value {
      start := SmallNegative(value, buffer, offset);
    } else {
      start := LargeNegative(value, buffer, offset, half);
    }
  }

  /** The 32-bit minimum uses the 12 bytes to the last one. */
  lemma MinimumFillsBuffer()
    ensures |SignedDecimal(-TWO_31)| == INT32_OFFSET
  {
  }
}
