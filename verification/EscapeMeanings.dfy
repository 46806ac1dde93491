/** What the unescaper makes of every form of escape, by byte values. */
module EscapeMeanings {
  import opened CEscaping

  /** An escape that produces one byte or none. */
  lemma AfterEscape(escape: seq<byte>, out: seq<byte>, rest: seq<byte>)
    requires 2 <= |escape| && escape[0] == 92 && Meaning(escape + rest) == (out, |escape|)
    ensures Unescape(escape + rest) == out + Unescape(rest)
  {
    var s := escape + rest;
    assert s[|escape|..] == rest && s[0] == 92 && Unit(s) == (out, |escape|);
  }

  lemma LetterMeaning(c: byte, b: byte, rest: seq<byte>)
    requires Unletter(c) == b != NUL
    ensures Unescape([92, c] + rest) == [b] + Unescape(rest)
  {
    AfterEscape([92, c], [b], rest);
  }

  /** Escapes of two bytes: a, b, t, n, v, f, r, the quotes, the question mark and the backslash. */
  lemma TwoByteEscapes(rest: seq<byte>)
    ensures Unescape([92, 97] + rest) == [7] + Unescape(rest) && Unescape([92, 98] + rest) == [8] + Unescape(rest)
    ensures Unescape([92, 116] + rest) == [9] + Unescape(rest) && Unescape([92, 110] + rest) == [10] + Unescape(rest)
    ensures Unescape([92, 118] + rest) == [11] + Unescape(rest) && Unescape([92, 102] + rest) == [12] + Unescape(rest)
    ensures Unescape([92, 114] + rest) == [13] + Unescape(rest) && Unescape([92, 92] + rest) == [92] + Unescape(rest)
    ensures Unescape([92, 34] + rest) == [34] + Unescape(rest) && Unescape([92, 39] + rest) == [39] + Unescape(rest)
    ensures Unescape([92, 63] + rest) == [63] + Unescape(rest)
  {
    LetterMeaning(97, 7, rest);
    LetterMeaning(98, 8, rest);
    LetterMeaning(116, 9, rest);
    LetterMeaning(110, 10, rest);
    LetterMeaning(118, 11, rest);
    LetterMeaning(102, 12, rest);
    LetterMeaning(114, 13, rest);
    LetterMeaning(92, 92, rest);
    LetterMeaning(34, 34, rest);
    LetterMeaning(39, 39, rest);
    LetterMeaning(63, 63, rest);
  }

  /** Any other byte after a backslash, octal digits and the hex escapes aside, disappears with it; so does a backslash
      at the end, and an x or X without a hex digit. */
  lemma EscapesWithoutMeaning(c: byte, rest: seq<byte>)
    requires c !in [97, 98, 116, 110, 118, 102, 114, 92, 34, 39, 63] && !(48 <= c < 56)
    requires (c == 120 || c == 88) && rest != [] ==> !IsHexDigit(rest[0])
    ensures Unescape([92, c] + rest) == Unescape(rest)
    ensures Unescape([92]) == []
  {
    assert ([92, c] + rest)[2..] == rest;
    AfterEscape([92, c], [], rest);
  }

  /** A byte that is no backslash means itself. */
  lemma PlainBytes(b: byte, rest: seq<byte>)
    requires b != 92
    ensures Unescape([b] + rest) == [b] + Unescape(rest)
  {
    UnescapePlain(b, rest);
  }

  // ----- Octal digits

  lemma OneOctalDigit(x: nat, rest: seq<byte>)
    requires x < 8 && (rest != [] ==> !(48 <= rest[0] < 56))
    ensures Meaning([92, 48 + x] + rest) == ([x], 2)
  {
    var s := [92, 48 + x] + rest;
    assert s[1..] == [48 + x] + rest && s[1..2] == [48 + x] && [48 + x][..0] == [];
    assert OctalRun(s[1..]) == 1;
    assert OctalValue([48 + x]) == x;
  }

  lemma ValueOfTwo(x: nat, y: nat)
    requires x < 8 && y < 8
    ensures OctalValue([48 + x, 48 + y]) == 8 * x + y
  {
    var digits: seq<byte> := [48 + x, 48 + y];
    assert digits[..1] == [48 + x] && digits[..1][..0] == [];
    assert OctalValue(digits[..1]) == x;
  }

  lemma TwoOctalDigits(x: nat, y: nat, rest: seq<byte>)
    requires x < 8 && y < 8 && (rest != [] ==> !(48 <= rest[0] < 56))
    ensures Meaning([92, 48 + x, 48 + y] + rest) == ([8 * x + y], 3)
  {
    var s := [92, 48 + x, 48 + y] + rest;
    assert s[1..] == [48 + x, 48 + y] + rest;
    assert OctalRun(s[1..]) == 2;
    assert s[1..3] == [48 + x, 48 + y];
    ValueOfTwo(x, y);
  }

  /** One digit or two, which no other follows. */
  lemma ShortOctalEscapes(x: nat, y: nat, rest: seq<byte>)
    requires x < 8 && y < 8 && (rest != [] ==> !(48 <= rest[0] < 56))
    ensures Unescape([92, 48 + x] + rest) == [x] + Unescape(rest)
    ensures Unescape([92, 48 + x, 48 + y] + rest) == [8 * x + y] + Unescape(rest)
  {
    OneOctalDigit(x, rest);
    AfterEscape([92, 48 + x], [x], rest);
    TwoOctalDigits(x, y, rest);
    AfterEscape([92, 48 + x, 48 + y], [8 * x + y], rest);
  }

  /** Three digits, whatever follows; the value is taken modulo 256. */
  lemma LongOctalEscapes(x: nat, y: nat, z: nat, rest: seq<byte>)
    requires x < 8 && y < 8 && z < 8
    ensures Unescape([92, 48 + x, 48 + y, 48 + z] + rest) == [(64 * x + 8 * y + z) % 256] + Unescape(rest)
  {
    OctalMeaning([92, 48 + x, 48 + y, 48 + z] + rest, x, y, z);
    AfterEscape([92, 48 + x, 48 + y, 48 + z], [(64 * x + 8 * y + z) % 256], rest);
  }

  // ----- Hex digits

  /** The value of a hex digit of either case. */
  function DigitValue(b: byte): nat
    requires 48 <= b < 58 || 65 <= b < 71 || 97 <= b < 103
  {
    if b < 58 then b - 48 else if b < 71 then b - 55 else b - 87
  }

  predicate HexDigits(digits: seq<byte>) {
    forall k :: 0 <= k < |digits| ==> IsHexDigit(digits[k])
  }

  lemma {:induction false} HexRunIs(digits: seq<byte>, rest: seq<byte>)
    requires HexDigits(digits) && (rest != [] ==> !IsHexDigit(rest[0]))
    ensures HexRun(digits + rest) == |digits|
  {
    if digits == [] {
      assert digits + rest == rest;
    } else {
      assert (digits + rest)[1..] == digits[1..] + rest;
      HexRunIs(digits[1..], rest);
    }
  }

  lemma LowNibble(n: nat, v: nat)
    requires n < UINT32_LIMIT && v < 16
    ensures ((n * 16 + v) % UINT32_LIMIT) % 16 == v
    ensures ((n * 16 + v) % UINT32_LIMIT) % 256 == (n % 16) * 16 + v
  {
    var q, h := (n * 16 + v) / UINT32_LIMIT, n / 16;
    assert (n * 16 + v) % UINT32_LIMIT == n * 16 + v - q * UINT32_LIMIT;
    assert n * 16 + v == h * 256 + (n % 16) * 16 + v;
  }

  lemma DigitsAgree(b: byte)
    requires IsHexDigit(b)
    ensures HexDigitToInt(b) == DigitValue(b) < 16
  {
  }

  lemma HexValueUnfolds(digits: seq<byte>)
    requires digits != [] && HexDigits(digits)
    ensures var n := |digits| - 1;
      HexValue(digits) == (HexValue(digits[..n]) * 16 + HexDigitToInt(digits[n])) % UINT32_LIMIT
  {
  }

  lemma HexValueNext(digits: seq<byte>)
    requires digits != [] && HexDigits(digits)
    ensures var n := |digits| - 1;
      && HexValue(digits) % 16 == DigitValue(digits[n])
      && HexValue(digits) % 256 == 16 * (HexValue(digits[..n]) % 16) + DigitValue(digits[n])
  {
    var n := |digits| - 1;
    var front, v := HexValue(digits[..n]), HexDigitToInt(digits[n]);
    HexValueUnfolds(digits);
    DigitsAgree(digits[n]);
    LowNibble(front, v);
    assert HexValue(digits) == (front * 16 + v) % UINT32_LIMIT;
  }

  /** Two digits make a byte; of more only the last two matter, though all are read. */
  function LastTwo(digits: seq<byte>): nat
    requires digits != [] && HexDigits(digits)
  {
    var n := |digits| - 1;
    DigitValue(digits[n]) + if n == 0 then 0 else 16 * DigitValue(digits[n - 1])
  }

  lemma HexValueIsLastTwo(digits: seq<byte>)
    requires digits != [] && HexDigits(digits)
    ensures HexValue(digits) % 256 == LastTwo(digits)
  {
    var n := |digits| - 1;
    HexValueNext(digits);
    if n > 0 {
      HexValueNext(digits[..n]);
    } else {
      assert digits[..n] == [];
    }
  }

  lemma HexMeaningIs(x: byte, digits: seq<byte>, rest: seq<byte>)
    requires (x == 120 || x == 88) && digits != [] && HexDigits(digits) && (rest != [] ==> !IsHexDigit(rest[0]))
    ensures Meaning([92, x] + (digits + rest)) == ([LastTwo(digits)], 2 + |digits|)
  {
    var s := [92, x] + (digits + rest);
    HexRunIs(digits, rest);
    assert s[2..] == digits + rest && s[2..][..|digits|] == digits;
    HexValueIsLastTwo(digits);
  }

  /** x or X and any number of hex digits, at least one. */
  lemma HexEscapes(x: byte, digits: seq<byte>, rest: seq<byte>)
    requires (x == 120 || x == 88) && digits != [] && HexDigits(digits) && (rest != [] ==> !IsHexDigit(rest[0]))
    ensures Unescape([92, x] + digits + rest) == [LastTwo(digits)] + Unescape(rest)
  {
    assert [92, x] + digits + rest == [92, x] + (digits + rest);
    HexMeaningIs(x, digits, rest);
    AfterEscape([92, x] + digits, [LastTwo(digits)], rest);
  }
}
