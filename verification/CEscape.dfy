/** C-style escaping of byte strings and its inverse. */
module CEscaping {

  type byte = b: int | 0 <= b < 256

  const NUL: byte := 0
  const BACKSLASH: byte := 92
  const INT_MAX: int := 0x7fff_ffff
  const UINT32_LIMIT: int := 0x1_0000_0000

  lemma Limits()
    ensures INT_MAX == 2147483647 && UINT32_LIMIT == 4294967296
  {
  }

  // ----- Character classes (ASCII)

  predicate IsPrint(b: byte) {
    32 <= b < 127
  }

  predicate IsOctalDigit(b: byte) {
    '0' as int <= b <= '7' as int
  }

  predicate IsHexDigit(b: byte) {
    '0' as int <= b <= '9' as int || 'A' as int <= b <= 'F' as int || 'a' as int <= b <= 'f' as int
  }

  /** The low four bits of an ASCII hex digit, after moving the letters next to the digits. */
  function HexDigitToInt(b: byte): (v: nat)
    requires IsHexDigit(b)
    ensures v < 16
  {
    (if b > '9' as int then b + 9 else b) % 16
  }

  function HexDigit(v: nat): byte
    requires v < 16
  {
    if v < 10 then '0' as int + v else 'a' as int + v - 10
  }

  // ----- Escaping

  datatype Mode = Mode(useHex: bool, utf8Safe: bool)

  const OCTAL: Mode := Mode(false, false)
  const HEX: Mode := Mode(true, false)
  const UTF8_SAFE: Mode := Mode(false, true)

  /** Newline, return, tab, the quotes and the backslash have two-letter escapes. */
  function Letter(b: byte): byte {
    if b == '\n' as int then 'n' as int
    else if b == '\r' as int then 'r' as int
    else if b == '\t' as int then 't' as int
    else if b == '\"' as int || b == '\'' as int || b == BACKSLASH then b
    else NUL
  }

  /** Whether a byte needs a numeric escape; a hex digit does if it would extend the escape before it. */
  predicate Numeric(b: byte, afterHex: bool, m: Mode) {
    Letter(b) == NUL && (!m.utf8Safe || b < 128) && (!IsPrint(b) || (afterHex && IsHexDigit(b)))
  }

  function EscapeByte(b: byte, afterHex: bool, m: Mode): seq<byte> {
    if Letter(b) != NUL then [BACKSLASH, Letter(b)]
    else if !Numeric(b, afterHex, m) then [b]
    else if m.useHex then [BACKSLASH, 'x' as int, HexDigit(b / 16), HexDigit(b % 16)]
    else [BACKSLASH, '0' as int + b / 64, '0' as int + b / 8 % 8, '0' as int + b % 8]
  }

  function Escape(s: seq<byte>, afterHex: bool, m: Mode): seq<byte> {
    if s == [] then []
    else EscapeByte(s[0], afterHex, m) + Escape(s[1..], m.useHex && Numeric(s[0], afterHex, m), m)
  }

  /** Whether the escaped string and its terminator fit, by the tests the code makes on the way. */
  predicate Fits(s: seq<byte>, afterHex: bool, m: Mode, room: int) {
    if s == [] then 1 <= room
    else
      && 2 <= room && (Numeric(s[0], afterHex, m) ==> 4 <= room)
      && Fits(s[1..], m.useHex && Numeric(s[0], afterHex, m), m, room - |EscapeByte(s[0], afterHex, m)|)
  }

  /** A numeric escape is written with sprintf, which adds a terminator that the tests for room do not count.
      It stays inside unless such an escape is reached with exactly four bytes left. */
  predicate StaysInside(s: seq<byte>, afterHex: bool, m: Mode, room: int) {
    s == [] || room < 2 || (Numeric(s[0], afterHex, m) && room < 4)
    || (!(Numeric(s[0], afterHex, m) && room == 4)
        && StaysInside(s[1..], m.useHex && Numeric(s[0], afterHex, m), m, room - |EscapeByte(s[0], afterHex, m)|))
  }

  /** The memory that follows the destination, after a terminator was or was not written past its end. */
  function Beyond(memory: seq<byte>, past: bool): seq<byte>
    requires past ==> memory != []
  {
    if past then [NUL] + memory[1..] else memory
  }

  /** Writes some bytes after the first `used`. */
  method Emit(dest: array<byte>, used: nat, bytes: seq<byte>)
    requires used + |bytes| <= dest.Length
    modifies dest
    ensures dest[..used + |bytes|] == old(dest[..used]) + bytes
    ensures dest[used + |bytes|..] == old(dest[used + |bytes|..])
  {
    var k := 0;
    while k < |bytes|
      invariant 0 <= k <= |bytes|
      invariant dest[..used + k] == old(dest[..used]) + bytes[..k]
      invariant dest[used + k..] == old(dest[used + k..])
    {
      dest[used + k] := bytes[k];
      k := k + 1;
    }
  }

  lemma EscapeNext(written: seq<byte>, s: seq<byte>, i: nat, afterHex: bool, m: Mode, room: int)
    requires i < |s|
    ensures var next := EscapeByte(s[i], afterHex, m);
      && written + Escape(s[i..], afterHex, m)
         == (written + next) + Escape(s[i + 1..], m.useHex && Numeric(s[i], afterHex, m), m)
    ensures Fits(s[i..], afterHex, m, room) <==>
      && 2 <= room && (Numeric(s[i], afterHex, m) ==> 4 <= room)
      && Fits(s[i + 1..], m.useHex && Numeric(s[i], afterHex, m), m, room - |EscapeByte(s[i], afterHex, m)|)
  {
    assert s[i..][0] == s[i] && s[i..][1..] == s[i + 1..];
  }

  lemma InsideNext(s: seq<byte>, i: nat, afterHex: bool, m: Mode, room: int)
    requires i < |s| && 2 <= room && (Numeric(s[i], afterHex, m) ==> 4 <= room)
    ensures StaysInside(s[i..], afterHex, m, room) <==>
      && !(Numeric(s[i], afterHex, m) && room == 4)
      && StaysInside(s[i + 1..], m.useHex && Numeric(s[i], afterHex, m), m, room - |EscapeByte(s[i], afterHex, m)|)
  {
    assert s[i..][0] == s[i] && s[i..][1..] == s[i + 1..];
  }

  /** The tests for room, and the switch on one source byte; -1 if there is no room.  The terminator after a numeric
      escape lands just past the destination if exactly four bytes are left. */
  method EscapeOne(b: byte, dest: array<byte>, used: nat, destLen: nat, lastHexEscape: bool, m: Mode)
      returns (r: int, isHexEscape: bool)
    requires used <= destLen <= dest.Length
    requires destLen == dest.Length ==> !(Numeric(b, lastHexEscape, m) && destLen - used == 4)
    modifies dest
    ensures r == -1 <==> destLen - used < 2 || (Numeric(b, lastHexEscape, m) && destLen - used < 4)
    ensures r != -1 ==>
      && r == used + |EscapeByte(b, lastHexEscape, m)| && r <= destLen
      && dest[..r] == old(dest[..used]) + EscapeByte(b, lastHexEscape, m)
      && isHexEscape == (m.useHex && Numeric(b, lastHexEscape, m))
    ensures dest[destLen..] == Beyond(old(dest[destLen..]), Numeric(b, lastHexEscape, m) && destLen - used == 4)
  {
    isHexEscape := false;
    if destLen - used < 2 {
      return -1, false;
    }
    if Letter(b) != NUL {
      Write(dest, used, [BACKSLASH, Letter(b)], destLen);
      r := used + 2;
    } else if Numeric(b, lastHexEscape, m) {
      if destLen - used < 4 {
        return -1, false;
      }
      var escape := EscapeByte(b, lastHexEscape, m);
      WriteString(dest, used, escape, destLen);
      isHexEscape := m.useHex;
      r := used + 4;
    } else {
      Write(dest, used, [b], destLen);
      r := used + 1;
    }
  }

  /** Inside the destination. */
  method Write(dest: array<byte>, used: nat, bytes: seq<byte>, destLen: nat)
    requires used + |bytes| <= destLen <= dest.Length
    modifies dest
    ensures dest[..used + |bytes|] == old(dest[..used]) + bytes && dest[destLen..] == old(dest[destLen..])
  {
    Emit(dest, used, bytes);
    assert dest[destLen..] == dest[used + |bytes|..][destLen - used - |bytes|..];
  }

  /** sprintf: the bytes and a terminator. */
  method WriteString(dest: array<byte>, used: nat, bytes: seq<byte>, destLen: nat)
    requires used + |bytes| <= destLen <= dest.Length && used + |bytes| < dest.Length
    modifies dest
    ensures dest[..used + |bytes|] == old(dest[..used]) + bytes
    ensures dest[destLen..] == Beyond(old(dest[destLen..]), used + |bytes| == destLen)
  {
    var end := used + |bytes|;
    Emit(dest, used, bytes);
    dest[end] := NUL;
    if end < destLen {
      assert dest[destLen..] == dest[end + 1..][destLen - end - 1..];
    } else {
      assert dest[destLen..] == [NUL] + dest[destLen + 1..];
    }
  }

  /** The same as a step through the source s, of which i bytes are done. */
  method EscapeNextByte(b: byte, dest: array<byte>, used: nat, destLen: nat, afterHex: bool, m: Mode,
                        ghost s: seq<byte>, ghost i: nat) returns (r: int, isHexEscape: bool, ghost past: bool)
    requires i < |s| && b == s[i] && used <= destLen <= dest.Length
    requires destLen == dest.Length ==> StaysInside(s[i..], afterHex, m, destLen - used)
    modifies dest
    ensures destLen - used < 2 ==> r == -1
    ensures r == -1 ==>
      !past && !Fits(s[i..], afterHex, m, destLen - used) && StaysInside(s[i..], afterHex, m, destLen - used)
    ensures r != -1 ==>
      && 0 <= r <= destLen && (past ==> r == destLen < dest.Length)
      && dest[..r] + Escape(s[i + 1..], isHexEscape, m) == old(dest[..used]) + Escape(s[i..], afterHex, m)
      && (Fits(s[i + 1..], isHexEscape, m, destLen - r) <==> Fits(s[i..], afterHex, m, destLen - used))
      && (StaysInside(s[i..], afterHex, m, destLen - used) <==>
           (!past && StaysInside(s[i + 1..], isHexEscape, m, destLen - r)))
    ensures dest[destLen..] == Beyond(old(dest[destLen..]), past)
  {
    EscapeNext(dest[..used], s, i, afterHex, m, destLen - used);
    past := Numeric(b, afterHex, m) && destLen - used == 4;
    if 2 <= destLen - used && (Numeric(b, afterHex, m) ==> 4 <= destLen - used) {
      InsideNext(s, i, afterHex, m, destLen - used);
    }
    r, isHexEscape := EscapeOne(b, dest, used, destLen, afterHex, m);
  }

  /** What the loop is to produce, and the memory behind the destination. */
  datatype Goal = Goal(escaped: seq<byte>, fits: bool, inside: bool, beyond: seq<byte>)

  /** The first i bytes of s are escaped, into the first `used` of the destination. */
  ghost predicate Midway(dest: array<byte>, destLen: nat, used: int, s: seq<byte>, i: int, afterHex: bool, m: Mode,
                         past: bool, goal: Goal)
    reads dest
  {
    && 0 <= i <= |s| && 0 <= used <= destLen <= dest.Length && |goal.beyond| == dest.Length - destLen
    && dest[..used] + Escape(s[i..], afterHex, m) == goal.escaped
    && Fits(s[i..], afterHex, m, destLen - used) == goal.fits
    && (!past && StaysInside(s[i..], afterHex, m, destLen - used)) == goal.inside
    && (past ==> used == destLen < dest.Length) && dest[destLen..] == Beyond(goal.beyond, past)
  }

  method EscapeStep(b: byte, dest: array<byte>, destLen: nat, used: int, lastHexEscape: bool, m: Mode, ghost s: seq<byte>,
                    ghost i: nat, ghost past: bool, ghost goal: Goal)
      returns (r: int, isHexEscape: bool, ghost nowPast: bool)
    requires i < |s| && b == s[i] && Midway(dest, destLen, used, s, i, lastHexEscape, m, past, goal)
    requires destLen == dest.Length ==> goal.inside
    modifies dest
    ensures r == -1 ==> !goal.fits && dest[destLen..] == Beyond(goal.beyond, !goal.inside)
    ensures r != -1 ==> Midway(dest, destLen, r, s, i + 1, isHexEscape, m, nowPast, goal)
  {
    r, isHexEscape, nowPast := EscapeNextByte(b, dest, used, destLen, lastHexEscape, m, s, i);
    nowPast := past || nowPast;
  }

  /** The loop over the source; -1 if the room runs out. */
  method EscapeBytes(src: array<byte>, srcLen: nat, dest: array<byte>, destLen: nat, m: Mode) returns (used: int)
    requires src != dest && srcLen <= src.Length && destLen <= dest.Length
    requires destLen == dest.Length ==> StaysInside(src[..srcLen], false, m, destLen)
    modifies dest
    ensures used == -1 ==> !Fits(src[..srcLen], false, m, destLen)
    ensures used != -1 ==>
      && 0 <= used <= destLen && dest[..used] == Escape(src[..srcLen], false, m)
      && (Fits(src[..srcLen], false, m, destLen) <==> used < destLen)
    ensures dest[destLen..] == Beyond(old(dest[destLen..]), !StaysInside(src[..srcLen], false, m, destLen))
  {
    ghost var s, past := src[..srcLen], false;
    ghost var goal := Goal(Escape(s, false, m), Fits(s, false, m, destLen), StaysInside(s, false, m, destLen),
                           dest[destLen..]);
    assert s[0..] == s;
    used := 0;
    var i := 0;
    var lastHexEscape := false;
    while i < srcLen
      invariant 0 <= i <= srcLen && src[..srcLen] == s
      invariant Midway(dest, destLen, used, s, i, lastHexEscape, m, past, goal)
    {
      used, lastHexEscape, past := EscapeStep(src[i], dest, destLen, used, lastHexEscape, m, s, i, past, goal);
      if used == -1 {
        return;
      }
      i := i + 1;
    }
    assert s[i..] == [];
  }

  /** The destination is the first destLen bytes of dest; what follows is other memory.  It is touched if and only if
      StaysInside fails, and then the byte just past the destination is set to NUL. */
  method CEscapeInternal(src: array<byte>, srcLen: nat, dest: array<byte>, destLen: nat, m: Mode) returns (r: int)
    requires src != dest && srcLen <= src.Length && destLen <= dest.Length
    requires destLen == dest.Length ==> StaysInside(src[..srcLen], false, m, destLen)
    modifies dest
    ensures r == -1 <==> !Fits(src[..srcLen], false, m, destLen)
    ensures r != -1 ==>
      0 <= r < destLen && dest[..r] == Escape(src[..srcLen], false, m) && dest[r] == NUL
    ensures dest[destLen..] == Beyond(old(dest[destLen..]), !StaysInside(src[..srcLen], false, m, destLen))
  {
    r := EscapeBytes(src, srcLen, dest, destLen, m);
    if r == -1 || destLen - r < 1 {
      return -1;
    }
    ghost var beyond := dest[destLen..];
    dest[r] := NUL;
    assert dest[destLen..] == beyond;
  }

  /** The write past the end only happens on the way to -1. */
  lemma {:induction false} FittingStaysInside(s: seq<byte>, afterHex: bool, m: Mode, room: int)
    requires Fits(s, afterHex, m, room)
    ensures StaysInside(s, afterHex, m, room)
  {
    if s != [] {
      var next := m.useHex && Numeric(s[0], afterHex, m);
      FittingStaysInside(s[1..], next, m, room - |EscapeByte(s[0], afterHex, m)|);
    }
  }

  /** One unprintable byte and four bytes of destination. */
  lemma FourBytesAreTooFew()
    ensures !StaysInside([1], false, OCTAL, 4) && !Fits([1], false, OCTAL, 4)
  {
    assert Numeric(1, false, OCTAL);
  }

  /** Some prefix of the source ends in a numeric escape, the four bytes of which end where the destination does. */
  ghost predicate EndsOnEdge(s: seq<byte>, afterHex: bool, m: Mode, room: int, i: nat) {
    i < |s| && |Escape(s[..i + 1], afterHex, m)| == room && |Escape(s[..i], afterHex, m)| == room - 4
  }

  lemma EdgeNext(s: seq<byte>, afterHex: bool, m: Mode, room: int, i: nat)
    requires s != []
    ensures var next, n := m.useHex && Numeric(s[0], afterHex, m), |EscapeByte(s[0], afterHex, m)|;
      EndsOnEdge(s, afterHex, m, room, i + 1) <==> EndsOnEdge(s[1..], next, m, room - n, i)
    ensures EndsOnEdge(s, afterHex, m, room, 0) <==> Numeric(s[0], afterHex, m) && room == 4
  {
    if i + 1 < |s| {
      assert s[..i + 2][1..] == s[1..][..i + 1] && s[..i + 1][1..] == s[1..][..i];
    }
    assert s[..1][1..] == [] && s[..0] == [];
    assert |Escape(s[..1], afterHex, m)| == |EscapeByte(s[0], afterHex, m)|;
  }

  /** So a caller can tell from the lengths of escaped prefixes whether a destination is safe. */
  lemma {:induction false} StaysInsideIff(s: seq<byte>, afterHex: bool, m: Mode, room: int)
    ensures StaysInside(s, afterHex, m, room) <==> forall i: nat :: !EndsOnEdge(s, afterHex, m, room, i)
  {
    if s != [] {
      var next, n := m.useHex && Numeric(s[0], afterHex, m), |EscapeByte(s[0], afterHex, m)|;
      StaysInsideIff(s[1..], next, m, room - n);
      EdgeNext(s, afterHex, m, room, 0);
      if StaysInside(s, afterHex, m, room) {
        forall i: nat ensures !EndsOnEdge(s, afterHex, m, room, i) {
          if i > 0 {
            EdgeNext(s, afterHex, m, room, i - 1);
          }
        }
      } else if !(Numeric(s[0], afterHex, m) && room == 4) {
        var i: nat :| EndsOnEdge(s[1..], next, m, room - n, i);
        EdgeNext(s, afterHex, m, room, i);
      }
    }
  }

  /** Four bytes for each and one for the terminator always suffice. */
  lemma {:induction false} FourTimesFits(s: seq<byte>, afterHex: bool, m: Mode, room: int)
    requires 4 * |s| + 1 <= room
    ensures Fits(s, afterHex, m, room)
  {
    if s != [] {
      FourTimesFits(s[1..], m.useHex && Numeric(s[0], afterHex, m), m, room - |EscapeByte(s[0], afterHex, m)|);
    }
  }

  // ----- Unescaping

  /** The byte a one-letter escape stands for, or NUL if the letter is not one of those. */
  function Unletter(b: byte): byte {
    if b == 'a' as int then 7
    else if b == 'b' as int then 8
    else if b == 't' as int then 9
    else if b == 'n' as int then 10
    else if b == 'v' as int then 11
    else if b == 'f' as int then 12
    else if b == 'r' as int then 13
    else if b == BACKSLASH || b == '?' as int || b == '\'' as int || b == '\"' as int then b
    else NUL
  }

  /** The octal digits, three at most, at the start of s. */
  function OctalRun(s: seq<byte>): (n: nat)
    ensures n <= 3 && n <= |s|
  {
    if s == [] || !IsOctalDigit(s[0]) then 0
    else if |s| == 1 || !IsOctalDigit(s[1]) then 1
    else if |s| == 2 || !IsOctalDigit(s[2]) then 2
    else 3
  }

  /** The hex digits at the start of s, however many. */
  function HexRun(s: seq<byte>): (n: nat)
    ensures n <= |s|
  {
    if s == [] || !IsHexDigit(s[0]) then 0 else 1 + HexRun(s[1..])
  }

  /** Truncated to 8 bits. */
  function OctalValue(s: seq<byte>): byte
    requires forall k :: 0 <= k < |s| ==> IsOctalDigit(s[k])
  {
    if s == [] then 0 else (OctalValue(s[..|s| - 1]) * 8 + (s[|s| - 1] - '0' as int)) % 256
  }

  /** Accumulated in 32 unsigned bits. */
  function HexValue(s: seq<byte>): (v: nat)
    requires forall k :: 0 <= k < |s| ==> IsHexDigit(s[k])
    ensures v < UINT32_LIMIT
  {
    if s == [] then 0 else (HexValue(s[..|s| - 1]) * 16 + HexDigitToInt(s[|s| - 1])) % UINT32_LIMIT
  }

  lemma {:induction false} HexRunDigits(s: seq<byte>)
    ensures forall k :: 0 <= k < HexRun(s) ==> IsHexDigit(s[k])
    ensures HexRun(s) < |s| ==> !IsHexDigit(s[HexRun(s)])
  {
    if s != [] && IsHexDigit(s[0]) {
      HexRunDigits(s[1..]);
      assert forall k :: 1 <= k < HexRun(s) ==> s[k] == s[1..][k - 1];
    }
  }

  /** The bytes an escape produces and the bytes it takes up, the backslash included.  An unknown escape and a
      "\\x" without a digit are logged and produce nothing. */
  function Meaning(s: seq<byte>): (r: (seq<byte>, nat))
    requires 2 <= |s|
    ensures |r.0| <= 1 && 2 <= r.1 <= |s|
  {
    var c, rest := s[1], s[2..];
    if Unletter(c) != NUL then ([Unletter(c)], 2)
    else if IsOctalDigit(c) then ([OctalValue(s[1..1 + OctalRun(s[1..])])], 1 + OctalRun(s[1..]))
    else if c == 'x' as int || c == 'X' as int then
      HexRunDigits(rest);
      if HexRun(rest) == 0 then ([], 2) else ([HexValue(rest[..HexRun(rest)]) % 256], 2 + HexRun(rest))
    else ([], 2)
  }

  /** What the first byte or escape produces, and how many bytes it takes up. */
  function Unit(s: seq<byte>): (r: (seq<byte>, nat))
    requires s != [] && (s[0] == BACKSLASH ==> 2 <= |s|)
    ensures |r.0| <= 1 <= r.1 <= |s|
  {
    if s[0] == BACKSLASH then Meaning(s) else ([s[0]], 1)
  }

  /** What a C string means; a lone backslash at the end is logged and ends it. */
  function Unescape(s: seq<byte>): (r: seq<byte>)
    ensures |r| <= |s|
  {
    if s == [] || s == [BACKSLASH] then [] else Unit(s).0 + Unescape(s[Unit(s).1..])
  }

  // ----- Unescaping undoes escaping

  lemma ThreeOctalDigits(x: nat, y: nat, z: nat)
    requires x < 8 && y < 8 && z < 8
    ensures var digits: seq<byte> := ['0' as int + x, '0' as int + y, '0' as int + z];
      OctalRun(digits) == 3 && OctalValue(digits) == (x * 64 + y * 8 + z) % 256
  {
    var digits: seq<byte> := ['0' as int + x, '0' as int + y, '0' as int + z];
    assert digits[..2] == [digits[0], digits[1]] && digits[..2][..1] == [digits[0]] && digits[..2][..1][..0] == [];
    assert OctalValue(digits[..2][..1]) == x;
    assert OctalValue(digits[..2]) == x * 8 + y;
  }

  lemma TwoHexDigits(h: nat, l: nat)
    requires h < 16 && l < 16
    ensures HexValue([HexDigit(h), HexDigit(l)]) == h * 16 + l
  {
    var digits := [HexDigit(h), HexDigit(l)];
    assert digits[..1] == [HexDigit(h)] && digits[..1][..0] == [];
    assert HexValue(digits[..1]) == h;
  }

  lemma HexRunOfTwo(h: byte, l: byte, rest: seq<byte>)
    requires IsHexDigit(h) && IsHexDigit(l) && (rest != [] ==> !IsHexDigit(rest[0]))
    ensures HexRun([h, l] + rest) == 2
  {
    var s := [h, l] + rest;
    assert s[1..] == [l] + rest && s[1..][1..] == rest;
    assert HexRun(rest) == 0;
    assert HexRun(s[1..]) == 1;
  }

  lemma HexMeaning(s: seq<byte>, h: nat, l: nat)
    requires h < 16 && l < 16 && 4 <= |s| && s[1] == 'x' as int && s[2..4] == [HexDigit(h), HexDigit(l)]
    requires HexRun(s[2..]) == 2
    ensures Meaning(s) == ([h * 16 + l], 4)
  {
    TwoHexDigits(h, l);
    assert s[2..][..2] == s[2..4];
  }

  lemma OctalMeaning(s: seq<byte>, x: nat, y: nat, z: nat)
    requires x < 8 && y < 8 && z < 8 && 4 <= |s|
    requires s[1] == '0' as int + x && s[2] == '0' as int + y && s[3] == '0' as int + z
    ensures Meaning(s) == ([(x * 64 + y * 8 + z) % 256], 4)
  {
    ThreeOctalDigits(x, y, z);
    assert s[1..4] == ['0' as int + x, '0' as int + y, '0' as int + z];
    assert OctalRun(s[1..]) == 3;
  }

  lemma UnescapeUnit(escape: seq<byte>, b: byte, rest: seq<byte>)
    requires escape != [] && (escape[0] == BACKSLASH ==> 2 <= |escape|)
    requires Unit(escape + rest) == ([b], |escape|)
    ensures Unescape(escape + rest) == [b] + Unescape(rest)
  {
  }

  lemma HexUnit(h: nat, l: nat, rest: seq<byte>)
    requires h < 16 && l < 16 && (rest != [] ==> !IsHexDigit(rest[0]))
    ensures Meaning([BACKSLASH, 'x' as int, HexDigit(h), HexDigit(l)] + rest) == ([h * 16 + l], 4)
  {
    var s: seq<byte> := [BACKSLASH, 'x' as int, HexDigit(h), HexDigit(l)] + rest;
    AfterTwo(BACKSLASH, 'x' as int, HexDigit(h), HexDigit(l), rest);
    HexRunOfTwo(HexDigit(h), HexDigit(l), rest);
    HexMeaning(s, h, l);
  }

  lemma UnescapeHex(b: byte, h: nat, l: nat, rest: seq<byte>)
    requires b == h * 16 + l && l < 16 && (rest != [] ==> !IsHexDigit(rest[0]))
    ensures Unescape([BACKSLASH, 'x' as int, HexDigit(h), HexDigit(l)] + rest) == [b] + Unescape(rest)
  {
    var escape: seq<byte> := [BACKSLASH, 'x' as int, HexDigit(h), HexDigit(l)];
    HexUnit(h, l, rest);
    UnescapeUnit(escape, b, rest);
  }

  lemma AfterTwo(b0: byte, b1: byte, b2: byte, b3: byte, rest: seq<byte>)
    ensures ([b0, b1, b2, b3] + rest)[2..] == [b2, b3] + rest && ([b0, b1, b2, b3] + rest)[2..4] == [b2, b3]
  {
  }

  lemma UnescapeOctal(b: byte, x: nat, y: nat, z: nat, rest: seq<byte>)
    requires b == x * 64 + y * 8 + z && x < 4 && y < 8 && z < 8
    ensures Unescape([BACKSLASH, '0' as int + x, '0' as int + y, '0' as int + z] + rest) == [b] + Unescape(rest)
  {
    var escape: seq<byte> := [BACKSLASH, '0' as int + x, '0' as int + y, '0' as int + z];
    OctalMeaning(escape + rest, x, y, z);
    UnescapeUnit(escape, b, rest);
  }

  lemma UnescapeLetter(b: byte, rest: seq<byte>)
    requires Letter(b) != NUL
    ensures Unescape([BACKSLASH, Letter(b)] + rest) == [b] + Unescape(rest)
  {
  }

  lemma UnescapePlain(b: byte, rest: seq<byte>)
    requires b != BACKSLASH
    ensures Unescape([b] + rest) == [b] + Unescape(rest)
  {
    UnescapeUnit([b], b, rest);
  }

  lemma UnescapeHexByte(b: byte, rest: seq<byte>)
    requires rest != [] ==> !IsHexDigit(rest[0])
    ensures Unescape([BACKSLASH, 'x' as int, HexDigit(b / 16), HexDigit(b % 16)] + rest) == [b] + Unescape(rest)
  {
    var h, l := b / 16, b % 16;
    assert b == h * 16 + l;
    UnescapeHex(b, h, l, rest);
  }

  lemma UnescapeOctalByte(b: byte, rest: seq<byte>)
    ensures Unescape([BACKSLASH, '0' as int + b / 64, '0' as int + b / 8 % 8, '0' as int + b % 8] + rest)
            == [b] + Unescape(rest)
  {
    var x, y, z := b / 64, b / 8 % 8, b % 8;
    assert b == x * 64 + y * 8 + z;
    UnescapeOctal(b, x, y, z, rest);
  }

  lemma UnescapeNumeric(b: byte, afterHex: bool, m: Mode, rest: seq<byte>)
    requires Numeric(b, afterHex, m) && (m.useHex && rest != [] ==> !IsHexDigit(rest[0]))
    ensures Unescape(EscapeByte(b, afterHex, m) + rest) == [b] + Unescape(rest)
  {
    if m.useHex {
      UnescapeHexByte(b, rest);
    } else {
      UnescapeOctalByte(b, rest);
    }
  }

  /** One escaped byte in front of text that does not start with a digit the escape would swallow. */
  lemma UnescapeByte(b: byte, afterHex: bool, m: Mode, rest: seq<byte>)
    requires m.useHex && Numeric(b, afterHex, m) && rest != [] ==> !IsHexDigit(rest[0])
    ensures Unescape(EscapeByte(b, afterHex, m) + rest) == [b] + Unescape(rest)
  {
    if Letter(b) != NUL {
      UnescapeLetter(b, rest);
    } else if !Numeric(b, afterHex, m) {
      UnescapePlain(b, rest);
    } else {
      UnescapeNumeric(b, afterHex, m, rest);
    }
  }

  /** After a hex escape the next byte is either escaped or no hex digit. */
  lemma HexEscapeIsDelimited(s: seq<byte>, m: Mode)
    requires Escape(s, true, m) != []
    ensures !IsHexDigit(Escape(s, true, m)[0])
  {
  }

  lemma EscapeUnfolds(s: seq<byte>, afterHex: bool, m: Mode)
    requires s != []
    ensures Escape(s, afterHex, m) ==
      EscapeByte(s[0], afterHex, m) + Escape(s[1..], m.useHex && Numeric(s[0], afterHex, m), m)
  {
  }

  /** For every byte string, NULs and bytes above 0x7f included, and in every mode. */
  lemma {:induction false} UnescapeEscape(s: seq<byte>, afterHex: bool, m: Mode)
    ensures Unescape(Escape(s, afterHex, m)) == s
  {
    if s != [] {
      var next := m.useHex && Numeric(s[0], afterHex, m);
      var rest := Escape(s[1..], next, m);
      UnescapeEscape(s[1..], next, m);
      if next && rest != [] {
        HexEscapeIsDelimited(s[1..], m);
      }
      UnescapeByte(s[0], afterHex, m, rest);
      EscapeUnfolds(s, afterHex, m);
      assert s == [s[0]] + s[1..];
    }
  }

  lemma OctalHasNoNul(b: byte, e: seq<byte>)
    requires e == [BACKSLASH, '0' as int + b / 64, '0' as int + b / 8 % 8, '0' as int + b % 8]
    ensures NUL !in e
  {
    var x, y, z := b / 64, b / 8 % 8, b % 8;
    assert 0 <= x && 0 <= y && 0 <= z;
    assert e == [BACKSLASH, '0' as int + x, '0' as int + y, '0' as int + z];
    forall k | 0 <= k < |e| ensures e[k] != NUL {
    }
  }

  lemma EscapeByteHasNoNul(b: byte, afterHex: bool, m: Mode)
    ensures NUL !in EscapeByte(b, afterHex, m)
  {
    if Numeric(b, afterHex, m) {
      if m.useHex {
        assert HexDigit(b / 16) != NUL && HexDigit(b % 16) != NUL;
      } else {
        OctalHasNoNul(b, EscapeByte(b, afterHex, m));
      }
    } else if Letter(b) == NUL {
      assert b != NUL;
    }
  }

  /** The escaped string is a C string: no NUL ends it early. */
  lemma {:induction false} EscapeHasNoNul(s: seq<byte>, afterHex: bool, m: Mode)
    ensures NUL !in Escape(s, afterHex, m)
  {
    if s != [] {
      EscapeHasNoNul(s[1..], m.useHex && Numeric(s[0], afterHex, m), m);
      EscapeByteHasNoNul(s[0], afterHex, m);
    }
  }

  // ----- What the modes do, by byte values

  /** Codes of the letters and signs that stand for a byte after a backslash: n, r, t, the quotes, the backslash. */
  predicate StandsAfterBackslash(b: byte) {
    b == 110 || b == 114 || b == 116 || b == 34 || b == 39 || b == 92
  }

  /** Printable, and neither a quote nor a backslash. */
  predicate Harmless(b: byte) {
    32 <= b < 127 && b != 34 && b != 39 && b != 92
  }

  /** Neither printable nor newline, return or tab. */
  predicate Odd(b: int) {
    0 <= b < 256 && !(32 <= b < 127) && b != 10 && b != 13 && b != 9
  }

  predicate IsOctal(b: byte) {
    48 <= b < 56
  }

  /** The value of three octal digits. */
  function OctalValueOf(x: byte, y: byte, z: byte): int {
    64 * (x as int - 48) + 8 * (y as int - 48) + (z as int - 48)
  }

  predicate IsLowerHex(b: byte) {
    48 <= b < 58 || 97 <= b < 103
  }

  function LowerHexValue(b: byte): nat
    requires IsLowerHex(b)
  {
    if b < 58 then b - 48 else b - 87
  }

  /** Harmless bytes, backslashes with a letter or sign, and backslashes with exactly three octal digits for a byte
      that has no other form. */
  predicate OctalText(t: seq<byte>) {
    t == [] ||
    if t[0] != 92 then Harmless(t[0]) && OctalText(t[1..])
    else if 2 <= |t| && StandsAfterBackslash(t[1]) then OctalText(t[2..])
    else
      && 4 <= |t| && IsOctal(t[1]) && IsOctal(t[2]) && IsOctal(t[3])
      && Odd(OctalValueOf(t[1], t[2], t[3])) && OctalText(t[4..])
  }

  /** The same with an x and exactly two lower-case hex digits, which no hex digit follows; for that reason a hex digit
      may be written so as well behind such an escape. */
  predicate HexText(t: seq<byte>, afterHex: bool) {
    t == [] ||
    if t[0] != 92 then Harmless(t[0]) && !(afterHex && IsHexDigit(t[0])) && HexText(t[1..], false)
    else if 2 <= |t| && StandsAfterBackslash(t[1]) then HexText(t[2..], false)
    else
      && 4 <= |t| && t[1] == 120 && IsLowerHex(t[2]) && IsLowerHex(t[3])
      && var b: nat := 16 * LowerHexValue(t[2]) + LowerHexValue(t[3]);
         (Odd(b) || (afterHex && IsHexDigit(b))) && HexText(t[4..], true)
  }

  lemma OctalForms(b: byte, rest: seq<byte>)
    requires OctalText(rest)
    ensures OctalText(EscapeByte(b, false, OCTAL) + rest)
  {
    var e := EscapeByte(b, false, OCTAL);
    assert (e + rest)[|e|..] == rest;
  }

  /** What CEscape writes: printable ASCII, with backslashes only in front of those letters and of octal digits. */
  lemma {:induction false} OctalEscapesAreOctal(s: seq<byte>)
    ensures OctalText(Escape(s, false, OCTAL))
  {
    if s != [] {
      OctalEscapesAreOctal(s[1..]);
      OctalForms(s[0], Escape(s[1..], false, OCTAL));
    }
  }

  lemma HexForms(b: byte, afterHex: bool, rest: seq<byte>)
    requires HexText(rest, Numeric(b, afterHex, HEX))
    ensures HexText(EscapeByte(b, afterHex, HEX) + rest, afterHex)
  {
    var e := EscapeByte(b, afterHex, HEX);
    assert (e + rest)[|e|..] == rest;
  }

  /** What CHexEscape writes. */
  lemma {:induction false} HexEscapesAreHex(s: seq<byte>, afterHex: bool)
    ensures HexText(Escape(s, afterHex, HEX), afterHex)
  {
    if s != [] {
      HexEscapesAreHex(s[1..], Numeric(s[0], afterHex, HEX));
      HexForms(s[0], afterHex, Escape(s[1..], Numeric(s[0], afterHex, HEX), HEX));
    }
  }

  /** All of it is printable. */
  lemma {:induction false} EscapedTextIsPrintable(t: seq<byte>, afterHex: bool)
    requires OctalText(t) || HexText(t, afterHex)
    ensures forall k :: 0 <= k < |t| ==> 32 <= t[k] < 127
    decreases |t|
  {
    if t != [] {
      if t[0] != 92 {
        EscapedTextIsPrintable(t[1..], false);
        assert t == [t[0]] + t[1..];
      } else if StandsAfterBackslash(t[1]) {
        EscapedTextIsPrintable(t[2..], false);
        assert t == [t[0], t[1]] + t[2..];
      } else {
        EscapedTextIsPrintable(t[4..], true);
        assert t == [t[0], t[1], t[2], t[3]] + t[4..];
      }
    }
  }

  /** The bytes above 0x7F, in order. */
  function HighBytes(s: seq<byte>): seq<byte> {
    if s == [] then [] else (if 128 <= s[0] then [s[0]] else []) + HighBytes(s[1..])
  }

  lemma {:induction false} HighBytesAppend(a: seq<byte>, b: seq<byte>)
    ensures HighBytes(a + b) == HighBytes(a) + HighBytes(b)
  {
    if a == [] {
      assert a + b == b;
    } else {
      assert (a + b)[1..] == a[1..] + b;
      HighBytesAppend(a[1..], b);
    }
  }

  lemma {:induction false} NoHighBytes(s: seq<byte>)
    requires forall k :: 0 <= k < |s| ==> s[k] < 128
    ensures HighBytes(s) == []
  {
    if s != [] {
      NoHighBytes(s[1..]);
    }
  }

  lemma Utf8SafeByte(b: byte)
    ensures HighBytes(EscapeByte(b, false, UTF8_SAFE)) == if 128 <= b then [b] else []
  {
    if b < 128 {
      NoHighBytes(EscapeByte(b, false, UTF8_SAFE));
    } else {
      assert [b][1..] == [];
    }
  }

  /** Utf8SafeCEscape leaves the bytes above 0x7F as they are, and adds none. */
  lemma {:induction false} Utf8SafeKeepsHighBytes(s: seq<byte>)
    ensures HighBytes(Escape(s, false, UTF8_SAFE)) == HighBytes(s)
  {
    if s != [] {
      Utf8SafeKeepsHighBytes(s[1..]);
      HighBytesAppend(EscapeByte(s[0], false, UTF8_SAFE), Escape(s[1..], false, UTF8_SAFE));
      Utf8SafeByte(s[0]);
    }
  }

  /** Harmless bytes are left alone in every mode, and those above 0x7F by Utf8SafeCEscape. */
  lemma {:induction false} HarmlessIsUnchanged(s: seq<byte>, m: Mode)
    requires forall k :: 0 <= k < |s| ==> Harmless(s[k]) || (m == UTF8_SAFE && 128 <= s[k])
    ensures Escape(s, false, m) == s
  {
    if s != [] {
      HarmlessIsUnchanged(s[1..], m);
      assert s == [s[0]] + s[1..];
    }
  }

  /** The escape of ASCII bytes is CEscape's. */
  lemma {:induction false} Utf8SafeIsOctalOnAscii(s: seq<byte>)
    requires forall k :: 0 <= k < |s| ==> s[k] < 128
    ensures Escape(s, false, UTF8_SAFE) == Escape(s, false, OCTAL)
  {
    if s != [] {
      Utf8SafeIsOctalOnAscii(s[1..]);
    }
  }

  /** The tests for room ask for exactly the escaped text and its terminator. */
  lemma {:induction false} FitsIff(s: seq<byte>, afterHex: bool, m: Mode, room: int)
    ensures Fits(s, afterHex, m, room) <==> |Escape(s, afterHex, m)| + 1 <= room
  {
    if s != [] {
      FitsIff(s[1..], m.useHex && Numeric(s[0], afterHex, m), m, room - |EscapeByte(s[0], afterHex, m)|);
    }
  }

  /** The common body of the three wrappers. */
  method EscapeToString(src: array<byte>, m: Mode) returns (escaped: seq<byte>)
    requires src.Length * 4 + 1 <= INT_MAX
    ensures escaped == Escape(src[..], false, m) && Unescape(escaped) == src[..]
  {
    var destLength := src.Length * 4 + 1;
    var dest := new byte[destLength];
    FourTimesFits(src[..], false, m, destLength);
    FittingStaysInside(src[..], false, m, destLength);
    assert src[..src.Length] == src[..];
    var len := CEscapeInternal(src, src.Length, dest, destLength, m);
    escaped := dest[..len];
    UnescapeEscape(src[..], false, m);
  }

  method CEscape(src: array<byte>) returns (escaped: seq<byte>)
    requires src.Length * 4 + 1 <= INT_MAX
    ensures escaped == Escape(src[..], false, OCTAL) && Unescape(escaped) == src[..] && OctalText(escaped)
  {
    escaped := EscapeToString(src, OCTAL);
    OctalEscapesAreOctal(src[..]);
  }

  method Utf8SafeCEscape(src: array<byte>) returns (escaped: seq<byte>)
    requires src.Length * 4 + 1 <= INT_MAX
    ensures escaped == Escape(src[..], false, UTF8_SAFE) && Unescape(escaped) == src[..]
    ensures HighBytes(escaped) == HighBytes(src[..])
    ensures (forall k :: 0 <= k < src.Length ==> Harmless(src[k]) || 128 <= src[k]) ==> escaped == src[..]
  {
    escaped := EscapeToString(src, UTF8_SAFE);
    Utf8SafeKeepsHighBytes(src[..]);
    if forall k :: 0 <= k < src.Length ==> Harmless(src[k]) || 128 <= src[k] {
      HarmlessIsUnchanged(src[..], UTF8_SAFE);
    }
  }

  method CHexEscape(src: array<byte>) returns (escaped: seq<byte>)
    requires src.Length * 4 + 1 <= INT_MAX
    ensures escaped == Escape(src[..], false, HEX) && Unescape(escaped) == src[..] && HexText(escaped, false)
  {
    escaped := EscapeToString(src, HEX);
    HexEscapesAreHex(src[..], false);
  }

  // ----- The unescaper, in place or not

  /** From p on, the array still holds the C string s and its terminator. */
  ghost predicate HoldsFrom(a: array<byte>, p: nat, s: seq<byte>)
    reads a
  {
    p <= |s| < a.Length && a[|s|] == NUL && a[p..|s|] == s[p..] && NUL !in s
  }

  lemma ReadAt(a: array<byte>, p: nat, s: seq<byte>, k: nat)
    requires HoldsFrom(a, p, s) && p <= k <= |s|
    ensures a[k] == if k < |s| then s[k] else NUL
    ensures HoldsFrom(a, k, s)
    ensures k < |s| ==> a[k] != NUL
  {
  }

  /** Up to three octal digits, the first of them at p; q is just past the last. */
  method ReadOctal(source: array<byte>, p: nat, ghost s: seq<byte>) returns (ch: byte, q: nat)
    requires HoldsFrom(source, p, s) && p < |s| && IsOctalDigit(s[p])
    ensures q == p + OctalRun(s[p..]) && ch == OctalValue(s[p..q])
  {
    ReadAt(source, p, s, p);
    ReadAt(source, p, s, p + 1);
    ch, q := source[p] - '0' as int, p;
    assert s[p..p + 1][..0] == [];
    assert OctalValue(s[p..p + 1]) == ch;
    if IsOctalDigit(source[q + 1]) {
      ReadAt(source, p, s, p + 2);
      assert s[p..p + 2][..1] == s[p..p + 1];
      q := q + 1;
      ch := (ch * 8 + (source[q] - '0' as int)) % 256;
      assert OctalValue(s[p..p + 2]) == ch;
      if IsOctalDigit(source[q + 1]) {
        assert s[p..p + 3][..2] == s[p..p + 2];
        q := q + 1;
        ch := (ch * 8 + (source[q] - '0' as int)) % 256;
        assert OctalValue(s[p..p + 3]) == ch;
      }
    }
    q := q + 1;
  }

  lemma HexRunFrom(s: seq<byte>, p: nat, q: nat)
    requires p <= q <= |s| && q <= p + HexRun(s[p..])
    ensures p + HexRun(s[p..]) <= |s|
    ensures q < |s| ==> (IsHexDigit(s[q]) <==> q < p + HexRun(s[p..]))
  {
    HexRunDigits(s[p..]);
    assert q < |s| ==> s[q] == s[p..][q - p];
  }

  lemma HexStep(s: seq<byte>, p: nat, q: nat)
    requires p <= q < |s| && forall k :: p <= k <= q ==> IsHexDigit(s[k])
    ensures HexValue(s[p..q + 1]) == (HexValue(s[p..q]) * 16 + HexDigitToInt(s[q])) % UINT32_LIMIT
  {
    assert s[p..q + 1][..q - p] == s[p..q];
  }

  /** Arbitrarily many hex digits from p on; q is just past the last. */
  method ReadHex(source: array<byte>, p: nat, ghost s: seq<byte>) returns (ch: nat, q: nat)
    requires HoldsFrom(source, p, s)
    ensures q == p + HexRun(s[p..]) && (forall k :: p <= k < q ==> IsHexDigit(s[k]))
    ensures ch == HexValue(s[p..q])
  {
    ch, q := 0, p;
    ReadAt(source, p, s, p);
    while IsHexDigit(source[q])
      invariant p <= q <= |s| && q <= p + HexRun(s[p..])
      invariant source[q] == if q < |s| then s[q] else NUL
      invariant forall k :: p <= k < q ==> IsHexDigit(s[k])
      invariant ch == HexValue(s[p..q])
      decreases |s| - q
    {
      HexRunFrom(s, p, q);
      HexStep(s, p, q);
      ReadAt(source, p, s, q + 1);
      ch := (ch * 16 + HexDigitToInt(source[q])) % UINT32_LIMIT;
      q := q + 1;
    }
    HexRunFrom(s, p, q);
  }

  /** The switch on the letter after a backslash: what to write, and where to go on reading. */
  method ReadEscape(source: array<byte>, p: nat, ghost s: seq<byte>) returns (out: seq<byte>, q: nat)
    requires HoldsFrom(source, p, s) && p + 1 < |s|
    ensures (out, q - p) == Meaning(s[p..])
  {
    ReadAt(source, p, s, p + 1);
    var c := source[p + 1];
    assert c == s[p..][1];
    if Unletter(c) != NUL {
      return [Unletter(c)], p + 2;
    }
    if IsOctalDigit(c) {
      var ch;
      ch, q := ReadOctal(source, p + 1, s);
      OctalMeans(s, p, q);
      return [ch], q;
    }
    if c == 'x' as int || c == 'X' as int {
      ReadAt(source, p, s, p + 2);
      var ch;
      ch, q := ReadHex(source, p + 2, s);
      HexMeans(s, p, q);
      if q == p + 2 {
        return [], q;
      }
      return [ch % 256], q;
    }
    return [], p + 2;
  }

  lemma OctalMeans(s: seq<byte>, p: nat, q: nat)
    requires p + 1 < |s| && IsOctalDigit(s[p + 1]) && q == p + 1 + OctalRun(s[p + 1..])
    ensures q <= |s| && (forall k :: p + 1 <= k < q ==> IsOctalDigit(s[k]))
    ensures Meaning(s[p..]) == ([OctalValue(s[p + 1..q])], q - p)
  {
    assert s[p..][1..] == s[p + 1..] && s[p..][1..q - p] == s[p + 1..q];
  }

  lemma HexMeans(s: seq<byte>, p: nat, q: nat)
    requires p + 1 < |s| && (s[p + 1] == 'x' as int || s[p + 1] == 'X' as int) && q == p + 2 + HexRun(s[p + 2..])
    ensures q <= |s| && (forall k :: p + 2 <= k < q ==> IsHexDigit(s[k]))
    ensures Meaning(s[p..]) == (if q == p + 2 then [] else [HexValue(s[p + 2..q]) % 256], q - p)
  {
    HexRunDigits(s[p + 2..]);
    assert s[p..][2..] == s[p + 2..];
    assert s[p + 2..][..q - p - 2] == s[p + 2..q];
  }

  lemma Reassociate(a: seq<byte>, b: seq<byte>, c: seq<byte>)
    ensures (a + b) + c == a + (b + c)
  {
  }

  lemma UnescapeNext(before: seq<byte>, s: seq<byte>, after: seq<byte>, rest: seq<byte>)
    requires s != [] && (s[0] == BACKSLASH ==> 2 <= |s|)
    requires after == before + Unit(s).0 && rest == s[Unit(s).1..]
    ensures after + Unescape(rest) == before + Unescape(s)
  {
    Reassociate(before, Unit(s).0, Unescape(rest));
  }

  /** Source and destination may be one array: the write position never passes the read position, so no byte is
      overwritten before it is read, and the result is the same as with two arrays. */
  method UnescapeCEscapeSequences(source: array<byte>, dest: array<byte>, ghost s: seq<byte>) returns (len: nat)
    requires HoldsFrom(source, 0, s) && |s| < dest.Length
    modifies dest
    ensures len == |Unescape(s)| <= |s| && dest[..len] == Unescape(s) && dest[len] == NUL
  {
    var p, d := 0, 0;
    while source == dest && p == d && source[p] != NUL && source[p] != BACKSLASH
      invariant d == p <= |s| && HoldsFrom(source, p, s)
      invariant p == 0 || source == dest
      invariant dest[..d] + Unescape(s[p..]) == Unescape(s)
      decreases |s| - p
    {
      ReadAt(source, p, s, p);
      ReadAt(source, p, s, p + 1);
      assert dest[..d + 1] == dest[..d] + [s[p]];
      UnescapeFrom(dest[..d], s, p, dest[..d + 1], p + 1);
      p, d := p + 1, d + 1;
    }
    len := UnescapeRest(source, dest, p, d, s);
  }

  method UnescapeRest(source: array<byte>, dest: array<byte>, p0: nat, d0: nat, ghost s: seq<byte>) returns (len: nat)
    requires HoldsFrom(source, p0, s) && |s| < dest.Length && d0 <= p0
    requires dest[..d0] + Unescape(s[p0..]) == Unescape(s)
    modifies dest
    ensures len == |Unescape(s)| <= |s| && dest[..len] == Unescape(s) && dest[len] == NUL
  {
    len := UnescapeUnits(source, dest, p0, d0, s, Unescape(s));
    dest[len] := NUL;
  }

  /** The source is unread from p on, and d bytes have been written. */
  ghost predicate Halfway(source: array<byte>, dest: array<byte>, p: nat, d: nat, s: seq<byte>, whole: seq<byte>)
    reads source, dest
  {
    && d <= p <= |s| < dest.Length && HoldsFrom(source, p, s) && (source[p] == NUL <==> p == |s|)
    && dest[..d] + Unescape(s[p..]) == whole
  }

  /** The loop over the units, up to the end of the source or a lone backslash there. */
  method UnescapeUnits(source: array<byte>, dest: array<byte>, p0: nat, d0: nat, ghost s: seq<byte>,
                       ghost whole: seq<byte>) returns (d: nat)
    requires HoldsFrom(source, p0, s) && |s| < dest.Length && d0 <= p0
    requires dest[..d0] + Unescape(s[p0..]) == whole
    modifies dest
    ensures d <= |s| && dest[..d] == whole
  {
    var p, done := p0, false;
    d := d0;
    ReadAt(source, p, s, p);
    while !done && source[p] != NUL
      invariant if done then d <= |s| < dest.Length && dest[..d] == whole else Halfway(source, dest, p, d, s, whole)
      decreases if done then -1 else |s| - p
    {
      p, d, done := UnescapeNextUnit(source, dest, p, d, s, whole);
    }
    if !done {
      assert s[p..] == [];
    }
  }

  /** One unit; a lone backslash at the end ends it all. */
  method UnescapeNextUnit(source: array<byte>, dest: array<byte>, p: nat, d: nat, ghost s: seq<byte>,
                          ghost whole: seq<byte>) returns (q: nat, e: nat, done: bool)
    requires Halfway(source, dest, p, d, s, whole) && source[p] != NUL
    modifies dest
    ensures if done then e <= |s| && dest[..e] == whole else p < q && Halfway(source, dest, q, e, s, whole)
  {
    ReadAt(source, p, s, p + 1);
    if source[p] == BACKSLASH && source[p + 1] == NUL {
      LoneBackslash(s, p);
      return p, d, true;
    }
    q, e := UnescapeOne(source, dest, p, d, s);
    ReadAt(source, q, s, q);
    done := false;
  }

  lemma LoneBackslash(s: seq<byte>, p: nat)
    requires p + 1 == |s| && s[p] == BACKSLASH
    ensures Unescape(s[p..]) == []
  {
    assert s[p..] == [BACKSLASH];
  }

  method UnescapeOne(source: array<byte>, dest: array<byte>, p: nat, d: nat, ghost s: seq<byte>) returns (q: nat, e: nat)
    requires HoldsFrom(source, p, s) && d <= p < |s| < dest.Length
    requires s[p] == BACKSLASH ==> p + 1 < |s|
    modifies dest
    ensures p < q <= |s| && e <= q && HoldsFrom(source, q, s)
    ensures dest[..e] + Unescape(s[q..]) == old(dest[..d]) + Unescape(s[p..])
  {
    ghost var before := dest[..d];
    q, e := CopyUnit(source, dest, p, d, s);
    UnescapeFrom(before, s, p, dest[..e], q);
  }

  lemma UnescapeFrom(before: seq<byte>, s: seq<byte>, p: nat, after: seq<byte>, q: nat)
    requires p < |s| && (s[p] == BACKSLASH ==> p + 1 < |s|)
    requires q == p + Unit(s[p..]).1 && after == before + Unit(s[p..]).0
    ensures after + Unescape(s[q..]) == before + Unescape(s[p..])
  {
    DropDrop(s, p, q - p);
    UnescapeNext(before, s[p..], after, s[q..]);
  }

  lemma DropDrop(s: seq<byte>, p: nat, n: nat)
    requires p + n <= |s|
    ensures s[p..][n..] == s[p + n..]
  {
  }

  /** An ordinary byte or a whole escape. */
  method CopyUnit(source: array<byte>, dest: array<byte>, p: nat, d: nat, ghost s: seq<byte>) returns (q: nat, e: nat)
    requires HoldsFrom(source, p, s) && d <= p < |s| < dest.Length
    requires s[p] == BACKSLASH ==> p + 1 < |s|
    modifies dest
    ensures p < q && e <= q && HoldsFrom(source, q, s)
    ensures q == p + Unit(s[p..]).1 && dest[..e] == old(dest[..d]) + Unit(s[p..]).0
  {
    var out;
    out, q := ReadUnit(source, p, s);
    e := d;
    if out != [] {
      Put(source, dest, d, out[0], q, s);
      assert out == [out[0]];
      e := d + 1;
    }
  }

  method ReadUnit(source: array<byte>, p: nat, ghost s: seq<byte>) returns (out: seq<byte>, q: nat)
    requires HoldsFrom(source, p, s) && p < |s| && (s[p] == BACKSLASH ==> p + 1 < |s|)
    ensures p < q && (out, q - p) == Unit(s[p..]) && HoldsFrom(source, q, s)
  {
    ReadAt(source, p, s, p);
    out, q := [source[p]], p + 1;
    if source[p] == BACKSLASH {
      out, q := ReadEscape(source, p, s);
    }
    ReadAt(source, p, s, q);
  }

  /** A byte written before the read position leaves the unread part alone. */
  method Put(source: array<byte>, dest: array<byte>, d: nat, b: byte, q: nat, ghost s: seq<byte>)
    requires d < q && HoldsFrom(source, q, s) && d < dest.Length
    modifies dest
    ensures HoldsFrom(source, q, s) && dest[..d + 1] == old(dest[..d]) + [b]
  {
    dest[d] := b;
  }
}
