/** Generated namespace prefixes, read as numbers.

    The writer turns a 32-bit counter into a prefix with two loops: one finds how many letters are
    needed, the other fills them in from the right.  Read as numbers, the prefixes are the bijective
    base-26 numerals: "a" .. "z" are 0 .. 25, "aa" is 26, and no string is used twice. */
module PrefixNumeral {

  const ALPHABET_SIZE: int := 26

  /** Counters below this bound convert to a non-negative `int`. */
  const INT32_LIMIT: int := 0x8000_0000
  const UINT32_LIMIT: int := 0x1_0000_0000

  lemma Limits()
    ensures INT32_LIMIT == 2147483648 && UINT32_LIMIT == 4294967296
  {
  }

  type Counter = n: int | 0 <= n < UINT32_LIMIT

  function Letter(d: int): char
    requires -ALPHABET_SIZE < d < ALPHABET_SIZE
  {
    ('a' as int + d) as char
  }

  /** The numeral of n, last letter first peeled off. */
  function Numeral(n: nat): string {
    if n < ALPHABET_SIZE then [Letter(n)]
    else Numeral(n / ALPHABET_SIZE - 1) + [Letter(n % ALPHABET_SIZE)]
  }

  /** `int ns_as_int = counter_`: the counter's bits reread as a signed 32-bit integer. */
  function SignedInt(c: Counter): int {
    if c < INT32_LIMIT then c else c - UINT32_LIMIT
  }

  /** What the two loops produce for any counter.  A counter of 2^31 or more is negative as an `int`;
      one letter is reserved and C's remainder, which keeps the sign, is added to 'a'. */
  function PrefixFor(c: Counter): string {
    var n := SignedInt(c);
    if 0 <= n then Numeral(n) else [Letter(-(-n % ALPHABET_SIZE))]
  }

  /** C's remainder and quotient, which truncate toward zero. */
  function Remainder(n: int): int {
    if 0 <= n then n % ALPHABET_SIZE else -(-n % ALPHABET_SIZE)
  }

  function Quotient(n: int): int {
    if 0 <= n then n / ALPHABET_SIZE else -(-n / ALPHABET_SIZE)
  }

  /** The length loop. */
  method PrefixLength(counter: Counter) returns (nChars: nat)
    ensures nChars == |PrefixFor(counter)|
  {
    var nsAsInt := SignedInt(counter);
    nChars := 1;
    while ALPHABET_SIZE <= nsAsInt
      invariant SignedInt(counter) < 0 ==> nsAsInt < 0 && nChars == 1
      invariant 0 <= SignedInt(counter) ==>
          0 <= nsAsInt && nChars - 1 + |Numeral(nsAsInt)| == |Numeral(counter)|
    {
      nChars := nChars + 1;
      nsAsInt := nsAsInt / ALPHABET_SIZE;
      nsAsInt := nsAsInt - 1;
    }
  }

  /** The letters still to be filled in: those of a numeral, or the one of a negative number. */
  function Unfilled(n: int): string {
    if 0 <= n then Numeral(n) else [Letter(Remainder(n))]
  }

  lemma FillStep(target: string, n: int, retval: string, i: nat)
    requires i < |retval| && |Unfilled(n)| == i + 1 && target == Unfilled(n) + retval[i + 1..]
    ensures i == 0 ==> target == retval[i := Letter(Remainder(n))]
    ensures i > 0 ==> |Unfilled(Quotient(n) - 1)| == i
    ensures i > 0 ==> target == Unfilled(Quotient(n) - 1) + retval[i := Letter(Remainder(n))][i..]
  {
  }

  /** The length loop and then the fill loop, from the right. */
  method FillPrefix(counter: Counter) returns (retval: string)
    ensures retval == PrefixFor(counter)
  {
    ghost var target := PrefixFor(counter);
    var nChars := PrefixLength(counter);
    retval := seq(nChars, _ => '\0');
    var i := nChars - 1;
    var nsAsInt := SignedInt(counter);
    assert retval[i + 1..] == [];
    while 0 <= i
      invariant -1 <= i < |retval|
      invariant if i == -1 then retval == target
                else |Unfilled(nsAsInt)| == i + 1 && target == Unfilled(nsAsInt) + retval[i + 1..]
    {
      FillStep(target, nsAsInt, retval, i);
      var charVal := Letter(Remainder(nsAsInt));
      retval := retval[i := charVal];
      i := i - 1;
      nsAsInt := Quotient(nsAsInt);
      nsAsInt := nsAsInt - 1;
    }
  }

  // ----- The numerals are a bijection

  predicate Lowercase(s: string) {
    forall i :: 0 <= i < |s| ==> 'a' <= s[i] <= 'z'
  }

  function Digit(c: char): nat {
    if 'a' <= c <= 'z' then c as int - 'a' as int else 0
  }

  /** The number a string of letters stands for. */
  function Value(s: string): nat {
    if s == [] then 0
    else if |s| == 1 then Digit(s[0])
    else ALPHABET_SIZE * (Value(s[..|s| - 1]) + 1) + Digit(s[|s| - 1])
  }

  lemma {:induction false} NumeralIsLowercase(n: nat)
    ensures Numeral(n) != [] && Lowercase(Numeral(n))
  {
    if ALPHABET_SIZE <= n {
      NumeralIsLowercase(n / ALPHABET_SIZE - 1);
    }
  }

  lemma {:induction false} ValueOfNumeral(n: nat)
    ensures Value(Numeral(n)) == n
  {
    if ALPHABET_SIZE <= n {
      var front := Numeral(n / ALPHABET_SIZE - 1);
      ValueOfNumeral(n / ALPHABET_SIZE - 1);
      NumeralIsLowercase(n / ALPHABET_SIZE - 1);
      assert Numeral(n)[..|Numeral(n)| - 1] == front;
    }
  }

  lemma {:induction false} NumeralOfValue(s: string)
    requires s != [] && Lowercase(s)
    ensures Numeral(Value(s)) == s
  {
    if |s| > 1 {
      var front := s[..|s| - 1];
      NumeralOfValue(front);
      assert s == front + [s[|s| - 1]];
      assert Value(s) / ALPHABET_SIZE - 1 == Value(front);
    }
  }

  /** Shorter strings first, then alphabetically. */
  ghost predicate Shortlex(s: string, t: string) {
    |s| < |t| || (|s| == |t| && exists k :: DiffersFirstAt(s, t, k))
  }

  ghost predicate DiffersFirstAt(s: string, t: string, k: int) {
    0 <= k < |s| && k < |t| && s[..k] == t[..k] && s[k] < t[k]
  }

  /** Prefixes are handed out in strictly increasing shortlex order: 'a', ..., 'z', 'aa', 'ab', ... */
  lemma {:induction false} NumeralsIncrease(m: nat, n: nat)
    requires m < n
    ensures Shortlex(Numeral(m), Numeral(n))
  {
    var s, t := Numeral(m), Numeral(n);
    if n < ALPHABET_SIZE {
      assert DiffersFirstAt(s, t, 0);
    } else if m < ALPHABET_SIZE {
      NumeralIsLowercase(n / ALPHABET_SIZE - 1);
    } else {
      var a, b := m / ALPHABET_SIZE - 1, n / ALPHABET_SIZE - 1;
      if a == b {
        assert DiffersFirstAt(s, t, |Numeral(a)|);
      } else {
        NumeralsIncrease(a, b);
        if |Numeral(a)| == |Numeral(b)| {
          var k :| DiffersFirstAt(Numeral(a), Numeral(b), k);
          assert s[..k] == Numeral(a)[..k] && t[..k] == Numeral(b)[..k];
          assert DiffersFirstAt(s, t, k);
        }
      }
    }
  }

  /** The bijection holds exactly on the counters below 2^31: the prefix of a larger counter is a single
      character, and when 2^32 - c is a multiple of 26 it is the first prefix over again. */
  lemma PrefixesRepeatBeyondInt32(c: Counter)
    ensures c < INT32_LIMIT ==> Value(PrefixFor(c)) == c && Lowercase(PrefixFor(c))
    ensures INT32_LIMIT <= c ==> |PrefixFor(c)| == 1
    ensures INT32_LIMIT <= c ==> (Lowercase(PrefixFor(c)) <==> (UINT32_LIMIT - c) % ALPHABET_SIZE == 0)
    ensures INT32_LIMIT <= c && Lowercase(PrefixFor(c)) ==> PrefixFor(c) == PrefixFor(0)
  {
    if c < INT32_LIMIT {
      ValueOfNumeral(c);
      NumeralIsLowercase(c);
    } else {
      var d := (UINT32_LIMIT - c) % ALPHABET_SIZE;
      assert PrefixFor(c) == [Letter(-d)];
      assert PrefixFor(c)[0] as int == 'a' as int - d;
    }
  }

  // ----- The next numeral that is not reserved

  /** The reserved strings that a counter at c has not passed yet. */
  ghost function Ahead(c: nat, reserved: set<string>): set<string> {
    set p | p in reserved && c <= Value(p)
  }

  /** The prefix a counter gives is reserved, so the generator passes it over. */
  ghost predicate Taken(c: nat, reserved: set<string>) {
    Numeral(c) in reserved
  }

  /** k is the least counter from c on whose prefix is not reserved. */
  ghost predicate IsNextFree(c: nat, reserved: set<string>, k: nat) {
    && c <= k && !Taken(k, reserved)
    && (forall j: nat :: c <= j < k ==> Taken(j, reserved))
    && k + |Ahead(k, reserved)| <= c + |Ahead(c, reserved)|
  }

  ghost function NextFree(c: nat, reserved: set<string>): (k: nat)
    ensures IsNextFree(c, reserved, k)
  {
    NextFreeExists(c, reserved);
    var k: nat :| IsNextFree(c, reserved, k);
    k
  }

  /** Finitely many strings are reserved and every counter has its own numeral, so some counter is free. */
  lemma {:induction false} NextFreeExists(c: nat, reserved: set<string>)
    ensures exists k: nat :: IsNextFree(c, reserved, k)
    decreases |Ahead(c, reserved)|
  {
    if !Taken(c, reserved) {
      assert IsNextFree(c, reserved, c);
    } else {
      PassOne(c, reserved);
      NextFreeExists(c + 1, reserved);
      var k: nat :| IsNextFree(c + 1, reserved, k);
      assert IsNextFree(c, reserved, k);
    }
  }

  lemma PassOne(c: nat, reserved: set<string>)
    ensures |Ahead(c + 1, reserved)| <= |Ahead(c, reserved)|
    ensures Taken(c, reserved) ==> |Ahead(c + 1, reserved)| < |Ahead(c, reserved)|
  {
    ValueOfNumeral(c);
    assert Ahead(c + 1, reserved) <= Ahead(c, reserved);
    SubsetSize(Ahead(c + 1, reserved), Ahead(c, reserved));
    if Taken(c, reserved) {
      assert Numeral(c) in Ahead(c, reserved);
      SubsetSize(Ahead(c + 1, reserved), Ahead(c, reserved) - {Numeral(c)});
    }
  }

  lemma {:induction false} SubsetSize<T>(a: set<T>, b: set<T>)
    requires a <= b
    ensures |a| <= |b|
  {
    assert b == a + (b - a);
  }

  // ----- The next prefix by machine arithmetic

  /** The counter after k steps; it wraps around. */
  function Advance(c: Counter, k: nat): Counter {
    (c + k) % UINT32_LIMIT
  }

  /** After k passes over reserved prefixes the next one is free. */
  ghost predicate FreeAfter(c: Counter, reserved: set<string>, k: nat) {
    PrefixFor(Advance(c, k)) !in reserved && forall j: nat :: j < k ==> PrefixFor(Advance(c, j)) in reserved
  }

  /** Whether the generating loop ends. */
  ghost predicate SomeFree(reserved: set<string>) {
    exists c: Counter :: PrefixFor(c) !in reserved
  }

  ghost function Passes(c: Counter, reserved: set<string>): (k: nat)
    requires SomeFree(reserved)
    ensures FreeAfter(c, reserved, k)
  {
    PassesExist(c, reserved);
    var k: nat :| FreeAfter(c, reserved, k);
    k
  }

  lemma PassesExist(c: Counter, reserved: set<string>)
    requires SomeFree(reserved)
    ensures exists k: nat :: FreeAfter(c, reserved, k)
  {
    var free: Counter :| PrefixFor(free) !in reserved;
    var bound := if c <= free then free - c else free - c + UINT32_LIMIT;
    assert Advance(c, bound) == free;
    LeastFree(c, reserved, 0, bound);
  }

  lemma {:induction false} LeastFree(c: Counter, reserved: set<string>, from: nat, bound: nat)
    requires from <= bound && PrefixFor(Advance(c, bound)) !in reserved
    requires forall j: nat :: j < from ==> PrefixFor(Advance(c, j)) in reserved
    ensures exists k: nat :: FreeAfter(c, reserved, k)
    decreases bound - from
  {
    if PrefixFor(Advance(c, from)) !in reserved {
      assert FreeAfter(c, reserved, from);
    } else {
      LeastFree(c, reserved, from + 1, bound);
    }
  }

  lemma AdvanceOne(c: Counter, k: nat)
    ensures Advance(Advance(c, k), 1) == Advance(c, k + 1)
  {
  }

  lemma AdvanceBelow(c: Counter, k: nat)
    requires c + k < INT32_LIMIT
    ensures Advance(c, k) == c + k && PrefixFor(Advance(c, k)) == Numeral(c + k)
  {
  }

  lemma FirstFreeIsUnique(c: Counter, reserved: set<string>, j: nat, k: nat)
    requires FreeAfter(c, reserved, j) && FreeAfter(c, reserved, k)
    ensures j == k
  {
  }

  /** Below 2^31 the loop behaves as if the counter were unbounded. */
  lemma PassesIsNextFree(c: Counter, reserved: set<string>)
    requires c + |Ahead(c, reserved)| < INT32_LIMIT
    ensures SomeFree(reserved) && NextFree(c, reserved) < INT32_LIMIT
    ensures c + Passes(c, reserved) == NextFree(c, reserved)
  {
    var free := NextFree(c, reserved);
    var n := free - c;
    AdvanceBelow(c, n);
    forall j: nat | j < n ensures PrefixFor(Advance(c, j)) in reserved {
      AdvanceBelow(c, j);
      assert Taken(c + j, reserved);
    }
    assert FreeAfter(c, reserved, n);
    FirstFreeIsUnique(c, reserved, n, Passes(c, reserved));
  }

  /** How many unreserved numerals lie below a counter. */
  ghost function Rank(c: nat, reserved: set<string>): nat {
    if c == 0 then 0 else Rank(c - 1, reserved) + if Taken(c - 1, reserved) then 0 else 1
  }

  lemma {:induction false} RankUpTo(c: nat, k: nat, reserved: set<string>)
    requires c <= k
    requires forall j: nat :: c <= j < k ==> Taken(j, reserved)
    ensures Rank(k, reserved) == Rank(c, reserved)
    decreases k
  {
    if c < k {
      RankUpTo(c, k - 1, reserved);
      assert Taken(k - 1, reserved);
    }
  }
}
