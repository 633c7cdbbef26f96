/**
 The 64-bit hash of the delta format, FNV-1a style: exclusive-or a byte into the state, multiply by a
 prime modulo 2^64. Bytes and states are integers; exclusive-or is defined bit by bit.
 */
module Fnv {
  type u64 = x: int | 0 <= x < 0x1_0000_0000_0000_0000
  type byte = x: int | 0 <= x < 256

  const MODULUS := 0x1_0000_0000_0000_0000
  const OFFSET_BASIS: u64 := 0xcbf29ce484222325
  const PRIME := 0x100000001b3
  /** The multiplicative inverse of the prime modulo 2^64. */
  const INVERSE := 0xce965057aff6957b

  function Power(base: nat, n: nat): nat { if n == 0 then 1 else base * Power(base, n - 1) }

  /** Exclusive-or of the lowest `bits` bits. */
  function Xor(a: nat, b: nat, bits: nat): nat
    decreases bits, a
  {
    if bits == 0 then 0 else (a % 2 + b % 2) % 2 + 2 * Xor(a / 2, b / 2, bits - 1)
  }

  lemma {:induction false} XorInverse(a: nat, b: nat, bits: nat)
    requires a < Power(2, bits)
    ensures Xor(Xor(a, b, bits), b, bits) == a && Xor(a, b, bits) < Power(2, bits)
    decreases bits
  {
    if bits > 0 {
      XorInverse(a / 2, b / 2, bits - 1);
      XorParts(a, b, bits);
      XorParts(Xor(a, b, bits), b, bits);
      assert Power(2, bits) == 2 * Power(2, bits - 1);
      hide Xor;
      hide Power;
      Rebuilt(a, Xor(Xor(a, b, bits), b, bits), b, Xor(a, b, bits));
    }
  }

  lemma Rebuilt(a: nat, y: nat, b: nat, x: nat)
    requires x % 2 == (a % 2 + b % 2) % 2 && y % 2 == (x % 2 + b % 2) % 2 && y / 2 == a / 2
    ensures y == a
  {
  }

  /** The lowest bit and the rest of an exclusive-or. */
  lemma XorParts(a: nat, b: nat, bits: nat)
    requires bits > 0
    ensures Xor(a, b, bits) % 2 == (a % 2 + b % 2) % 2 && Xor(a, b, bits) / 2 == Xor(a / 2, b / 2, bits - 1)
  {
    BitAndRest((a % 2 + b % 2) % 2, Xor(a / 2, b / 2, bits - 1));
  }

  lemma BitAndRest(bit: nat, rest: nat)
    requires bit < 2
    ensures (bit + 2 * rest) % 2 == bit && (bit + 2 * rest) / 2 == rest
  {
  }

  lemma {:induction false} XorCommutes(a: nat, b: nat, bits: nat)
    ensures Xor(a, b, bits) == Xor(b, a, bits)
    decreases bits
  {
    if bits > 0 {
      XorCommutes(a / 2, b / 2, bits - 1);
    }
  }

  lemma {:induction false} XorZero(a: nat, bits: nat)
    requires a < Power(2, bits)
    ensures Xor(a, 0, bits) == a
    decreases bits
  {
    if bits > 0 {
      XorZero(a / 2, bits - 1);
    }
  }

  /** `a >> bits`. */
  function ShiftRight(a: nat, bits: nat): nat
    decreases bits
  {
    if bits == 0 then a else ShiftRight(a / 2, bits - 1)
  }

  /** Exclusive-or with a small number leaves the bits above it alone. */
  lemma {:induction false} XorHighPart(a: nat, b: nat, bits: nat, low: nat)
    requires a < Power(2, bits) && b < Power(2, low) && low <= bits
    ensures ShiftRight(Xor(a, b, bits), low) == ShiftRight(a, low)
    decreases bits
  {
    if low == 0 {
      XorZero(a, bits);
    } else {
      XorHighPart(a / 2, b / 2, bits - 1, low - 1);
      assert Xor(a, b, bits) / 2 == Xor(a / 2, b / 2, bits - 1);
    }
  }

  lemma ShiftByte(a: nat)
    ensures ShiftRight(a, 8) == a / 256
  {
    assert ShiftRight(a, 8) == ShiftRight(a / 2 / 2 / 2 / 2, 4);
    assert a / 2 / 2 / 2 / 2 == a / 16;
    assert ShiftRight(a / 16, 4) == a / 16 / 2 / 2 / 2 / 2;
  }

  lemma WordSize()
    ensures Power(2, 64) == MODULUS && Power(2, 8) == 256
  {
    assert Power(2, 8) == 256;
    PowerAdd(2, 8, 8);
    PowerAdd(2, 16, 16);
    PowerAdd(2, 32, 32);
  }

  lemma {:induction false} PowerAdd(b: nat, m: nat, n: nat)
    ensures Power(b, m + n) == Power(b, m) * Power(b, n)
  {
    if m > 0 {
      PowerAdd(b, m - 1, n);
      Regroup(b, Power(b, m - 1), Power(b, n));
    }
  }

  lemma Regroup(x: nat, y: nat, z: nat)
    ensures x * (y * z) == x * y * z
  {
  }

  // ----- One step -----

  function Mixed(h: u64, b: byte): u64 {
    WordSize();
    XorInverse(h, b, 64);
    Xor(h, b, 64)
  }

  function Times(h: u64): u64 { h * PRIME % MODULUS }

  /** `h ^= byte; h = h.wrapping_mul(prime)`. */
  function Mix(h: u64, b: byte): u64 { Times(Mixed(h, b)) }

  function Unmix(h: u64, b: byte): u64 { Mixed(h * INVERSE % MODULUS, b) }

  lemma Remainder(x: int, q: int, r: int)
    requires x == q * MODULUS + r && 0 <= r < MODULUS
    ensures x % MODULUS == r
  {
  }

  /** Multiplying by the prime can be undone: PRIME * INVERSE == 887285111055 * 2^64 + 1. */
  lemma TimesInverse(h: u64)
    ensures Times(h) * INVERSE % MODULUS == h
    ensures Times(h * INVERSE % MODULUS) == h
  {
    Remainder(Times(h) * INVERSE, h * 887285111055 - h * PRIME / MODULUS * INVERSE, h);
    Remainder(h * INVERSE % MODULUS * PRIME, h * 887285111055 - h * INVERSE / MODULUS * PRIME, h);
  }

  lemma MixedInverse(h: u64, b: byte)
    ensures Mixed(Mixed(h, b), b) == h
  {
    WordSize();
    XorInverse(h, b, 64);
  }

  /** For every byte the step is a bijection of the 64-bit states. */
  lemma MixBijective(h: u64, b: byte)
    ensures Unmix(Mix(h, b), b) == h && Mix(Unmix(h, b), b) == h
  {
    TimesInverse(Mixed(h, b));
    MixedInverse(h, b);
    TimesInverse(h);
    MixedInverse(h * INVERSE % MODULUS, b);
  }

  lemma TimesInjective(g: u64, h: u64)
    requires Times(g) == Times(h)
    ensures g == h
  {
    TimesInverse(g);
    TimesInverse(h);
  }

  lemma MixedInjective(h: u64, a: byte, b: byte)
    requires Mixed(h, a) == Mixed(h, b)
    ensures a == b
  {
    WordSize();
    XorCommutes(h, a, 64);
    XorCommutes(h, b, 64);
    XorInverse(a, h, 64);
    XorInverse(b, h, 64);
  }

  /** From one state, different bytes lead to different states. */
  lemma MixInjectiveInByte(h: u64, a: byte, b: byte)
    requires Mix(h, a) == Mix(h, b)
    ensures a == b
  {
    TimesInjective(Mixed(h, a), Mixed(h, b));
    MixedInjective(h, a, b);
  }

  lemma MixInjectiveInState(g: u64, h: u64, b: byte)
    requires Mix(g, b) == Mix(h, b)
    ensures g == h
  {
    MixBijective(g, b);
    MixBijective(h, b);
  }

  lemma MixedKeepsHigh(h: u64, b: byte)
    ensures Mixed(h, b) / 256 == h / 256
  {
    WordSize();
    XorHighPart(h, b, 64, 8);
    ShiftByte(h);
    ShiftByte(Mixed(h, b));
  }

  /** Two steps from one state: different pairs of bytes lead to different states. */
  lemma TwoMixesInjective(h: u64, a0: byte, a1: byte, b0: byte, b1: byte)
    requires Mix(Mix(h, a0), a1) == Mix(Mix(h, b0), b1)
    ensures a0 == b0 && a1 == b1
  {
    var x, y := Mixed(h, a0), Mixed(h, b0);
    TimesInjective(Mixed(Times(x), a1), Mixed(Times(y), b1));
    MixedKeepsHigh(h, a0);
    MixedKeepsHigh(h, b0);
    MixedKeepsHigh(Times(x), a1);
    MixedKeepsHigh(Times(y), b1);
    CloseStatesSpread(x, y);
    MixedInjective(h, a0, b0);
    MixedInjective(Times(x), a1, b1);
  }

  /** States that differ in their low byte only are far apart after the multiplication. */
  lemma CloseStatesSpread(x: u64, y: u64)
    requires x / 256 == y / 256 && Times(x) / 256 == Times(y) / 256
    ensures x == y
  {
    var j := x * PRIME / MODULUS - y * PRIME / MODULUS;
    assert Times(x) - Times(y) == (x - y) * PRIME - j * MODULUS;
  }

  // ----- Whole strings -----

  function Fold(h: u64, data: seq<byte>): u64
    decreases |data|
  {
    if data == [] then h else Fold(Mix(h, data[0]), data[1..])
  }

  lemma {:induction false} FoldAppend(h: u64, a: seq<byte>, b: seq<byte>)
    ensures Fold(h, a + b) == Fold(Fold(h, a), b)
    decreases |a|
  {
    if a == [] {
      assert a + b == b;
    } else {
      assert (a + b)[1..] == a[1..] + b;
      FoldAppend(Mix(h, a[0]), a[1..], b);
    }
  }

  lemma {:induction false} FoldInjectiveInState(g: u64, h: u64, data: seq<byte>)
    requires Fold(g, data) == Fold(h, data)
    ensures g == h
    decreases |data|
  {
    if data != [] {
      FoldInjectiveInState(Mix(g, data[0]), Mix(h, data[0]), data[1..]);
      MixInjectiveInState(g, h, data[0]);
    }
  }

  /** The sixteen lower-case hexadecimal digits of a state. */
  function HexDigit(d: nat): char
    requires d < 16
  {
    "0123456789abcdef"[d]
  }

  function Hex(h: nat, digits: nat): string
    decreases digits, h
  {
    if digits == 0 then "" else Hex(h / 16, digits - 1) + [HexDigit(h % 16)]
  }

  lemma {:induction false} HexInjective(g: nat, h: nat, digits: nat)
    requires g < Power(16, digits) && h < Power(16, digits) && Hex(g, digits) == Hex(h, digits)
    ensures g == h
    decreases digits
  {
    if digits > 0 {
      HexLength(g / 16, digits - 1);
      HexLength(h / 16, digits - 1);
      var x, y := Hex(g, digits), Hex(h, digits);
      assert x[..digits - 1] == Hex(g / 16, digits - 1) && y[..digits - 1] == Hex(h / 16, digits - 1);
      assert x[digits - 1] == HexDigit(g % 16) && y[digits - 1] == HexDigit(h % 16);
      HexInjective(g / 16, h / 16, digits - 1);
    }
  }

  lemma {:induction false} HexLength(h: nat, digits: nat)
    ensures |Hex(h, digits)| == digits
    decreases digits
  {
    if digits > 0 {
      HexLength(h / 16, digits - 1);
    }
  }

  /** The hash string of a byte string. */
  function Hash(data: seq<byte>): string { Hex(Fold(OFFSET_BASIS, data), 16) }

  lemma HashSameFold(a: seq<byte>, b: seq<byte>)
    requires Hash(a) == Hash(b)
    ensures Fold(OFFSET_BASIS, a) == Fold(OFFSET_BASIS, b)
  {
    assert Power(16, 4) == 65536;
    PowerAdd(16, 4, 4);
    PowerAdd(16, 8, 8);
    HexInjective(Fold(OFFSET_BASIS, a), Fold(OFFSET_BASIS, b), 16);
  }

  /** The strings agree everywhere except possibly at `i` and `i + 1`. */
  ghost predicate DifferWithinPair(a: seq<byte>, b: seq<byte>, i: nat) {
    |a| == |b| && forall j | 0 <= j < |a| && j != i && j != i + 1 :: a[j] == b[j]
  }

  /**
   A change of one byte, or of two neighbouring bytes, always changes the hash string: equal-length
   strings that differ nowhere else and have the same hash are equal.
   */
  lemma ShortBurstDetected(a: seq<byte>, b: seq<byte>, i: nat)
    requires DifferWithinPair(a, b, i) && Hash(a) == Hash(b)
    ensures a == b
  {
    hide Hash;
    hide Fold;
    hide Mix;
    HashSameFold(a, b);
    if i + 1 < |a| {
      var h := Fold(OFFSET_BASIS, a[..i]);
      SplitPair(a, i);
      SplitPair(b, i);
      assert a[..i] == b[..i] && a[i + 2..] == b[i + 2..];
      FoldInjectiveInState(Mix(Mix(h, a[i]), a[i + 1]), Mix(Mix(h, b[i]), b[i + 1]), a[i + 2..]);
      TwoMixesInjective(h, a[i], a[i + 1], b[i], b[i + 1]);
    } else if i < |a| {
      var h := Fold(OFFSET_BASIS, a[..i]);
      SplitLast(a);
      SplitLast(b);
      assert a[..i] == b[..i];
      MixInjectiveInByte(h, a[i], b[i]);
    }
  }

  lemma SplitPair(a: seq<byte>, i: nat)
    requires i + 1 < |a|
    ensures Fold(OFFSET_BASIS, a)
         == Fold(Mix(Mix(Fold(OFFSET_BASIS, a[..i]), a[i]), a[i + 1]), a[i + 2..])
  {
    assert a == a[..i] + a[i..];
    FoldAppend(OFFSET_BASIS, a[..i], a[i..]);
    assert a[i..][1..] == a[i + 1..] && a[i + 1..][1..] == a[i + 2..];
  }

  lemma SplitLast(a: seq<byte>)
    requires a != []
    ensures Fold(OFFSET_BASIS, a) == Mix(Fold(OFFSET_BASIS, a[..|a| - 1]), a[|a| - 1])
  {
    var last := [a[|a| - 1]];
    assert a == a[..|a| - 1] + last && last[1..] == [];
    FoldAppend(OFFSET_BASIS, a[..|a| - 1], last);
  }

  // ----- What the text says -----

  /** The value of a hexadecimal digit character, by the ranges of the characters. */
  function DigitValue(c: char): nat
    requires '0' <= c <= '9' || 'a' <= c <= 'f'
  {
    if c <= '9' then c as int - '0' as int else c as int - 'a' as int + 10
  }

  predicate LowerHex(text: string) { forall k | 0 <= k < |text| :: '0' <= text[k] <= '9' || 'a' <= text[k] <= 'f' }

  /** A text of lower-case hexadecimal digits, read as a number with its most significant digit first. */
  function Read(text: string): nat
    requires LowerHex(text)
  {
    if text == "" then 0 else 16 * Read(text[..|text| - 1]) + DigitValue(text[|text| - 1])
  }

  lemma DigitRead(d: nat)
    requires d < 16
    ensures LowerHex([HexDigit(d)]) && DigitValue(HexDigit(d)) == d
  {
    var c := HexDigit(d);
    assert [c][0] == c;
    assert d < 10 ==> c == ('0' as int + d) as char;
  }

  lemma {:induction false} HexRead(h: nat, digits: nat)
    requires h < Power(16, digits)
    ensures |Hex(h, digits)| == digits && LowerHex(Hex(h, digits)) && Read(Hex(h, digits)) == h
    decreases digits
  {
    if digits > 0 {
      HexRead(h / 16, digits - 1);
      DigitRead(h % 16);
      ReadPush(Hex(h / 16, digits - 1), HexDigit(h % 16));
    }
  }

  lemma ReadPush(front: string, c: char)
    requires LowerHex(front) && LowerHex([c])
    ensures LowerHex(front + [c]) && Read(front + [c]) == 16 * Read(front) + DigitValue([c][0])
  {
    var text := front + [c];
    assert text[..|text| - 1] == front && text[|text| - 1] == c == [c][0];
    assert forall k | 0 <= k < |text| :: text[k] == if k < |front| then front[k] else [c][0];
  }

  /** The hash text has sixteen lower-case digits, and read as a number it is the final state. */
  lemma HashReads(data: seq<byte>)
    ensures |Hash(data)| == 16 && LowerHex(Hash(data)) && Read(Hash(data)) == Fold(OFFSET_BASIS, data)
  {
    assert Power(16, 4) == 65536;
    PowerAdd(16, 4, 4);
    PowerAdd(16, 8, 8);
    HexRead(Fold(OFFSET_BASIS, data), 16);
  }

  /** Bit `k` of an exclusive-or is set exactly if it is set in one of the two numbers only. */
  lemma {:induction false} XorBit(a: nat, b: nat, bits: nat, k: nat)
    requires k < bits
    ensures ShiftRight(Xor(a, b, bits), k) % 2 == if ShiftRight(a, k) % 2 == ShiftRight(b, k) % 2 then 0 else 1
    decreases k
  {
    XorParts(a, b, bits);
    if k > 0 {
      XorBit(a / 2, b / 2, bits - 1, k - 1);
    }
  }

  /** The hash of nothing. */
  lemma HashOfNothing()
    ensures LowerHex(Hash([])) && Read(Hash([])) == 0xcbf29ce484222325
  {
    HashReads([]);
  }

  /** The lowest bits of an exclusive-or come from the lowest bits. */
  lemma {:induction false} XorLowBits(a: nat, b: nat, bits: nat, low: nat)
    requires low <= bits
    ensures Power(2, low) > 0
    ensures Xor(a, b, bits) % Power(2, low) == Xor(a % Power(2, low), b, low)
    decreases low
  {
    if low > 0 {
      XorLowBits(a / 2, b / 2, bits - 1, low - 1);
      var p := Power(2, low - 1);
      assert Power(2, low) == 2 * p;
      XorParts(a, b, bits);
      LowPart(Xor(a, b, bits), p);
      LowPart(a, p);
      XorParts(a % (2 * p), b, low);
      hide Xor;
      hide Power;
      SameParts(Xor(a, b, bits) % (2 * p), Xor(a % (2 * p), b, low));
    }
  }

  lemma SameParts(x: nat, y: nat)
    requires x % 2 == y % 2 && x / 2 == y / 2
    ensures x == y
  {
  }

  lemma LowPart(x: nat, p: nat)
    requires p > 0
    ensures x % (2 * p) == x % 2 + 2 * (x / 2 % p)
    ensures (x % (2 * p)) % 2 == x % 2 && (x % (2 * p)) / 2 == x / 2 % p
  {
    var q, r := x / 2 / p, x / 2 % p;
    assert x == q * (2 * p) + (x % 2 + 2 * r);
    Remainders(x, q, 2 * p, x % 2 + 2 * r);
  }

  lemma Remainders(x: nat, q: nat, d: nat, r: nat)
    requires r < d && x == q * d + r
    ensures x % d == r
  {
    var q2, r2 := x / d, x % d;
    assert x == q2 * d + r2;
    SameQuotient(q, q2, d, r, r2);
  }

  lemma SameQuotient(q: int, q2: int, d: nat, r: nat, r2: nat)
    requires r < d && r2 < d && q * d + r == q2 * d + r2
    ensures r == r2
  {
    var k := q2 - q;
    assert k * d == r - r2;
    Multiples(k, d);
  }

  lemma Multiples(k: int, d: int)
    requires d >= 0
    ensures k >= 1 ==> k * d >= d
    ensures k <= -1 ==> k * d <= -d
  {
  }

  lemma XorShifted(a: nat, b: nat, bits: nat, rest: nat)
    requires Xor(a / 2, b / 2, bits) == rest
    ensures Xor(a, b, bits + 1) == (a % 2 + b % 2) % 2 + 2 * rest
  {
  }

  /** 00100101 and 01100001 give 01000100. */
  lemma SmallXor()
    ensures Xor(0x25, 0x61, 8) == 0x44
  {
    assert Xor(0, 0, 0) == 0;
    hide Xor;
    XorShifted(0, 0, 0, 0);
    XorShifted(0, 1, 1, 0);
    XorShifted(1, 3, 2, 1);
    XorShifted(2, 6, 3, 2);
    XorShifted(4, 12, 4, 4);
    XorShifted(9, 24, 5, 8);
    XorShifted(18, 48, 6, 17);
    XorShifted(37, 97, 7, 34);
  }

  lemma MixedLow(h: u64, b: byte)
    ensures Mixed(h, b) % 256 == Xor(h % 256, b, 8)
  {
    WordSize();
    XorLowBits(h, b, 64, 8);
  }

  lemma FirstMixed(h: u64)
    requires h == 0xcbf29ce484222325
    ensures Mixed(h, 97) == 0xcbf29ce484222344
  {
    hide Mixed;
    hide Xor;
    MixedKeepsHigh(h, 97);
    MixedLow(h, 97);
    SmallXor();
    var x := Mixed(h, 97);
    assert x == 256 * (x / 256) + x % 256;
  }

  /** One step, on numbers: the mixed state times 2^40 + 2^8 + 0xb3, modulo 2^64. */
  lemma StepValue(h: u64, b: byte)
    ensures Mix(h, b) == Mixed(h, b) * (0x100_0000_0000 + 0x100 + 0xb3) % 0x1_0000_0000_0000_0000
  {
    hide Mixed;
  }

  lemma LetterProduct(x: nat)
    requires x == 0xcbf29ce484222344
    ensures x * (0x100_0000_0000 + 0x100 + 0xb3) % 0x1_0000_0000_0000_0000 == 0xaf63dc4c8601ec8c
  {
  }

  lemma FoldOne(h: u64, data: seq<byte>)
    requires |data| == 1
    ensures Fold(h, data) == Mix(h, data[0])
  {
    assert data[1..] == [];
  }

  /** The published hash of the one byte 97, the letter a. */
  lemma HashOfLetterA(data: seq<byte>)
    requires data == [97]
    ensures LowerHex(Hash(data)) && Read(Hash(data)) == 0xaf63dc4c8601ec8c
  {
    hide Hash;
    hide Read;
    hide Fold;
    hide Mix;
    hide Mixed;
    HashReads(data);
    FoldOne(OFFSET_BASIS, data);
    FirstMixed(OFFSET_BASIS);
    StepValue(OFFSET_BASIS, 97);
    LetterProduct(Mixed(OFFSET_BASIS, 97));
  }
}
