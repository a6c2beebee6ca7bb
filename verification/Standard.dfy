/** SHA-1 and HMAC on strings of bits, in the words of RFC 3174 and RFC 2104: no machine words, no
    octets, no state. It shares no operation with the modules that model the program. */
module Standard {
  type Bits = seq<bool>

  /** Section 2 of RFC 3174: a word is a string of 32 bits. */
  type BitWord = s: Bits | |s| == 32 witness seq(32, _ => false)

  const WORDS: nat := 0x1_0000_0000
  const LENGTHS: nat := 0x1_0000_0000_0000_0000

  // ---------- Numbers as strings of bits, section 2 ----------

  /** The number a string of bits stands for, most significant bit first. */
  function Number(s: Bits): nat {
    if s == [] then 0 else 2 * Number(s[..|s| - 1]) + (if s[|s| - 1] then 1 else 0)
  }

  /** The last n bits of a number. */
  function BitString(v: nat, n: nat): (s: Bits)
    ensures |s| == n
  {
    if n == 0 then [] else BitString(v / 2, n - 1) + [v % 2 == 1]
  }

  function Power(n: nat): (p: nat)
    ensures p > 0
  {
    if n == 0 then 1 else 2 * Power(n - 1)
  }

  lemma {:induction false} NumberOfBitString(v: nat, n: nat)
    requires v < Power(n)
    ensures Number(BitString(v, n)) == v
  {
    if n > 0 {
      NumberOfBitString(v / 2, n - 1);
      assert BitString(v, n)[..n - 1] == BitString(v / 2, n - 1);
    }
  }

  lemma {:induction false} BitStringOfNumber(s: Bits)
    ensures Number(s) < Power(|s|) && BitString(Number(s), |s|) == s
  {
    if s != [] {
      BitStringOfNumber(s[..|s| - 1]);
    }
  }

  lemma {:induction false} NumberOfBoth(s: Bits, t: Bits)
    ensures Number(s + t) == Number(s) * Power(|t|) + Number(t)
  {
    if t == [] {
      assert s + [] == s;
    } else {
      var u, last := t[..|t| - 1], t[|t| - 1];
      assert (s + t)[..|s + t| - 1] == s + u;
      NumberOfBoth(s, u);
      Doubled(Number(s), Power(|u|), Number(u), if last then 1 else 0);
    }
  }

  lemma {:induction false} BitStringSplits(high: nat, low: nat, n: nat, k: nat)
    requires low < Power(k)
    ensures BitString(high * Power(k) + low, n + k) == BitString(high, n) + BitString(low, k)
  {
    if k == 0 {
      assert BitString(high, n) + [] == BitString(high, n);
    } else {
      var v := high * Power(k) + low;
      assert high * Power(k) == 2 * (high * Power(k - 1));
      assert v / 2 == high * Power(k - 1) + low / 2 && v % 2 == low % 2;
      BitStringSplits(high, low / 2, n, k - 1);
    }
  }

  lemma Doubled(n: nat, p: nat, m: nat, b: nat)
    ensures 2 * (n * p + m) + b == n * (2 * p) + (2 * m + b)
  {
  }

  lemma PowerValues()
    ensures Power(8) == 256 && Power(32) == WORDS && Power(64) == LENGTHS
  {
    assert Power(4) == 0x10;
    assert Power(8) == 0x100;
    assert Power(16) == 0x1_0000;
    assert Power(24) == 0x100_0000;
    assert Power(32) == 0x1_0000_0000;
    assert Power(40) == 0x100_0000_0000;
    assert Power(48) == 0x1_0000_0000_0000;
    assert Power(56) == 0x100_0000_0000_0000;
  }

  // ---------- Operations on words, section 3 ----------

  function And(x: BitWord, y: BitWord): BitWord {
    seq(32, i requires 0 <= i < 32 => x[i] && y[i])
  }

  function Or(x: BitWord, y: BitWord): BitWord {
    seq(32, i requires 0 <= i < 32 => x[i] || y[i])
  }

  function Not(x: BitWord): BitWord {
    seq(32, i requires 0 <= i < 32 => !x[i])
  }

  /** Bit by bit, 1 where exactly one of the two is 1. */
  function ExclusiveOr(x: Bits, y: Bits): (z: Bits)
    requires |x| == |y|
    ensures |z| == |x|
  {
    seq(|x|, i requires 0 <= i < |x| => x[i] != y[i])
  }

  function Add(x: BitWord, y: BitWord): BitWord {
    BitString((Number(x) + Number(y)) % WORDS, 32)
  }

  function Shift(n: nat, x: BitWord): BitWord
    requires n < 32
  {
    x[n..] + x[..n]
  }

  // ---------- Padding, section 4 ----------

  function Zeros(n: nat): (s: Bits)
    ensures |s| == n
  {
    seq(n, _ => false)
  }

  /** As many 0s as it takes to come to 64 bits short of a block. */
  function ZeroBits(n: nat): (z: nat)
    ensures z < 512 && (n + z + 65) % 512 == 0
  {
    (447 - n) % 512
  }

  /** A 1, then 0s, then the length in bits as a number of 64 bits. */
  function Pad(m: Bits): (padded: Bits)
    ensures |padded| == |m| + ZeroBits(|m|) + 65 && |padded| % 512 == 0
  {
    m + [true] + Zeros(ZeroBits(|m|)) + BitString(|m| % LENGTHS, 64)
  }

  // ---------- Functions and constants, section 5 ----------

  function F(t: nat, b: BitWord, c: BitWord, d: BitWord): BitWord
    requires t < 80
  {
    if t < 20 then Or(And(b, c), And(Not(b), d))
    else if t < 40 then ExclusiveOr(ExclusiveOr(b, c), d)
    else if t < 60 then Or(Or(And(b, c), And(b, d)), And(c, d))
    else ExclusiveOr(ExclusiveOr(b, c), d)
  }

  function K(t: nat): BitWord
    requires t < 80
  {
    BitString(if t < 20 then 0x5A827999 else if t < 40 then 0x6ED9EBA1 else if t < 60 then 0x8F1BBCDC else 0xCA62C1D6, 32)
  }

  // ---------- The digest, section 6.1 ----------

  datatype Registers = Registers(a: BitWord, b: BitWord, c: BitWord, d: BitWord, e: BitWord)

  function Initial(): Registers {
    Registers(BitString(0x67452301, 32), BitString(0xEFCDAB89, 32), BitString(0x98BADCFE, 32),
              BitString(0x10325476, 32), BitString(0xC3D2E1F0, 32))
  }

  /** Word t of the schedule of a block, steps a and b. */
  function W(block: Bits, t: nat): BitWord
    requires |block| == 512
  {
    if t < 16 then block[32 * t..32 * t + 32]
    else Shift(1, ExclusiveOr(ExclusiveOr(ExclusiveOr(W(block, t - 3), W(block, t - 8)), W(block, t - 14)), W(block, t - 16)))
  }

  /** Step d. */
  function Round(t: nat, w: BitWord, s: Registers): Registers
    requires t < 80
  {
    Registers(Add(Add(Add(Add(Shift(5, s.a), F(t, s.b, s.c, s.d)), s.e), w), K(t)), s.a, Shift(30, s.b), s.c, s.d)
  }

  /** The first t rounds on a block. */
  function Rounds(block: Bits, t: nat, h: Registers): Registers
    requires |block| == 512 && t <= 80
  {
    if t == 0 then h else Round(t - 1, W(block, t - 1), Rounds(block, t - 1, h))
  }

  /** Steps c to e. */
  function Process(h: Registers, block: Bits): Registers
    requires |block| == 512
  {
    var r := Rounds(block, 80, h);
    Registers(Add(h.a, r.a), Add(h.b, r.b), Add(h.c, r.c), Add(h.d, r.d), Add(h.e, r.e))
  }

  /** The five words after the first n blocks. */
  function HashOf(padded: Bits, n: nat): Registers
    requires 512 * n <= |padded|
  {
    if n == 0 then Initial() else Process(HashOf(padded, n - 1), padded[512 * (n - 1)..512 * n])
  }

  function Sha1(m: Bits): (digest: Bits)
    ensures |digest| == 160
  {
    var padded := Pad(m);
    var h := HashOf(padded, |padded| / 512);
    h.a + h.b + h.c + h.d + h.e
  }

  // ---------- RFC 2104, section 2, with blocks of 512 bits ----------

  /** One octet, over and over, for a whole block. */
  function Filled(octet: nat): (s: Bits)
    ensures |s| == 512
  {
    seq(512, i requires 0 <= i < 512 => BitString(octet, 8)[i % 8])
  }

  function KeyBlock(key: Bits): (block: Bits)
    ensures |block| == 512
  {
    var k := if |key| > 512 then Sha1(key) else key;
    k + Zeros(512 - |k|)
  }

  function Hmac(key: Bits, text: Bits): (digest: Bits)
    ensures |digest| == 160
  {
    var inner := Sha1(ExclusiveOr(KeyBlock(key), Filled(0x36)) + text);
    Sha1(ExclusiveOr(KeyBlock(key), Filled(0x5C)) + inner)
  }
}
