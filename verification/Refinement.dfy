/** The hash over machine words is SHA-1 on strings of bits as RFC 3174 defines it: each operation on
    words against the one on bits, then the schedule, the rounds, a block, the padding, a message. */
module Refinement {
  import opened Words
  import opened Numbers
  import opened Compression
  import opened Padding
  import opened WordBits
  import Standard

  // ---------- The operations of a round and of the schedule ----------

  lemma ChooseByName(b: Word, c: Word, d: Word)
    ensures (b & c) | ((!b) & d) == OrOf(AndOf(b, c), AndOf(NotOf(b), d))
  {
  }

  lemma ParityByName(b: Word, c: Word, d: Word)
    ensures b ^ c ^ d == XorOf(XorOf(b, c), d)
  {
    calc {
      XorOf(XorOf(b, c), d);
      XorOf(b, c) ^ d;
      b ^ c ^ d;
    }
  }

  lemma MajorityByName(b: Word, c: Word, d: Word)
    ensures (b & c) | (b & d) | (c & d) == OrOf(OrOf(AndOf(b, c), AndOf(b, d)), AndOf(c, d))
  {
    calc {
      OrOf(OrOf(AndOf(b, c), AndOf(b, d)), AndOf(c, d));
      OrOf(AndOf(b, c), AndOf(b, d)) | AndOf(c, d);
      (AndOf(b, c) | AndOf(b, d)) | (c & d);
      (b & c) | (b & d) | (c & d);
    }
  }

  lemma BitsOfF(t: nat, b: Word, c: Word, d: Word)
    requires t < 80
    ensures BitsOf(F(t, b, c, d)) == Standard.F(t, BitsOf(b), BitsOf(c), BitsOf(d))
  {
    hide BitsOf, AndOf, OrOf, NotOf, XorOf, Standard.And, Standard.Or, Standard.Not, Standard.ExclusiveOr;
    ChooseByName(b, c, d);
    ParityByName(b, c, d);
    MajorityByName(b, c, d);
    BitsOfBitwise(b, c);
    BitsOfBitwise(b, d);
    BitsOfBitwise(c, d);
    BitsOfBitwise(NotOf(b), d);
    BitsOfBitwise(AndOf(b, c), AndOf(NotOf(b), d));
    BitsOfBitwise(AndOf(b, c), AndOf(b, d));
    BitsOfBitwise(OrOf(AndOf(b, c), AndOf(b, d)), AndOf(c, d));
    BitsOfBitwise(XorOf(b, c), d);
  }

  lemma SumByPlus(x: Word, f: Word, e: Word, w: Word, k: Word)
    ensures Sum(x, f, e, w, k) == Plus(Plus(Plus(Plus(x, f), e), w), k)
  {
    calc {
      Plus(Plus(Plus(Plus(x, f), e), w), k);
      Plus(Plus(Plus(x, f), e), w) + k;
      Plus(Plus(x, f), e) + w + k;
      Plus(x, f) + e + w + k;
      x + f + e + w + k;
      Sum(x, f, e, w, k);
    }
  }

  lemma BitsOfSum(x: Word, f: Word, e: Word, w: Word, k: Word)
    ensures BitsOf(Sum(x, f, e, w, k)) ==
            Standard.Add(Standard.Add(Standard.Add(Standard.Add(BitsOf(x), BitsOf(f)), BitsOf(e)), BitsOf(w)), BitsOf(k))
  {
    hide Sum, Plus, BitsOf, Standard.Add;
    SumByPlus(x, f, e, w, k);
    BitsOfPlus(x, f);
    BitsOfPlus(Plus(x, f), e);
    BitsOfPlus(Plus(Plus(x, f), e), w);
    BitsOfPlus(Plus(Plus(Plus(x, f), e), w), k);
  }

  lemma MixByName(p: Word, q: Word, r: Word, x: Word)
    ensures Mix(Xor3(p, q, r), x) == RotateLeft(1, XorOf(XorOf(XorOf(p, q), r), x))
  {
    ParityByName(p, q, r);
  }

  lemma BitsOfMix(p: Word, q: Word, r: Word, x: Word)
    ensures BitsOf(Mix(Xor3(p, q, r), x)) ==
            Standard.Shift(1, Standard.ExclusiveOr(Standard.ExclusiveOr(Standard.ExclusiveOr(BitsOf(p), BitsOf(q)), BitsOf(r)), BitsOf(x)))
  {
    hide Mix, Xor3, XorOf, BitsOf, RotateLeft, Standard.Shift, Standard.ExclusiveOr;
    MixByName(p, q, r, x);
    BitsOfBitwise(p, q);
    BitsOfBitwise(XorOf(p, q), r);
    BitsOfBitwise(XorOf(XorOf(p, q), r), x);
    BitsOfRotated(XorOf(XorOf(XorOf(p, q), r), x));
  }

  // ---------- Constants ----------

  /** A word given by its four octets is the string of bits of the number they spell. */
  lemma BitsOfConstant(b0: Byte, b1: Byte, b2: Byte, b3: Byte)
    ensures BitsOf(LoadWord(b0, b1, b2, b3)) ==
            Standard.BitString(NatOf(b0) * 0x100_0000 + NatOf(b1) * 0x1_0000 + NatOf(b2) * 0x100 + NatOf(b3), 32)
  {
    hide LoadWord, NatOf, BitsOf;
    var w := LoadWord(b0, b1, b2, b3);
    LoadedValue(b0, b1, b2, b3);
    Standard.BitStringOfNumber(BitsOf(w));
  }

  lemma RoundConstantsByOctets()
    ensures LoadWord(0x5A, 0x82, 0x79, 0x99) == 0x5A827999
    ensures LoadWord(0x6E, 0xD9, 0xEB, 0xA1) == 0x6ED9EBA1
    ensures LoadWord(0x8F, 0x1B, 0xBC, 0xDC) == 0x8F1BBCDC
    ensures LoadWord(0xCA, 0x62, 0xC1, 0xD6) == 0xCA62C1D6
  {
  }

  lemma RoundConstantValues()
    ensures NatOf(0x5A) == 0x5A && NatOf(0x82) == 0x82 && NatOf(0x79) == 0x79 && NatOf(0x99) == 0x99
    ensures NatOf(0x6E) == 0x6E && NatOf(0xD9) == 0xD9 && NatOf(0xEB) == 0xEB && NatOf(0xA1) == 0xA1
    ensures NatOf(0x8F) == 0x8F && NatOf(0x1B) == 0x1B && NatOf(0xBC) == 0xBC && NatOf(0xDC) == 0xDC
    ensures NatOf(0xCA) == 0xCA && NatOf(0x62) == 0x62 && NatOf(0xC1) == 0xC1 && NatOf(0xD6) == 0xD6
  {
  }

  lemma BitsOfK(t: nat)
    requires t < 80
    ensures BitsOf(K(t)) == Standard.K(t)
  {
    hide LoadWord, NatOf, BitsOf, Standard.BitString;
    RoundConstantsByOctets();
    RoundConstantValues();
    BitsOfConstant(0x5A, 0x82, 0x79, 0x99);
    BitsOfConstant(0x6E, 0xD9, 0xEB, 0xA1);
    BitsOfConstant(0x8F, 0x1B, 0xBC, 0xDC);
    BitsOfConstant(0xCA, 0x62, 0xC1, 0xD6);
  }

  lemma InitialByOctets()
    ensures LoadWord(0x67, 0x45, 0x23, 0x01) == 0x67452301
    ensures LoadWord(0xEF, 0xCD, 0xAB, 0x89) == 0xEFCDAB89
    ensures LoadWord(0x98, 0xBA, 0xDC, 0xFE) == 0x98BADCFE
    ensures LoadWord(0x10, 0x32, 0x54, 0x76) == 0x10325476
    ensures LoadWord(0xC3, 0xD2, 0xE1, 0xF0) == 0xC3D2E1F0
  {
  }

  lemma InitialValues()
    ensures NatOf(0x67) == 0x67 && NatOf(0x45) == 0x45 && NatOf(0x23) == 0x23 && NatOf(0x01) == 0x01
    ensures NatOf(0xEF) == 0xEF && NatOf(0xCD) == 0xCD && NatOf(0xAB) == 0xAB && NatOf(0x89) == 0x89
    ensures NatOf(0x98) == 0x98 && NatOf(0xBA) == 0xBA && NatOf(0xDC) == 0xDC && NatOf(0xFE) == 0xFE
    ensures NatOf(0x10) == 0x10 && NatOf(0x32) == 0x32 && NatOf(0x54) == 0x54 && NatOf(0x76) == 0x76
    ensures NatOf(0xC3) == 0xC3 && NatOf(0xD2) == 0xD2 && NatOf(0xE1) == 0xE1 && NatOf(0xF0) == 0xF0
  {
  }

  function BitsOfRegisters(s: Registers): Standard.Registers {
    Standard.Registers(BitsOf(s.a), BitsOf(s.b), BitsOf(s.c), BitsOf(s.d), BitsOf(s.e))
  }

  lemma BitsOfInitial()
    ensures BitsOfRegisters(INITIAL) == Standard.Initial()
  {
    hide LoadWord, NatOf, BitsOf, Standard.BitString;
    InitialByOctets();
    InitialValues();
    BitsOfConstant(0x67, 0x45, 0x23, 0x01);
    BitsOfConstant(0xEF, 0xCD, 0xAB, 0x89);
    BitsOfConstant(0x98, 0xBA, 0xDC, 0xFE);
    BitsOfConstant(0x10, 0x32, 0x54, 0x76);
    BitsOfConstant(0xC3, 0xD2, 0xE1, 0xF0);
  }

  // ---------- Strings of octets ----------

  /** Octets as a string of bits, in their order, most significant bit of each first. */
  function BitsOfOctets(s: seq<Byte>): (bits: Standard.Bits)
    ensures |bits| == 8 * |s|
  {
    seq(8 * |s|, i requires 0 <= i < 8 * |s| => BitsOfOctet(s[i / 8])[i % 8])
  }

  lemma BitsOfJoined(s: seq<Byte>, t: seq<Byte>)
    ensures BitsOfOctets(s + t) == BitsOfOctets(s) + BitsOfOctets(t)
  {
    hide BitsOfOctet;
    var n := 8 * |s|;
    forall i | 0 <= i < n + 8 * |t|
      ensures BitsOfOctets(s + t)[i] == (BitsOfOctets(s) + BitsOfOctets(t))[i]
    {
      if i >= n {
        assert i / 8 == |s| + (i - n) / 8 && i % 8 == (i - n) % 8;
      }
    }
  }

  lemma BitsOfSingle(b: Byte)
    ensures BitsOfOctets([b]) == BitsOfOctet(b)
  {
    hide BitsOfOctet;
  }

  lemma BitsOfSlice(s: seq<Byte>, i: nat, j: nat)
    requires i <= j <= |s|
    ensures BitsOfOctets(s)[8 * i..8 * j] == BitsOfOctets(s[i..j])
  {
    hide BitsOfOctets;
    BitsOfJoined(s[..i], s[i..]);
    BitsOfJoined(s[i..j], s[j..]);
    assert s[..i] + s[i..] == s && s[i..j] + s[j..] == s[i..];
    var front, middle, back := BitsOfOctets(s[..i]), BitsOfOctets(s[i..j]), BitsOfOctets(s[j..]);
    assert (front + (middle + back))[8 * i..8 * j] == middle;
  }

  lemma BitsOfFour(b0: Byte, b1: Byte, b2: Byte, b3: Byte)
    ensures BitsOfOctets([b0, b1, b2, b3]) == BitsOf(LoadWord(b0, b1, b2, b3))
  {
    hide BitsOfOctet, BitsOf, LoadWord;
    BitsOfLoaded(b0, b1, b2, b3);
  }

  lemma BitsOfWordAt(s: seq<Byte>, i: nat)
    requires 4 * i + 4 <= |s|
    ensures BitsOfOctets(s)[32 * i..32 * i + 32] == BitsOf(WordAt(s, i))
  {
    hide BitsOfOctets, BitsOf, LoadWord;
    BitsOfSlice(s, 4 * i, 4 * i + 4);
    BitsOfFour(s[4 * i], s[4 * i + 1], s[4 * i + 2], s[4 * i + 3]);
    assert s[4 * i..4 * i + 4] == [s[4 * i], s[4 * i + 1], s[4 * i + 2], s[4 * i + 3]];
  }

  // ---------- One block ----------

  lemma {:induction false} BitsOfSchedule(block: seq<Byte>, t: nat)
    requires |block| == 64 && t < 80
    ensures BitsOf(Schedule(ToWords(block), 80)[t]) == Standard.W(BitsOfOctets(block), t)
  {
    hide BitsOf, BitsOfOctets, ToWords, Schedule, NextWord, Mix, Xor3, Standard.Shift, Standard.ExclusiveOr;
    var m := ToWords(block);
    var w := Schedule(m, 80);
    if t < 16 {
      SchedulePrefix(m, 16, 80);
      ScheduleGrows(m, 16);
      assert w[t] == w[..16][t] == m[t];
      WordIsAt(block, t);
      BitsOfWordAt(block, t);
    } else {
      SchedulePrefix(m, t, 80);
      SchedulePrefix(m, t + 1, 80);
      ScheduleGrows(m, t);
      assert w[t] == w[..t + 1][t] == NextWord(w[..t]);
      NextWordAt(w, t);
      BitsOfMix(w[t - 3], w[t - 8], w[t - 14], w[t - 16]);
      BitsOfSchedule(block, t - 3);
      BitsOfSchedule(block, t - 8);
      BitsOfSchedule(block, t - 14);
      BitsOfSchedule(block, t - 16);
    }
  }

  lemma BitsOfRound(t: nat, w: Word, s: Registers)
    requires t < 80
    ensures BitsOfRegisters(Round(t, w, s)) == Standard.Round(t, BitsOf(w), BitsOfRegisters(s))
  {
    hide BitsOf, F, K, Sum, RotateLeft, Standard.F, Standard.K, Standard.Add, Standard.Shift;
    BitsOfF(t, s.b, s.c, s.d);
    BitsOfK(t);
    BitsOfRotated(s.a);
    BitsOfRotated(s.b);
    BitsOfSum(RotateLeft(5, s.a), F(t, s.b, s.c, s.d), s.e, w, K(t));
  }

  lemma {:induction false} BitsOfRounds(block: seq<Byte>, t: nat, h: Registers)
    requires |block| == 64 && t <= 80
    ensures BitsOfRegisters(Rounds(Schedule(ToWords(block), 80), t, h)) ==
            Standard.Rounds(BitsOfOctets(block), t, BitsOfRegisters(h))
  {
    hide BitsOf, BitsOfRegisters, BitsOfOctets, ToWords, Schedule, Round, Standard.Round, Standard.W;
    if t > 0 {
      var w := Schedule(ToWords(block), 80);
      BitsOfRounds(block, t - 1, h);
      BitsOfSchedule(block, t - 1);
      BitsOfRound(t - 1, w[t - 1], Rounds(w, t - 1, h));
    }
  }

  /** Compressing a block is processing its bits. */
  lemma BitsOfCompress(h: Registers, block: seq<Byte>)
    requires |block| == 64
    ensures BitsOfRegisters(Compress(h, block)) == Standard.Process(BitsOfRegisters(h), BitsOfOctets(block))
  {
    hide BitsOf, BitsOfOctets, ToWords, Schedule, Rounds, Plus, Standard.Rounds, Standard.Add;
    var r := Rounds(Schedule(ToWords(block), 80), 80, h);
    BitsOfRounds(block, 80, h);
    BitsOfPlus(h.a, r.a);
    BitsOfPlus(h.b, r.b);
    BitsOfPlus(h.c, r.c);
    BitsOfPlus(h.d, r.d);
    BitsOfPlus(h.e, r.e);
  }

  // ---------- Whole messages ----------

  lemma {:induction false} BitsOfBlocks(data: seq<Byte>)
    requires |data| % 64 == 0
    ensures BitsOfRegisters(HashBlocks(INITIAL, data)) == Standard.HashOf(BitsOfOctets(data), |data| / 64)
  {
    hide BitsOfRegisters, BitsOfOctets, Compress, Standard.Process, Standard.Initial;
    if |data| == 0 {
      BitsOfInitial();
    } else {
      var bits := BitsOfOctets(data);
      var n, k := |data| - 64, |data| / 64;
      BitsOfBlocks(data[..n]);
      BitsOfCompress(HashBlocks(INITIAL, data[..n]), data[n..]);
      BitsOfSlice(data, n, |data|);
      BitsOfSlice(data, 0, n);
      HashOfPrefix(bits, 8 * n, k - 1);
      assert data[0..n] == data[..n] && data[n..|data|] == data[n..];
      assert bits[..8 * n] == BitsOfOctets(data[..n]);
      assert bits[512 * (k - 1)..512 * k] == BitsOfOctets(data[n..]);
    }
  }

  lemma {:induction false} HashOfPrefix(padded: Standard.Bits, size: nat, n: nat)
    requires 512 * n <= size <= |padded|
    ensures Standard.HashOf(padded[..size], n) == Standard.HashOf(padded, n)
  {
    hide Standard.Process;
    if n > 0 {
      HashOfPrefix(padded, size, n - 1);
      assert padded[..size][512 * (n - 1)..512 * n] == padded[512 * (n - 1)..512 * n];
    }
  }

  // ---------- Padding ----------

  lemma OctetIsBitString(b: Byte)
    ensures BitsOfOctet(b) == Standard.BitString(NatOf(b), 8)
  {
    hide BitsOfOctet, NatOf;
    OctetValueIsNat(b);
    Standard.BitStringOfNumber(BitsOfOctet(b));
  }

  lemma MarkAndZero()
    ensures BitsOfOctet(0x80) == [true] + Standard.Zeros(7) && BitsOfOctet(0) == Standard.Zeros(8)
  {
    hide BitsOfOctet, NatOf, Standard.Zeros;
    OctetIsBitString(0x80);
    OctetIsBitString(0);
    MarkAndZeroNumbers();
    MarkBits();
  }

  lemma MarkAndZeroNumbers()
    ensures NatOf(0x80) == 0x80 && NatOf(0) == 0
  {
  }

  lemma MarkBits()
    ensures Standard.BitString(0, 8) == Standard.Zeros(8)
    ensures Standard.BitString(0x80, 8) == [true] + Standard.Zeros(7)
  {
    assert Standard.BitString(1, 1) == [true];
    assert Standard.BitString(8, 4) == [true, false, false, false];
    assert Standard.BitString(0, 4) == [false, false, false, false];
  }

  lemma BitsOfZeros(n: nat)
    ensures BitsOfOctets(Zeros(n)) == Standard.Zeros(8 * n)
  {
    hide BitsOfOctet;
    MarkAndZero();
  }

  lemma {:induction false} BitsOfBigEndian(v: nat, n: nat)
    ensures BitsOfOctets(BigEndian(v, n)) == Standard.BitString(v, 8 * n)
  {
    hide ByteOf, NatOf, BitsOfOctet, BitsOfOctets, Standard.BitString;
    if n == 0 {
      NoBits(v);
    } else {
      var high, low := v / 256, v % 256;
      BitsOfBigEndian(high, n - 1);
      BitsOfJoined(BigEndian(high, n - 1), [ByteOf(low)]);
      BitsOfSingle(ByteOf(low));
      OctetIsBitString(ByteOf(low));
      NatOfByte(low);
      Standard.PowerValues();
      Standard.BitStringSplits(high, low, 8 * (n - 1), 8);
      assert high * 256 + low == v;
    }
  }

  lemma NoBits(v: nat)
    ensures BitsOfOctets([]) == [] == Standard.BitString(v, 0)
  {
  }

  lemma ZerosAsBits(n: nat)
    ensures Standard.ZeroBits(8 * n) == 7 + 8 * ZeroCount(n)
  {
    var q, z := (55 - n) / 64, (55 - n) % 64;
    assert 447 - 8 * n == 512 * q + (7 + 8 * z);
    RemainderOf512(447 - 8 * n, q, 7 + 8 * z);
  }

  lemma RemainderOf512(x: int, q: int, r: nat)
    requires r < 512 && x == 512 * q + r
    ensures x % 512 == r
  {
  }

  /** The padded octets are the padded bits. */
  lemma BitsOfPad(m: seq<Byte>)
    ensures BitsOfOctets(Pad(m)) == Standard.Pad(BitsOfOctets(m))
  {
    hide BitsOfOctets, BitsOfOctet, BigEndian, BitLength, ZeroCount, Standard.ZeroBits, Standard.BitString;
    var n := |m|;
    var z, length := ZeroCount(n), BigEndian(BitLength(n), 8);
    BitsOfJoined(m + [0x80] + Zeros(z), length);
    BitsOfJoined(m + [0x80], Zeros(z));
    BitsOfJoined(m, [0x80]);
    BitsOfSingle(0x80);
    MarkAndZero();
    BitsOfZeros(z);
    BitsOfBigEndian(BitLength(n), 8);
    BitLengthIs(n);
    ZerosAsBits(n);
    assert Standard.Zeros(7) + Standard.Zeros(8 * z) == Standard.Zeros(7 + 8 * z);
  }

  lemma BitLengthIs(n: nat)
    ensures BitLength(n) == 8 * n % Standard.LENGTHS
  {
  }

  // ---------- The hash ----------

  lemma WordOfOctets(words: seq<Word>, i: nat)
    requires i < |words|
    ensures BitsOfOctets(ToOctets(words))[32 * i..32 * i + 32] == BitsOf(words[i])
  {
    hide BitsOfOctets, BitsOf, ToOctets, WordAt;
    WordsOfOctets(words);
    WordIsAt(ToOctets(words), i);
    BitsOfWordAt(ToOctets(words), i);
  }

  lemma FiveSlices(s: Standard.Bits)
    requires |s| == 160
    ensures s == s[0..32] + s[32..64] + s[64..96] + s[96..128] + s[128..160]
  {
  }

  lemma BitsOfDigest(h: Registers)
    ensures BitsOfOctets(ToOctets(AsWords(h))) == BitsOf(h.a) + BitsOf(h.b) + BitsOf(h.c) + BitsOf(h.d) + BitsOf(h.e)
  {
    hide BitsOfOctets, BitsOf, ToOctets;
    var words := AsWords(h);
    WordOfOctets(words, 0);
    WordOfOctets(words, 1);
    WordOfOctets(words, 2);
    WordOfOctets(words, 3);
    WordOfOctets(words, 4);
    FiveSlices(BitsOfOctets(ToOctets(words)));
  }

  /** The hash of the model is SHA-1 as RFC 3174 defines it on bits, for every message. */
  lemma Sha1IsStandard(m: seq<Byte>)
    ensures BitsOfOctets(Sha1(m)) == Standard.Sha1(BitsOfOctets(m))
  {
    hide BitsOfOctets, BitsOf, ToOctets, AsWords, HashBlocks, Pad, Standard.HashOf, Standard.Pad;
    var padded := Pad(m);
    BitsOfPad(m);
    BitsOfBlocks(padded);
    BitsOfDigest(HashBlocks(INITIAL, padded));
  }

  /** No two strings of octets have the same bits, so the laws here fix every octet. */
  lemma BitsDetermineOctets(s: seq<Byte>, t: seq<Byte>)
    ensures BitsOfOctets(s) == BitsOfOctets(t) <==> s == t
  {
    hide BitsOfOctets, BitsOfOctet;
    if BitsOfOctets(s) == BitsOfOctets(t) {
      assert |s| == |t|;
      forall i | 0 <= i < |s|
        ensures s[i] == t[i]
      {
        BitsOfPlace(s, i);
        BitsOfPlace(t, i);
        SameBitsSameOctet(s[i], t[i]);
      }
    }
  }

  lemma BitsOfPlace(s: seq<Byte>, i: nat)
    requires i < |s|
    ensures BitsOfOctets(s)[8 * i..8 * i + 8] == BitsOfOctet(s[i])
  {
    hide BitsOfOctets, BitsOfOctet;
    BitsOfSlice(s, i, i + 1);
    BitsOfSingle(s[i]);
    assert s[i..i + 1] == [s[i]];
  }

  lemma SameBitsSameOctet(x: Byte, y: Byte)
    requires BitsOfOctet(x) == BitsOfOctet(y)
    ensures x == y
  {
    hide BitsOfOctet, NatOf, ByteOf;
    OctetValueIsNat(x);
    OctetValueIsNat(y);
    ByteOfNat(x);
    ByteOfNat(y);
  }
}
