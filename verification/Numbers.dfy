/** Numbers as strings of octets, in either order. */
module Numbers {
  import opened Words

  const WORD_LIMIT: nat := 0x1_0000_0000
  const DOUBLE_LIMIT: nat := 0x1_0000_0000_0000_0000

  // ---------- One octet ----------

  function ByteOf(v: nat): Byte
    requires v < 256
  {
    v as Byte
  }

  function NatOf(b: Byte): nat {
    b as nat
  }

  lemma ByteOfNat(b: Byte)
    ensures NatOf(b) < 256 && ByteOf(NatOf(b)) == b
  {
  }

  lemma NextByte(b: Byte)
    requires b != 255
    ensures NatOf(b + 1) == NatOf(b) + 1
  {
  }

  lemma LastByte()
    ensures NatOf(255) == 255
  {
  }

  lemma {:induction false} NatOfByte(v: nat)
    requires v < 256
    ensures NatOf(ByteOf(v)) == v
  {
    if v > 0 {
      NatOfByte(v - 1);
      hide ByteOf, NatOf;
      var b := ByteOf(v - 1);
      LastByte();
      NextByte(b);
      ByteOfNat(b + 1);
    }
  }

  function Pow256(n: nat): (p: nat)
    ensures p > 0
  {
    if n == 0 then 1 else 256 * Pow256(n - 1)
  }

  lemma Pow256Values()
    ensures Pow256(4) == WORD_LIMIT && Pow256(8) == DOUBLE_LIMIT
  {
    assert Pow256(2) == 0x1_0000;
    assert Pow256(4) == 0x1_0000_0000;
    assert Pow256(6) == 0x1_0000_0000_0000;
  }

  // ---------- Most significant octet first ----------

  function BigEndian(v: nat, n: nat): (s: seq<Byte>)
    ensures |s| == n
  {
    if n == 0 then [] else BigEndian(v / 256, n - 1) + [ByteOf(v % 256)]
  }

  function Value(s: seq<Byte>): nat {
    if |s| == 0 then 0 else 256 * Value(s[..|s| - 1]) + NatOf(s[|s| - 1])
  }

  lemma {:induction false} ValueOfBigEndian(v: nat, n: nat)
    requires v < Pow256(n)
    ensures Value(BigEndian(v, n)) == v
  {
    hide ByteOf, NatOf;
    if n > 0 {
      var s := BigEndian(v, n);
      assert s[..n - 1] == BigEndian(v / 256, n - 1);
      ValueOfBigEndian(v / 256, n - 1);
      NatOfByte(v % 256);
    }
  }

  lemma {:induction false} BigEndianSplits(hi: nat, lo: nat, m: nat, n: nat)
    requires lo < Pow256(n)
    ensures BigEndian(hi * Pow256(n) + lo, m + n) == BigEndian(hi, m) + BigEndian(lo, n)
  {
    hide ByteOf;
    if n == 0 {
      assert BigEndian(hi, m) + [] == BigEndian(hi, m);
    } else {
      var v := hi * Pow256(n) + lo;
      assert hi * Pow256(n) == 256 * (hi * Pow256(n - 1));
      assert v / 256 == hi * Pow256(n - 1) + lo / 256;
      assert v % 256 == lo % 256;
      BigEndianSplits(hi, lo / 256, m, n - 1);
    }
  }

  lemma NestedShifts(v: nat)
    requires v < WORD_LIMIT
    ensures v / 256 / 256 == v / 0x1_0000
    ensures v / 256 / 256 / 256 == v / 0x100_0000 < 256
  {
  }

  /** The four stores that write one length word. */
  lemma BigEndianWord(v: nat)
    requires v < WORD_LIMIT
    ensures BigEndian(v, 4) == WordOctets(v)
  {
    hide ByteOf;
    var v1 := v / 256;
    var v2 := v1 / 256;
    var v3 := v2 / 256;
    NestedShifts(v);
    assert BigEndian(v3, 1) == [ByteOf(v3)];
    assert BigEndian(v2, 2) == [ByteOf(v3), ByteOf(v2 % 256)];
    assert BigEndian(v1, 3) == [ByteOf(v3), ByteOf(v2 % 256), ByteOf(v1 % 256)];
  }

  /** A word shifted right by 24, 16, 8 and 0 bits, each time cut to an octet. */
  function WordOctets(v: nat): (s: seq<Byte>)
    requires v < WORD_LIMIT
    ensures |s| == 4
  {
    [ByteOf(v / 0x100_0000 % 256), ByteOf(v / 0x1_0000 % 256), ByteOf(v / 0x100 % 256), ByteOf(v % 256)]
  }

  /** The eight stores that write the two length words. */
  lemma LengthField(high: nat, low: nat)
    requires high < WORD_LIMIT && low < WORD_LIMIT
    ensures BigEndian(high * WORD_LIMIT + low, 8) == WordOctets(high) + WordOctets(low)
  {
    hide WordOctets, BigEndian;
    Pow256Values();
    BigEndianSplits(high, low, 4, 4);
    BigEndianWord(high);
    BigEndianWord(low);
  }

  // ---------- Least significant octet first ----------

  /** The low n octets of v. */
  function LittleEndian(v: nat, n: nat): (s: seq<Byte>)
    ensures |s| == n
  {
    if n == 0 then [] else [ByteOf(v % 256)] + LittleEndian(v / 256, n - 1)
  }

  function LittleValue(s: seq<Byte>): nat {
    if |s| == 0 then 0 else NatOf(s[0]) + 256 * LittleValue(s[1..])
  }

  /** Stored and read back, a number of any width loses what does not fit and nothing else. */
  lemma {:induction false} StoredThenRead(v: nat, n: nat)
    ensures LittleValue(LittleEndian(v, n)) == v % Pow256(n)
  {
    hide ByteOf, NatOf;
    if n > 0 {
      NatOfByte(v % 256);
      StoredThenRead(v / 256, n - 1);
      assert LittleEndian(v, n)[1..] == LittleEndian(v / 256, n - 1);
      RemainderSplits(v, Pow256(n - 1));
    }
  }

  lemma RemainderSplits(v: nat, p: nat)
    requires p > 0
    ensures v % (256 * p) == v % 256 + 256 * (v / 256 % p)
  {
    var q, r := v / 256 / p, v / 256 % p;
    assert v / 256 == q * p + r;
    assert v == (256 * p) * q + (256 * r + v % 256) by {
      assert 256 * (q * p) == (256 * p) * q;
    }
    RemainderIs(v, 256 * p, q, 256 * r + v % 256);
  }

  lemma RemainderIs(v: nat, d: nat, q: nat, r: nat)
    requires 0 <= r < d && v == d * q + r
    ensures v % d == r
  {
    DivisionIsUnique(d, v / d, v % d, q, r);
  }

  lemma DivisionIsUnique(d: nat, q1: nat, r1: nat, q2: nat, r2: nat)
    requires r1 < d && r2 < d && d * q1 + r1 == d * q2 + r2
    ensures r1 == r2
  {
    assert d * (q1 - q2) == d * q1 - d * q2;
    if q1 > q2 {
      TimesPositive(d, q1 - q2);
    } else if q2 > q1 {
      assert d * (q2 - q1) == d * q2 - d * q1;
      TimesPositive(d, q2 - q1);
    }
  }

  lemma TimesPositive(d: nat, k: nat)
    requires k > 0
    ensures d * k >= d
  {
  }

  /** Read and stored again, every string of octets comes back. */
  lemma {:induction false} ReadThenStored(s: seq<Byte>)
    ensures LittleValue(s) < Pow256(|s|)
    ensures LittleEndian(LittleValue(s), |s|) == s
  {
    hide ByteOf, NatOf;
    if |s| > 0 {
      ByteOfNat(s[0]);
      ReadThenStored(s[1..]);
    }
  }

  lemma {:induction false} LittleEndianSplits(lo: nat, hi: nat, m: nat, n: nat)
    requires lo < Pow256(m)
    ensures LittleEndian(lo + hi * Pow256(m), m + n) == LittleEndian(lo, m) + LittleEndian(hi, n)
  {
    hide ByteOf;
    if m == 0 {
      assert [] + LittleEndian(hi, n) == LittleEndian(hi, n);
    } else {
      var v := lo + hi * Pow256(m);
      assert hi * Pow256(m) == 256 * (hi * Pow256(m - 1));
      assert v / 256 == lo / 256 + hi * Pow256(m - 1) && v % 256 == lo % 256;
      LittleEndianSplits(lo / 256, hi, m - 1, n);
      assert LittleEndian(v, m + n) == [ByteOf(lo % 256)] + (LittleEndian(lo / 256, m - 1) + LittleEndian(hi, n));
    }
  }
}
