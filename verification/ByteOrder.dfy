/** The readers and stores of integers low byte first, as instances of one codec of any width. */
module ByteOrder {
  import opened Words
  import opened Numbers

  const WORD24 := 0x100_0000
  const WORD16 := 0x1_0000

  // A conversion to uint32 or to a signed type of 2 * half values.
  function Uint32(x: nat): nat {
    x % WORD_LIMIT
  }

  function Signed(x: nat, half: int): (v: int)
    requires half > 0
    ensures -half <= v < half
  {
    var r := x % (2 * half);
    if r < half then r else r - 2 * half
  }

  /** The unsigned image a signed argument takes when it is passed to a store. */
  function Unsigned(v: int, limit: nat): nat
    requires limit > 0
  {
    v % limit
  }

  // ---------- Readers ----------

  function Uint2korr(a: seq<Byte>): nat
    requires |a| == 2
  {
    NatOf(a[0]) + NatOf(a[1]) * 0x100
  }

  function Uint3korr(a: seq<Byte>): nat
    requires |a| == 3
  {
    Uint32(NatOf(a[0]) + NatOf(a[1]) * 0x100 + NatOf(a[2]) * 0x1_0000)
  }

  function Uint4korr(a: seq<Byte>): nat
    requires |a| == 4
  {
    Uint32(NatOf(a[0]) + NatOf(a[1]) * 0x100 + NatOf(a[2]) * 0x1_0000 + NatOf(a[3]) * 0x100_0000)
  }

  function Uint5korr(a: seq<Byte>): nat
    requires |a| == 5
  {
    Uint4korr(a[..4]) + NatOf(a[4]) * 0x1_0000_0000
  }

  function Uint6korr(a: seq<Byte>): nat
    requires |a| == 6
  {
    Uint4korr(a[..4]) + NatOf(a[4]) * 0x1_0000_0000 + NatOf(a[5]) * 0x100_0000_0000
  }

  /** Two 32-bit halves, each reduced to 32 bits before they are joined. */
  function Uint8korr(a: seq<Byte>): nat
    requires |a| == 8
  {
    Uint4korr(a[..4]) + Uint4korr(a[4..]) * 0x1_0000_0000
  }

  function Sint2korr(a: seq<Byte>): int
    requires |a| == 2
  {
    Signed(Uint2korr(a), 0x8000)
  }

  /** The fields that the code joins occupy disjoint bits (see DisjointFields), so joining them
      is adding. */
  function Sint3korr(a: seq<Byte>): int
    requires |a| == 3
  {
    var low := NatOf(a[2]) * 0x1_0000 + NatOf(a[1]) * 0x100 + NatOf(a[0]);
    Signed(if a[2] & 128 != 0 then 255 * 0x100_0000 + low else low, 0x8000_0000)
  }

  lemma DisjointFields(b0: Byte, b1: Byte, b2: Byte, b3: Byte)
    ensures ((b3 as Word) << 24) | ((b2 as Word) << 16) | ((b1 as Word) << 8) | (b0 as Word) ==
            ((b3 as Word) << 24) + ((b2 as Word) << 16) + ((b1 as Word) << 8) + (b0 as Word)
  {
  }

  lemma TopBit(b: Byte)
    ensures b & 128 != 0 <==> NatOf(b) >= 128
  {
  }

  function Sint4korr(a: seq<Byte>): int
    requires |a| == 4
  {
    Signed(NatOf(a[0]) + NatOf(a[1]) * 0x100 + NatOf(a[2]) * 0x1_0000 + NatOf(a[3]) * 0x100_0000, 0x8000_0000)
  }

  function Sint8korr(a: seq<Byte>): int
    requires |a| == 8
  {
    Signed(Uint8korr(a), 0x8000_0000_0000_0000)
  }

  lemma FirstOctets(a: seq<Byte>)
    ensures |a| == 1 ==> LittleValue(a) == NatOf(a[0])
    ensures |a| == 2 ==> LittleValue(a) == NatOf(a[0]) + 256 * NatOf(a[1])
  {
    hide NatOf;
    if |a| == 2 {
      assert LittleValue(a[1..]) == NatOf(a[1]);
    }
  }

  lemma TimesGroups(x: nat, y: nat, z: nat)
    ensures x * (y * z) == (x * y) * z
  {
  }

  lemma {:induction false} LittleValueJoins(a: seq<Byte>, b: seq<Byte>)
    ensures LittleValue(a + b) == LittleValue(a) + Pow256(|a|) * LittleValue(b)
  {
    hide NatOf;
    if |a| == 0 {
      assert a + b == b;
    } else {
      assert (a + b)[1..] == a[1..] + b;
      LittleValueJoins(a[1..], b);
      TimesGroups(256, Pow256(|a| - 1), LittleValue(b));
    }
  }

  lemma ThreeOrFourOctets(a: seq<Byte>)
    requires |a| == 3 || |a| == 4
    ensures LittleValue(a) == NatOf(a[0]) + NatOf(a[1]) * 0x100 + NatOf(a[2]) * 0x1_0000 + (if |a| == 4 then NatOf(a[3]) * 0x100_0000 else 0)
    ensures forall i :: 0 <= i < |a| ==> NatOf(a[i]) < 256
  {
    hide NatOf;
    FirstOctets(a[..2]);
    FirstOctets(a[2..]);
    LittleValueJoins(a[..2], a[2..]);
    assert a == a[..2] + a[2..] && Pow256(2) == 0x1_0000;
    forall i | 0 <= i < |a|
      ensures NatOf(a[i]) < 256
    {
      ByteOfNat(a[i]);
    }
  }

  // Every unsigned reader is the codec at its own width.

  lemma Uint2IsTheCodec(a: seq<Byte>)
    requires |a| == 2
    ensures Uint2korr(a) == LittleValue(a)
  {
    hide NatOf, LittleValue;
    FirstOctets(a);
  }

  lemma Uint3IsTheCodec(a: seq<Byte>)
    requires |a| == 3
    ensures Uint3korr(a) == LittleValue(a)
  {
    hide NatOf, LittleValue;
    ThreeOrFourOctets(a);
  }

  lemma Uint4IsTheCodec(a: seq<Byte>)
    requires |a| == 4
    ensures Uint4korr(a) == LittleValue(a)
  {
    hide NatOf, LittleValue;
    ThreeOrFourOctets(a);
  }

  /** The wider readers join one of four octets and one of the rest. */
  lemma FourAndTheRest(a: seq<Byte>)
    requires |a| >= 4
    ensures LittleValue(a) == Uint4korr(a[..4]) + WORD_LIMIT * LittleValue(a[4..])
  {
    hide LittleValue, Uint4korr;
    assert a == a[..4] + a[4..];
    LittleValueJoins(a[..4], a[4..]);
    Uint4IsTheCodec(a[..4]);
    Pow256Values();
  }

  lemma Uint5IsTheCodec(a: seq<Byte>)
    requires |a| == 5
    ensures Uint5korr(a) == LittleValue(a)
  {
    hide NatOf, LittleValue, Uint4korr;
    FourAndTheRest(a);
    FirstOctets(a[4..]);
  }

  lemma Uint6IsTheCodec(a: seq<Byte>)
    requires |a| == 6
    ensures Uint6korr(a) == LittleValue(a)
  {
    hide NatOf, LittleValue, Uint4korr;
    FourAndTheRest(a);
    FirstOctets(a[4..]);
  }

  lemma Uint8IsTheCodec(a: seq<Byte>)
    requires |a| == 8
    ensures Uint8korr(a) == LittleValue(a)
  {
    hide LittleValue, Uint4korr;
    FourAndTheRest(a);
    Uint4IsTheCodec(a[4..]);
  }

  // ---------- Stores ----------

  /** One cast to an octet. */
  function Low(x: nat): Byte {
    ByteOf(x % 256)
  }

  method Int2store(t: array<Byte>, at: nat, a: nat)
    requires at + 2 <= t.Length
    modifies t
    ensures t[..] == old(t[..at]) + LittleEndian(a, 2) + old(t[at + 2..])
  {
    hide ByteOf;
    t[at] := Low(a);
    t[at + 1] := Low(a / 0x100);
    assert LittleEndian(a / 256, 1) == [Low(a / 256)];
  }

  method Int3store(t: array<Byte>, at: nat, a: nat)
    requires at + 3 <= t.Length
    modifies t
    ensures t[..] == old(t[..at]) + LittleEndian(a, 3) + old(t[at + 3..])
  {
    hide Low, LittleEndian;
    t[at] := Low(a);
    t[at + 1] := Low(a / 0x100);
    t[at + 2] := Low(a / 0x1_0000);
    LowOctets(a, 3);
  }

  method Int4store(t: array<Byte>, at: nat, a: nat)
    requires at + 4 <= t.Length
    modifies t
    ensures t[..] == old(t[..at]) + LittleEndian(a, 4) + old(t[at + 4..])
  {
    hide Low, LittleEndian;
    t[at] := Low(a);
    t[at + 1] := Low(a / 0x100);
    t[at + 2] := Low(a / 0x1_0000);
    t[at + 3] := Low(a / 0x100_0000);
    LowOctets(a, 4);
  }

  method Int5store(t: array<Byte>, at: nat, a: nat)
    requires at + 5 <= t.Length
    modifies t
    ensures t[..] == old(t[..at]) + LittleEndian(a, 5) + old(t[at + 5..])
  {
    hide Low, LittleEndian;
    t[at] := Low(a);
    t[at + 1] := Low(a / 0x100);
    t[at + 2] := Low(a / 0x1_0000);
    t[at + 3] := Low(a / 0x100_0000);
    t[at + 4] := Low(a / 0x1_0000_0000);
    LowOctets(a, 5);
  }

  method Int6store(t: array<Byte>, at: nat, a: nat)
    requires at + 6 <= t.Length
    modifies t
    ensures t[..] == old(t[..at]) + LittleEndian(a, 6) + old(t[at + 6..])
  {
    hide Low, LittleEndian;
    t[at] := Low(a);
    t[at + 1] := Low(a / 0x100);
    t[at + 2] := Low(a / 0x1_0000);
    t[at + 3] := Low(a / 0x100_0000);
    t[at + 4] := Low(a / 0x1_0000_0000);
    t[at + 5] := Low(a / 0x100_0000_0000);
    LowOctets(a, 6);
  }

  /** Two stores of four octets, of the low and of the high half. */
  method Int8store(t: array<Byte>, at: nat, a: nat)
    requires at + 8 <= t.Length && a < DOUBLE_LIMIT
    modifies t
    ensures t[..] == old(t[..at]) + LittleEndian(a, 8) + old(t[at + 8..])
  {
    hide LittleEndian;
    Int4store(t, at, a % WORD_LIMIT);
    Int4store(t, at + 4, a / WORD_LIMIT);
    Pow256Values();
    LittleEndianSplits(a % WORD_LIMIT, a / WORD_LIMIT, 4, 4);
  }

  function Shifted(a: nat, k: nat): nat
    requires k < 6
  {
    if k == 0 then a else if k == 1 then a / 0x100 else if k == 2 then a / 0x1_0000
    else if k == 3 then a / 0x100_0000 else if k == 4 then a / 0x1_0000_0000 else a / 0x100_0000_0000
  }

  lemma ShiftedOnce(a: nat, k: nat)
    requires 0 < k < 6
    ensures Shifted(a, k) == Shifted(a / 256, k - 1)
  {
  }

  /** The octets a store writes are those of the codec. */
  lemma {:induction false} LowOctets(a: nat, n: nat)
    requires n <= 6
    ensures forall k :: 0 <= k < n ==> LittleEndian(a, n)[k] == Low(Shifted(a, k))
  {
    hide Shifted, ByteOf;
    if n > 0 {
      LowOctets(a / 256, n - 1);
      NotShifted(a);
      forall k | 0 < k < n
        ensures LittleEndian(a, n)[k] == Low(Shifted(a, k))
      {
        ShiftedOnce(a, k);
        assert LittleEndian(a, n)[k] == LittleEndian(a / 256, n - 1)[k - 1];
      }
    }
  }

  lemma NotShifted(a: nat)
    ensures Shifted(a, 0) == a
  {
  }

  // ---------- Round trips ----------

  /** What sint3korr makes of the three octets of a 24-bit number. */
  lemma SignExtended(a: seq<Byte>)
    requires |a| == 3
    ensures
      var low := LittleValue(a);
      low < WORD24 && Sint3korr(a) == if low < 0x80_0000 then low else low - WORD24
  {
    hide NatOf, LittleValue;
    TopBit(a[2]);
    ThreeOrFourOctets(a);
  }

  /** sint3korr gives back exactly the 24-bit signed numbers that int3store was given. */
  lemma Sint3RoundTrip(v: int)
    requires -0x8000_0000 <= v < 0x8000_0000
    ensures Sint3korr(LittleEndian(Unsigned(v, WORD_LIMIT), 3)) == v <==> -0x80_0000 <= v < 0x80_0000
  {
    hide Sint3korr, LittleEndian, LittleValue;
    var u := Unsigned(v, WORD_LIMIT);
    assert Pow256(1) == 256 && Pow256(3) == WORD24;
    StoredThenRead(u, 3);
    SignExtended(LittleEndian(u, 3));
  }

  lemma Sint2RoundTrip(v: int)
    requires -0x8000 <= v < 0x8000
    ensures Sint2korr(LittleEndian(Unsigned(v, WORD16), 2)) == v
  {
    hide Uint2korr, LittleEndian, LittleValue;
    var u := Unsigned(v, WORD16);
    assert Pow256(2) == WORD16;
    StoredThenRead(u, 2);
    Uint2IsTheCodec(LittleEndian(u, 2));
  }

  lemma Sint4IsSigned(a: seq<Byte>)
    requires |a| == 4
    ensures Sint4korr(a) == Signed(LittleValue(a), 0x8000_0000)
  {
    hide NatOf, LittleValue, Signed;
    ThreeOrFourOctets(a);
  }

  lemma Sint4RoundTrip(v: int)
    requires -0x8000_0000 <= v < 0x8000_0000
    ensures Sint4korr(LittleEndian(Unsigned(v, WORD_LIMIT), 4)) == v
  {
    hide Sint4korr, LittleEndian, LittleValue;
    var u := Unsigned(v, WORD_LIMIT);
    Pow256Values();
    StoredThenRead(u, 4);
    Sint4IsSigned(LittleEndian(u, 4));
  }

  lemma Sint8RoundTrip(v: int)
    requires -0x8000_0000_0000_0000 <= v < 0x8000_0000_0000_0000
    ensures Sint8korr(LittleEndian(Unsigned(v, DOUBLE_LIMIT), 8)) == v
  {
    hide Uint8korr, LittleEndian, LittleValue;
    var u := Unsigned(v, DOUBLE_LIMIT);
    Pow256Values();
    StoredThenRead(u, 8);
    Uint8IsTheCodec(LittleEndian(u, 8));
  }

  // The other way round: what a signed reader read, stored again, is the same octets.

  lemma Sint2Restored(a: seq<Byte>)
    requires |a| == 2
    ensures LittleEndian(Unsigned(Sint2korr(a), WORD16), 2) == a
  {
    hide Uint2korr, LittleEndian, LittleValue;
    Uint2IsTheCodec(a);
    ReadThenStored(a);
    assert Pow256(2) == WORD16;
  }

  /** int3store keeps the low 24 bits alone, so the sign extension is lost again. */
  lemma Sint3Restored(a: seq<Byte>)
    requires |a| == 3
    ensures LittleEndian(Unsigned(Sint3korr(a), WORD_LIMIT), 3) == a
  {
    hide Sint3korr, LittleEndian, LittleValue;
    var u := Unsigned(Sint3korr(a), WORD_LIMIT);
    SignExtended(a);
    assert Pow256(1) == 256 && Pow256(3) == WORD24;
    assert u % WORD24 == LittleValue(a);
    StoredThenRead(u, 3);
    SameValueSameOctets(LittleEndian(u, 3), a);
  }

  lemma SameValueSameOctets(a: seq<Byte>, b: seq<Byte>)
    requires |a| == |b| && LittleValue(a) == LittleValue(b)
    ensures a == b
  {
    hide LittleEndian, LittleValue;
    ReadThenStored(a);
    ReadThenStored(b);
  }

  lemma Sint4Restored(a: seq<Byte>)
    requires |a| == 4
    ensures LittleEndian(Unsigned(Sint4korr(a), WORD_LIMIT), 4) == a
  {
    hide Sint4korr, LittleEndian, LittleValue;
    Sint4IsSigned(a);
    ReadThenStored(a);
    Pow256Values();
  }

  lemma Sint8Restored(a: seq<Byte>)
    requires |a| == 8
    ensures LittleEndian(Unsigned(Sint8korr(a), DOUBLE_LIMIT), 8) == a
  {
    hide Uint8korr, LittleEndian, LittleValue;
    Uint8IsTheCodec(a);
    ReadThenStored(a);
    Pow256Values();
  }

  /** Each unsigned reader gives back exactly the numbers that fit the store of its width. */
  lemma UnsignedRoundTrips(v: nat)
    ensures Uint2korr(LittleEndian(v, 2)) == v <==> v < 0x1_0000
    ensures Uint3korr(LittleEndian(v, 3)) == v <==> v < 0x100_0000
    ensures Uint4korr(LittleEndian(v, 4)) == v <==> v < 0x1_0000_0000
    ensures Uint5korr(LittleEndian(v, 5)) == v <==> v < 0x100_0000_0000
    ensures Uint6korr(LittleEndian(v, 6)) == v <==> v < 0x1_0000_0000_0000
    ensures Uint8korr(LittleEndian(v, 8)) == v <==> v < 0x1_0000_0000_0000_0000
  {
    hide Uint2korr, Uint3korr, Uint4korr, Uint5korr, Uint6korr, Uint8korr, LittleEndian, LittleValue;
    OctetLimits();
    KeptIfItFits(v, 2);
    KeptIfItFits(v, 3);
    KeptIfItFits(v, 4);
    KeptIfItFits(v, 5);
    KeptIfItFits(v, 6);
    KeptIfItFits(v, 8);
    Uint2IsTheCodec(LittleEndian(v, 2));
    Uint3IsTheCodec(LittleEndian(v, 3));
    Uint4IsTheCodec(LittleEndian(v, 4));
    Uint5IsTheCodec(LittleEndian(v, 5));
    Uint6IsTheCodec(LittleEndian(v, 6));
    Uint8IsTheCodec(LittleEndian(v, 8));
  }

  lemma OctetLimits()
    ensures Pow256(2) == 0x1_0000 && Pow256(3) == 0x100_0000 && Pow256(4) == 0x1_0000_0000
    ensures Pow256(5) == 0x100_0000_0000 && Pow256(6) == 0x1_0000_0000_0000 && Pow256(8) == 0x1_0000_0000_0000_0000
  {
    Pow256Values();
    assert Pow256(2) == 0x1_0000;
    assert Pow256(3) == 0x100_0000;
    assert Pow256(5) == 0x100_0000_0000;
    assert Pow256(6) == 0x1_0000_0000_0000;
  }

  lemma KeptIfItFits(v: nat, n: nat)
    ensures LittleValue(LittleEndian(v, n)) == v <==> v < Pow256(n)
  {
    hide LittleEndian, LittleValue;
    StoredThenRead(v, n);
    if v < Pow256(n) {
      RemainderIs(v, Pow256(n), 0, v);
    }
  }
}
