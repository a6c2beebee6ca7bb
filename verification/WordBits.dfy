/** The bits of machine words and octets, and what each word operation of the program does to them. */
module WordBits {
  import opened Words
  import opened Numbers
  import opened Compression
  import Standard

  const TOP: Word := 0x8000_0000

  // The operators of the machine, by names that a proof can hide.
  function AndOf(x: Word, y: Word): Word {
    x & y
  }

  function OrOf(x: Word, y: Word): Word {
    x | y
  }

  function NotOf(x: Word): Word {
    !x
  }

  function XorOf(x: Word, y: Word): Word {
    x ^ y
  }

  function Double(w: Word): Word {
    w << 1
  }

  function Half(w: Word): Word {
    w >> 1
  }

  function Turn(w: Word): Word {
    w.RotateLeft(1)
  }

  function Next(w: Word): Word {
    w + 1
  }

  // ---------- Single bits ----------

  /** The word with bit i alone set, bit 0 being the least significant one. */
  function Mask(i: nat): Word {
    if i == 0 then 1 else Double(Mask(i - 1))
  }

  /** What a mask shows of a word. */
  function Part(w: Word, m: Word): Word {
    w & m
  }

  predicate Bit(w: Word, i: nat) {
    Part(w, Mask(i)) != 0
  }

  /** A word as a string of bits, most significant bit first. */
  function BitsOf(w: Word): Standard.BitWord {
    seq(32, j requires 0 <= j < 32 => Bit(w, 31 - j))
  }

  lemma NextMask(i: nat)
    ensures Mask(0) == 1 && Mask(i + 1) == Double(Mask(i))
  {
  }

  lemma LastMask()
    ensures Mask(31) == TOP
  {
    assert Mask(8) == 0x100;
    assert Mask(16) == 0x1_0000;
    assert Mask(24) == 0x100_0000;
  }

  lemma {:induction false} MaskIsNotZero(i: nat)
    requires i < 32
    ensures Mask(i) != 0 && (i < 31 ==> Mask(i) != TOP)
    decreases 31 - i
  {
    hide Double;
    if i < 31 {
      MaskIsNotZero(i + 1);
      DoubledAway();
    } else {
      LastMask();
    }
  }

  lemma DoubledAway()
    ensures Double(0) == 0 && Double(TOP) == 0
  {
  }

  /** A mask shows all of itself or nothing. */
  lemma {:induction false} AllOrNothing(w: Word, i: nat)
    ensures Part(w, Mask(i)) == 0 || Part(w, Mask(i)) == Mask(i)
    decreases i
  {
    hide Double, Half, Part;
    if i == 0 {
      LastPart(w);
    } else {
      AllOrNothing(Half(w), i - 1);
      DoubledPart(w, Mask(i - 1));
      DoubledAway();
    }
  }

  lemma LastPart(w: Word)
    ensures Part(w, 1) == 0 || Part(w, 1) == 1
  {
  }

  lemma DoubledPart(w: Word, m: Word)
    ensures Part(w, Double(m)) == Double(Part(Half(w), m))
  {
  }

  lemma PartsCommute(w: Word, m: Word)
    ensures Part(w, m) == Part(m, w)
  {
  }

  lemma MaskIsBelowTop(i: nat)
    requires i < 31
    ensures Part(Mask(i), TOP) == 0
  {
    hide Mask, Part;
    LastMask();
    MaskIsNotZero(i);
    AllOrNothing(TOP, i);
    AllOrNothing(Mask(i), 31);
    PartsCommute(TOP, Mask(i));
  }

  // ---------- Bitwise operations ----------

  lemma PartOfAnd(x: Word, y: Word, m: Word)
    ensures Part(AndOf(x, y), m) == AndOf(x, Part(y, m))
    ensures AndOf(x, m) == Part(x, m) && AndOf(x, 0) == 0
  {
  }

  lemma PartOfOr(x: Word, y: Word, m: Word)
    ensures Part(OrOf(x, y), m) == OrOf(Part(x, m), Part(y, m))
  {
    calc {
      Part(OrOf(x, y), m);
      (x | y) & m;
      (x & m) | (y & m);
      OrOf(Part(x, m), Part(y, m));
    }
  }

  lemma PartOfXor(x: Word, y: Word, m: Word)
    ensures Part(XorOf(x, y), m) == XorOf(Part(x, m), Part(y, m))
  {
    calc {
      Part(XorOf(x, y), m);
      (x ^ y) & m;
      (x & m) ^ (y & m);
      XorOf(Part(x, m), Part(y, m));
    }
  }

  lemma PartOfNot(x: Word, m: Word)
    ensures Part(NotOf(x), m) == XorOf(Part(x, m), m)
  {
    calc {
      Part(NotOf(x), m);
      (!x) & m;
      (x & m) ^ m;
      XorOf(Part(x, m), m);
    }
  }

  /** The operations on all of a mask and on nothing. */
  lemma BitwiseOnMask(m: Word)
    ensures OrOf(m, m) == OrOf(m, 0) == OrOf(0, m) == m && OrOf(0, 0) == 0
    ensures XorOf(m, 0) == XorOf(0, m) == m && XorOf(m, m) == XorOf(0, 0) == 0
  {
  }

  lemma BitwiseAt(x: Word, y: Word, i: nat)
    requires i < 32
    ensures Bit(AndOf(x, y), i) == (Bit(x, i) && Bit(y, i))
    ensures Bit(OrOf(x, y), i) == (Bit(x, i) || Bit(y, i))
    ensures Bit(XorOf(x, y), i) == (Bit(x, i) != Bit(y, i))
    ensures Bit(NotOf(x), i) == !Bit(x, i)
  {
    hide Mask, Part, AndOf, OrOf, NotOf, XorOf;
    MaskIsNotZero(i);
    AllOrNothing(x, i);
    AllOrNothing(y, i);
    PartOfAnd(x, y, Mask(i));
    PartOfOr(x, y, Mask(i));
    PartOfXor(x, y, Mask(i));
    PartOfNot(x, Mask(i));
    BitwiseOnMask(Mask(i));
  }

  /** The bitwise operations of the machine are those of the standard. */
  lemma BitsOfBitwise(x: Word, y: Word)
    ensures BitsOf(AndOf(x, y)) == Standard.And(BitsOf(x), BitsOf(y))
    ensures BitsOf(OrOf(x, y)) == Standard.Or(BitsOf(x), BitsOf(y))
    ensures BitsOf(NotOf(x)) == Standard.Not(BitsOf(x))
    ensures BitsOf(XorOf(x, y)) == Standard.ExclusiveOr(BitsOf(x), BitsOf(y))
  {
    hide Bit, AndOf, OrOf, NotOf, XorOf;
    forall j | 0 <= j < 32
      ensures BitsOf(AndOf(x, y))[j] == Standard.And(BitsOf(x), BitsOf(y))[j]
      ensures BitsOf(OrOf(x, y))[j] == Standard.Or(BitsOf(x), BitsOf(y))[j]
      ensures BitsOf(NotOf(x))[j] == Standard.Not(BitsOf(x))[j]
      ensures BitsOf(XorOf(x, y))[j] == Standard.ExclusiveOr(BitsOf(x), BitsOf(y))[j]
    {
      BitwiseAt(x, y, 31 - j);
    }
  }

  // ---------- Rotations ----------

  lemma MaskTurns(i: nat)
    requires i < 32
    ensures Mask((i + 1) % 32) == Turn(Mask(i))
  {
    hide Mask, Turn, Double, Part;
    NextMask(i);
    if i < 31 {
      MaskIsBelowTop(i);
      DoublingTurns(Mask(i));
    } else {
      LastMask();
      TopTurns();
    }
  }

  lemma DoublingTurns(m: Word)
    requires Part(m, TOP) == 0
    ensures Double(m) == Turn(m)
  {
  }

  lemma TopTurns()
    ensures Turn(TOP) == 1
  {
  }

  lemma TurnedPart(w: Word, m: Word)
    ensures Part(Turn(w), Turn(m)) == Turn(Part(w, m))
    ensures Turn(w) == 0 <==> w == 0
  {
  }

  lemma TurnedAt(w: Word, i: nat)
    requires i < 32
    ensures Bit(Turn(w), (i + 1) % 32) == Bit(w, i)
  {
    hide Turn, Mask, Part;
    MaskTurns(i);
    TurnedPart(w, Mask(i));
    TurnedPart(Part(w, Mask(i)), 0);
  }

  lemma BitsOfTurn(w: Word)
    ensures BitsOf(Turn(w)) == Standard.Shift(1, BitsOf(w))
  {
    hide Bit, Turn;
    forall j | 0 <= j < 32
      ensures BitsOf(Turn(w))[j] == Standard.Shift(1, BitsOf(w))[j]
    {
      TurnedAt(w, (30 - j) % 32);
    }
  }

  lemma ShiftMore(n: nat, x: Standard.BitWord)
    requires n < 31
    ensures Standard.Shift(1, Standard.Shift(n, x)) == Standard.Shift(n + 1, x)
  {
    assert x[n..][..1] == [x[n]] && x[n..][1..] == x[n + 1..];
    assert x[..n] + [x[n]] == x[..n + 1];
  }

  lemma ShiftAround(x: Standard.BitWord)
    ensures Standard.Shift(30, Standard.Shift(2, x)) == x
  {
  }

  lemma TwoTurns(w: Word)
    ensures RotateLeft(1, w) == Turn(w)
    ensures Turn(Turn(w)) == w.RotateLeft(2)
  {
    calc {
      Turn(Turn(w));
      w.RotateLeft(1).RotateLeft(1);
      w.RotateLeft(2);
    }
  }

  lemma FiveTurns(w: Word)
    ensures RotateLeft(5, w) == Turn(Turn(Turn(Turn(Turn(w)))))
  {
    var w4 := Turn(Turn(Turn(Turn(w))));
    TwoTurns(w);
    TwoTurns(Turn(Turn(w)));
    calc {
      Turn(w4);
      w4.RotateLeft(1);
      w.RotateLeft(2).RotateLeft(2).RotateLeft(1);
      w.RotateLeft(5);
    }
  }

  lemma TurnsLeft(w: Word)
    ensures Turn(Turn(RotateLeft(30, w))) == w
  {
    TwoTurns(RotateLeft(30, w));
    assert w.RotateLeft(30).RotateLeft(2) == w;
  }

  /** The rotations of the program are those of the standard. */
  lemma BitsOfRotated(w: Word)
    ensures BitsOf(RotateLeft(1, w)) == Standard.Shift(1, BitsOf(w))
    ensures BitsOf(RotateLeft(5, w)) == Standard.Shift(5, BitsOf(w))
    ensures BitsOf(RotateLeft(30, w)) == Standard.Shift(30, BitsOf(w))
  {
    hide BitsOf, Turn, RotateLeft, Standard.Shift;
    TwoTurns(w);
    FiveTurns(w);
    TurnsLeft(w);
    var w2 := Turn(Turn(w));
    var w4 := Turn(Turn(w2));
    BitsOfTurn(w);
    BitsOfTurn(Turn(w));
    BitsOfTurn(w2);
    BitsOfTurn(Turn(w2));
    BitsOfTurn(w4);
    ShiftMore(1, BitsOf(w));
    ShiftMore(2, BitsOf(w));
    ShiftMore(3, BitsOf(w));
    ShiftMore(4, BitsOf(w));
    var r := RotateLeft(30, w);
    BitsOfTurn(r);
    BitsOfTurn(Turn(r));
    ShiftMore(1, BitsOf(r));
    ShiftAround(BitsOf(r));
  }

  // ---------- Addition ----------

  // ---------- Words as numbers ----------

  /** The number in the last k bits of a word. */
  function Low(w: Word, k: nat): nat
    requires k <= 32
  {
    Standard.Number(BitsOf(w)[32 - k..])
  }

  lemma OneBitNumber(b: bool)
    ensures Standard.Number([b]) == if b then 1 else 0
  {
    assert [b][..0] == [];
  }

  lemma LowStep(w: Word, k: nat)
    requires k < 32
    ensures Low(w, k + 1) == (if Bit(w, k) then Standard.Power(k) else 0) + Low(w, k)
  {
    hide Bit;
    var s := BitsOf(w);
    assert s[31 - k..] == [s[31 - k]] + s[32 - k..];
    Standard.NumberOfBoth([s[31 - k]], s[32 - k..]);
    OneBitNumber(s[31 - k]);
  }

  lemma LowOfNone(w: Word)
    ensures Low(w, 0) == 0
  {
    hide Bit;
  }

  /** The number a word stands for. */
  function WordValue(w: Word): (v: nat)
    ensures v < WORD_LIMIT
  {
    hide Bit;
    Standard.BitStringOfNumber(BitsOf(w));
    Standard.PowerValues();
    Standard.Number(BitsOf(w))
  }

  lemma AllBits(w: Word)
    ensures Low(w, 32) == WordValue(w) == Standard.Number(BitsOf(w))
  {
    hide Bit;
    assert BitsOf(w)[0..] == BitsOf(w);
  }

  // ---------- Counting ----------

  /** The bits that counting one further changes. */
  function Flips(w: Word): Word {
    XorOf(w, Next(w))
  }

  /** A word moved up by one place, with a 1 in the last. */
  function Odd(w: Word): Word {
    Double(w) | 1
  }

  lemma FlipsMoveUp(w: Word)
    ensures Flips(w) == Odd(AndOf(w, Flips(w)))
  {
    hide Flips, Odd, AndOf;
    FlipsAre(w);
    FlipIdentity(w);
    OddIs(w, w ^ (w + 1));
  }

  lemma FlipsAre(w: Word)
    ensures Flips(w) == w ^ (w + 1)
  {
  }

  lemma OddIs(w: Word, c: Word)
    ensures Odd(AndOf(w, c)) == ((w & c) << 1) | 1
  {
  }

  lemma FlipIdentity(w: Word)
    ensures w ^ (w + 1) == ((w & (w ^ (w + 1))) << 1) | 1
  {
  }

  lemma PartOfOdd(w: Word, m: Word)
    ensures Part(Odd(w), 1) == 1 && Part(Odd(w), Double(m)) == Double(Part(w, m))
  {
  }

  lemma BitOfOdd(w: Word, k: nat)
    requires k < 32
    ensures Bit(Odd(w), k) == (k > 0 ==> Bit(w, k - 1))
  {
    hide Part, Odd, Double;
    if k == 0 {
      PartOfOdd(w, 0);
    } else {
      PartOfOdd(w, Mask(k - 1));
      AllOrNothing(w, k - 1);
      MaskIsNotZero(k - 1);
      MaskIsNotZero(k);
      DoubledAway();
    }
  }

  /** The carry that reaches place k when one is added to a word. */
  predicate CarryInto(w: Word, k: nat)
    requires k <= 32
  {
    k > 0 ==> Bit(w, k - 1) && Bit(Flips(w), k - 1)
  }

  lemma DigitOfNext(w: Word, k: nat)
    requires k < 32
    ensures Bit(Flips(w), k) == CarryInto(w, k)
    ensures Bit(Next(w), k) == (Bit(w, k) != CarryInto(w, k))
  {
    hide Bit, Odd, AndOf, XorOf, Next;
    FlipsMoveUp(w);
    BitOfOdd(AndOf(w, Flips(w)), k);
    BitwiseAt(w, Next(w), k);
    if k > 0 {
      BitwiseAt(w, Flips(w), k - 1);
    }
  }

  lemma {:induction false} LowOfNext(w: Word, k: nat)
    requires k <= 32
    ensures Low(w, k) + 1 == Low(Next(w), k) + (if CarryInto(w, k) then Standard.Power(k) else 0)
  {
    hide Bit, Low, Next, Flips;
    if k == 0 {
      LowOfNone(w);
      LowOfNone(Next(w));
    } else {
      LowOfNext(w, k - 1);
      DigitOfNext(w, k - 1);
      LowStep(w, k - 1);
      LowStep(Next(w), k - 1);
    }
  }

  /** Counting one further on words is counting modulo 2^32. */
  lemma NextCounts(w: Word)
    ensures WordValue(Next(w)) == (WordValue(w) + 1) % WORD_LIMIT
  {
    hide Bit, Next, WordValue, Low, CarryInto;
    LowOfNext(w, 32);
    Standard.PowerValues();
    AllBits(w);
    AllBits(Next(w));
  }

  // ---------- Addition ----------

  lemma PlusByCounting(x: Word, y: Word)
    ensures Plus(x, 0) == x && Plus(x, y) == Next(Plus(x, y - 1))
  {
  }

  lemma Before(y: Word)
    requires y != 0
    ensures y - 1 < y && Next(y - 1) == y
  {
  }

  /** Addition of words is addition of the numbers they stand for, modulo 2^32. */
  lemma {:induction false} PlusAdds(x: Word, y: Word)
    ensures WordValue(Plus(x, y)) == (WordValue(x) + WordValue(y)) % WORD_LIMIT
    decreases y
  {
    hide Plus, Next, WordValue;
    if y == 0 {
      PlusByCounting(x, 0);
      ValueOfZero();
    } else {
      var z := y - 1;
      Before(y);
      PlusAdds(x, z);
      PlusByCounting(x, y);
      NextCounts(z);
      NextCounts(Plus(x, z));
      CountedSum(WordValue(x), WordValue(z));
    }
  }

  lemma CountedSum(a: nat, b: nat)
    ensures ((a + b) % WORD_LIMIT + 1) % WORD_LIMIT == (a + (b + 1) % WORD_LIMIT) % WORD_LIMIT
  {
  }

  lemma {:induction false} LowOfZero(k: nat)
    requires k <= 32
    ensures Low(0, k) == 0
  {
    hide Low, Bit;
    if k == 0 {
      LowOfNone(0);
    } else {
      LowOfZero(k - 1);
      LowStep(0, k - 1);
      ZeroHasNoBits(k - 1);
    }
  }

  lemma ZeroHasNoBits(i: nat)
    ensures !Bit(0, i)
  {
    hide Mask;
    ZeroPart(Mask(i));
  }

  lemma ZeroPart(m: Word)
    ensures Part(0, m) == 0
  {
  }

  lemma ValueOfZero()
    ensures WordValue(0) == 0
  {
    hide Low, WordValue;
    LowOfZero(32);
    AllBits(0);
  }

  lemma BitsOfPlus(x: Word, y: Word)
    ensures BitsOf(Plus(x, y)) == Standard.Add(BitsOf(x), BitsOf(y))
  {
    hide Plus, BitsOf, Standard.Number, Standard.BitString;
    PlusAdds(x, y);
    Standard.BitStringOfNumber(BitsOf(Plus(x, y)));
  }

  // ---------- Octets ----------

  function Wide(b: Byte): Word {
    b as Word
  }

  /** An octet as a string of bits, most significant bit first. */
  function BitsOfOctet(b: Byte): (s: Standard.Bits)
    ensures |s| == 8
  {
    seq(8, j requires 0 <= j < 8 => Bit(Wide(b), 7 - j))
  }

  /** A word moved up by one octet. */
  function UpEight(w: Word): Word {
    w << 8
  }

  lemma UpEightDoubled(m: Word)
    ensures Double(UpEight(m)) == UpEight(Double(m)) && UpEight(1) == 0x100
  {
  }

  lemma {:induction false} MaskEightUp(i: nat)
    ensures Mask(i + 8) == UpEight(Mask(i))
  {
    hide Double, UpEight;
    if i == 0 {
      EighthMask();
      UpEightDoubled(1);
    } else {
      MaskEightUp(i - 1);
      UpEightDoubled(Mask(i - 1));
    }
  }

  lemma EighthMask()
    ensures Mask(7) == 0x80 && Mask(8) == 0x100
  {
  }

  lemma {:induction false} SmallMask(i: nat)
    requires i < 8
    ensures Mask(i) <= 0x80
    decreases 7 - i
  {
    hide Double, Part;
    if i < 7 {
      SmallMask(i + 1);
      MaskIsBelowTop(i);
      HalfOfSmall(Mask(i));
    } else {
      EighthMask();
    }
  }

  lemma HalfOfSmall(m: Word)
    requires Part(m, TOP) == 0 && Double(m) <= 0x80
    ensures m <= 0x80
  {
  }

  lemma LastOctetPart(b0: Byte, b1: Byte, b2: Byte, b3: Byte, m: Word)
    requires m <= 0x80
    ensures Part(LoadWord(b0, b1, b2, b3), m) == Part(Wide(b3), m)
  {
  }

  lemma ThirdOctetPart(b0: Byte, b1: Byte, b2: Byte, b3: Byte, m: Word)
    requires m <= 0x80
    ensures Part(LoadWord(b0, b1, b2, b3), UpEight(m)) == UpEight(Part(Wide(b2), m))
  {
  }

  lemma SecondOctetPart(b0: Byte, b1: Byte, b2: Byte, b3: Byte, m: Word)
    requires m <= 0x80
    ensures Part(LoadWord(b0, b1, b2, b3), UpEight(UpEight(m))) == UpEight(UpEight(Part(Wide(b1), m)))
  {
  }

  lemma FirstOctetPart(b0: Byte, b1: Byte, b2: Byte, b3: Byte, m: Word)
    requires m <= 0x80
    ensures Part(LoadWord(b0, b1, b2, b3), UpEight(UpEight(UpEight(m)))) == UpEight(UpEight(UpEight(Part(Wide(b0), m))))
  {
  }

  lemma SmallMovedUp(v: Word)
    requires v <= 0x80
    ensures UpEight(v) == 0 <==> v == 0
    ensures UpEight(UpEight(v)) == 0 <==> v == 0
    ensures UpEight(UpEight(UpEight(v))) == 0 <==> v == 0
  {
  }

  lemma PartIsSmall(w: Word, m: Word)
    requires m <= 0x80
    ensures Part(w, m) <= 0x80
  {
  }

  lemma BitsInOctets(b0: Byte, b1: Byte, b2: Byte, b3: Byte, i: nat)
    requires i < 8
    ensures
      var w := LoadWord(b0, b1, b2, b3);
      && Bit(w, i) == Bit(Wide(b3), i)
      && Bit(w, i + 8) == Bit(Wide(b2), i)
      && Bit(w, i + 16) == Bit(Wide(b1), i)
      && Bit(w, i + 24) == Bit(Wide(b0), i)
  {
    hide LoadWord, Wide, Mask, Part, UpEight;
    var m := Mask(i);
    SmallMask(i);
    MaskEightUp(i);
    MaskEightUp(i + 8);
    MaskEightUp(i + 16);
    FirstOctetPart(b0, b1, b2, b3, m);
    SecondOctetPart(b0, b1, b2, b3, m);
    ThirdOctetPart(b0, b1, b2, b3, m);
    LastOctetPart(b0, b1, b2, b3, m);
    PartIsSmall(Wide(b0), m);
    PartIsSmall(Wide(b1), m);
    PartIsSmall(Wide(b2), m);
    SmallMovedUp(Part(Wide(b0), m));
    SmallMovedUp(Part(Wide(b1), m));
    SmallMovedUp(Part(Wide(b2), m));
  }

  /** Four octets loaded as a word are the four strings of eight bits in their order. */
  lemma BitsOfLoaded(b0: Byte, b1: Byte, b2: Byte, b3: Byte)
    ensures BitsOf(LoadWord(b0, b1, b2, b3)) == BitsOfOctet(b0) + BitsOfOctet(b1) + BitsOfOctet(b2) + BitsOfOctet(b3)
  {
    hide LoadWord, Wide, Bit;
    var w := LoadWord(b0, b1, b2, b3);
    var s := BitsOfOctet(b0) + BitsOfOctet(b1) + BitsOfOctet(b2) + BitsOfOctet(b3);
    forall j | 0 <= j < 32
      ensures BitsOf(w)[j] == s[j]
    {
      BitsInOctets(b0, b1, b2, b3, 7 - j % 8);
    }
  }

  // ---------- The numbers of octets and words ----------

  function OctetValue(b: Byte): (v: nat)
    ensures v < 256
  {
    hide Bit;
    Standard.BitStringOfNumber(BitsOfOctet(b));
    Standard.PowerValues();
    Standard.Number(BitsOfOctet(b))
  }

  lemma NumberOfLoaded(b0: Byte, b1: Byte, b2: Byte, b3: Byte)
    ensures WordValue(LoadWord(b0, b1, b2, b3)) ==
            OctetValue(b0) * 0x100_0000 + OctetValue(b1) * 0x1_0000 + OctetValue(b2) * 0x100 + OctetValue(b3)
  {
    hide LoadWord, BitsOf, BitsOfOctet, Standard.Number, Standard.Power;
    var s0, s1, s2, s3 := BitsOfOctet(b0), BitsOfOctet(b1), BitsOfOctet(b2), BitsOfOctet(b3);
    BitsOfLoaded(b0, b1, b2, b3);
    Standard.NumberOfBoth(s0 + s1 + s2, s3);
    Standard.NumberOfBoth(s0 + s1, s2);
    Standard.NumberOfBoth(s0, s1);
    Standard.PowerValues();
  }

  lemma OctetValueOfZero()
    ensures OctetValue(0) == 0
  {
    hide WordValue, OctetValue, LoadWord;
    ValueOfZero();
    NumberOfLoaded(0, 0, 0, 0);
    WideIsLoaded(0);
  }

  lemma WideIsLoaded(b: Byte)
    ensures LoadWord(0, 0, 0, b) == Wide(b) && Wide(0) == 0
    ensures b != 255 ==> Wide(b + 1) == Next(Wide(b))
  {
  }

  /** The bits of an octet are those of its number. */
  lemma {:induction false} OctetOfNumber(v: nat)
    requires v < 256
    ensures OctetValue(ByteOf(v)) == v
  {
    hide WordValue, OctetValue, Next, LoadWord, Wide, ByteOf, NatOf;
    OctetValueOfZero();
    if v == 0 {
      ByteOfZero();
    } else {
      var b := ByteOf(v - 1);
      OctetOfNumber(v - 1);
      NatOfByte(v - 1);
      LastByte();
      NextByte(b);
      ByteOfNat(b + 1);
      WideIsLoaded(b);
      WideIsLoaded(b + 1);
      NumberOfLoaded(0, 0, 0, b);
      NumberOfLoaded(0, 0, 0, b + 1);
      NextCounts(Wide(b));
    }
  }

  lemma ByteOfZero()
    ensures ByteOf(0) == 0
  {
  }

  lemma OctetValueIsNat(b: Byte)
    ensures OctetValue(b) == NatOf(b)
  {
    hide OctetValue, ByteOf, NatOf;
    ByteOfNat(b);
    OctetOfNumber(NatOf(b));
  }

  /** The value of a loaded word is the number its octets spell, most significant first. */
  lemma LoadedValue(b0: Byte, b1: Byte, b2: Byte, b3: Byte)
    ensures WordValue(LoadWord(b0, b1, b2, b3)) ==
            NatOf(b0) * 0x100_0000 + NatOf(b1) * 0x1_0000 + NatOf(b2) * 0x100 + NatOf(b3)
  {
    hide WordValue, OctetValue, LoadWord, NatOf;
    NumberOfLoaded(b0, b1, b2, b3);
    OctetValueIsNat(b0);
    OctetValueIsNat(b1);
    OctetValueIsNat(b2);
    OctetValueIsNat(b3);
  }
}
