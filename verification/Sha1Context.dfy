/** The mutable hashing context: a 64-octet buffer that is flushed block by block, the two-word
    bit counter, and the routines that drive them. */
module Contexts {
  import opened Words
  import opened Numbers
  import opened Compression
  import opened Padding
  import opened Sessions
  import opened WordBits
  import opened Refinement
  import Standard

  type Counter = n: nat | n < WORD_LIMIT

  // ---------- The word operations of the code against those of the standard ----------

  function Choose(b: Word, c: Word, d: Word): Word {
    (b & c) | ((!b) & d)
  }

  function Parity(b: Word, c: Word, d: Word): Word {
    b ^ c ^ d
  }

  function Majority(b: Word, c: Word, d: Word): Word {
    (b & c) | (b & d) | (c & d)
  }

  lemma ChooseRound(w: seq<Word>, t: nat, h: Registers)
    requires |w| == 80 && 0 <= t < 20
    ensures
      var s := Rounds(w, t, h);
      Rounds(w, t + 1, h) ==
      Registers(Sum(CircularShift(5, s.a), Choose(s.b, s.c, s.d), s.e, w[t], 0x5A827999), s.a, CircularShift(30, s.b), s.c, s.d)
  {
    hide CircularShift, RotateLeft, Sum;
    var s := Rounds(w, t, h);
    CircularShiftRotates(s.a);
    CircularShiftRotates(s.b);
  }

  lemma FirstParityRound(w: seq<Word>, t: nat, h: Registers)
    requires |w| == 80 && 20 <= t < 40
    ensures
      var s := Rounds(w, t, h);
      Rounds(w, t + 1, h) ==
      Registers(Sum(CircularShift(5, s.a), Parity(s.b, s.c, s.d), s.e, w[t], 0x6ED9EBA1), s.a, CircularShift(30, s.b), s.c, s.d)
  {
    hide CircularShift, RotateLeft, Sum;
    var s := Rounds(w, t, h);
    CircularShiftRotates(s.a);
    CircularShiftRotates(s.b);
  }

  lemma MajorityRound(w: seq<Word>, t: nat, h: Registers)
    requires |w| == 80 && 40 <= t < 60
    ensures
      var s := Rounds(w, t, h);
      Rounds(w, t + 1, h) ==
      Registers(Sum(CircularShift(5, s.a), Majority(s.b, s.c, s.d), s.e, w[t], 0x8F1BBCDC), s.a, CircularShift(30, s.b), s.c, s.d)
  {
    hide CircularShift, RotateLeft, Sum;
    var s := Rounds(w, t, h);
    CircularShiftRotates(s.a);
    CircularShiftRotates(s.b);
  }

  lemma LastParityRound(w: seq<Word>, t: nat, h: Registers)
    requires |w| == 80 && 60 <= t < 80
    ensures
      var s := Rounds(w, t, h);
      Rounds(w, t + 1, h) ==
      Registers(Sum(CircularShift(5, s.a), Parity(s.b, s.c, s.d), s.e, w[t], 0xCA62C1D6), s.a, CircularShift(30, s.b), s.c, s.d)
  {
    hide CircularShift, RotateLeft, Sum;
    var s := Rounds(w, t, h);
    CircularShiftRotates(s.a);
    CircularShiftRotates(s.b);
  }

  lemma NoRounds(w: seq<Word>, h: Registers)
    requires |w| == 80
    ensures Rounds(w, 0, h) == h
  {
  }

  // ---------- The four loops of twenty rounds ----------

  method ChooseRounds(w: array<Word>, k: Word, s: Registers, ghost h: Registers) returns (r: Registers)
    requires w.Length == 80 && k == 0x5A827999 && s == Rounds(w[..], 0, h)
    ensures r == Rounds(w[..], 20, h)
  {
    hide CircularShift, Sum, Rounds, Choose;
    ghost var words := w[..];
    var a, b, c, d, e := s.a, s.b, s.c, s.d, s.e;
    var t := 0;
    while t < 20
      invariant 0 <= t <= 20
      invariant Registers(a, b, c, d, e) == Rounds(words, t, h)
    {
      ChooseRound(words, t, h);
      var temp := Sum(CircularShift(5, a), Choose(b, c, d), e, w[t], k);
      e := d;
      d := c;
      c := CircularShift(30, b);
      b := a;
      a := temp;
      t := t + 1;
    }
    return Registers(a, b, c, d, e);
  }

  method FirstParityRounds(w: array<Word>, k: Word, s: Registers, ghost h: Registers) returns (r: Registers)
    requires w.Length == 80 && k == 0x6ED9EBA1 && s == Rounds(w[..], 20, h)
    ensures r == Rounds(w[..], 40, h)
  {
    hide CircularShift, Sum, Rounds, Parity;
    ghost var words := w[..];
    var a, b, c, d, e := s.a, s.b, s.c, s.d, s.e;
    var t := 20;
    while t < 40
      invariant 20 <= t <= 40
      invariant Registers(a, b, c, d, e) == Rounds(words, t, h)
    {
      FirstParityRound(words, t, h);
      var temp := Sum(CircularShift(5, a), Parity(b, c, d), e, w[t], k);
      e := d;
      d := c;
      c := CircularShift(30, b);
      b := a;
      a := temp;
      t := t + 1;
    }
    return Registers(a, b, c, d, e);
  }

  method MajorityRounds(w: array<Word>, k: Word, s: Registers, ghost h: Registers) returns (r: Registers)
    requires w.Length == 80 && k == 0x8F1BBCDC && s == Rounds(w[..], 40, h)
    ensures r == Rounds(w[..], 60, h)
  {
    hide CircularShift, Sum, Rounds, Majority;
    ghost var words := w[..];
    var a, b, c, d, e := s.a, s.b, s.c, s.d, s.e;
    var t := 40;
    while t < 60
      invariant 40 <= t <= 60
      invariant Registers(a, b, c, d, e) == Rounds(words, t, h)
    {
      MajorityRound(words, t, h);
      var temp := Sum(CircularShift(5, a), Majority(b, c, d), e, w[t], k);
      e := d;
      d := c;
      c := CircularShift(30, b);
      b := a;
      a := temp;
      t := t + 1;
    }
    return Registers(a, b, c, d, e);
  }

  method LastParityRounds(w: array<Word>, k: Word, s: Registers, ghost h: Registers) returns (r: Registers)
    requires w.Length == 80 && k == 0xCA62C1D6 && s == Rounds(w[..], 60, h)
    ensures r == Rounds(w[..], 80, h)
  {
    hide CircularShift, Sum, Rounds, Parity;
    ghost var words := w[..];
    var a, b, c, d, e := s.a, s.b, s.c, s.d, s.e;
    var t := 60;
    while t < 80
      invariant 60 <= t <= 80
      invariant Registers(a, b, c, d, e) == Rounds(words, t, h)
    {
      LastParityRound(words, t, h);
      var temp := Sum(CircularShift(5, a), Parity(b, c, d), e, w[t], k);
      e := d;
      d := c;
      c := CircularShift(30, b);
      b := a;
      a := temp;
      t := t + 1;
    }
    return Registers(a, b, c, d, e);
  }

  /** The two-word counter holds eight times the octet count; both words come back to zero on
      octet number 2^61 and on no earlier one. */
  lemma CounterStep(n: nat, high: Counter, low: Counter)
    requires n < BYTE_LIMIT && high * WORD_LIMIT + low == BitLength(n)
    ensures
      var low' := (low + 8) % WORD_LIMIT;
      var high' := if low' == 0 then (high + 1) % WORD_LIMIT else high;
      && high' * WORD_LIMIT + low' == BitLength(n + 1)
      && (low' == 0 && high' == 0 <==> n + 1 == BYTE_LIMIT)
  {
    assert BitLength(n) == 8 * n;
    assert low % 8 == 0;
  }

  /** The chaining value covers the full blocks of the message, and the buffer holds its tail. */
  ghost predicate Covers(message: seq<Byte>, chain: Registers, buffer: seq<Byte>) {
    var n := |message|;
    && |buffer| == n % 64
    && chain == HashBlocks(INITIAL, message[..n - n % 64])
    && buffer == message[n - n % 64..]
  }

  lemma NothingCovered()
    ensures Covers([], INITIAL, [])
  {
    hide HashBlocks;
    NoBlocks();
  }

  /** What appending one octet does to the buffer and, when that fills it, to the chaining value. */
  lemma CoverStep(message: seq<Byte>, chain: Registers, buffer: seq<Byte>, octet: Byte)
    requires Covers(message, chain, buffer)
    ensures
      if |buffer| == 63 then Covers(message + [octet], Compress(chain, buffer + [octet]), [])
      else Covers(message + [octet], chain, buffer + [octet])
  {
    hide Compress, HashBlocks;
    var more, n, r := message + [octet], |message|, |buffer|;
    var full := message[..n - r];
    if r == 63 {
      HashOneMore(INITIAL, full, buffer + [octet]);
      assert more[..n + 1] == full + (buffer + [octet]);
    } else {
      assert more[..n - r] == full;
      assert more[n - r..] == buffer + [octet];
    }
  }

  /** The eighty words are W(0) to W(79) of the standard for a block. */
  ghost predicate ScheduleOf(w: seq<Word>, block: seq<Byte>) {
    |w| == 80 && |block| == 64 && forall t :: 0 <= t < 80 ==> BitsOf(w[t]) == Standard.W(BitsOfOctets(block), t)
  }

  lemma WholeSchedule(block: seq<Byte>, w: seq<Word>)
    requires |block| == 64 && w == Schedule(ToWords(block), 80)
    ensures ScheduleOf(w, block)
  {
    hide BitsOf, BitsOfOctets, Schedule, ToWords, Standard.W;
    forall t | 0 <= t < 80
      ensures BitsOf(w[t]) == Standard.W(BitsOfOctets(block), t)
    {
      BitsOfSchedule(block, t);
    }
  }

  class Sha1Context {
    const intermediateHash: array<Word>
    var lengthLow: Counter
    var lengthHigh: Counter
    var messageBlockIndex: int
    const messageBlock: array<Byte>
    var computed: bool
    var corrupted: int

    /** Every octet taken in since the last Reset. */
    ghost var absorbed: seq<Byte>

    ghost predicate Shape() {
      intermediateHash.Length == 5 && messageBlock.Length == 64
    }

    ghost function Chain(): Registers
      requires Shape()
      reads intermediateHash
    {
      Registers(intermediateHash[0], intermediateHash[1], intermediateHash[2], intermediateHash[3], intermediateHash[4])
    }

    /** The octets taken in are all in the chaining value or in the buffer, and are counted. */
    ghost predicate Holding()
      requires Shape()
      reads this, intermediateHash, messageBlock
    {
      && 0 <= messageBlockIndex < 64
      && Covers(absorbed, Chain(), messageBlock[..messageBlockIndex])
      && lengthHigh * WORD_LIMIT + lengthLow == BitLength(|absorbed|)
    }

    /** Nothing of the message is left outside the hash. */
    ghost predicate Cleared()
      requires Shape()
      reads this, messageBlock
    {
      && lengthLow == 0 && lengthHigh == 0 && messageBlockIndex == 0
      && messageBlock[..] == Zeros(64)
    }

    ghost predicate Valid()
      reads this, intermediateHash, messageBlock
    {
      && Shape()
      && |absorbed| <= BYTE_LIMIT
      && if computed then
           && |absorbed| < BYTE_LIMIT
           && (corrupted == 0 || corrupted == SHA_STATE_ERROR)
           && Chain() == FinalHash(absorbed)
           && Cleared()
         else
           && corrupted == (if |absorbed| == BYTE_LIMIT then 1 else 0)
           && Holding()
    }

    ghost function View(): Session
      reads this
    {
      Session(absorbed, computed, corrupted)
    }

    /** Storage only; the fields hold arbitrary values until Reset is called. */
    constructor ()
      ensures Shape() && fresh(intermediateHash) && fresh(messageBlock)
    {
      intermediateHash := new Word[5];
      messageBlock := new Byte[64];
    }

    method Reset() returns (code: int)
      requires Shape()
      modifies this, intermediateHash
      ensures Valid() && View() == FRESH && code == 0
      ensures intermediateHash[..] == [0x67452301, 0xEFCDAB89, 0x98BADCFE, 0x10325476, 0xC3D2E1F0]
      ensures BitsOfRegisters(Chain()) == Standard.Initial()
    {
      hide Covers, FinalHash, Zeros, Sha1, BitsOfRegisters, Standard.Initial;
      NothingCovered();
      BitsOfInitial();
      lengthLow := 0;
      lengthHigh := 0;
      messageBlockIndex := 0;
      intermediateHash[0] := 0x67452301;
      intermediateHash[1] := 0xEFCDAB89;
      intermediateHash[2] := 0x98BADCFE;
      intermediateHash[3] := 0x10325476;
      intermediateHash[4] := 0xC3D2E1F0;
      computed := false;
      corrupted := 0;
      absorbed := [];
      assert messageBlock[..0] == [];
      return SHA_SUCCESS;
    }

    /** The two loops that fill W: sixteen words of the buffered block, then sixty-four more. */
    method BuildSchedule() returns (w: array<Word>)
      requires Shape()
      ensures fresh(w) && w[..] == Schedule(ToWords(messageBlock[..]), 80)
      ensures ScheduleOf(w[..], messageBlock[..])
    {
      hide ScheduleOf, LoadWord, RotateLeft, CircularShift, Mix, Xor3, NextWord, Schedule, ToWords;
      w := new Word[80];
      ghost var m := ToWords(messageBlock[..]);
      var t := 0;
      while t < 16
        modifies w
        invariant 0 <= t <= 16
        invariant w[..t] == m[..t]
      {
        WordIsAt(messageBlock[..], t);
        w[t] := LoadWord(messageBlock[t * 4], messageBlock[t * 4 + 1], messageBlock[t * 4 + 2], messageBlock[t * 4 + 3]);
        t := t + 1;
      }
      ScheduleGrows(m, 16);
      while t < 80
        modifies w
        invariant 16 <= t <= 80
        invariant w[..t] == Schedule(m, t)
      {
        MixWithMacro(Xor3(w[t - 3], w[t - 8], w[t - 14]), w[t - 16]);
        NextWordAt(w[..t], t);
        assert w[..t][..t] == w[..t];
        ScheduleGrows(m, t);
        w[t] := CircularShift(1, Xor3(w[t - 3], w[t - 8], w[t - 14]) ^ w[t - 16]);
        t := t + 1;
      }
      assert w[..] == w[..80];
      WholeSchedule(messageBlock[..], w[..]);
    }

    /** Eighty rounds over the buffered block, added into the chaining value. */
    method ProcessMessageBlock()
      requires Shape()
      modifies this`messageBlockIndex, intermediateHash
      ensures Chain() == Compress(old(Chain()), messageBlock[..])
      ensures BitsOfRegisters(Chain()) == Standard.Process(BitsOfRegisters(old(Chain())), BitsOfOctets(messageBlock[..]))
      ensures messageBlockIndex == 0
    {
      hide BitsOfRegisters, BitsOfOctets, Standard.Process, Rounds, Plus, ToWords, Schedule;
      var k: seq<Word> := [0x5A827999, 0x6ED9EBA1, 0x8F1BBCDC, 0xCA62C1D6];
      ghost var h := Chain();
      var w := BuildSchedule();
      var r := Registers(intermediateHash[0], intermediateHash[1], intermediateHash[2], intermediateHash[3], intermediateHash[4]);
      NoRounds(w[..], h);
      r := ChooseRounds(w, k[0], r, h);
      r := FirstParityRounds(w, k[1], r, h);
      r := MajorityRounds(w, k[2], r, h);
      r := LastParityRounds(w, k[3], r, h);
      intermediateHash[0] := Plus(intermediateHash[0], r.a);
      intermediateHash[1] := Plus(intermediateHash[1], r.b);
      intermediateHash[2] := Plus(intermediateHash[2], r.c);
      intermediateHash[3] := Plus(intermediateHash[3], r.d);
      intermediateHash[4] := Plus(intermediateHash[4], r.e);
      messageBlockIndex := 0;
      BitsOfCompress(h, messageBlock[..]);
    }

    /** Counts eight more bits; the context is corrupted when both words wrap to zero. */
    method CountOctet()
      requires |absorbed| < BYTE_LIMIT && lengthHigh * WORD_LIMIT + lengthLow == BitLength(|absorbed|)
      modifies this`lengthLow, this`lengthHigh, this`corrupted
      ensures lengthHigh * WORD_LIMIT + lengthLow == BitLength(|absorbed| + 1)
      ensures corrupted == if |absorbed| + 1 == BYTE_LIMIT then 1 else old(corrupted)
    {
      CounterStep(|absorbed|, lengthHigh, lengthLow);
      lengthLow := (lengthLow + 8) % WORD_LIMIT;
      if lengthLow == 0 {
        lengthHigh := (lengthHigh + 1) % WORD_LIMIT;
        if lengthHigh == 0 {
          corrupted := 1;
        }
      }
    }

    /** One turn of the input loop: store the octet, count eight bits, flush a full buffer. */
    method AbsorbOctet(octet: Byte)
      requires Valid() && !computed && corrupted == 0
      modifies this`lengthLow, this`lengthHigh, this`messageBlockIndex, this`corrupted, this`absorbed,
               intermediateHash, messageBlock
      ensures Valid() && absorbed == old(absorbed) + [octet]
      ensures corrupted == (if |absorbed| == BYTE_LIMIT then 1 else 0)
    {
      hide BitsOfRegisters, BitsOfOctets, Standard.Process, Compress, Covers, FinalHash, BitLength, Zeros;
      ghost var buffer := messageBlock[..messageBlockIndex];
      CoverStep(absorbed, Chain(), buffer, octet);
      messageBlock[messageBlockIndex] := octet;
      messageBlockIndex := messageBlockIndex + 1;
      assert messageBlock[..messageBlockIndex] == buffer + [octet];
      CountOctet();
      absorbed := absorbed + [octet];
      if messageBlockIndex == 64 {
        assert messageBlock[..] == messageBlock[..64];
        ProcessMessageBlock();
        assert messageBlock[..0] == [];
      }
    }

    /** The loop that sets the buffer to zero from its index up to a limit. */
    method ZeroUpTo(limit: int)
      requires Shape() && 0 <= messageBlockIndex <= limit <= 64
      modifies this`messageBlockIndex, messageBlock
      ensures messageBlockIndex == limit
      ensures messageBlock[..limit] == old(messageBlock[..messageBlockIndex]) + Zeros(limit - old(messageBlockIndex))
    {
      ghost var start, front := messageBlockIndex, messageBlock[..messageBlockIndex];
      while messageBlockIndex < limit
        invariant start <= messageBlockIndex <= limit
        invariant messageBlock[..messageBlockIndex] == front + Zeros(messageBlockIndex - start)
      {
        messageBlock[messageBlockIndex] := 0;
        messageBlockIndex := messageBlockIndex + 1;
      }
    }

    /** One length word, most significant octet first. */
    method StoreWord(at: int, v: Counter)
      requires Shape() && 0 <= at <= 60
      modifies messageBlock
      ensures messageBlock[..] == old(messageBlock[..at]) + WordOctets(v) + old(messageBlock[at + 4..])
    {
      hide ByteOf;
      messageBlock[at] := ByteOf(v / 0x100_0000 % 256);
      messageBlock[at + 1] := ByteOf(v / 0x1_0000 % 256);
      messageBlock[at + 2] := ByteOf(v / 0x100 % 256);
      messageBlock[at + 3] := ByteOf(v % 256);
    }

    /** The message length as the last eight octets of the block. */
    method StoreLength()
      requires Shape()
      modifies messageBlock
      ensures messageBlock[..] == old(messageBlock[..56]) + BigEndian(lengthHigh * WORD_LIMIT + lengthLow, 8)
    {
      hide WordOctets, BigEndian;
      LengthField(lengthHigh, lengthLow);
      StoreWord(56, lengthHigh);
      StoreWord(60, lengthLow);
    }

    /** The mark and the zeros, up to octet 56 of the last block; the buffer is hashed first
        when it has no room left for the length. */
    method PadTail()
      requires Shape() && 0 <= messageBlockIndex < 64
      modifies this`messageBlockIndex, intermediateHash, messageBlock
      ensures
        var r, buffer := old(messageBlockIndex), old(messageBlock[..messageBlockIndex]);
        if r <= 55 then
          messageBlock[..56] == buffer + [0x80] + Zeros(55 - r) && Chain() == old(Chain())
        else
          messageBlock[..56] == Zeros(56) && Chain() == Compress(old(Chain()), buffer + [0x80] + Zeros(63 - r))
    {
      hide BitsOfRegisters, BitsOfOctets, Standard.Process, Compress, Zeros;
      ghost var r, buffer := messageBlockIndex, messageBlock[..messageBlockIndex];
      if messageBlockIndex > 55 {
        messageBlock[messageBlockIndex] := 0x80;
        messageBlockIndex := messageBlockIndex + 1;
        assert messageBlock[..r + 1] == buffer + [0x80];
        ZeroUpTo(64);
        assert messageBlock[..64] == messageBlock[..];
        ProcessMessageBlock();
        ZeroUpTo(56);
        assert messageBlock[..56] == Zeros(56);
      } else {
        messageBlock[messageBlockIndex] := 0x80;
        messageBlockIndex := messageBlockIndex + 1;
        assert messageBlock[..r + 1] == buffer + [0x80];
        ZeroUpTo(56);
      }
    }

    /** Pads the message into one or two last blocks and hashes them. */
    method PadMessage()
      requires Shape() && Holding()
      modifies this`messageBlockIndex, intermediateHash, messageBlock
      ensures Chain() == FinalHash(absorbed) && messageBlockIndex == 0
    {
      hide BitsOfRegisters, BitsOfOctets, Standard.Process, Compress, HashBlocks, FinalHash, BitLength, BigEndian, Zeros, WordOctets;
      FinalBlocks(absorbed);
      PadTail();
      StoreLength();
      ProcessMessageBlock();
    }

    /** Overwrites the buffered message, which may be sensitive. */
    method ClearBlock()
      requires Shape()
      modifies messageBlock
      ensures messageBlock[..] == Zeros(64)
    {
      var i := 0;
      while i < 64
        invariant 0 <= i <= 64
        invariant messageBlock[..i] == Zeros(i)
      {
        messageBlock[i] := 0;
        i := i + 1;
      }
    }

    /** The chaining value, most significant octet first, into the first twenty octets. */
    method WriteDigest(messageDigest: array<Byte>)
      requires Shape() && messageDigest.Length >= 20
      modifies messageDigest
      ensures messageDigest[..] == ToOctets(AsWords(Chain())) + old(messageDigest[20..])
      ensures
        var h := BitsOfRegisters(Chain());
        BitsOfOctets(messageDigest[..20]) == h.a + h.b + h.c + h.d + h.e
    {
      hide Octet, ToOctets, BitsOf, BitsOfOctets;
      ghost var words, rest := intermediateHash[..], messageDigest[20..];
      var i := 0;
      while i < 20
        invariant 0 <= i <= 20
        invariant messageDigest[..i] == ToOctets(words)[..i] && messageDigest[20..] == rest
      {
        OctetAt(words, i / 4, i % 4);
        messageDigest[i] := Octet(intermediateHash[i / 4], i % 4);
        i := i + 1;
      }
      assert words == AsWords(Chain());
      BitsOfDigest(Chain());
      assert messageDigest[..20] == ToOctets(words);
    }

    /** Pads and hashes what is left on the first call; writes the digest into the first
        twenty octets of the caller's array. */
    method Result(messageDigest: array<Byte>) returns (code: int)
      requires Valid()
      requires messageDigest.Length >= 20 && messageDigest != messageBlock
      modifies this, intermediateHash, messageBlock, messageDigest
      ensures Valid() && View() == After(old(View()), Sessions.Result)
      ensures
        var reply := ReplyTo(old(View()), Sessions.Result);
        && code == reply.code
        && messageDigest[..] ==
           if reply.digest.Some? then reply.digest.value + old(messageDigest[20..]) else old(messageDigest[..])
      ensures code == 0 ==> Cleared() && BitsOfOctets(messageDigest[..20]) == Standard.Sha1(BitsOfOctets(absorbed))
    {
      hide BitsOfOctets, Standard.Sha1, Compress, HashBlocks, FinalHash, BitLength, ToOctets, AsWords, Zeros;
      if corrupted != 0 {
        return corrupted;
      }
      if !computed {
        PadMessage();
        ClearBlock();
        lengthLow := 0;
        lengthHigh := 0;
        computed := true;
      }
      WriteDigest(messageDigest);
      Sha1IsStandard(absorbed);
      return SHA_SUCCESS;
    }

    /** Takes in the first length octets of the caller's array, one at a time. */
    method Input(messageArray: array<Byte>, length: nat) returns (code: int)
      requires Valid()
      requires length < WORD_LIMIT && length <= messageArray.Length && messageArray != messageBlock
      modifies this, intermediateHash, messageBlock
      ensures Valid() && View() == After(old(View()), Sessions.Input(old(messageArray[..length])))
      ensures code == ReplyTo(old(View()), Sessions.Input(old(messageArray[..length]))).code
    {
      hide Compress, HashBlocks, FinalHash, BitLength;
      if length == 0 {
        return SHA_SUCCESS;
      }
      if computed {
        corrupted := SHA_STATE_ERROR;
        return SHA_STATE_ERROR;
      }
      if corrupted != 0 {
        return corrupted;
      }
      ghost var before := absorbed;
      var next := 0;
      while next < length && corrupted == 0
        invariant 0 <= next <= length
        invariant Valid() && !computed
        invariant absorbed == before + messageArray[..next]
      {
        AbsorbOctet(messageArray[next]);
        next := next + 1;
      }
      assert Take(before + messageArray[..length], BYTE_LIMIT) == absorbed;
      return SHA_SUCCESS;
    }
  }
}
