/** Message padding, section 4 of RFC 3174, and the one-shot SHA-1 built on it. */
module Padding {
  import opened Words
  import opened Numbers
  import opened Compression

  const BIT_LIMIT := DOUBLE_LIMIT
  const BYTE_LIMIT: nat := 0x2000_0000_0000_0000

  // ---------- Padding ----------

  function Zeros(n: nat): (s: seq<Byte>)
    ensures |s| == n
  {
    seq(n, _ => 0)
  }

  /** The message length in bits, as the last two words of the padded message hold it. */
  function BitLength(n: nat): (bits: nat)
    ensures bits < BIT_LIMIT && bits / 8 <= n
  {
    8 * n % BIT_LIMIT
  }

  /** How many zero octets stand between the mark and the length. */
  function ZeroCount(n: nat): (z: nat)
    ensures z < 64 && (n + z + 9) % 64 == 0
  {
    (55 - n) % 64
  }

  function Pad(message: seq<Byte>): (padded: seq<Byte>)
    ensures |padded| % 64 == 0
    ensures message <= padded
  {
    message + [0x80] + Zeros(ZeroCount(|message|)) + BigEndian(BitLength(|message|), 8)
  }

  /** The zeros are as few as possible, and make one more block when at most 55 octets
      of the last one are taken, two otherwise. */
  lemma PaddingIsMinimal(message: seq<Byte>, zeros: nat)
    requires (|message| + 1 + zeros + 8) % 64 == 0
    ensures ZeroCount(|message|) <= zeros
    ensures |Pad(message)| / 64 == |message| / 64 + (if |message| % 64 <= 55 then 1 else 2)
  {
    hide Zeros, BigEndian;
    ZeroCountByTail(|message|);
  }

  lemma ZeroCountByTail(n: nat)
    ensures ZeroCount(n) == (if n % 64 <= 55 then 55 - n % 64 else 119 - n % 64)
  {
  }

  /** Reads the last eight octets as a bit count and keeps that much of the message. */
  function Unpad(padded: seq<Byte>): seq<Byte>
    requires |padded| >= 8
  {
    var bits := Value(padded[|padded| - 8..]);
    if bits / 8 <= |padded| then padded[..bits / 8] else padded
  }

  lemma UnpadPadded(message: seq<Byte>)
    ensures Unpad(Pad(message)) == message[..BitLength(|message|) / 8]
  {
    hide BigEndian, Value, Zeros;
    var padded := Pad(message);
    var bits := BitLength(|message|);
    assert padded[|padded| - 8..] == BigEndian(bits, 8);
    Pow256Values();
    ValueOfBigEndian(bits, 8);
    assert padded[..bits / 8] == message[..bits / 8];
  }

  /** Padding can be undone exactly for the messages whose bit length fits its 64-bit field. */
  lemma PaddingRoundTrip(message: seq<Byte>)
    ensures Unpad(Pad(message)) == message <==> |message| < BYTE_LIMIT
  {
    hide Pad, Unpad;
    UnpadPadded(message);
    if |message| < BYTE_LIMIT {
      assert message[..|message|] == message;
    }
  }

  lemma PaddedLength(message: seq<Byte>)
    ensures |message| + 9 <= |Pad(message)| < |message| + 9 + 64
    ensures Pad(message)[|Pad(message)| - 8..] == BigEndian(BitLength(|message|), 8)
    ensures Pad(message)[..|message|] == message
  {
    hide BigEndian, Zeros;
  }

  /** No two messages of any length are padded alike: the padded length tells the message length
      up to 63, and the length field tells it modulo 2^61. */
  lemma PaddingIsInjective(m1: seq<Byte>, m2: seq<Byte>)
    ensures Pad(m1) == Pad(m2) <==> m1 == m2
  {
    hide Pad, BigEndian, Value;
    PaddedLength(m1);
    PaddedLength(m2);
    if Pad(m1) == Pad(m2) {
      Pow256Values();
      ValueOfBigEndian(BitLength(|m1|), 8);
      ValueOfBigEndian(BitLength(|m2|), 8);
      assert -64 < |m1| - |m2| < 64;
      assert BitLength(|m1|) == BitLength(|m2|);
      assert |m1| == |m2|;
    }
  }

  // ---------- The hash ----------

  const INITIAL := Registers(0x67452301, 0xEFCDAB89, 0x98BADCFE, 0x10325476, 0xC3D2E1F0)

  /** The chaining value after a whole number of blocks, H(0) being h. */
  function HashBlocks(h: Registers, data: seq<Byte>): Registers
    requires |data| % 64 == 0
  {
    if |data| == 0 then h else
    var n := |data| - 64;
    Compress(HashBlocks(h, data[..n]), data[n..])
  }

  lemma NoBlocks()
    ensures HashBlocks(INITIAL, []) == INITIAL
  {
  }

  lemma HashOneMore(h: Registers, data: seq<Byte>, block: seq<Byte>)
    requires |data| % 64 == 0 && |block| == 64
    ensures HashBlocks(h, data + block) == Compress(HashBlocks(h, data), block)
  {
    hide Compress;
    assert (data + block)[..|data|] == data;
    assert (data + block)[|data|..] == block;
  }

  function FinalHash(message: seq<Byte>): Registers {
    HashBlocks(INITIAL, Pad(message))
  }

  /** The padded message, cut at its full blocks: one more block when the tail leaves room for the
      mark and the length, two otherwise. */
  lemma PadCut(message: seq<Byte>)
    ensures
      var r := |message| % 64;
      var full, tail := message[..|message| - r], message[|message| - r..];
      var length := BigEndian(BitLength(|message|), 8);
      Pad(message) ==
      if r <= 55 then full + (tail + [0x80] + Zeros(55 - r) + length)
      else (full + (tail + [0x80] + Zeros(63 - r))) + (Zeros(56) + length)
  {
    hide BigEndian, BitLength, ZeroCount;
    var r := |message| % 64;
    var full, tail := message[..|message| - r], message[|message| - r..];
    ZeroCountByTail(|message|);
    assert full + tail == message;
    if r > 55 {
      assert Zeros(ZeroCount(|message|)) == Zeros(63 - r) + Zeros(56);
    }
  }

  /** The last blocks of a padded message: one when the tail leaves room for the mark and the
      length, two otherwise. */
  lemma FinalBlocks(message: seq<Byte>)
    ensures
      var r := |message| % 64;
      var full, tail := message[..|message| - r], message[|message| - r..];
      var h := HashBlocks(INITIAL, full);
      var length := BigEndian(BitLength(|message|), 8);
      FinalHash(message) ==
      if r <= 55 then Compress(h, tail + [0x80] + Zeros(55 - r) + length)
      else Compress(Compress(h, tail + [0x80] + Zeros(63 - r)), Zeros(56) + length)
  {
    hide Compress, HashBlocks, BigEndian, BitLength, Zeros, Pad;
    var r := |message| % 64;
    var full, tail := message[..|message| - r], message[|message| - r..];
    var length := BigEndian(BitLength(|message|), 8);
    PadCut(message);
    if r <= 55 {
      HashOneMore(INITIAL, full, tail + [0x80] + Zeros(55 - r) + length);
    } else {
      HashOneMore(INITIAL, full, tail + [0x80] + Zeros(63 - r));
      HashOneMore(INITIAL, full + (tail + [0x80] + Zeros(63 - r)), Zeros(56) + length);
    }
  }

  /** SHA-1 of a whole message, as sections 4 and 6.1 of RFC 3174 give it. */
  function Sha1(message: seq<Byte>): (digest: seq<Byte>)
    ensures |digest| == 20
  {
    ToOctets(AsWords(FinalHash(message)))
  }
}
