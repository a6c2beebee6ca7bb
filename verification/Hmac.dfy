/** Keyed hashing over C strings, and section 2 of RFC 2104 that it computes. */
module Hmac {
  import opened Words
  import opened Numbers
  import opened Padding
  import opened WordBits
  import opened Refinement
  import opened Sessions
  import opened Contexts
  import Standard

  const BLOCK_SIZE := 64
  const BUFFER_LENGTH := 4096

  // ---------- RFC 2104, section 2 ----------

  function ZeroPad(key: seq<Byte>): (block: seq<Byte>)
    requires |key| <= BLOCK_SIZE
    ensures |block| == BLOCK_SIZE
  {
    key + Zeros(BLOCK_SIZE - |key|)
  }

  function KeyBlock(key: seq<Byte>): (block: seq<Byte>)
    ensures |block| == BLOCK_SIZE
  {
    ZeroPad(if |key| > BLOCK_SIZE then Sha1(key) else key)
  }

  function Xor(x: Byte, y: Byte): Byte {
    x ^ y
  }

  function XorWith(pad: Byte, s: seq<Byte>): (r: seq<Byte>)
    ensures |r| == |s|
  {
    seq(|s|, i requires 0 <= i < |s| => Xor(pad, s[i]))
  }

  /** H(K XOR opad, H(K XOR ipad, text)) for a key already brought to block size. */
  function Mac(block: seq<Byte>, text: seq<Byte>): (digest: seq<Byte>)
    ensures |digest| == 20
  {
    Sha1(XorWith(0x5c, block) + Sha1(XorWith(0x36, block) + text))
  }

  function Rfc2104(key: seq<Byte>, text: seq<Byte>): (digest: seq<Byte>)
    ensures |digest| == 20
  {
    Mac(KeyBlock(key), text)
  }

  // ---------- The same on strings of bits ----------

  lemma WideXor(x: Byte, y: Byte)
    ensures Wide(Xor(x, y)) == XorOf(Wide(x), Wide(y))
  {
  }

  lemma OctetXorAt(x: Byte, y: Byte, i: nat)
    requires i < 8
    ensures Bit(Wide(Xor(x, y)), i) == (Bit(Wide(x), i) != Bit(Wide(y), i))
  {
    hide Bit, Wide, Xor, XorOf;
    WideXor(x, y);
    BitwiseAt(Wide(x), Wide(y), i);
  }

  /** The exclusive or of two octets is that of their bits, place by place. */
  lemma BitsOfOctetXor(x: Byte, y: Byte)
    ensures BitsOfOctet(Xor(x, y)) == Standard.ExclusiveOr(BitsOfOctet(x), BitsOfOctet(y))
  {
    hide Bit, Wide, Xor;
    forall j | 0 <= j < 8
      ensures BitsOfOctet(Xor(x, y))[j] == (BitsOfOctet(x)[j] != BitsOfOctet(y)[j])
    {
      OctetXorAt(x, y, 7 - j);
    }
  }

  lemma BitsOfXorWith(pad: Byte, block: seq<Byte>)
    requires |block| == 64
    ensures BitsOfOctets(XorWith(pad, block)) == Standard.ExclusiveOr(BitsOfOctets(block), Standard.Filled(NatOf(pad)))
  {
    hide BitsOfOctet, NatOf, Xor, Standard.BitString;
    OctetIsBitString(pad);
    var bits := Standard.ExclusiveOr(BitsOfOctets(block), Standard.Filled(NatOf(pad)));
    forall i | 0 <= i < 512
      ensures BitsOfOctets(XorWith(pad, block))[i] == bits[i]
    {
      BitsOfOctetXor(pad, block[i / 8]);
    }
  }

  lemma BitsOfKeyBlock(key: seq<Byte>)
    ensures BitsOfOctets(KeyBlock(key)) == Standard.KeyBlock(BitsOfOctets(key))
  {
    hide BitsOfOctets, Sha1, Standard.Sha1;
    var k := if |key| > 64 then Sha1(key) else key;
    Sha1IsStandard(key);
    BitsOfJoined(k, Zeros(64 - |k|));
    BitsOfZeros(64 - |k|);
  }

  lemma PadOctets()
    ensures NatOf(0x36) == 0x36 && NatOf(0x5C) == 0x5C
  {
  }

  /** The keyed hash of the model is HMAC as RFC 2104 defines it, for every key and text. */
  lemma Rfc2104IsStandard(key: seq<Byte>, text: seq<Byte>)
    ensures BitsOfOctets(Rfc2104(key, text)) == Standard.Hmac(BitsOfOctets(key), BitsOfOctets(text))
  {
    hide BitsOfOctets, NatOf, Sha1, XorWith, KeyBlock, Standard.Sha1, Standard.KeyBlock, Standard.Filled, Standard.ExclusiveOr;
    var block := KeyBlock(key);
    var inner := XorWith(0x36, block) + text;
    BitsOfKeyBlock(key);
    PadOctets();
    BitsOfXorWith(0x36, block);
    BitsOfXorWith(0x5C, block);
    BitsOfJoined(XorWith(0x36, block), text);
    Sha1IsStandard(inner);
    BitsOfJoined(XorWith(0x5C, block), Sha1(inner));
    Sha1IsStandard(XorWith(0x5C, block) + Sha1(inner));
  }

  // ---------- C strings ----------

  function StrLen(s: seq<Byte>): (n: nat)
    requires 0 in s
    ensures n < |s| && s[n] == 0 && 0 !in s[..n]
  {
    if s[0] == 0 then 0 else 1 + StrLen(s[1..])
  }

  function CString(s: seq<Byte>): (c: seq<Byte>)
    requires 0 in s
    ensures 0 !in c && c <= s
  {
    s[..StrLen(s)]
  }

  /** The key block of the code, which hands the key length to the hash as 32 bits. */
  function CodeKeyBlock(key: seq<Byte>): (block: seq<Byte>)
    ensures |block| == BLOCK_SIZE
    ensures |key| < WORD_LIMIT ==> block == KeyBlock(key)
  {
    hide Sha1;
    assert key[..|key|] == key;
    ZeroPad(if |key| > BLOCK_SIZE then Sha1(key[..|key| % WORD_LIMIT]) else key)
  }

  method MemSet(a: array<Byte>, v: Byte, n: nat)
    requires n <= a.Length
    modifies a
    ensures a[..] == Repeat(v, n) + old(a[n..])
  {
    forall i | 0 <= i < n {
      a[i] := v;
    }
  }

  function Repeat(v: Byte, n: nat): (s: seq<Byte>)
    ensures |s| == n
  {
    seq(n, _ => v)
  }

  method MemCpy(a: array<Byte>, at: nat, source: array<Byte>, n: nat)
    requires a != source && at + n <= a.Length && n <= source.Length
    modifies a
    ensures a[..] == old(a[..at]) + source[..n] + old(a[at + n..])
  {
    forall i | 0 <= i < n {
      a[at + i] := source[i];
    }
  }

  /** The loop that folds the key into one of the two pads. */
  method XorInto(a: array<Byte>, key: array<Byte>, ghost pad: Byte)
    requires a != key && a.Length == key.Length == BLOCK_SIZE
    requires a[..] == Repeat(pad, BLOCK_SIZE)
    modifies a
    ensures a[..] == XorWith(pad, key[..])
    ensures BitsOfOctets(a[..]) == Standard.ExclusiveOr(BitsOfOctets(key[..]), Standard.Filled(NatOf(pad)))
  {
    hide Xor, NatOf, BitsOfOctets, Standard.ExclusiveOr, Standard.Filled;
    for i := 0 to BLOCK_SIZE
      invariant forall j :: 0 <= j < i ==> a[j] == Xor(pad, key[j])
      invariant forall j :: i <= j < BLOCK_SIZE ==> a[j] == pad
    {
      a[i] := Xor(a[i], key[i]);
    }
    BitsOfXorWith(pad, key[..]);
  }

  /** Reset, one Input and Result on the same context. None of the three return codes is an
      error, so the program never leaves through its error exit. */
  method HashOnce(sha: Sha1Context, data: array<Byte>, length: nat, digest: array<Byte>)
    requires sha.Shape()
    requires length < WORD_LIMIT && length <= data.Length && digest.Length >= 20
    requires data != sha.messageBlock && digest != sha.messageBlock && digest != data
    modifies sha, sha.intermediateHash, sha.messageBlock, digest
    ensures digest[..] == Sha1(data[..length]) + old(digest[20..])
  {
    hide Sha1, FinalHash, Covers, Zeros, BitLength;
    ghost var message := data[..length];
    var code := sha.Reset();
    assert code == SHA_SUCCESS;
    assert [] + message == message;
    code := sha.Input(data, length);
    assert code == SHA_SUCCESS;
    code := sha.Result(digest);
    assert code == SHA_SUCCESS;
  }

  /** Brings the key to block size in a cleared buffer, hashing it first when it is too long. */
  method NormaliseKey(sha: Sha1Context, key: array<Byte>, length: nat, sha1Key: array<Byte>)
    requires sha.Shape() && length <= key.Length && sha1Key.Length == BLOCK_SIZE && sha1Key[..] == Zeros(BLOCK_SIZE)
    requires key != sha.messageBlock && sha1Key != sha.messageBlock && sha1Key != key
    modifies sha, sha.intermediateHash, sha.messageBlock, sha1Key
    ensures sha1Key[..] == CodeKeyBlock(key[..length])
  {
    hide Sha1;
    if length > BLOCK_SIZE {
      assert key[..length % WORD_LIMIT] == key[..length][..length % WORD_LIMIT];
      HashOnce(sha, key, length % WORD_LIMIT, sha1Key);
    } else {
      MemCpy(sha1Key, 0, key, length);
    }
  }

  /** Appends some data to a block in a large buffer and hashes both. */
  method HashAppended(sha: Sha1Context, block: array<Byte>, data: array<Byte>, length: nat,
                      appendBuf: array<Byte>, digest: array<Byte>)
    requires sha.Shape() && block.Length == BLOCK_SIZE && appendBuf.Length == BUFFER_LENGTH && digest.Length >= 20
    requires length <= data.Length && BLOCK_SIZE + length <= BUFFER_LENGTH
    requires block != sha.messageBlock && data != sha.messageBlock && appendBuf != sha.messageBlock && digest != sha.messageBlock
    requires appendBuf != block && appendBuf != data && appendBuf != digest
    modifies sha, sha.intermediateHash, sha.messageBlock, appendBuf, digest
    ensures digest[..] == Sha1(old(block[..] + data[..length])) + old(digest[20..])
  {
    hide Sha1;
    ghost var all := block[..] + data[..length];
    MemCpy(appendBuf, 0, block, BLOCK_SIZE);
    assert appendBuf[..BLOCK_SIZE] == block[..];
    MemCpy(appendBuf, BLOCK_SIZE, data, length);
    assert appendBuf[..BLOCK_SIZE + length] == all;
    HashOnce(sha, appendBuf, BLOCK_SIZE + length, digest);
  }

  /** The inner and the outer run, once the key has its block size. */
  method HashInnerAndOuter(sha: Sha1Context, mIpad: array<Byte>, mOpad: array<Byte>, sha1Key: array<Byte>,
                           text: array<Byte>, length: nat, messageDigest: array<Byte>)
    requires sha.Shape() && messageDigest.Length >= 20
    requires mIpad.Length == mOpad.Length == sha1Key.Length == BLOCK_SIZE
    requires mIpad[..] == Repeat(0x36, BLOCK_SIZE) && mOpad[..] == Repeat(0x5c, BLOCK_SIZE)
    requires length <= text.Length && length <= BUFFER_LENGTH - BLOCK_SIZE
    requires mIpad != mOpad && sha1Key != mIpad && sha1Key != mOpad
    requires sha.messageBlock !in {mIpad, mOpad, sha1Key, text, messageDigest}
    requires text !in {mIpad, mOpad} && messageDigest !in {mIpad, mOpad}
    modifies sha, sha.intermediateHash, sha.messageBlock, mIpad, mOpad, messageDigest
    ensures messageDigest[..] == Mac(old(sha1Key[..]), old(text[..length])) + old(messageDigest[20..])
  {
    hide Sha1, XorWith, Repeat;
    var appendBuf1 := new Byte[BUFFER_LENGTH];
    var appendBuf2 := new Byte[BUFFER_LENGTH];
    var szReport := new Byte[BUFFER_LENGTH];
    XorInto(mIpad, sha1Key, 0x36);
    HashAppended(sha, mIpad, text, length, appendBuf1, szReport);
    XorInto(mOpad, sha1Key, 0x5c);
    HashAppended(sha, mOpad, szReport, 20, appendBuf2, messageDigest);
  }

  /** Everything after the digest has been cleared: the three runs of one context. */
  method HashKeyed(text: array<Byte>, key: array<Byte>, messageDigest: array<Byte>)
    requires messageDigest.Length >= 20
    requires 0 in text[..] && 0 in key[..]
    requires |CString(text[..])| <= BUFFER_LENGTH - BLOCK_SIZE
    modifies messageDigest
    ensures messageDigest[..] ==
            Mac(CodeKeyBlock(old(CString(key[..]))), old(CString(text[..]))) + old(messageDigest[20..])
  {
    hide Sha1, StrLen, CodeKeyBlock, Mac, Zeros, Repeat;
    var mIpad := new Byte[BLOCK_SIZE];
    var mOpad := new Byte[BLOCK_SIZE];
    var sha := new Sha1Context();
    var sha1Key := new Byte[BLOCK_SIZE];
    MemSet(sha1Key, 0, BLOCK_SIZE);
    MemSet(mIpad, 0x36, BLOCK_SIZE);
    MemSet(mOpad, 0x5c, BLOCK_SIZE);
    ZerosRepeat();
    NormaliseKey(sha, key, StrLen(key[..]), sha1Key);
    HashInnerAndOuter(sha, mIpad, mOpad, sha1Key, text, StrLen(text[..]), messageDigest);
  }

  lemma ZerosRepeat()
    ensures Zeros(BLOCK_SIZE) == Repeat(0, BLOCK_SIZE)
  {
  }

  lemma ClearedString(s: seq<Byte>, rest: seq<Byte>)
    requires s == Repeat(0, 20) + rest
    ensures 0 in s && CString(s) == [] && s[20..] == rest
  {
    assert s[0] == 0;
  }

  /** An argument as strlen sees it. Clearing the digest comes first, so a key or a text passed
      in the same array as the digest has become the empty string by then. */
  ghost function Seen(s: array<Byte>, messageDigest: array<Byte>): seq<Byte>
    requires 0 in s[..]
    reads s
  {
    if s == messageDigest then [] else CString(s[..])
  }

  /** Any aliasing of whole arrays among the three arguments is allowed; with the digest apart
      from both strings, this is RFC 2104 of the two. */
  method HmacSha1(text: array<Byte>, key: array<Byte>, messageDigest: array<Byte>)
    requires messageDigest.Length >= 20
    requires 0 in text[..] && 0 in key[..]
    requires |Seen(text, messageDigest)| <= 4032
    modifies messageDigest
    ensures messageDigest[..] ==
            Mac(CodeKeyBlock(old(Seen(key, messageDigest))), old(Seen(text, messageDigest))) + old(messageDigest[20..])
    ensures key != messageDigest && text != messageDigest && |CString(key[..])| < WORD_LIMIT ==>
              && messageDigest[..] == Rfc2104(CString(key[..]), CString(text[..])) + old(messageDigest[20..])
              && BitsOfOctets(messageDigest[..20]) ==
                 Standard.Hmac(BitsOfOctets(CString(key[..])), BitsOfOctets(CString(text[..])))
  {
    hide BitsOfOctets, Standard.Hmac, Sha1, CString, CodeKeyBlock, Mac, Repeat;
    ghost var rest := messageDigest[20..];
    MemSet(messageDigest, 0, 20);
    ClearedString(messageDigest[..], rest);
    HashKeyed(text, key, messageDigest);
    if key != messageDigest && text != messageDigest {
      Rfc2104IsStandard(CString(key[..]), CString(text[..]));
    }
  }

  // ---------- What the padded key tells about the key ----------

  lemma XorCancels(pad: Byte, x: Byte)
    ensures Xor(pad, Xor(pad, x)) == x
  {
  }

  lemma XorIsInjective(pad: Byte, s: seq<Byte>, t: seq<Byte>)
    requires XorWith(pad, s) == XorWith(pad, t)
    ensures s == t
  {
    hide Xor;
    assert |s| == |XorWith(pad, s)| == |t|;
    forall i | 0 <= i < |s|
      ensures s[i] == t[i]
    {
      assert Xor(pad, s[i]) == XorWith(pad, s)[i] == Xor(pad, t[i]);
      XorCancels(pad, s[i]);
      XorCancels(pad, t[i]);
    }
  }

  function StripZeros(s: seq<Byte>): seq<Byte> {
    if s == [] || s[|s| - 1] != 0 then s else StripZeros(s[..|s| - 1])
  }

  /** Zero padding of a C string can be undone. */
  lemma {:induction false} PaddingStripped(key: seq<Byte>, zeros: nat)
    requires 0 !in key
    ensures StripZeros(key + Zeros(zeros)) == key
  {
    var s := key + Zeros(zeros);
    if zeros == 0 {
      assert s == key;
    } else {
      assert s[..|s| - 1] == key + Zeros(zeros - 1);
      PaddingStripped(key, zeros - 1);
    }
  }

  /** Two C-string keys that need no hashing give the same inner block, and the same outer one,
      only when they are the same key. */
  lemma ShortKeysKeepApart(k1: seq<Byte>, k2: seq<Byte>, pad: Byte)
    requires |k1| <= BLOCK_SIZE && |k2| <= BLOCK_SIZE && 0 !in k1 && 0 !in k2
    ensures XorWith(pad, CodeKeyBlock(k1)) == XorWith(pad, CodeKeyBlock(k2)) <==> k1 == k2
  {
    hide XorWith, Sha1;
    if XorWith(pad, CodeKeyBlock(k1)) == XorWith(pad, CodeKeyBlock(k2)) {
      XorIsInjective(pad, CodeKeyBlock(k1), CodeKeyBlock(k2));
      PaddingStripped(k1, BLOCK_SIZE - |k1|);
      PaddingStripped(k2, BLOCK_SIZE - |k2|);
    }
  }

  /** Without the terminator convention the same is false: a key and the key with a zero octet
      appended are padded alike. */
  lemma TrailingZeroIsLost(key: seq<Byte>)
    requires |key| < BLOCK_SIZE
    ensures ZeroPad(key + [0]) == ZeroPad(key) && key + [0] != key
  {
    assert |key + [0]| != |key|;
    assert (key + [0]) + Zeros(BLOCK_SIZE - |key| - 1) == key + Zeros(BLOCK_SIZE - |key|);
  }

  lemma ZeroBlock(key: seq<Byte>)
    requires |key| <= BLOCK_SIZE && 0 !in key
    ensures ZeroPad(key) == Zeros(BLOCK_SIZE) <==> key == []
  {
    assert [] + Zeros(BLOCK_SIZE) == Zeros(BLOCK_SIZE);
    PaddingStripped(key, BLOCK_SIZE - |key|);
    PaddingStripped([], BLOCK_SIZE);
  }

  lemma ZeroDigest(digest: seq<Byte>)
    requires |digest| == 20
    ensures ZeroPad(digest) == Zeros(BLOCK_SIZE) <==> digest == Zeros(20)
  {
    assert Zeros(20) + Zeros(BLOCK_SIZE - 20) == Zeros(BLOCK_SIZE);
    assert ZeroPad(digest)[..20] == digest && Zeros(BLOCK_SIZE)[..20] == Zeros(20);
  }

  /** When the key shares its array with the digest it is hashed as the empty key. That is the key
      block of the caller's own key only if that key is empty or, being longer than a block, has a
      digest of zeros alone. */
  lemma EmptyKeyStandsFor(key: seq<Byte>)
    requires 0 !in key
    ensures |key| <= BLOCK_SIZE ==> (KeyBlock([]) == KeyBlock(key) <==> key == [])
    ensures |key| > BLOCK_SIZE ==> (KeyBlock([]) == KeyBlock(key) <==> Sha1(key) == Zeros(20))
  {
    hide Sha1, Zeros, ZeroPad;
    ZeroBlock([]);
    if |key| <= BLOCK_SIZE {
      ZeroBlock(key);
    } else {
      ZeroDigest(Sha1(key));
    }
  }

  /** A key longer than a block stands for its digest. */
  lemma LongKeyIsItsDigest(key: seq<Byte>, text: seq<Byte>)
    requires BLOCK_SIZE < |key| < WORD_LIMIT
    ensures Mac(CodeKeyBlock(key), text) == Rfc2104(Sha1(key), text)
  {
  }
}
