/** Octets and 32-bit words as SHA-1 uses them, and the big-endian layout that ties the two. */
module Words {
  type Byte = bv8
  type Word = bv32

  // ---------- Rotations ----------

  /** The circular left shift S^n(X) of section 3 of RFC 3174, and its inverse. */
  function RotateLeft(n: nat, word: Word): Word
    requires n < 32
  {
    word.RotateLeft(n)
  }

  function RotateRight(n: nat, word: Word): Word
    requires n < 32
  {
    word.RotateRight(n)
  }

  lemma RotationsCancel(word: Word)
    ensures RotateRight(30, RotateLeft(30, word)) == word
    ensures RotateLeft(30, RotateRight(30, word)) == word
  {
    assert word.RotateLeft(30).RotateRight(30) == word;
    assert word.RotateRight(30).RotateLeft(30) == word;
  }

  /** The rotation macro of the program, at the three distances it is used with. */
  function CircularShift(bits: nat, word: Word): Word
    requires bits == 1 || bits == 5 || bits == 30
  {
    if bits == 1 then (word << 1) | (word >> 31)
    else if bits == 5 then (word << 5) | (word >> 27)
    else (word << 30) | (word >> 2)
  }

  lemma CircularShiftRotates(word: Word)
    ensures CircularShift(1, word) == RotateLeft(1, word)
    ensures CircularShift(5, word) == RotateLeft(5, word)
    ensures CircularShift(30, word) == RotateLeft(30, word)
  {
  }

  // ---------- Words as octets ----------

  /** Four octets, most significant first, as one word. */
  function LoadWord(b0: Byte, b1: Byte, b2: Byte, b3: Byte): Word {
    ((b0 as Word) << 24) | ((b1 as Word) << 16) | ((b2 as Word) << 8) | (b3 as Word)
  }

  /** Octet k of a word; octet 0 is the most significant one. */
  function Octet(w: Word, k: nat): Byte
    requires k < 4
  {
    if k == 0 then (w >> 24) as Byte
    else if k == 1 then ((w >> 16) & 0xFF) as Byte
    else if k == 2 then ((w >> 8) & 0xFF) as Byte
    else (w & 0xFF) as Byte
  }

  lemma LoadThenOctet(b0: Byte, b1: Byte, b2: Byte, b3: Byte)
    ensures Octet(LoadWord(b0, b1, b2, b3), 0) == b0
    ensures Octet(LoadWord(b0, b1, b2, b3), 1) == b1
    ensures Octet(LoadWord(b0, b1, b2, b3), 2) == b2
    ensures Octet(LoadWord(b0, b1, b2, b3), 3) == b3
  {
  }

  lemma OctetsThenLoad(w: Word)
    ensures LoadWord(Octet(w, 0), Octet(w, 1), Octet(w, 2), Octet(w, 3)) == w
  {
  }

  function WordAt(octets: seq<Byte>, i: nat): Word
    requires 4 * i + 4 <= |octets|
  {
    LoadWord(octets[4 * i], octets[4 * i + 1], octets[4 * i + 2], octets[4 * i + 3])
  }

  /** A string of octets read as words. */
  function ToWords(octets: seq<Byte>): (words: seq<Word>)
    requires |octets| % 4 == 0
    ensures |words| == |octets| / 4
  {
    seq(|octets| / 4, i requires 0 <= i < |octets| / 4 => WordAt(octets, i))
  }

  lemma WordIsAt(octets: seq<Byte>, i: nat)
    requires |octets| % 4 == 0 && 4 * i < |octets|
    ensures ToWords(octets)[i] == WordAt(octets, i)
  {
    hide LoadWord;
  }

  /** A string of words written as octets. */
  function ToOctets(words: seq<Word>): (octets: seq<Byte>)
    ensures |octets| == 4 * |words|
  {
    seq(4 * |words|, i requires 0 <= i < 4 * |words| => Octet(words[i / 4], i % 4))
  }

  lemma OctetsOfWords(octets: seq<Byte>)
    requires |octets| % 4 == 0
    ensures ToOctets(ToWords(octets)) == octets
  {
    hide LoadWord, Octet;
    forall i | 0 <= i < |octets|
      ensures ToOctets(ToWords(octets))[i] == octets[i]
    {
      var j := i / 4;
      LoadThenOctet(octets[4 * j], octets[4 * j + 1], octets[4 * j + 2], octets[4 * j + 3]);
    }
  }

  lemma OctetAt(words: seq<Word>, i: nat, k: nat)
    requires i < |words| && k < 4
    ensures ToOctets(words)[4 * i + k] == Octet(words[i], k)
  {
    hide Octet;
    assert (4 * i + k) / 4 == i && (4 * i + k) % 4 == k;
  }

  lemma WordsOfOctets(words: seq<Word>)
    ensures ToWords(ToOctets(words)) == words
  {
    hide LoadWord, Octet, ToOctets;
    forall i | 0 <= i < |words|
      ensures ToWords(ToOctets(words))[i] == words[i]
    {
      OctetAt(words, i, 0);
      OctetAt(words, i, 1);
      OctetAt(words, i, 2);
      OctetAt(words, i, 3);
      OctetsThenLoad(words[i]);
    }
  }
}
