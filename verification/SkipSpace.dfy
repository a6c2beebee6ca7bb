/** Two fast forms of dropping trailing spaces, against the plain backward loop over octets. */
module SkipSpace {
  import opened Words
  import opened Numbers
  import opened ByteOrder

  const SPACE: Byte := 0x20

  /** Everything from end on is a space, and the octet before end, if any, is not. */
  predicate IsEnd(s: seq<Byte>, end: nat) {
    && end <= |s|
    && (forall i :: end <= i < |s| ==> s[i] == SPACE)
    && (end > 0 ==> s[end - 1] != SPACE)
  }

  /** The plain loop: one octet at a time from the back. */
  function TrimEnd(s: seq<Byte>): nat {
    if |s| > 0 && s[|s| - 1] == SPACE then TrimEnd(s[..|s| - 1]) else |s|
  }

  lemma {:induction false} TrimEndIsTheEnd(s: seq<Byte>, end: nat)
    ensures IsEnd(s, end) <==> end == TrimEnd(s)
  {
    if |s| > 0 && s[|s| - 1] == SPACE {
      TrimEndIsTheEnd(s[..|s| - 1], end);
      if IsEnd(s[..|s| - 1], end) {
        assert IsEnd(s, end);
      }
      if IsEnd(s, end) {
        assert IsEnd(s[..|s| - 1], end);
      }
    }
  }

  // ---------- Words full of spaces ----------

  /** The constant 0x2020...20 of n octets. */
  function SpaceWord(n: nat): nat {
    if n == 0 then 0 else 0x20 + 256 * SpaceWord(n - 1)
  }

  lemma SpaceWordValues()
    ensures SpaceWord(4) == 0x2020_2020 && SpaceWord(8) == 0x2020_2020_2020_2020
  {
    assert SpaceWord(2) == 0x2020;
    assert SpaceWord(6) == 0x2020_2020_2020;
  }

  predicate AllSpaces(s: seq<Byte>) {
    forall i :: 0 <= i < |s| ==> s[i] == SPACE
  }

  lemma SpaceIs32(b: Byte)
    ensures b == SPACE <==> NatOf(b) == 0x20
    ensures NatOf(b) < 256
  {
  }

  lemma {:induction false} LittleSpaces(s: seq<Byte>)
    ensures LittleValue(s) == SpaceWord(|s|) <==> AllSpaces(s)
  {
    hide NatOf;
    if |s| > 0 {
      SpaceIs32(s[0]);
      LittleSpaces(s[1..]);
      assert AllSpaces(s) <==> s[0] == SPACE && AllSpaces(s[1..]) by {
        if s[0] == SPACE && AllSpaces(s[1..]) {
          assert forall i :: 0 < i < |s| ==> s[i] == s[1..][i - 1];
        }
      }
    }
  }

  lemma {:induction false} BigSpaces(s: seq<Byte>)
    ensures Value(s) == SpaceWord(|s|) <==> AllSpaces(s)
  {
    hide NatOf;
    if |s| > 0 {
      var n := |s| - 1;
      SpaceIs32(s[n]);
      BigSpaces(s[..n]);
      assert AllSpaces(s) <==> s[n] == SPACE && AllSpaces(s[..n]);
    }
  }

  /** A machine word in memory, in either byte order. */
  function MachineWord(s: seq<Byte>, bigEndian: bool): nat {
    if bigEndian then Value(s) else LittleValue(s)
  }

  lemma WordOfSpaces(s: seq<Byte>, bigEndian: bool)
    ensures MachineWord(s, bigEndian) == SpaceWord(|s|) <==> AllSpaces(s)
  {
    LittleSpaces(s);
    BigSpaces(s);
  }

  lemma EightSpaces(s: seq<Byte>)
    requires |s| == 8
    ensures Uint8korr(s) == 0x2020_2020_2020_2020 <==> AllSpaces(s)
  {
    SpaceWordValues();
    Uint8IsTheCodec(s);
    LittleSpaces(s);
  }

  // ---------- Eight octets at a time ----------

  method SkipTrailingSpace(ptr: array<Byte>) returns (end: nat)
    ensures IsEnd(ptr[..], end) && end == TrimEnd(ptr[..])
  {
    hide Uint8korr, TrimEnd;
    end := ptr.Length;
    while end >= 8
      invariant end <= ptr.Length
      invariant forall i :: end <= i < ptr.Length ==> ptr[i] == SPACE
    {
      EightSpaces(ptr[end - 8..end]);
      if Uint8korr(ptr[end - 8..end]) != 0x2020_2020_2020_2020 {
        break;
      }
      assert forall i :: end - 8 <= i < end ==> ptr[i] == ptr[end - 8..end][i - (end - 8)];
      end := end - 8;
    }
    end := SkipOctets(ptr, end, 0);
    TrimEndIsTheEnd(ptr[..], end);
  }

  /** The loop that steps back one octet at a time, as far as a lower bound. */
  method SkipOctets(ptr: array<Byte>, from: nat, bound: nat) returns (end: nat)
    requires bound <= from <= ptr.Length
    requires forall i :: from <= i < ptr.Length ==> ptr[i] == SPACE
    ensures bound <= end <= from
    ensures forall i :: end <= i < ptr.Length ==> ptr[i] == SPACE
    ensures end > bound ==> ptr[end - 1] != SPACE
  {
    end := from;
    while end > bound && ptr[end - 1] == SPACE
      invariant bound <= end <= from
      invariant forall i :: end <= i < ptr.Length ==> ptr[i] == SPACE
    {
      end := end - 1;
    }
  }

  // ---------- One aligned word at a time ----------

  /** A word is read only at an aligned address and wholly inside the buffer. */
  function ReadWord(base: nat, s: seq<Byte>, at: nat, size: nat, bigEndian: bool): nat
    requires size > 0 && at + size <= |s| && (base + at) % size == 0
  {
    MachineWord(s[at..at + size], bigEndian)
  }

  lemma AlignedBounds(base: nat, length: nat, size: nat)
    requires size == 4 || size == 8
    requires length > 20 && base + length < DOUBLE_LIMIT
    ensures
      var endWords := (base + length) / size * size;
      var startWords := (base + size - 1) % DOUBLE_LIMIT / size * size;
      && base < endWords <= base + length && endWords % size == 0
      && base <= startWords < endWords && startWords % size == 0
  {
  }

  lemma RoomForAWord(base: nat, end: nat, start: nat, size: nat)
    requires (size == 4 || size == 8) && start < base + end && (base + end) % size == 0 && start % size == 0
    ensures start + size <= base + end && (base + end - size) % size == 0
  {
  }

  /** base is the address of the first octet, size is sizeof(int). */
  method SkipTrailingSpaceAligned(base: nat, ptr: array<Byte>, size: nat, bigEndian: bool) returns (end: nat)
    requires size == 4 || size == 8
    requires base + ptr.Length < DOUBLE_LIMIT
    ensures IsEnd(ptr[..], end) && end == TrimEnd(ptr[..])
  {
    hide MachineWord, TrimEnd, SpaceWord;
    var spaceInt: nat := if size == 4 then 0x2020_2020 else 0x2020_2020_2020_2020;
    SpaceWordValues();
    end := ptr.Length;
    if ptr.Length > 20 {
      AlignedBounds(base, ptr.Length, size);
      var endWords := (base + ptr.Length) / size * size;
      var startWords := (base + size - 1) % DOUBLE_LIMIT / size * size;
      assert endWords > base;
      end := SkipOctets(ptr, end, endWords - base);
      if ptr[end - 1] == SPACE && startWords < endWords {
        while base + end > startWords
          invariant end <= ptr.Length && startWords <= base + end && (base + end) % size == 0
          invariant forall i :: end <= i < ptr.Length ==> ptr[i] == SPACE
        {
          RoomForAWord(base, end, startWords, size);
          var word := ReadWord(base, ptr[..], end - size, size, bigEndian);
          assert ptr[..][end - size..end - size + size] == ptr[end - size..end];
          WordOfSpaces(ptr[end - size..end], bigEndian);
          if word != spaceInt {
            break;
          }
          assert forall i :: end - size <= i < end ==> ptr[i] == ptr[end - size..end][i - (end - size)];
          end := end - size;
        }
      }
    }
    end := SkipOctets(ptr, end, 0);
    TrimEndIsTheEnd(ptr[..], end);
  }
}
