/** The SHA-1 compression function as sections 5 and 6.1 of RFC 3174 define it: the logical
    functions, the constants, the schedule of eighty words and the eighty rounds. */
module Compression {
  import opened Words

  datatype Registers = Registers(a: Word, b: Word, c: Word, d: Word, e: Word)

  // The logical functions f(t;B,C,D) of section 5.
  function F(t: nat, b: Word, c: Word, d: Word): Word
    requires t < 80
  {
    if t < 20 then (b & c) | ((!b) & d)
    else if t < 40 then b ^ c ^ d
    else if t < 60 then (b & c) | (b & d) | (c & d)
    else b ^ c ^ d
  }

  // The constants K(t) of section 5.
  function K(t: nat): Word
    requires t < 80
  {
    if t < 20 then 0x5A827999
    else if t < 40 then 0x6ED9EBA1
    else if t < 60 then 0x8F1BBCDC
    else 0xCA62C1D6
  }

  /** Addition of words, modulo 2^32. */
  function Plus(x: Word, y: Word): Word {
    x + y
  }

  /** The five-term addition of a round, modulo 2^32. */
  function Sum(x: Word, f: Word, e: Word, w: Word, k: Word): Word {
    x + f + e + w + k
  }

  function Temp(t: nat, w: Word, s: Registers): Word
    requires t < 80
  {
    Sum(RotateLeft(5, s.a), F(t, s.b, s.c, s.d), s.e, w, K(t))
  }

  function Round(t: nat, w: Word, s: Registers): Registers
    requires t < 80
  {
    Registers(Temp(t, w, s), s.a, RotateLeft(30, s.b), s.c, s.d)
  }

  /** The first t rounds. */
  function Rounds(w: seq<Word>, t: nat, s: Registers): Registers
    requires t <= |w| == 80
  {
    if t == 0 then s else Round(t - 1, w[t - 1], Rounds(w, t - 1, s))
  }

  function Xor3(p: Word, q: Word, r: Word): Word {
    p ^ q ^ r
  }

  /** One step of the schedule: three nearer words, already combined in z, and the farthest one. */
  function Mix(z: Word, x: Word): Word {
    RotateLeft(1, z ^ x)
  }

  /** The farthest word that Mix folded into y. */
  function Unmix(y: Word, z: Word): Word {
    RotateRight(1, y) ^ z
  }

  lemma UnmixAfterMix(z: Word, x: Word)
    ensures Unmix(Mix(z, x), z) == x
  {
    calc {
      Unmix(Mix(z, x), z);
      (z ^ x).RotateLeft(1).RotateRight(1) ^ z;
      x;
    }
  }

  lemma MixAfterUnmix(z: Word, y: Word)
    ensures Mix(z, Unmix(y, z)) == y
  {
    calc {
      Mix(z, Unmix(y, z));
      (z ^ (y.RotateRight(1) ^ z)).RotateLeft(1);
      y;
    }
  }

  lemma MixWithMacro(z: Word, x: Word)
    ensures CircularShift(1, z ^ x) == Mix(z, x)
  {
    CircularShiftRotates(z ^ x);
  }

  function NextWord(w: seq<Word>): Word
    requires |w| >= 16
  {
    var n := |w|;
    Mix(Xor3(w[n - 3], w[n - 8], w[n - 14]), w[n - 16])
  }

  /** The first n words of the schedule grown from the sixteen words of a block. */
  function Schedule(m: seq<Word>, n: nat): (w: seq<Word>)
    requires |m| == 16 <= n
    ensures |w| == n
  {
    if n == 16 then m else
    var w := Schedule(m, n - 1);
    w + [NextWord(w)]
  }

  lemma ScheduleGrows(m: seq<Word>, n: nat)
    requires |m| == 16 <= n
    ensures Schedule(m, 16) == m
    ensures Schedule(m, n + 1) == Schedule(m, n) + [NextWord(Schedule(m, n))]
  {
  }

  function Add(x: Registers, y: Registers): Registers {
    Registers(Plus(x.a, y.a), Plus(x.b, y.b), Plus(x.c, y.c), Plus(x.d, y.d), Plus(x.e, y.e))
  }

  function Compress(h: Registers, block: seq<Byte>): Registers
    requires |block| == 64
  {
    Add(h, Rounds(Schedule(ToWords(block), 80), 80, h))
  }

  function AsWords(s: Registers): (words: seq<Word>)
    ensures |words| == 5
  {
    [s.a, s.b, s.c, s.d, s.e]
  }

  // ---------- The rounds are a permutation of the register file ----------

  /** The addend e of a sum and its other four addends. */
  function Remainder(sum: Word, x: Word, f: Word, w: Word, k: Word): Word {
    sum - x - f - w - k
  }

  function UndoRound(t: nat, w: Word, s: Registers): Registers
    requires t < 80
  {
    var b := RotateRight(30, s.c);
    Registers(s.b, b, s.d, s.e, Remainder(s.a, RotateLeft(5, s.b), F(t, b, s.d, s.e), w, K(t)))
  }

  function UndoRounds(w: seq<Word>, t: nat, s: Registers): Registers
    requires t <= |w| == 80
  {
    if t == 0 then s else UndoRounds(w, t - 1, UndoRound(t - 1, w[t - 1], s))
  }

  lemma SumCancels(x: Word, f: Word, e: Word, w: Word, k: Word)
    ensures Remainder(Sum(x, f, e, w, k), x, f, w, k) == e
    ensures Sum(x, f, Remainder(e, x, f, w, k), w, k) == e
  {
    calc {
      Remainder(Sum(x, f, e, w, k), x, f, w, k);
      Remainder(x + f + e + w + k, x, f, w, k);
      (x + f + e + w + k) - x - f - w - k;
      e;
    }
    calc {
      Sum(x, f, Remainder(e, x, f, w, k), w, k);
      Sum(x, f, e - x - f - w - k, w, k);
      x + f + (e - x - f - w - k) + w + k;
      e;
    }
  }

  lemma RoundUndone(t: nat, w: Word, s: Registers)
    requires t < 80
    ensures UndoRound(t, w, Round(t, w, s)) == s
    ensures Round(t, w, UndoRound(t, w, s)) == s
  {
    hide F, K, Sum, Remainder, RotateLeft, RotateRight;
    RotationsCancel(s.b);
    RotationsCancel(s.c);
    SumCancels(RotateLeft(5, s.a), F(t, s.b, s.c, s.d), s.e, w, K(t));
    SumCancels(RotateLeft(5, s.b), F(t, RotateRight(30, s.c), s.d, s.e), s.a, w, K(t));
  }

  /** The map of the eighty rounds has a two-sided inverse, whatever the schedule. */
  lemma {:induction false} RoundsAreBijective(w: seq<Word>, t: nat, s: Registers)
    requires t <= |w| == 80
    ensures UndoRounds(w, t, Rounds(w, t, s)) == s
    ensures Rounds(w, t, UndoRounds(w, t, s)) == s
  {
    hide Round, UndoRound;
    if t > 0 {
      RoundUndone(t - 1, w[t - 1], Rounds(w, t - 1, s));
      RoundsAreBijective(w, t - 1, s);
      RoundUndone(t - 1, w[t - 1], s);
      RoundsAreBijective(w, t - 1, UndoRound(t - 1, w[t - 1], s));
    }
  }

  // ---------- The schedule can be run backwards ----------

  /** The word that stands before a window of sixteen consecutive ones. */
  function PreviousWord(v: seq<Word>): Word
    requires |v| >= 16
  {
    Unmix(v[15], Xor3(v[12], v[7], v[1]))
  }

  function RunBack(v: seq<Word>, k: nat): (w: seq<Word>)
    requires |v| >= 16
    ensures |w| == |v| + k
    decreases k
  {
    if k == 0 then v else RunBack([PreviousWord(v)] + v, k - 1)
  }

  /** The block whose schedule shows the window v at position k. */
  function RecoverBlock(v: seq<Word>, k: nat): (block: seq<Byte>)
    requires |v| == 16
    ensures |block| == 64
  {
    ToOctets(RunBack(v, k)[..16])
  }

  lemma {:induction false} SchedulePrefix(m: seq<Word>, i: nat, n: nat)
    requires |m| == 16 <= i <= n
    ensures Schedule(m, n)[..i] == Schedule(m, i)
  {
    if i < n {
      SchedulePrefix(m, i, n - 1);
      assert Schedule(m, n)[..n - 1] == Schedule(m, n - 1);
    }
  }

  lemma StepBack(m: seq<Word>, n: nat, k: nat, j: nat)
    requires |m| == 16 && 0 < k && k + 16 <= j <= n
    ensures PreviousWord(Schedule(m, n)[k..j]) == Schedule(m, n)[k - 1]
  {
    hide NextWord, Mix, Unmix, Xor3;
    var w := Schedule(m, n);
    SchedulePrefix(m, k + 16, n);
    SchedulePrefix(m, k + 15, n);
    assert w[k + 15] == NextWord(w[..k + 15]) by {
      assert w[k + 15] == w[..k + 16][k + 15];
    }
    NextWordAt(w, k + 15);
    UnmixAfterMix(Xor3(w[k + 12], w[k + 7], w[k + 1]), w[k - 1]);
  }

  lemma NextWordAt(w: seq<Word>, i: nat)
    requires 16 <= i <= |w|
    ensures NextWord(w[..i]) == Mix(Xor3(w[i - 3], w[i - 8], w[i - 14]), w[i - 16])
  {
  }

  lemma {:induction false} RunBackRestores(m: seq<Word>, n: nat, k: nat, j: nat)
    requires |m| == 16 && k + 16 <= j <= n
    ensures RunBack(Schedule(m, n)[k..j], k) == Schedule(m, n)[..j]
  {
    if k > 0 {
      StepBack(m, n, k, j);
      var w := Schedule(m, n);
      assert [w[k - 1]] + w[k..j] == w[k - 1..j];
      RunBackRestores(m, n, k - 1, j);
    }
  }

  /** Any sixteen consecutive words of a schedule give back the block it was grown from. */
  lemma WindowRecoversBlock(block: seq<Byte>, k: nat)
    requires |block| == 64 && k <= 64
    ensures RecoverBlock(Schedule(ToWords(block), 80)[k..k + 16], k) == block
  {
    var m := ToWords(block);
    RunBackRestores(m, 80, k, k + 16);
    SchedulePrefix(m, 16, 80);
    assert Schedule(m, 80)[..k + 16][..16] == Schedule(m, 80)[..16];
    OctetsOfWords(block);
  }

  /** Two blocks whose schedules agree on sixteen consecutive words are the same block. */
  lemma WindowDeterminesBlock(b1: seq<Byte>, b2: seq<Byte>, k: nat)
    requires |b1| == |b2| == 64 && k <= 64
    requires Schedule(ToWords(b1), 80)[k..k + 16] == Schedule(ToWords(b2), 80)[k..k + 16]
    ensures b1 == b2
  {
    hide Schedule, ToWords, RecoverBlock;
    WindowRecoversBlock(b1, k);
    WindowRecoversBlock(b2, k);
  }

  lemma {:induction false} RunBackStep(v: seq<Word>, k: nat)
    requires |v| >= 16
    ensures RunBack(v, k + 1) == [PreviousWord(RunBack(v, k))] + RunBack(v, k)
    ensures RunBack(v, k)[k..] == v
    decreases k
  {
    if k > 0 {
      RunBackStep([PreviousWord(v)] + v, k - 1);
      assert RunBack(v, k)[k..] == RunBack([PreviousWord(v)] + v, k - 1)[k - 1..][1..];
    }
  }

  lemma {:induction false} ExtendsRunBack(v: seq<Word>, k: nat, i: nat)
    requires |v| == 16 && i <= k
    ensures Schedule(RunBack(v, k)[..16], 16 + i) == RunBack(v, k)[..16 + i]
  {
    hide NextWord, PreviousWord, Mix, Unmix, Xor3;
    if i > 0 {
      var u := RunBack(v, k);
      ExtendsRunBack(v, k, i - 1);
      RunBackRecurrence(v, k, i - 1);
      NextWordAt(u, 15 + i);
      assert u[..16 + i] == u[..15 + i] + [u[15 + i]];
    }
  }

  lemma {:induction false} RunBackRecurrence(v: seq<Word>, k: nat, i: nat)
    requires |v| == 16 && i < k
    ensures RunBack(v, k)[i + 16] ==
            Mix(Xor3(RunBack(v, k)[i + 13], RunBack(v, k)[i + 8], RunBack(v, k)[i + 2]), RunBack(v, k)[i])
  {
    hide Mix, Unmix, Xor3;
    RunBackStep(v, k - 1);
    var u := RunBack(v, k - 1);
    if i == 0 {
      MixAfterUnmix(Xor3(u[12], u[7], u[1]), u[15]);
    } else {
      RunBackRecurrence(v, k - 1, i - 1);
    }
  }

  /** Every choice of sixteen words, at any place, is the window of exactly one block. */
  lemma EveryWindowOccurs(v: seq<Word>, k: nat)
    requires |v| == 16 && k <= 64
    ensures Schedule(ToWords(RecoverBlock(v, k)), 80)[k..k + 16] == v
  {
    hide Schedule, ToWords, ToOctets, RunBack;
    var u := RunBack(v, k);
    var m := u[..16];
    WordsOfOctets(m);
    ExtendsRunBack(v, k, k);
    assert u[..16 + k] == u;
    SchedulePrefix(m, k + 16, 80);
    assert Schedule(m, 80)[k..k + 16] == Schedule(m, 80)[..k + 16][k..];
    RunBackStep(v, k);
  }
}
