# MessengerServ: verified model of its hashing, locking and byte-level routines

The project models six parts of the server's C/C++ code and proves what they are for.

* **SHA-1** (`Words`, `Numbers`, `Compression`, `Padding`, `Sessions`, `Contexts`, `Clients`). The hashing context is a class
  with the program's fields: five chaining words, a 64-octet buffer with its index, the bit count in two 32-bit words and
  the `Computed` and `Corrupted` flags. Its methods are proved to refine a one-shot hash over machine words, and
  `Sessions`, the observable side of a context: what was taken in, whether the digest was computed, and the error it is
  stuck with. Laws over all sequences of calls are proved there, and `Clients.Drive` carries them over to the object.
* **The standards** (`Standard`, `WordBits`, `Refinement`). `Standard` is SHA-1 (RFC 3174, which is FIPS PUB 180-1) and HMAC
  (RFC 2104) on plain strings of bits, where addition is that of numbers and a shift is a cut and a swap. It shares no
  definition with the modules above. `WordBits` shows what each machine operation does to the bits and to the
  number of a word; `Refinement` carries this through the schedule, the rounds, a block, the padding and a message to
  `Refinement.Sha1IsStandard`, and `Hmac` on to `Hmac.Rfc2104IsStandard`. The contracts of `Contexts`, `Clients` and `Hmac`
  state their results in these terms too.
* **HMAC-SHA1** (`Hmac`): the keyed hash over C strings, three runs of one context, against section 2 of RFC 2104.
* **Reader/writer lock** (`RwLocks`): the Windows wrappers as atomic steps of any number of threads, with the unprotected
  flag that tells unlock which release to call. The methods of `NativeRwLock` are shown to be those steps, in the program's
  order; lock, flag and holders are shown to follow from the history of steps alone.
* **Mutex** (`Mutexes`): the Windows wrappers with the recursion check of trylock, in the same style.
* **Trailing spaces** (`SkipSpace`) and **byte order** (`ByteOrder`): both word-at-a-time loops against the octet loop, and all
  little-endian stores and readers as instances of one codec of any width.
* **Timeouts** (`Timespecs`): from a clock reading and a delay to a deadline to milliseconds, with 64-bit and 32-bit wrap-around.

Where the code and what its comments say differ, the model follows the code:

* `sha1.h` names `shaInputTooLong` for input that is too long. The code never returns it: an overflowing `SHA1Input` returns
  success itself, and every later Result and non-empty Input until Reset returns 1, the number of `shaNull` (`Sessions.ResultIsDecidedByHistory`,
  `Sessions.InputIsDecidedByHistory`, `Sessions.ChunkingNeverMatters`).
* `hmac_sha1` clears the digest before it looks at its strings. A key or a text in the same array as the digest is therefore
  hashed as the empty string; `Hmac.HmacSha1` says so, and states RFC 2104 for a digest apart from both.
  `Hmac.EmptyKeyStandsFor` says when the empty key happens to do for the caller's own.
* `hmac_sha1` keeps string lengths in an `int`. A key of 2^32 octets or more would be hashed for its length modulo 2^32 only
  (`Hmac.CodeKeyBlock`); with the 32-bit addresses of `ChatSer/include/my_config.h:172-173` no such key exists.
* `get_milliseconds` cuts its result to 32 bits, so a delay can be lost, even one that is itself under 2^32 ms
  (`Timespecs.DelayUnderTheLimitIsLost`). `Timespecs.DelayIsKept` gives the exact condition on the delay.
* One result of `get_milliseconds` is 2^32 - 1, which the same function returns by the name `INFINITE` at `thr_cond.h:58` in
  its other branch and `native_cond_timedwait` hands on: that timed wait never times out (`Timespecs.DelayBecomesUnbounded`,
  `Timespecs.DelayAlwaysEndsOnTime`).

Bitwise words are `bv32` and octets `bv8`; the counters, which the code only adds to and shifts, are bounded integers with the
reduction modulo 2^32 written out. In the proofs `hide` keeps the bodies of the word operations out of sight where only their
names matter.

## Model

| member | source | states |
|---|---|---|
| Words.CircularShiftRotates | ChatSer/encrypt/sha1.cpp:38-39 | the shift macro is the circular left shift of RFC 3174 at the distances it is used with |
| Words.OctetsOfWords | ChatSer/encrypt/sha1.cpp:249-255 | the big-endian loader loses nothing: writing the sixteen words out again gives the block |
| Words.WordsOfOctets | ChatSer/encrypt/sha1.cpp:131-135 | the digest layout loses nothing: its octets read back as the five words |
| Numbers.ValueOfBigEndian | ChatSer/encrypt/sha1.cpp:380-387 | a number stored most significant octet first in n octets is read back when it fits |
| Numbers.LengthField | ChatSer/encrypt/sha1.cpp:380-387 | the eight stores of the two length words are the 64-bit big-endian number they stand for |
| Numbers.StoredThenRead | ChatSer/include/my_byteorder.h:77-101 | at any width, stored and read back, a number is reduced modulo 256^n and nothing else |
| Numbers.ReadThenStored | ChatSer/include/my_byteorder.h:45-75 | at any width, read and stored again, every string of octets comes back |
| Numbers.LittleEndianSplits | ChatSer/include/byte_order_generic.h:91-97 | storing two halves one after the other is storing the whole number |
| WordBits.BitsOfBitwise | ChatSer/encrypt/sha1.cpp:259-304 | the and, or, not and exclusive or of words are those of section 3 of RFC 3174 on their 32 bits |
| WordBits.BitsOfRotated | ChatSer/encrypt/sha1.cpp:38-39 | a rotation by 1, 5 or 30 moves that many bits from the front of the string to its end |
| WordBits.NextCounts | ChatSer/encrypt/sha1.cpp:311-315 | adding one to a word counts its number one further, modulo 2^32 |
| WordBits.PlusAdds | ChatSer/encrypt/sha1.cpp:311-315 | the sum of two words stands for the sum of their numbers modulo 2^32 |
| WordBits.BitsOfPlus | ChatSer/encrypt/sha1.cpp:311-315 | the addition of words is the X + Y of section 3 of RFC 3174 |
| WordBits.BitsOfLoaded | ChatSer/encrypt/sha1.cpp:249-255 | the bits of a loaded word are those of its four octets, in their order |
| WordBits.LoadedValue | ChatSer/encrypt/sha1.cpp:249-255 | a loaded word stands for the number its octets spell, most significant first |
| WordBits.OctetValueIsNat | ChatSer/encrypt/sha1.cpp:249-255 | the eight bits of an octet spell the octet as a number |
| Compression.RoundUndone | ChatSer/encrypt/sha1.cpp:270-277 | each round has an explicit two-sided inverse |
| Compression.RoundsAreBijective | ChatSer/encrypt/sha1.cpp:262-309 | for every schedule the eighty rounds before the feed-forward are a bijection, undone by running the inverse rounds back |
| Compression.WindowRecoversBlock | ChatSer/encrypt/sha1.cpp:249-260 | any sixteen consecutive words of W give back all 64 octets of the block |
| Compression.EveryWindowOccurs | ChatSer/encrypt/sha1.cpp:249-260 | every sixteen words, at every position, are the window of the block recovered from them |
| Compression.WindowDeterminesBlock | ChatSer/encrypt/sha1.cpp:249-260 | blocks whose schedules agree on sixteen consecutive words are equal |
| Refinement.BitsOfF | ChatSer/encrypt/sha1.cpp:268-304 | the logical functions are bitwise choice, parity and majority |
| Refinement.BitsOfSum | ChatSer/encrypt/sha1.cpp:270-304 | the five-term sum of a round is four additions modulo 2^32 |
| Refinement.BitsOfMix | ChatSer/encrypt/sha1.cpp:259 | the schedule step is the exclusive or of all four words, shifted by one |
| Refinement.BitsOfK | ChatSer/encrypt/sha1.cpp:235-240 | the four round constants, as numbers |
| Refinement.BitsOfInitial | ChatSer/encrypt/sha1.cpp:71-75 | the five starting words, as numbers |
| Refinement.BitsOfSchedule | ChatSer/encrypt/sha1.cpp:249-260 | every word of the schedule is W(t) of RFC 3174 of the bits of the block |
| Refinement.BitsOfRound | ChatSer/encrypt/sha1.cpp:268-309 | a round is step d of section 6.1 on bits |
| Refinement.BitsOfRounds | ChatSer/encrypt/sha1.cpp:268-309 | so is any number of rounds on the schedule of a block |
| Refinement.BitsOfCompress | ChatSer/encrypt/sha1.cpp:249-315 | compressing a block is steps a to e of section 6.1 on its 512 bits |
| Refinement.BitsOfPad | ChatSer/encrypt/sha1.cpp:352-387 | the padded octets are the bits of the message, a 1, the fewest 0s that fit and the length modulo 2^64 |
| Refinement.BitsOfDigest | ChatSer/encrypt/sha1.cpp:131-135 | the digest octets are the bits of the five words in their order |
| Refinement.Sha1IsStandard | ChatSer/encrypt/sha1.cpp:60-389 | for every message, the hash of the model is SHA-1 of RFC 3174 on its bits |
| Refinement.BitsDetermineOctets | ChatSer/encrypt/sha1.cpp:131-135 | strings of octets with the same bits are equal, so the law above fixes every digest octet |
| Padding.PaddingIsMinimal | ChatSer/encrypt/sha1.cpp:352-375 | no smaller number of zeros fits; one more block when at most 55 octets are pending, two otherwise |
| Padding.UnpadPadded | ChatSer/encrypt/sha1.cpp:352-387 | reading the last eight octets as a bit count recovers the message up to the count held modulo 2^64 |
| Padding.PaddingRoundTrip | ChatSer/encrypt/sha1.cpp:352-387 | padding can be undone exactly for the messages shorter than 2^61 octets |
| Padding.PaddingIsInjective | ChatSer/encrypt/sha1.cpp:352-387 | two messages of any length are padded alike if and only if they are equal |
| Padding.FinalBlocks | ChatSer/encrypt/sha1.cpp:352-389 | the hash of a padded message is the chaining value of its full blocks followed by the one or two last blocks |
| Sessions.InputsCompose | ChatSer/encrypt/sha1.cpp:160-210 | in every state, two Input calls have the effect of one call with both pieces |
| Sessions.ReplyAt | ChatSer/encrypt/sha1.cpp:60-210 | each reply of a run is the one given in the state after the calls before it |
| Sessions.RunIsItsSummary | ChatSer/encrypt/sha1.cpp:60-210 | the state after any run with a Reset is given by what was gathered since, whether a digest was asked for, and whether octets came late |
| Sessions.ResultIsDecidedByHistory | ChatSer/encrypt/sha1.cpp:102-210 | the whole reply: error 1 from 2^61 gathered octets on, else error 3 when octets came late, else 0 with their one-shot digest |
| Sessions.InputIsDecidedByHistory | ChatSer/encrypt/sha1.cpp:160-210 | the reply to an Input that offers octets, by number, follows from the calls before it; no call is ever answered with anything but 0, 1 or 3 |
| Sessions.ChunkingNeverMatters | ChatSer/encrypt/sha1.cpp:60-210 | every way of cutting a message into Input calls gives its one-shot digest, or error 1 from 2^61 octets on |
| Sessions.ResultsAgree | ChatSer/encrypt/sha1.cpp:112-183 | repeated Results agree while no octet is offered, and offering one is a state error |
| Sessions.CorruptionIsFinal | ChatSer/encrypt/sha1.cpp:112-184 | once corrupted, nothing is taken in and no digest handed out until Reset |
| Sessions.EmptyInputsNeverMatter | ChatSer/encrypt/sha1.cpp:164-167 | in every run from every state an Input of no octets succeeds, and leaving all of them out changes nothing |
| Contexts.ChooseRound | ChatSer/encrypt/sha1.cpp:268-278 | a turn of the first loop is a round of RFC 3174 for every t below 20 |
| Contexts.FirstParityRound | ChatSer/encrypt/sha1.cpp:280-288 | the same for t from 20 to 39 |
| Contexts.MajorityRound | ChatSer/encrypt/sha1.cpp:290-299 | the same for t from 40 to 59 |
| Contexts.LastParityRound | ChatSer/encrypt/sha1.cpp:301-309 | the same for t from 60 to 79 |
| Contexts.ChooseRounds | ChatSer/encrypt/sha1.cpp:268-278 | the first loop takes the registers from round 0 to round 20 |
| Contexts.FirstParityRounds | ChatSer/encrypt/sha1.cpp:280-288 | the second loop takes them to round 40 |
| Contexts.MajorityRounds | ChatSer/encrypt/sha1.cpp:290-299 | the third loop takes them to round 60 |
| Contexts.LastParityRounds | ChatSer/encrypt/sha1.cpp:301-309 | the fourth loop takes them to round 80 |
| Contexts.CounterStep | ChatSer/encrypt/sha1.cpp:190-199 | the two-word counter holds eight times the octet count modulo 2^64, and both words are zero on octet 2^61 and on no earlier one |
| Contexts.CoverStep | ChatSer/encrypt/sha1.cpp:187-204 | storing one octet, and flushing the buffer when it is full, keeps chaining value and buffer the image of the whole message |
| Contexts.Sha1Context.constructor | ChatSer/encrypt/sha1.h:49-62 | a context is storage of the declared sizes with arbitrary contents |
| Contexts.Sha1Context.Reset | ChatSer/encrypt/sha1.cpp:60-81 | from any contents, a fresh session with the five starting words, as literals and as the numbers of section 6.1 of RFC 3174; returns 0 |
| Contexts.Sha1Context.BuildSchedule | ChatSer/encrypt/sha1.cpp:249-260 | both loops fill W with the schedule of the block; each word is W(0) to W(79) of RFC 3174 on the bits of the block |
| Contexts.Sha1Context.ProcessMessageBlock | ChatSer/encrypt/sha1.cpp:233-318 | the four loops and the feed-forward are steps a to e of section 6.1 of RFC 3174 on the bits of chaining value and block, and the index ends at 0 |
| Contexts.Sha1Context.CountOctet | ChatSer/encrypt/sha1.cpp:190-199 | the counter follows the octet count, and corruption is set on octet 2^61 |
| Contexts.Sha1Context.AbsorbOctet | ChatSer/encrypt/sha1.cpp:185-207 | one turn of the input loop keeps the representation invariant and appends one octet |
| Contexts.Sha1Context.Input | ChatSer/encrypt/sha1.cpp:160-210 | Input has the effect and the return code of the session, in every state and for every length |
| Contexts.Sha1Context.ZeroUpTo | ChatSer/encrypt/sha1.cpp:355-373 | the three zeroing loops of padding keep what stands before the index |
| Contexts.Sha1Context.PadTail | ChatSer/encrypt/sha1.cpp:352-375 | what both branches leave in the buffer, and the block that the longer one hashes |
| Contexts.Sha1Context.StoreLength | ChatSer/encrypt/sha1.cpp:380-387 | the last eight octets are the 64-bit length and the rest stays |
| Contexts.Sha1Context.PadMessage | ChatSer/encrypt/sha1.cpp:344-390 | from every valid context the chaining value becomes the hash of the padded message |
| Contexts.Sha1Context.ClearBlock | ChatSer/encrypt/sha1.cpp:120-124 | no octet of the message stays in the buffer |
| Contexts.Sha1Context.WriteDigest | ChatSer/encrypt/sha1.cpp:131-135 | the first twenty octets are the bits of the five chaining words in their order, and the others stay |
| Contexts.Sha1Context.Result | ChatSer/encrypt/sha1.cpp:102-138 | Result has the effect, the return code and the digest of the session, writes nothing on an error, and leaves buffer and length cleared; with 0 the digest is SHA-1 of RFC 3174 of the bits taken in |
| Clients.Drive | ChatSer/encrypt/sha1.cpp:60-210 | a context given any sequence of calls answers each as its session does |
| Clients.HashPieces | ChatSer/encrypt/sha1.cpp:60-210 | from a context with any contents, Reset, one Input per piece and Result write SHA-1 of RFC 3174 of the pieces put together if and only if they are shorter than 2^61 octets, and return 1 otherwise |
| Hmac.CodeKeyBlock | ChatSer/encrypt/hmac_sha1.cpp:37-46 | the key block of the code is that of RFC 2104 for every key shorter than 2^32 octets |
| Hmac.BitsOfOctetXor | ChatSer/encrypt/hmac_sha1.cpp:48-51 | the exclusive or of two octets is that of their bits, place by place |
| Hmac.BitsOfXorWith | ChatSer/encrypt/hmac_sha1.cpp:48-69 | a pad octet folded into a block is that octet, repeated, folded into its 512 bits |
| Hmac.BitsOfKeyBlock | ChatSer/encrypt/hmac_sha1.cpp:31-46 | the key block is the key, or its hash when it is longer than 512 bits, filled up with 0 bits |
| Hmac.Rfc2104IsStandard | ChatSer/encrypt/hmac_sha1.cpp:31-76 | for every key and text, the keyed hash of the model is HMAC of RFC 2104 on their bits, pads and order of runs included |
| Hmac.NormaliseKey | ChatSer/encrypt/hmac_sha1.cpp:39-46 | both branches leave the key block in the buffer |
| Hmac.XorInto | ChatSer/encrypt/hmac_sha1.cpp:48-51 | the pad octet is folded into every octet of the key block, bit by bit |
| Hmac.HashOnce | ChatSer/encrypt/hmac_sha1.cpp:57-59 | Reset, Input and Result on a context in any state give the digest, and the error exit is not taken |
| Hmac.HashAppended | ChatSer/encrypt/hmac_sha1.cpp:54-59 | a pad and the data after it, put together in the large buffer, are hashed as one string, within bounds |
| Hmac.HashInnerAndOuter | ChatSer/encrypt/hmac_sha1.cpp:48-76 | the inner and the outer run on one context give the MAC of a key block and a text |
| Hmac.HmacSha1 | ChatSer/encrypt/hmac_sha1.cpp:18-77 | HMAC of RFC 2104 on bits for every key and every text that fits, when the digest is apart; the exact result when it is not |
| Hmac.PaddingStripped | ChatSer/encrypt/hmac_sha1.cpp:31-46 | zero padding of a C string can be undone |
| Hmac.ShortKeysKeepApart | ChatSer/encrypt/hmac_sha1.cpp:46-51 | C-string keys of at most 64 octets give equal pad blocks if and only if they are equal |
| Hmac.TrailingZeroIsLost | ChatSer/encrypt/hmac_sha1.cpp:31-46 | for keys that may hold zero octets that fails: an appended zero is lost |
| Hmac.EmptyKeyStandsFor | ChatSer/encrypt/hmac_sha1.cpp:31-46 | the empty key has the key block of a C-string key if and only if that key is empty or its digest, when it is too long, is zeros alone |
| Hmac.LongKeyIsItsDigest | ChatSer/encrypt/hmac_sha1.cpp:39-44 | a key longer than a block gives the MAC of its digest used as the key |
| RwLocks.StepKeepsInv | ChatSer/include/thr_rwlock.h:73-131 | every step of every thread keeps lock state, flag and thread positions in agreement |
| RwLocks.UnlockReleasesWhatIsHeld | ChatSer/include/thr_rwlock.h:117-127 | in every interleaving each release is of the mode its caller holds, and the OS lock is never misused |
| RwLocks.FlagMeansOneWriter | ChatSer/include/thr_rwlock.h:94-127 | the flag is TRUE exactly while one writer is between setting and clearing it, and then no one else holds the lock |
| RwLocks.QuietMeansInitial | ChatSer/include/thr_rwlock.h:52-131 | when every thread is outside again, lock and flag are as initialised |
| RwLocks.FlagTellsMode | ChatSer/include/thr_rwlock.h:120-126 | a holder that tests the flag learns the mode it holds |
| RwLocks.LockIsDecidedByHistory | ChatSer/include/thr_rwlock.h:73-127 | in every run the OS lock and the flag follow from the number of acquisitions, releases and flag writes so far |
| RwLocks.HoldingIsDecidedByHistory | ChatSer/include/thr_rwlock.h:73-127 | in every run a thread holds the lock in a mode exactly when it acquired it once more than it released it |
| RwLocks.WhoIsLetIn | ChatSer/include/thr_rwlock.h:73-111 | in every run shared entry is possible exactly while no one holds the lock exclusively, exclusive entry exactly while no one holds it; a shared entry adds one reader |
| RwLocks.NeverStuck | ChatSer/include/thr_rwlock.h:73-127 | in every run a holder always has exactly one next step, and a lock no one holds can be taken in both modes |
| RwLocks.NativeRwLock.constructor | ChatSer/include/thr_rwlock.h:52-57 | the lock starts free with the flag FALSE |
| RwLocks.NativeRwLock.RdLock | ChatSer/include/thr_rwlock.h:73-77 | always 0; the lock has one reader more, the caller reads, and the flag stays |
| RwLocks.NativeRwLock.TryRdLock | ChatSer/include/thr_rwlock.h:83-88 | 0 exactly when granted, with one reader more and the caller reading; else EBUSY with nothing changed |
| RwLocks.NativeRwLock.WrLock | ChatSer/include/thr_rwlock.h:94-99 | the two steps of the writer in their order: acquire, then set the flag |
| RwLocks.NativeRwLock.TryWrLock | ChatSer/include/thr_rwlock.h:105-111 | 0 exactly when granted, with the same two steps; else EBUSY with nothing changed |
| RwLocks.NativeRwLock.Unlock | ChatSer/include/thr_rwlock.h:117-127 | the steps of unlock in their order; undisturbed, it undoes exactly the acquisition of its caller |
| Mutexes.StepKeepsInv | ChatSer/include/thr_mutex.h:78-110 | every step of every thread keeps owner, recursion count and per-thread balances in agreement |
| Mutexes.TryLockOutcome | ChatSer/include/thr_mutex.h:88-100 | in every interleaving trylock gives 0 exactly when it found the mutex unowned, then with count 1; EBUSY restores owner and count, also for the owner itself |
| Mutexes.OthersCannotInterfere | ChatSer/include/thr_mutex.h:91-98 | while a thread is inside trylock or owns the mutex, no step of another thread changes the section |
| Mutexes.CountIsBalance | ChatSer/include/thr_mutex.h:78-110 | the recursion count is the owner's acquisitions less its releases, and only the owner has a balance |
| Mutexes.WhoMayEnter | ChatSer/include/thr_mutex.h:78-110 | in every run a thread can enter exactly when no other has a balance or is inside trylock; inside trylock it has exactly one step, by the count it found |
| Mutexes.NativeMutex.constructor | ChatSer/include/thr_mutex.h:67-72 | the mutex starts unowned with every balance zero |
| Mutexes.NativeMutex.Lock | ChatSer/include/thr_mutex.h:78-82 | the one step of lock: the caller owns the mutex one level deeper |
| Mutexes.NativeMutex.TryLock | ChatSer/include/thr_mutex.h:88-100 | the steps of trylock in their order, by what it finds; 0 if and only if the mutex was unowned, EBUSY leaves it unchanged |
| Mutexes.NativeMutex.Unlock | ChatSer/include/thr_mutex.h:106-110 | the one step of unlock: one level less, and unowned at level zero |
| SkipSpace.TrimEndIsTheEnd | ChatSer/include/m_string.h:326-328 | the octet loop ends at the only place with spaces alone behind it and none right before it |
| SkipSpace.WordOfSpaces | ChatSer/include/m_string.h:282-305 | in either byte order a word equals the all-space constant exactly when each of its octets is a space |
| SkipSpace.EightSpaces | ChatSer/include/m_string.h:323 | uint8korr equals its constant exactly when all eight octets are spaces |
| SkipSpace.AlignedBounds | ChatSer/include/m_string.h:295-300 | both word bounds are aligned and inside the buffer for every base address, so the assertion in the code holds |
| SkipSpace.SkipTrailingSpace | ChatSer/include/m_string.h:317-329 | the eight-octet form ends where the octet loop does, for every buffer |
| SkipSpace.SkipTrailingSpaceAligned | ChatSer/include/m_string.h:280-310 | the aligned form ends there too, for every base address, word size and byte order; each word it reads is aligned and inside the buffer |
| ByteOrder.Uint2IsTheCodec | ChatSer/include/byte_order_generic.h:38-44 | the unsigned reader of two octets is the codec of that width |
| ByteOrder.Uint3IsTheCodec | ChatSer/include/my_byteorder.h:45-52 | the unsigned reader of three octets is the codec of that width |
| ByteOrder.Uint4IsTheCodec | ChatSer/include/byte_order_generic.h:46-54 | the unsigned reader of four octets is the codec of that width |
| ByteOrder.Uint5IsTheCodec | ChatSer/include/my_byteorder.h:54-63 | the unsigned reader of five octets is the codec of that width |
| ByteOrder.Uint6IsTheCodec | ChatSer/include/my_byteorder.h:65-75 | the unsigned reader of six octets is the codec of that width |
| ByteOrder.Uint8IsTheCodec | ChatSer/include/byte_order_generic.h:56-69 | the unsigned reader of eight octets is the codec of that width |
| ByteOrder.LowOctets | ChatSer/include/my_byteorder.h:77-101 | the shifted and cut octets of a store are those of the codec |
| ByteOrder.DisjointFields | ChatSer/include/my_byteorder.h:34-41 | the fields sint3korr joins do not overlap, so joining is adding |
| ByteOrder.Sint3RoundTrip | ChatSer/include/my_byteorder.h:31-82 | of the 32-bit numbers, exactly those in [-2^23, 2^23) survive int3store and sint3korr |
| ByteOrder.Sint2RoundTrip | ChatSer/include/byte_order_generic.h:20-81 | every 16-bit signed number survives its store and reader |
| ByteOrder.Sint4RoundTrip | ChatSer/include/byte_order_generic.h:28-89 | every 32-bit signed number survives its store and reader |
| ByteOrder.Sint8RoundTrip | ChatSer/include/byte_order_generic.h:71-97 | every 64-bit signed number survives its store and reader |
| ByteOrder.Sint2Restored | ChatSer/include/byte_order_generic.h:20-81 | what the 16-bit signed reader read, stored again, is the same octets |
| ByteOrder.Sint3Restored | ChatSer/include/my_byteorder.h:31-82 | the same for the 24-bit reader, whose sign extension the store drops again |
| ByteOrder.Sint4Restored | ChatSer/include/byte_order_generic.h:28-89 | the same for the 32-bit reader |
| ByteOrder.Sint8Restored | ChatSer/include/byte_order_generic.h:71-97 | the same for the 64-bit reader |
| ByteOrder.UnsignedRoundTrips | ChatSer/include/my_byteorder.h:45-101 | each unsigned reader gives back exactly the numbers that fit the store of its width |
| ByteOrder.Int2store | ChatSer/include/byte_order_generic.h:76-81 | writes the codec's two octets and nothing else |
| ByteOrder.Int3store | ChatSer/include/my_byteorder.h:77-82 | writes the codec's three octets and nothing else |
| ByteOrder.Int4store | ChatSer/include/byte_order_generic.h:83-89 | writes the codec's four octets and nothing else |
| ByteOrder.Int5store | ChatSer/include/my_byteorder.h:84-91 | writes the codec's five octets and nothing else |
| ByteOrder.Int6store | ChatSer/include/my_byteorder.h:93-101 | writes the codec's six octets and nothing else |
| ByteOrder.Int8store | ChatSer/include/byte_order_generic.h:91-97 | its two half stores write the codec's eight octets and nothing else |
| Timespecs.DeadlineIsExact | ChatSer/include/my_global.h:688-698 | the nanoseconds are normalised, and the deadline is reading plus delay if and only if their sum fits 64 bits |
| Timespecs.Timespec.SetTimespecNsec | ChatSer/include/my_global.h:688-698 | the same for the structure in place |
| Timespecs.Timespec.SetTimespec | ChatSer/include/my_global.h:712-715 | exact if and only if neither the product nor the sum leaves 64 bits |
| Timespecs.ComparesInstants | ChatSer/include/my_global.h:724-750 | comparison is that of the instants; the difference is theirs if and only if it is neither negative nor 2^64 ns or more |
| Timespecs.MillisecondsAreCut | ChatSer/include/thr_cond.h:84-95 | the result is the time left, or 0, modulo 2^32; it is INFINITE exactly when the time left is not negative and congruent to 2^32 - 1 |
| Timespecs.MillisecondsAreExact | ChatSer/include/thr_cond.h:84-95 | nothing is cut off if and only if the time left is below 2^32 ms |
| Timespecs.TimeoutsAreBounded | ChatSer/include/thr_cond.h:84-95 | for every delay and later reading: at most one millisecond more than the delay, and 0 once the deadline has passed; not less than the delay at the same reading if and only if the time left is below 2^32 ms |
| Timespecs.WaitEndsOnTime | ChatSer/include/thr_cond.h:84-124 | a bounded wait is never late, and not early if and only if the time left is below 2^32 ms; it is bounded and ends within one millisecond of the deadline if and only if the time left is below 2^32 - 1 ms |
| Timespecs.DelayIsKept | ChatSer/include/my_global.h:688-698 | the condition on the delay alone under which its whole milliseconds are kept at every clock reading, in both directions |
| Timespecs.DelayAlwaysEndsOnTime | ChatSer/include/thr_cond.h:84-124 | the condition on the delay alone under which the wait is bounded and on time at every clock reading, in both directions |
| Timespecs.DelayUnderTheLimitIsLost | ChatSer/include/thr_cond.h:94 | a delay under 2^32 ms, at clock 9,999, of which 0 is left at once |
| Timespecs.LongDelayIsLost | ChatSer/include/thr_cond.h:94 | a delay of 2^32 ms, at clock 0, of which 0 is left at once |
| Timespecs.DelayBecomesUnbounded | ChatSer/include/thr_cond.h:94-124 | a delay of 2^32 - 1 ms, at clock 0, that becomes a wait without end |

## Left out

- MFC socket callbacks, the MySQL wrapper header and `des.h`: they forward to code that is not part of this model.
- Declarations without bodies (`rw_pr_*`, `safe_mutex_*`, key cache, decimals, lists, charsets): nothing to model.
- The pthread branches and the branch without `HAVE_STRUCT_TIMESPEC`: `my_config.h` selects the other one.
- The x86 byte-order variants and floating-point conversions: pointer casts; the generic file is modelled.
- Null-pointer checks of the SHA-1 functions: a reference of the model is never null.
- Cryptographic strength of SHA-1 and HMAC: no property of this code.
- The OS locks: SRWLOCK and CRITICAL_SECTION are taken at their documented meaning; fairness, spurious failures of the try calls beyond allowing them, and the 32-bit width of RecursionCount are not modelled.
- Memory ordering: each statement of a lock wrapper is one atomic step, in program order.
- SleepConditionVariableCS: taken to wait for the given number of milliseconds, or without end for INFINITE; spurious and early wake-ups are not modelled.
- Hmac.HmacSha1: does not model buffers that overlap in part, because two arrays are the same array or disjoint; a text too long for the 4096-octet buffer is excluded by a precondition, because the code does not check for it.
- ByteOrder.Sint3korr: joins its fields by addition instead of bitwise or; DisjointFields shows the two agree.
- Clients.Drive: stands for an arbitrary caller, as Clients.HashPieces does for the usual one; neither models a function of the repository.
