# Verified model of osucat

osucat is a chat bot in C++ that carries the C headers of a MySQL client with it.
This project models the parts of both that decide something, and proves what they
are meant to guarantee:

- the Windows reader-writer lock and mutex wrappers, as machines of atomic steps of
  any number of threads (`RwLock`, `Mutex`), with the functions themselves as
  methods of lock objects;
- `skip_trailing_space` in its two word-at-a-time versions (`TrailingSpace`), over
  the byte order functions (`ByteOrder`) and the memory of little-endian, big-endian
  and word-swapped hosts (`HostMemory`); `Bytes` and `Bits` hold base-256 and binary
  numbers;
- deadlines of timed waits in their two representations (`Deadlines`) and `MY_ALIGN`
  (`Align`);
- the bot's rewriting of a UTF-8 question into an answer (`RandEvents`, over `Utf8`
  and the replacement loop in `Strings`), its command chain (`Dispatch`) and its
  drifting bottles (`Bottles`), with the escaping of their text (`Escape`);
- the printer of game modifiers (`ModParser`), the tag loop (`Tags`) and the badge
  list (`Badge`).

`dafny verify dfyconfig.toml` checks everything.

`string_replace`, `randomNum`, `ocescape` and `ocunescape` are modelled from `osucat/sdk/utils.hpp`, and the
queries on the table of bottles from `osucat/src/include/mysql.hpp`. Neither file is
in Unicode, so the table below names the lines in `osucat/src/addons.hpp` that call
them.

The primitives below the code are given their documented meaning: the SRW lock and
the critical section (where a release by somebody who does not hold the lock in that
mode corrupts it for good), `find`, `substr`, `stoi` and formatted extraction from a
`stringstream`. The answers of `rand()`, the clock, the state of the word game and
the success of each database query are parameters, so the results hold for all of
them.

## Where the code does not do what it says or promises

Each of these is kept as the code has it; the members named with it state the exact
condition and an input.

- The pronoun swap goes wrong exactly for texts with the placeholder in them
  (`RandEvents.SwapIsSimultaneous`, `PlaceholderSwapped`).
- A message that begins with "not" makes the bot read before the string, and one with
  nothing but a two-byte character before the first "not" throws, if there is no
  question word; a message too short for the cuts throws in any case
  (`RandEvents.FailuresExactly`, `FailuresOfMessage`, `NotAlone`, `TwoBytesThrow`,
  `EmptyThrows`). A repeated ASCII character together with a two-byte one is taken for
  a character (`RandEvents.AffirmsExactly`, `TwoCharactersAnswered`).
- The message says 20 bottles, the check lets 21 through; and a throw whose query for
  the bottles fails, which reads as no bottles, is not counted at all
  (`Bottles.StepCount`, `Bottles.QuotaExactly`, `Bottles.QuotaIsReached`).
- The text of a bottle comes back changed exactly if an escape mark was in it
  (`Escape.RoundTripExactly`, `MarkComesBackAsQuote`).
- `modParser` throws for Nightcore without DoubleTime and Perfect without
  SuddenDeath (`ModParser.ModParser`, `NightcoreAlone`).
- The tag loop pushes one element too many after trailing whitespace and for an
  empty text (`Tags.TagsOfLayout`, `TrailingSpaceRepeats`).
- `float8store` promises a portable format but copies a word-swapped double as it is
  (`HostMemory.DoubleAcrossHosts`, `SwappedDoubleIsLost`).
- `get_milliseconds` on the struct form has no limit by the original timeout: after a
  step back of the clock it waits longer by as much, and by 1 ms after a carry
  (`Deadlines.StructWaitWithinTimeout`, `StructWaitNoStepBack`, `StepBackWaits`). It truncates to 32 bits and
  can give `INFINITE` for a finite deadline (`Deadlines.StructWaitAccuracy`,
  `EndlessWait`). With a 32-bit `time_t` the milliseconds of the deadline wrap
  (`Deadlines.StructWait32Right`, `LostWait`). On the FILETIME form an endless wait
  would need a 64-bit `long` (`Deadlines.FileWaitInfinite`).
- The blocking `native_mutex_lock` has no guard against a relock by the owner, as
  `trylock` has (`Mutex.RelockBreaks`, `RelockRun`).
- The comment of `skip_trailing_space` promises the last character that is not a
  space; the code returns the address after it.

## Model

| member | source | states |
|---|---|---|
| `RwLock.RunRefines` | osucat/extern/Mysql/include/thr_rwlock.h:42-131 | Every interleaving of any number of threads that unlock only what they hold keeps the invariant, and its events, fed to a readers-writer lock that knows its holders, are all legal there and lead to the same holders |
| `RwLock.RunIsSafe` | osucat/extern/Mysql/include/thr_rwlock.h:117-131 | In every reachable state a thread about to release the SRW lock holds it in just that mode, the SRW lock was never misused, and no thread accesses the flag while another is about to write it |
| `RwLock.BeginExactly` | osucat/extern/Mysql/include/thr_rwlock.h:42-131 | In every state with the invariant, which is every reachable one: rdlock is possible exactly with no writer and wrlock exactly with no holder, the try calls always, unlock exactly when the thread holds the lock; and what each does to the thread |
| `RwLock.ContinueExactly` | osucat/extern/Mysql/include/thr_rwlock.h:42-131 | A thread inside a call can go on at any time and make no other call; every statement brings its call one nearer to the end, which sets the flag or releases the lock in the mode in which the thread holds it |
| `RwLock.OthersLeave` | osucat/extern/Mysql/include/thr_rwlock.h:42-131 | No other thread moves a thread, so this holds in every interleaving |
| `RwLock.UnlockCompletes` | osucat/extern/Mysql/include/thr_rwlock.h:117-131 | An unlock that a reader or a writer begins ends in a release of what it holds |
| `RwLock.CallCompletes` | osucat/extern/Mysql/include/thr_rwlock.h:73-131 | So does every call in progress end, in the steps of its own thread |
| `RwLock.RunGoesOn` | osucat/extern/Mysql/include/thr_rwlock.h:42-131 | A run goes on with a step exactly when one of its threads can make it |
| `RwLock.WriterExcludes` | osucat/extern/Mysql/include/thr_rwlock.h:42-131 | In every reachable state a writer is alone, and the flag is true only while a writer holds the lock |
| `RwLock.NothingLost` | osucat/extern/Mysql/include/thr_rwlock.h:117-131 | In every reachable state the SRW lock is free exactly when no thread holds anything |
| `RwLock.StepRefines` | osucat/extern/Mysql/include/thr_rwlock.h:42-131 | One atomic step of any thread from a state with the invariant keeps it and is a legal move of the abstract lock |
| `RwLock.BusyIsRight` | osucat/extern/Mysql/include/thr_rwlock.h:83-115 | A try call that returns EBUSY did so while there was a writer (for reading) or a holder (for writing) |
| `RwLock.NativeRwLock.constructor` | osucat/extern/Mysql/include/thr_rwlock.h:52-62 | Init leaves a free lock with the flag cleared |
| `RwLock.NativeRwLock.RdLock` | osucat/extern/Mysql/include/thr_rwlock.h:73-81 | One more shared holder; the flag still tells the mode |
| `RwLock.NativeRwLock.TryRdLock` | osucat/extern/Mysql/include/thr_rwlock.h:83-92 | EBUSY exactly when the lock is held exclusively, and then nothing changes; otherwise one more shared holder |
| `RwLock.NativeRwLock.WrLock` | osucat/extern/Mysql/include/thr_rwlock.h:94-103 | From free to exclusive; the flag tells the mode |
| `RwLock.NativeRwLock.TryWrLock` | osucat/extern/Mysql/include/thr_rwlock.h:105-115 | 0 exactly when the lock was free, and then it is held exclusively; otherwise nothing changes |
| `RwLock.NativeRwLock.Unlock` | osucat/extern/Mysql/include/thr_rwlock.h:117-131 | One unlock for both modes releases in the mode in which the lock is held, and undoes exactly one acquisition |
| `Mutex.StepRefines` | osucat/extern/Mysql/include/thr_mutex.h:78-114 | For threads that make no blocking relock, each step of the reentrant critical section keeps the invariant and is a legal move of a mutex that is not reentrant |
| `Mutex.TryLockReturns` | osucat/extern/Mysql/include/thr_mutex.h:88-104 | trylock returns 0 exactly when the section was free at its attempt, and EBUSY exactly when it was owned; EBUSY leaves owner, count and holder as they were, through the undo of a double entry too |
| `Mutex.TryLockCompletes` | osucat/extern/Mysql/include/thr_mutex.h:88-104 | trylock is always possible and always comes to an end, in the steps of its own thread: with 0 and the mutex if the section was free, otherwise with EBUSY and everything as it was |
| `Mutex.BeginExactly` | osucat/extern/Mysql/include/thr_mutex.h:78-114 | In every state with the invariant, which is every reachable one: lock is possible exactly when the section is free, or with a relock held by the caller, and unlock exactly when the thread holds the mutex; and what each call does |
| `Mutex.ContinueExactly` | osucat/extern/Mysql/include/thr_mutex.h:88-104 | A thread inside trylock can go on at any time and make no other call; whether it returns 0 or leaves again depends on what it found |
| `Mutex.OthersLeave` | osucat/extern/Mysql/include/thr_mutex.h:78-114 | No other thread moves a thread, so this holds in every interleaving |
| `Mutex.RunGoesOn` | osucat/extern/Mysql/include/thr_mutex.h:78-114 | A run goes on with a step exactly when one of its threads can make it |
| `Mutex.RunTryLock` | osucat/extern/Mysql/include/thr_mutex.h:88-104 | The same in every run of any number of threads |
| `Mutex.OthersKeepOut` | osucat/extern/Mysql/include/thr_mutex.h:88-104 | While a thread is inside trylock between entering and leaving, no step of another thread changes the section, so the read of RecursionCount is not racy |
| `Mutex.RunInv` | osucat/extern/Mysql/include/thr_mutex.h:78-114 | The invariant holds in every reachable state |
| `Mutex.RunIsSafe` | osucat/extern/Mysql/include/thr_mutex.h:78-114 | In every reachable state at most one thread holds the mutex; a holder between calls owns it at count 1, whatever the others do; without calls in progress the count of a free mutex is 0 |
| `Mutex.RelockBreaks` | osucat/extern/Mysql/include/thr_mutex.h:78-86 | The blocking lock acts as a mutex that is not reentrant if and only if the caller does not hold it already; a relock drives the count to 2 |
| `Mutex.RelockRun` | osucat/extern/Mysql/include/thr_mutex.h:78-86 | A run in which one thread does so |
| `Mutex.NativeMutex.constructor` | osucat/extern/Mysql/include/thr_mutex.h:67-76 | A free section |
| `Mutex.NativeMutex.Lock` | osucat/extern/Mysql/include/thr_mutex.h:78-86 | The caller, who had it or found it free, becomes the owner at a count one higher; the mutex is as between calls of threads that do not relock if and only if it was free |
| `Mutex.NativeMutex.TryLock` | osucat/extern/Mysql/include/thr_mutex.h:88-104 | 0 exactly when free, then owned by the caller at count 1; otherwise EBUSY and the section is unchanged, also for the owner itself at any count |
| `Mutex.NativeMutex.Unlock` | osucat/extern/Mysql/include/thr_mutex.h:106-114 | The section is free again, or after a relock owned at a count one lower |
| `TrailingSpace.SkipTrailingSpace` | osucat/extern/Mysql/include/m_string.h:314-326 | For every buffer the eight-byte version returns the one point with only 0x20 behind it and another byte before it, which is the result of the plain backwards scan |
| `TrailingSpace.SkipTrailingSpaceSparc` | osucat/extern/Mysql/include/m_string.h:276-307 | For every address, length and word size 4 or 8 the aligned-word version returns the same point |
| `TrailingSpace.TrimTail` | osucat/extern/Mysql/include/m_string.h:289-303 | The bytes behind the last whole word, and then the words, are passed over only if they are spaces; both rounded addresses are in the buffer |
| `TrailingSpace.TrimWords` | osucat/extern/Mysql/include/m_string.h:300-302 | The word loop keeps `end` aligned and above `start_words`, passes over spaces only, and every word it reads is aligned and inside the buffer (the precondition of ReadWord) |
| `TrailingSpace.TrimBytes` | osucat/extern/Mysql/include/m_string.h:304-305 | The byte loop stops at its bound or behind a byte that is not a space, having passed over spaces only |
| `TrailingSpace.WordIsSpaces` | osucat/extern/Mysql/include/m_string.h:319 | A little-endian word equals the mask exactly when all its bytes are spaces |
| `TrailingSpace.BigWordIsSpaces` | osucat/extern/Mysql/include/m_string.h:301 | The same for a word read on a big-endian host |
| `TrailingSpace.TrimPointUnique` | osucat/extern/Mysql/include/m_string.h:272-275 | No buffer has two such points |
| `TrailingSpace.PlainScan` | osucat/extern/Mysql/include/m_string.h:304-305 | The plain scan finds such a point |
| `ByteOrder.Sint2korr` | osucat/extern/Mysql/include/byte_order_generic.h:20-26 | The little-endian base-256 number at the address, read as two's complement |
| `ByteOrder.Sint4korr` | osucat/extern/Mysql/include/byte_order_generic.h:28-36 | The same for four bytes, through the wrapping 32-bit sum |
| `ByteOrder.Uint2korr` | osucat/extern/Mysql/include/byte_order_generic.h:38-44 | The little-endian base-256 number at the address |
| `ByteOrder.Uint4korr` | osucat/extern/Mysql/include/byte_order_generic.h:46-54 | The same for four bytes |
| `ByteOrder.Uint8korr` | osucat/extern/Mysql/include/byte_order_generic.h:56-69 | The same for eight bytes: adding the halves loses no carry |
| `ByteOrder.Sint8korr` | osucat/extern/Mysql/include/byte_order_generic.h:71-74 | The same, read as two's complement |
| `ByteOrder.Int2store` | osucat/extern/Mysql/include/byte_order_generic.h:76-81 | Writes the two base-256 digits and changes no other byte |
| `ByteOrder.Int4store` | osucat/extern/Mysql/include/byte_order_generic.h:83-89 | The same for four bytes |
| `ByteOrder.Int8store` | osucat/extern/Mysql/include/byte_order_generic.h:91-97 | The same for eight bytes, as two halves |
| `ByteOrder.StoreOfLoad` | osucat/extern/Mysql/include/byte_order_generic.h:20-97 | Storing a loaded field back leaves memory as it was |
| `ByteOrder.Sint3korr` | osucat/extern/Mysql/include/my_byteorder.h:31-43 | The three-byte number read as two's complement, through the sign branch and the `\|` of shifted bytes |
| `ByteOrder.Uint3korr` | osucat/extern/Mysql/include/my_byteorder.h:45-52 | The little-endian base-256 number of three bytes |
| `ByteOrder.Uint5korr` | osucat/extern/Mysql/include/my_byteorder.h:54-63 | The same for five bytes |
| `ByteOrder.Uint6korr` | osucat/extern/Mysql/include/my_byteorder.h:65-75 | The same for six bytes |
| `ByteOrder.Int3store` | osucat/extern/Mysql/include/my_byteorder.h:77-82 | Writes the three base-256 digits and changes no other byte |
| `ByteOrder.Int5store` | osucat/extern/Mysql/include/my_byteorder.h:84-91 | The same for five bytes |
| `ByteOrder.Int6store` | osucat/extern/Mysql/include/my_byteorder.h:93-101 | The same for six bytes |
| `ByteOrder.LoadOfStore` | osucat/extern/Mysql/include/my_byteorder.h:31-101 | A stored number loads as its value modulo 256^k, for every k, place and number |
| `ByteOrder.Sint3RoundTrip` | osucat/extern/Mysql/include/my_byteorder.h:31-82 | int3store then sint3korr returns the integer if and only if it is in [-2^23, 2^23) |
| `HostMemory.X86Sint2korr` | osucat/extern/Mysql/include/byte_order_generic_x86.h:22-23 | On little-endian memory the single load equals the portable byte form |
| `HostMemory.X86Sint4korr` | osucat/extern/Mysql/include/byte_order_generic_x86.h:25-26 | The same |
| `HostMemory.X86Uint2korr` | osucat/extern/Mysql/include/byte_order_generic_x86.h:28-29 | The same |
| `HostMemory.X86Uint4korr` | osucat/extern/Mysql/include/byte_order_generic_x86.h:31-32 | The same |
| `HostMemory.X86Uint8korr` | osucat/extern/Mysql/include/byte_order_generic_x86.h:34-35 | The same |
| `HostMemory.X86Sint8korr` | osucat/extern/Mysql/include/byte_order_generic_x86.h:37-38 | The same |
| `HostMemory.X86Int2store` | osucat/extern/Mysql/include/byte_order_generic_x86.h:40-44 | The single store leaves the bytes of the portable store |
| `HostMemory.X86Int4store` | osucat/extern/Mysql/include/byte_order_generic_x86.h:46-50 | The same |
| `HostMemory.X86Int8store` | osucat/extern/Mysql/include/byte_order_generic_x86.h:52-56 | The same |
| `HostMemory.Float4store` | osucat/extern/Mysql/include/big_endian.h:21-25 | On every host the stored float is the little-endian digits of its bit pattern |
| `HostMemory.Float4get` | osucat/extern/Mysql/include/big_endian.h:27-33 | On every host the loaded bit pattern is the little-endian number at the address |
| `HostMemory.Float8store` | osucat/extern/Mysql/include/big_endian.h:35-43 | The stored double is the object's memory, reversed on a big-endian host; no other byte changes |
| `HostMemory.Float8get` | osucat/extern/Mysql/include/big_endian.h:45-55 | The loaded double is what such bytes stand for on the host |
| `HostMemory.FloatAcrossHosts` | osucat/extern/Mysql/include/big_endian.h:21-33 | A float stored on any host and loaded on any other is the same bit pattern |
| `HostMemory.DoubleAcrossHosts` | osucat/extern/Mysql/include/big_endian.h:35-55 | A double stored on one host and loaded on another is the same bit pattern if and only if both or neither are word-swapped, or its two words are equal |
| `HostMemory.Shortget` | osucat/extern/Mysql/include/big_endian.h:60-62 | The host's own 16-bit object at the address, signed, on both kinds of host |
| `HostMemory.Ushortget` | osucat/extern/Mysql/include/big_endian.h:57-59 | The same, unsigned |
| `HostMemory.Longget` | osucat/extern/Mysql/include/big_endian.h:63-69 | The host's own 32-bit object at the address |
| `HostMemory.Shortstore` | osucat/extern/Mysql/include/big_endian.h:77-80 | Leaves the memory of the host's own 16-bit object |
| `HostMemory.Longstore` | osucat/extern/Mysql/include/big_endian.h:81-85 | Leaves the memory of the host's own 32-bit object, negative numbers included |
| `HostMemory.MachineLongRoundTrip` | osucat/extern/Mysql/include/big_endian.h:63-85 | A stored 32-bit integer is read back on the same host |
| `HostMemory.DoublePortable` | osucat/extern/Mysql/include/little_endian.h:34-42 | The condition of DoubleAcrossHosts, on the stored bytes |
| `HostMemory.SwappedDoubleIsLost` | osucat/extern/Mysql/include/little_endian.h:39-42 | A word-swapped double that does not come back on a little-endian host |
| `HostMemory.Doublestore` | osucat/extern/Mysql/include/little_endian.h:49-57 | On every host leaves the machine format, where the words of a word-swapped double are put in order |
| `HostMemory.Doubleget` | osucat/extern/Mysql/include/little_endian.h:58-68 | Loads exactly the object whose machine format is at the address, so it undoes doublestore |
| `HostMemory.ImageRoundTrip` | osucat/extern/Mysql/include/little_endian.h:77-82 | The memory of an object stands for the object |
| `Deadlines.StructDeadlineExact` | osucat/extern/Mysql/include/my_global.h:690-698 | The struct form is always normal (tv_nsec below 10^9), and is exactly 100 times the clock plus the timeout if and only if the sum fits 64 bits and its seconds fit time_t |
| `Deadlines.StructTimespec.SetNsec` | osucat/extern/Mysql/include/my_global.h:688-698 | The tick arithmetic leaves normal fields, which stand for the clock plus the timeout if and only if nothing overflows; without overflow of the ticks they are its seconds, capped for a 32-bit time_t at 2^31 - 1, and its nanoseconds |
| `Deadlines.StructTimespec.SetSec` | osucat/extern/Mysql/include/my_global.h:712-715 | The deadline is that many seconds away if and only if neither the product nor the deadline overflows |
| `Deadlines.FileTimespec.SetSec` | osucat/extern/Mysql/include/my_global.h:712-715 | The same for the FILETIME form, in ticks |
| `Deadlines.CmpInstant` | osucat/extern/Mysql/include/my_global.h:724-740 | On normal fields the sign is that of the real difference |
| `Deadlines.DiffInstant` | osucat/extern/Mysql/include/my_global.h:742-750 | The unsigned arithmetic is the real difference modulo 2^64, for any fields |
| `Deadlines.DiffExact` | osucat/extern/Mysql/include/my_global.h:742-750 | The difference is exact if and only if cmp_timespec does not say -1 and it is below 2^64 |
| `Deadlines.StructDeadlineOrder` | osucat/extern/Mysql/include/my_global.h:688-750 | Deadlines set at any two clock readings compare as the instants they stand for, and diff_timespec is their difference if and only if that is not negative and below 2^64 ns |
| `Deadlines.FileTimespec.SetNsec` | osucat/extern/Mysql/include/my_global.h:699-709 | The deadline in ticks is the clock plus the timeout if and only if that fits 63 bits; the longest wait is the timeout, capped at 2^31 - 1 ms where long has 32 bits |
| `Deadlines.FileDeadlineFields` | osucat/extern/Mysql/include/my_global.h:699-709 | Without overflow: the deadline in ticks, and the longest wait, capped where long has 32 bits |
| `Deadlines.FileDeadlineOrder` | osucat/extern/Mysql/include/my_global.h:699-750 | The same for the FILETIME form, in ticks |
| `Deadlines.FileDiffExact` | osucat/extern/Mysql/include/my_global.h:742-750 | In the FILETIME form the difference is exact if and only if cmp_timespec does not say -1 and it is below 2^64 |
| `Deadlines.StructTimespec.GetMilliseconds` | osucat/extern/Mysql/include/thr_cond.h:84-95 | With a 64-bit time_t the difference of the two instants, each rounded down to milliseconds, 0 if negative, modulo 2^32; with a 32-bit one the same with the wrapped milliseconds of the deadline |
| `Deadlines.StructTimespec.TimedWait` | osucat/extern/Mysql/include/thr_cond.h:119-127 | A deadline set at one reading of the clock and waited for at any other: the exact wait, when it is within the timeout, and its accuracy without a step back |
| `Deadlines.StructWaitMeaning` | osucat/extern/Mysql/include/thr_cond.h:84-95 | With a 64-bit time_t, the same for every instant from the epoch on |
| `Deadlines.StructWaitAccuracy` | osucat/extern/Mysql/include/thr_cond.h:84-95 | The wait is the time left rounded down or up if and only if less than 2^32 ms are left; it is 0 once the deadline passed, and INFINITE exactly when the low 32 bits of the milliseconds left are all ones |
| `Deadlines.StructWaitWithinTimeout` | osucat/extern/Mysql/include/thr_cond.h:84-95 | For all readings of the clock when the timeout was set and now: the exact wait; it is within the timeout if and only if the step back of the clock in milliseconds, with the carry of the parts below one, is not more than what the truncation to 32 bits takes away, which is nothing below 2^32 ms |
| `Deadlines.StructWaitNoStepBack` | osucat/extern/Mysql/include/thr_cond.h:84-95 | Without a step back, a timeout below 2^32 - 1 ms gives the time left rounded down or up, so at most 1 ms more than the timeout |
| `Deadlines.StepBackWaits` | osucat/extern/Mysql/include/thr_cond.h:84-95 | After a step back of k ms to any time, a timeout of 0 waits k ms, for every k below 2^32 |
| `Deadlines.EndlessWait` | osucat/extern/Mysql/include/thr_cond.h:84-95 | A finite timeout that gives INFINITE, at any time |
| `Deadlines.StructWait32` | osucat/extern/Mysql/include/thr_cond.h:89 | With a 32-bit time_t only the low 32 bits of the milliseconds of the deadline are left: the exact wait |
| `Deadlines.StructWait32Right` | osucat/extern/Mysql/include/thr_cond.h:89-94 | Exactly when that is still the wait of a 64-bit time_t |
| `Deadlines.LostWait` | osucat/extern/Mysql/include/thr_cond.h:89-94 | One second before every multiple of 2^32 ms, a deadline one second ahead is not waited for with a 32-bit time_t |
| `Deadlines.GetMilliseconds` | osucat/extern/Mysql/include/thr_cond.h:51-83 | INFINITE for a null deadline, 0 for a passed one, otherwise the largest number of milliseconds within the time left, the limit and UINT_MAX |
| `Deadlines.FileTimespec.TimedWait` | osucat/extern/Mysql/include/thr_cond.h:119-127 | A deadline set at one reading of the clock and waited for at any other: between 0 and min(nsec/1000000, INT_MAX32), and exactly the time left within that bound |
| `Deadlines.FileWaitWithinTimeout` | osucat/extern/Mysql/include/thr_cond.h:53-83 | With the 32-bit long of Windows the wait is between 0 and min(nsec/1000000, INT_MAX32), whatever the clock said when the deadline was set and says now |
| `Deadlines.FileWaitExact` | osucat/extern/Mysql/include/thr_cond.h:53-83 | The wait is the time left, rounded down to milliseconds, or the capped timeout if that is less; without a step back and a cap it is the time left |
| `Deadlines.FileWaitInfinite` | osucat/extern/Mysql/include/thr_cond.h:53-83 | A finite timeout becomes an endless wait if and only if long has 64 bits and both the timeout and the time left reach 2^32 - 1 ms; so the UINT_MAX clamp has no effect where long has 32 bits |
| `Align.AlignIsLeastMultiple` | osucat/extern/Mysql/include/my_global.h:439 | For every power of two below the word size and every A, MY_ALIGN(A,L) is a multiple of L; it is at least A if and only if A+L-1 does not overflow, and then it is the least such multiple |
| `Align.AlignOverflow` | osucat/extern/Mysql/include/my_global.h:439 | On overflow the result is 0 |
| `Align.AlignIdempotent` | osucat/extern/Mysql/include/my_global.h:439 | Aligning twice is aligning once, overflow included |
| `Align.AlignMonotone` | osucat/extern/Mysql/include/my_global.h:439 | Monotone as long as there is no overflow |
| `RandEvents.SwapIsSimultaneous` | osucat/src/addons.hpp:125-127 | For every UTF-8 text the three replace-alls on bytes equal the character-by-character swap of the two pronouns if and only if the text does not contain the placeholder |
| `RandEvents.SwapTwice` | osucat/src/addons.hpp:125-127 | On UTF-8 text, swapping twice gives the text back if and only if it does not contain the placeholder |
| `RandEvents.PlaceholderSwapped` | osucat/src/addons.hpp:125-127 | A placeholder in the message is taken for "you" |
| `RandEvents.MarksDoNotMerge` | osucat/src/addons.hpp:125-127 | No placeholder forms across an insertion boundary |
| `RandEvents.UnmarkedIsSwap` | osucat/src/addons.hpp:125-127 | Undoing the marks is the swap without a placeholder in the text, and shortens the text with one |
| `RandEvents.WithoutQuestionMark` | osucat/src/addons.hpp:128-130 | Cuts one wide or ASCII question mark, or nothing; throws exactly below three bytes |
| `RandEvents.WithoutParticle` | osucat/src/addons.hpp:131-132 | Cuts one particle or nothing; throws exactly below three bytes |
| `RandEvents.CutsKeepText` | osucat/src/addons.hpp:128-132 | Both cuts keep valid UTF-8 |
| `RandEvents.RandEvents` | osucat/src/addons.hpp:125-178 | The replaced, cut and searched message gives the outcome of the specification, with the undefined read and the exceptions as outcomes |
| `RandEvents.HalvesAnswered` | osucat/src/addons.hpp:118-147 | For every message whose text after the cuts is A, the first question word and B: the answer is A or B, as the random number says, if both are there, and nothing otherwise |
| `RandEvents.WordAnswered` | osucat/src/addons.hpp:148-163 | For every message whose text is a front, three bytes that do not end in ASCII, the first "not" and a rest: the answer is the text without the three bytes and "not", or without the three bytes before it, if the rest begins with them, and nothing otherwise |
| `RandEvents.AsciiAnswered` | osucat/src/addons.hpp:164-178 | For every message whose text is A, ending in ASCII, the first "not" and B: the answer is A or "not A" if B is A, and nothing otherwise |
| `RandEvents.NotWithoutWord` | osucat/src/addons.hpp:148-151 | With less than three bytes in front of "not", the last not ASCII: the undefined read if there are none, otherwise the exception |
| `RandEvents.NotAnswered` | osucat/src/addons.hpp:128-178 | A text with neither word gets no answer, and a message too short for the cuts an exception |
| `RandEvents.PartsOf` | osucat/src/addons.hpp:133-148 | Every text has one of these shapes |
| `RandEvents.HalfOnBoundaries` | osucat/src/addons.hpp:133-147 | Both cuts of the "A or B" branch are on character boundaries, and the answer is all that is left or right of the first question word |
| `RandEvents.AffirmationOnBoundaries` | osucat/src/addons.hpp:148-178 | Every cut of the "A-not-A" branches is on a character boundary, even where the character before "not" is not three bytes long; the answer is the message without "not A" or without the first A |
| `RandEvents.AffirmsExactly` | osucat/src/addons.hpp:148-178 | An answer is given exactly when a three-byte character, or an ASCII character and a two-byte one, is on both sides of "not", or an ASCII character is before "not" and the whole text is repeated |
| `RandEvents.ReplyIsText` | osucat/src/addons.hpp:118-178 | Every answer to a valid UTF-8 message is valid UTF-8 |
| `RandEvents.FailuresExactly` | osucat/src/addons.hpp:125-151 | For every UTF-8 message: the read before the string happens exactly when the swapped text without question mark and particle begins with "not" and has no question word; an exception exactly when the swapped text is too short for the two cuts, or a two-byte character is all that is before "not" |
| `RandEvents.FailuresOfMessage` | osucat/src/addons.hpp:125-151 | The same conditions on the message as it was sent, when it has no placeholder |
| `RandEvents.StemThrows` | osucat/src/addons.hpp:128-132 | The two cuts throw exactly on texts that leave less than three bytes for one of them |
| `RandEvents.NotAlone` | osucat/src/addons.hpp:148-149 | The message "not" reads before the string |
| `RandEvents.EmptyThrows` | osucat/src/addons.hpp:128-132 | The empty message throws |
| `RandEvents.TwoBytesThrow` | osucat/src/addons.hpp:149-151 | A message of a two-byte character and "not" throws |
| `RandEvents.TwoCharactersAnswered` | osucat/src/addons.hpp:149-166 | A message that repeats an ASCII character and a two-byte one is answered with them |
| `Utf8.EncodedIsChar` | osucat/src/addons.hpp:125-178 | The characters of the model are the encodings of the code points that are no surrogates (section 3 of RFC 3629) |
| `Utf8.CharIsEncoded` | osucat/src/addons.hpp:125-178 | And every one of them is such an encoding |
| `Utf8.ReplaceInText` | osucat/src/addons.hpp:125-127 | Replacing bytes of whole characters in UTF-8 text is replacing the characters |
| `Utf8.OccurrenceOnBoundary` | osucat/src/addons.hpp:133-135 | Where UTF-8 text occurs in UTF-8 text there is a character boundary on both sides |
| `Utf8.OccursInText` | osucat/src/addons.hpp:133-148 | Text occurs in text as bytes exactly when it does as characters |
| `Utf8.FlattenInjective` | osucat/src/addons.hpp:125-127 | Bytes determine the characters |
| `Utf8.PrefixOfText` | osucat/src/addons.hpp:131-151 | A prefix in bytes that is text is a prefix in characters |
| `Utf8.CutBeforeLead` | osucat/src/addons.hpp:134-176 | A cut before a byte that continues no character leaves text on both sides |
| `Escape.RoundTripExactly` | osucat/src/addons.hpp:250-299 | A stored text comes back unchanged if and only if neither escape mark occurs in it |
| `Escape.RoundTripText` | osucat/src/addons.hpp:250-299 | What comes back has every mark that was in the text, and no other, as a quotation mark |
| `Escape.MarkComesBackAsQuote` | osucat/src/addons.hpp:250-299 | A mark that a user writes comes back as a quotation mark |
| `Escape.StoredWithoutQuotes` | osucat/src/addons.hpp:250 | No quotation mark is left in the stored text |
| `Escape.FirstReplacementBack` | osucat/src/addons.hpp:299 | No mark forms across an inserted one in the first replacement back |
| `Escape.SecondReplacementBack` | osucat/src/addons.hpp:299 | Nor in the second |
| `Escape.OcEscape` | osucat/src/addons.hpp:250 | The two replacements of ocescape (utils.hpp, line 3811) |
| `Escape.OcUnescape` | osucat/src/addons.hpp:299 | The two replacements of ocunescape (utils.hpp, line 3817) |
| `Dispatch.Parse` | osucat/src/addons.hpp:390-475 | The chain of comparisons, in its order, selects the handler of the first table entry that begins the message; the rule for one-byte messages between them |
| `Dispatch.ParseBottles` | osucat/src/addons.hpp:392-406 | The first part selects that handler or none of its entries begins the message |
| `Dispatch.ParseGame` | osucat/src/addons.hpp:430-457 | The same for the second part |
| `Dispatch.SelectedIsLongest` | osucat/src/addons.hpp:392-475 | For every message, with NUL bytes or not, the handler is the one of the longest command name that is a prefix up to case, and the handler's later substr offset is in range |
| `Dispatch.BottleHandlers` | osucat/src/addons.hpp:392-406 | For every message: a handler for the bottles is selected exactly if the message begins with one of its names |
| `Dispatch.GameHandlers` | osucat/src/addons.hpp:430-475 | The same for the handlers of the game, of giving up, of the player and of the recalculation |
| `Dispatch.OtherMessages` | osucat/src/addons.hpp:450-461 | The game is started without a word exactly if its name begins the message and no longer name does; a letter is guessed exactly for one byte from a player; and all other messages without a name are ignored |
| `Dispatch.ArgumentBehindName` | osucat/src/addons.hpp:234-449 | A handler with an argument takes what is behind the whole name |
| `Dispatch.SameLetter` | osucat/src/addons.hpp:392 | The comparison takes exactly the two cases of an ASCII letter for the same |
| `Dispatch.GuardIsPrefix` | osucat/src/addons.hpp:392 | The comparison of a substring by _stricmp with a name of that length is the prefix test |
| `Dispatch.FirstIsLongest` | osucat/src/addons.hpp:392-475 | In any table where no name is a proper prefix of a later one, the first match is the longest |
| `Dispatch.ShadowedName` | osucat/src/addons.hpp:392-475 | In any other table some name is shadowed, so the condition on the table is exact |
| `Dispatch.CommandsWellOrdered` | osucat/src/addons.hpp:392-475 | The table of the chain meets that condition |
| `Bottles.QuotaExactly` | osucat/src/addons.hpp:240-250 | Over every run of throws, picks, deletions and blacklistings, for every q: a sender stays within q live bottles if and only if no throw that is not refused otherwise comes when the sender has just q, and q is at most 20 or the bottles could not be read |
| `Bottles.QuotaBound` | osucat/src/addons.hpp:240-250 | From any table, a sender passes 21 live bottles, or the number at the start, by no more than the throws that could not read the table but stored their row |
| `Bottles.QuotaHolds` | osucat/src/addons.hpp:240-250 | So without such throws no sender comes to more than 21 live bottles |
| `Bottles.QuotaIsReached` | osucat/src/addons.hpp:240-250 | The bound is reached, for every number of such blind throws: 21, one above the 20 of the message, without any |
| `Bottles.StepCount` | osucat/src/addons.hpp:238-250 | Exactly when an event gives a sender one bottle more, and exactly when it takes the sender past any number of bottles |
| `Bottles.Draw` | osucat/src/addons.hpp:291-297 | For every answer of rand() the loop makes at most n redraws, ends at a valid index, stops early only at somebody else's bottle, and returns the user's own if and only if all n+1 draws are |
| `Bottles.CountThrown` | osucat/src/addons.hpp:240 | The counting loop counts the bottles of the user among those that were read |
| `Bottles.Sea.Throw` | osucat/src/addons.hpp:239-251 | Each of the six outcomes if and only if the bottles as read, the forbidden words, the length and the database say so, in this order; one row is added exactly on success, which leaves at most 21 if the table was read |
| `Bottles.Sea.Pick` | osucat/src/addons.hpp:285-343 | No chance, no bottles read, a database error, or the bottle of the first draw that is somebody else's, or of the last one; the table loses just that bottle, or none |
| `Bottles.LiveExactly` | osucat/src/addons.hpp:238 | getBottles (mysql.hpp, line 752) reads every available row, as often as it is in the table, and no other row |
| `Bottles.RemovingAddsNothing` | osucat/src/addons.hpp:317 | CHANGESTATUS, which RemoveBottle writes (mysql.hpp, lines 710 and 783), and the deletions of bottles (lines 608 and 716) give no sender a live bottle |
| `Bottles.RemovedExactly` | osucat/src/addons.hpp:317 | Each of these updates takes just its bottles out of what is read, and leaves the others |
| `Bottles.RandomNumOnto` | osucat/src/addons.hpp:290 | Every number between the bounds is an answer of randomNum, and the answers come round after as many as there are |
| `Bottles.RandomNum` | osucat/src/addons.hpp:290 | The answer of randomNum (utils.hpp, line 2688) is between the bounds |
| `Strings.StringReplace` | osucat/src/addons.hpp:125-127 | The find and append loop of string_replace (utils.hpp, lines 2579 to 2596), as called here, is left-to-right replacement of occurrences that do not overlap |
| `ModParser.ModParser` | osucat/src/include/osu_api.hpp:124-225 | For every 64-bit mask: an exception exactly when Nightcore is without DoubleTime or Perfect without SuddenDeath; otherwise the text that CodeInPlace, SameTextExactly and DecodeOfText are about, NM for zero |
| `ModParser.NightcoreAlone` | osucat/src/include/osu_api.hpp:157-159 | Mask 512 throws |
| `ModParser.SameTextExactly` | osucat/src/include/osu_api.hpp:124-225 | Two masks that print have the same text if and only if they agree on the 31 flags and both or neither are zero |
| `ModParser.CodeInPlace` | osucat/src/include/osu_api.hpp:124-225 | In the text of every mask the code of each printed flag stands at twice the number of printed flags below it, and there is nothing else |
| `ModParser.HiddenFlashlight` | osucat/src/include/osu_api.hpp:139-162 | Hidden and Flashlight print as HDFL |
| `ModParser.TextIsInjective` | osucat/src/include/osu_api.hpp:124-225 | So printing is injective on the consistent 31-bit masks, zero included |
| `ModParser.DecodeOfText` | osucat/src/include/osu_api.hpp:124-225 | A decoder recovers the 31 flags from the text of every consistent mask |
| `ModParser.DecodeOfPart` | osucat/src/include/osu_api.hpp:130-222 | The same for every prefix of the code list |
| `ModParser.ReplaceMeaning` | osucat/src/include/osu_api.hpp:157-174 | find hits the code of its own flag, which is then replaced in place, or fails exactly when that flag is off |
| `ModParser.FromAvoided` | osucat/src/include/osu_api.hpp:157-174 | DT, or SD, never forms across two codes of the text so far |
| `ModParser.NeverOccurs` | osucat/src/include/osu_api.hpp:157-174 | A pair that is no piece and joins no two pieces does not occur in their concatenation |
| `ModParser.Append` | osucat/src/include/osu_api.hpp:130-156 | A flag that appends leaves the code list of the flags so far |
| `ModParser.AppendEarliest` | osucat/src/include/osu_api.hpp:130-144 | The flags before SuddenDeath |
| `ModParser.AppendFirst` | osucat/src/include/osu_api.hpp:130-156 | The flags before Nightcore |
| `ModParser.AppendRest` | osucat/src/include/osu_api.hpp:175-222 | The flags after Perfect |
| `ModParser.Replace` | osucat/src/include/osu_api.hpp:157-174 | A flag that replaces leaves the code list of the flags so far, or throws |
| `Tags.SplitTags` | osucat/src/include/osu_api.hpp:380-386 | The eof-driven loop returns the words, with one element more at an open end |
| `Tags.TagsOfLayout` | osucat/src/include/osu_api.hpp:380-386 | For every layout of words and gaps: the tags are the words if and only if there is a word and nothing behind the last one; otherwise there is one tag more, the last word again or the empty string |
| `Tags.TrailingSpaceRepeats` | osucat/src/include/osu_api.hpp:383-386 | A word and a space behind it push the word twice |
| `Tags.TextIsLayout` | osucat/src/include/osu_api.hpp:380-386 | Every text is a layout of its words, so the above covers every text |
| `Tags.WordsOfLayout` | osucat/src/include/osu_api.hpp:461-464 | However the words are spaced, they are found |
| `Tags.TagsOfJoin` | osucat/src/include/osu_api.hpp:458-464 | The loop inverts joining any nonempty list of words with single spaces |
| `Tags.WordsOfJoin` | osucat/src/include/osu_api.hpp:458-464 | A joined list has the listed words and no open end |
| `Tags.StringStream.constructor` | osucat/src/include/osu_api.hpp:381 | A stream at the beginning of the text, in a good state |
| `Tags.StringStream.Extract` | osucat/src/include/osu_api.hpp:384 | Formatted extraction: what is read, what is left and the two state bits; on failure the variable keeps its value |
| `Badge.BadgeParser` | osucat/src/badge.hpp:9-24 | The loop with its open field returns all fields as numbers, or the error of the first field that is none; the empty text has no numbers |
| `Badge.ParseOfPrint` | osucat/src/badge.hpp:9-24 | Parsing the printed decimals of a list joined by commas returns the list if and only if every number fits a 32-bit int; the empty list included |
| `Badge.AcceptedExactly` | osucat/src/badge.hpp:9-24 | A text is accepted exactly when it is empty or every field is a number |
| `Badge.EmptyFieldRejected` | osucat/src/badge.hpp:14-21 | A text with an empty field is rejected |
| `Badge.TrailingComma` | osucat/src/badge.hpp:21 | A trailing comma makes an empty field, so the text is rejected |
| `Badge.FieldsOfJoin` | osucat/src/badge.hpp:12-22 | Splitting inverts joining |
| `Badge.StoiOfDecimal` | osucat/src/badge.hpp:21 | stoi inverts printing on the range of int and overflows exactly outside of it |
| `Badge.StoiOfNumber` | osucat/src/badge.hpp:21 | stoi reads a number behind spaces, a sign and zeros, whatever follows it, and overflows exactly outside of the range of int |
| `Badge.StoiOfNoNumber` | osucat/src/badge.hpp:21 | Without a digit behind the spaces and the sign it rejects the text |
| `Badge.StoiAll` | osucat/src/badge.hpp:14-21 | All fields as numbers, or the error of the first that is none |

## Left out

- RwLock.RunRefines: atomic steps are interleaved; weak memory is not modelled. The SRW lock orders the accesses to the flag, which RunIsSafe shows to be free of races. A try call fails only when the lock is really taken.
- RwLock.NativeRwLock.RdLock: describes the return of the blocking call only, as do WrLock and Mutex.NativeMutex.Lock; waiting is the impossible step of the protocols.
- TrailingSpace.SkipTrailingSpaceSparc: the buffer ends below the top of the 64-bit address space, as C demands of any object.
- HostMemory.FloatAcrossHosts: floats and doubles are bit patterns; their arithmetic meaning is not modelled.
- Deadlines.FileWaitExact: where the clock plus the timeout leaves the signed 64-bit range (undefined in C++) nothing is said, in FileDeadlineFields, FileWaitInfinite and FileDeadlineOrder too; elsewhere signed overflow is modelled as wrap-around.
- Deadlines.StructTimespec.GetMilliseconds: a 32-bit time_t is taken together with a 32-bit long, as on Windows. Its meaning is stated for normal deadlines from the epoch on, which set_timespec_nsec makes.
- RandEvents.RandEvents: begins after unescaping, the forbidden words, the length limit and trimming, and does not send. The two particles are parameters, because their bytes depend on the compiler's source encoding. In the dispatcher the call of randEvents is commented out.
- Dispatch.Parse: stops at the selected handler; commands inside the comment block of the chain are no entries. Letter case is that of the C locale. The check for administrators behind the last command is in its handler.
- Tags.StringStream.Extract: whitespace is that of the C locale.
- Bottles.QuotaBound: calls follow one another; a race between reading the table and writing the row is not modelled. That a new row is available is the default of the schema, which is not part of the repository. Whether RemoveBottle takes a bottle out (a floating-point probability) is a parameter. Pick counts, the daily grant and the remaining picks are not modelled.
- The POSIX branches, the destroy functions, rw_pr locks, SAFE_MUTEX and the performance schema.
- floatget, floatstore, longlongget, longlongstore and ulongget: copies of memory like those modelled. Overloads on char pointers only cast.
- Escape.RoundTripExactly: the database is taken to give back what was stored; how it reads the quoted text in the query is not modelled.
- Strings.StringReplace: an empty text to be replaced, for which the loop never ends; no call passes one.
- Of Database only the queries on the table of bottles; of HangmanGame only the answer of findPlayer, as a parameter of the dispatcher; of utils only string_replace, randomNum, ocescape and ocunescape. NetConnection, the games and the rest of the database only fetch, store and show.
- HTTP and JSON handling of the osu! API, difficulty calculation, image drawing with Magick++ and the other MySQL headers hold plumbing or declarations.
