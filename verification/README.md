# Verified models of the SAMD21 and WINC1500 drivers

This project models the parts of the repository that carry state machines, wrap-around
arithmetic and encode/decode pairs, and proves what they are for. `dafny verify
dfyconfig.toml` checks all of it.

| file | subject |
|---|---|
| `WrapTime`, `TimerService`, `TimerCalls`, `TailQueue`, `TimerState`, `HalTimer` | the software timer multiplexed on a 16-bit counter with an overflow flag and one compare register |
| `Bytes`, `HashRuns`, `Sha256`, `HashContexts`, `ModPower`, `RsaSignature`, `RsaScheme` | streaming SHA-256 and PKCS#1 v1.5 signatures on the WINC1500 engines |
| `BitDivision`, `Crc16`, `EspLink`, `Espduino` | polynomial division, the CRC-16, and the ESP-link framing built on it |
| `RingBuf`, `UartTx` | the byte ring, and the writer task and transmit-done interrupt that share it |
| `Sessions`, `MbufLedger`, `WincRx`, `WincRead`, `WincLoop`, `WincAccounts`, `WincSteps`, `WincReceiver`, `WincTraces`, `StreamTx` | session ids, receive reassembly into mbuf chains, who owns each mbuf, and sending |
| `Flash` | paged read-modify-write flash refined to a flat byte array |
| `Crc7` | the SPI table CRC |

How the hard parts are stated:

- **Timer.** True time is an unbounded number; the count register shows its low 16 bits. Time may pass
  between any two register accesses (`Elapse`), including wraps. The service is specified on the
  history of starts, stops and firings alone (`TimerService`), and the driver's queue is proved to
  represent that history at all times, through the cells and back references that link it
  (`TailQueue`). What API calls and callbacks must add to the history is `TimerCalls`. The wake-up
  invariant is `Woken`: the interrupt is requested, or the compare is armed with the count still below
  the deadline, or an overflow comes first.
- **Hash and signature.** The hash engine is an arbitrary compression function; what is proved is the
  block stream it is fed. The big-integer engine is arbitrary too, and for one that computes powers
  modulo the modulus (`Right`) signing is proved to be RSA, from two primes on (`ModPower`).
- **CRCs.** Both are proved equal to long division of the message, for every message, through the
  generic theory in `BitDivision`, which also gives linearity and burst detection.
- **Receiving.** `Rx` is the whole receive state, with one memory for all mbufs; `WincRx` holds the
  steps of the source on it, `WincRead` what a reply leaves for every place its socket may point at,
  `WincLoop` the loop, `WincAccounts` each step as the application sees it, `WincReceiver.Receiver` whole
  runs, and `WincTraces` runs that go wrong. A reply comes for every socket of which the firmware holds
  a request, and at any time for an earlier session of a slot. Every mbuf is accounted for in a
  multiset, and inboxes are compared as messages: stated length and bytes of the chain.

Findings, each with its exact condition:

- `hal_timer_delay` ends too early exactly when a reading of its loop comes fewer than ticks - 2^31
  ticks after the first, which requests up to 2^31 rule out (`DelayExit`, `Delay`).
- `hal_timer_start_at` tests whether the timer is queued, and writes its expiry, before its critical
  section. The queue represents the pending timers afterwards exactly if, when the critical section
  begins, the timer is not linked and its expiry is the one asked for; a callback that starts the same
  timer in between can make the first false, and one that starts it and fires the second (`StartOpen`,
  `StartInside`, `StartRacesStart`).
- The compare channel is programmed by a signed comparison of epochs, which takes a deadline 2^15 epochs
  ahead of the counter for late and forces the interrupt at once. Deadlines less than 2^31 - 131072
  ticks ahead are safe (`EpochDelta`, `FarIsTakenForLate`, `NeverFar`).
- The timer interrupt counts an overflow twice exactly when another reader runs between its test and
  its clearing of the flag, unless the count wraps between these two. A reader between the clearing
  and the increment that does not follow such a one is told a time a whole wrap in the past
  (`Acknowledge`, `CountedTwice`, `ReadsBackwards`).
- The SHA-256 padding is the standard's exactly below 2^29 bytes, since only 32 bits of the bit
  length are stored (`HostPadIsPad`). Contexts share the engine's state: a digest is its context's own
  exactly if the engine has hashed just what the context gave since the last INIT, as when nothing else
  ran (`Interleave`, `OwnHashIff`, `Undisturbed`, `FirstIsLost`).
- `BigInt_ModExp` does not return exactly if the leading word of the exponent is zero, since it shifts
  that word until its top bit is set (`BigIntModExp`, `ShiftingEnds`).
- The encoded message is that of section 9.2 of RFC 8017 exactly for MD5, SHA-1 and SHA-256: other
  digests get the SHA-256 prefix (`EncodingIsStandard`). A generated signature verifies exactly when
  the digest has at most 255 bytes, since its length is stored in one byte and compared with 16 bits
  (`SignThenVerify`).
- For a socket aimed at the chain, a payload that needs a second mbuf is delivered whole exactly when
  the request sent after its first chunk is accepted. If it is refused, the second chunk is noted over
  the first and its own bytes are lost (`AimedIsWhole`, `RefusalLosesSecond`).
- Every payload arrives whole, and no held byte changes, exactly if the socket points at the first
  mbuf of the chain. It may not: after a payload that needs a second mbuf and finds no new chain, a
  poll that aims another socket leaves the first one answered into its own queued packet
  (`WholeIffAimed`, `HeldIffAside`, `StrayTrace`, `StrayedHarms`).
- A reply makes the driver go through a null or stale pointer exactly if the cursor is not at the start
  of the chain, or if the reply runs past its end (`Answer`). Both happen from the same state: the first
  if the request of the other socket is refused (`CursorTrace`), the second if mbufs differ in size
  (`OverrunTrace`). Neither happens, and every payload arrives whole, as long as no request is refused
  and no chain is missing after a reply of several chunks (`Receiver.Run`, `Calm`).
- Polling has a request at the firmware exactly if the socket called was not stuck, which a refused
  request makes it until it is closed or a reply of an earlier session of its slot clears the flag;
  without a request, also after closing the only socket asked for, nothing is received any more
  (`StartedAsks`, `RefusedIsStuck`, `Receiver.Run`, `FreedOrStalled`).
- `winc1500_stream_tx` compares the firmware's code (0, -6 or -14) with `MN_ENOBUFS`. Unless that
  constant is one of these, a full firmware buffer is reported as an error although the rest of the
  chain has been taken over, contrary to the comment above the function (`StreamTx`).

## Model

| member | source | states |
|---|---|---|
| `WrapTime.SDiffIsTrueDifference` | hw/mcu/atmel/samd21xx/src/hal_timer.c:194 | the signed 32-bit difference of two wrapped times is the true difference exactly when that lies in [-2^31, 2^31) |
| `WrapTime.EpochBase` | hw/mcu/atmel/samd21xx/src/hal_timer.c:114-115 | masking the low 16 bits of a wrapped time gives the wrapped start of its epoch |
| `WrapTime.EpochPlusLow` | hw/mcu/atmel/samd21xx/src/hal_timer.c:170 | an epoch base has its low half clear, so OR-ing a 16-bit count into it adds it |
| `TimerService.LegalAppend` | hw/mcu/atmel/samd21xx/src/hal_timer.c:192-201 | a history of starts, stops and firings stays legal when extended by an event legal for the timers then pending |
| `TimerService.PendingHasStart` | hw/mcu/atmel/samd21xx/src/hal_timer.c:637-673 | a pending timer has a start in the history, with its deadline, and no event of that timer since |
| `TimerService.FiringAnswersAStart` | hw/mcu/atmel/samd21xx/src/hal_timer.c:192-197 | in a legal history every firing answers exactly one start of that timer, the last event before it, and its deadline had been reached |
| `TimerService.AtMostOneFiringPerStart` | hw/mcu/atmel/samd21xx/src/hal_timer.c:192-197 | between two firings of one timer there is a start of it |
| `TimerService.NoFiringAfterStop` | hw/mcu/atmel/samd21xx/src/hal_timer.c:685-721 | a stopped timer fires again only after a new start |
| `TimerService.FiringOrder` | hw/mcu/atmel/samd21xx/src/hal_timer.c:654-663 | of two timers pending together the one that fires first has the earlier deadline, or an equal one and was started first |
| `TailQueue.InsertKeeps` | hw/mcu/atmel/samd21xx/src/hal_timer.c:651-663 | in cells and back references: inserting an element that is not linked, at any place, inserts it into the sequence a walk sees |
| `TailQueue.RemoveKeeps` | hw/mcu/atmel/samd21xx/src/hal_timer.c:195-196 | removing a linked element removes it from that sequence |
| `TailQueue.InsertTwiceBreaks` | hw/mcu/atmel/samd21xx/src/hal_timer.c:651-663 | inserting a linked element again, at any place but its own, leaves the links of no sequence that has all the elements |
| `TimerState.Enter` | hw/mcu/atmel/samd21xx/src/common/utils/interrupt/interrupt_sam_nvic.c:57-71 | entering a critical section leaves interrupts masked and the depth positive |
| `TimerState.Leave` | hw/mcu/atmel/samd21xx/src/common/utils/interrupt/interrupt_sam_nvic.c:73-85 | leaving one keeps interrupts masked as long as the depth is positive |
| `TimerState.CriticalSectionBalanced` | hw/mcu/atmel/samd21xx/src/common/utils/interrupt/interrupt_sam_nvic.c:57-85 | a critical section restores the interrupt state at every nesting depth, whatever balanced sections ran inside |
| `TimerState.TickKeeps` | hw/mcu/atmel/samd21xx/src/hal_timer.c:101-143 | a hardware tick keeps the epoch count exact and every wake-up under way, unless it wraps onto a set overflow flag |
| `TimerState.WokenByDeadline` | hw/mcu/atmel/samd21xx/src/hal_timer.c:101-143 | a wake-up under way for a deadline means a requested interrupt once that time is reached |
| `TimerState.EpochDelta` | hw/mcu/atmel/samd21xx/src/hal_timer.c:111-135 | the driver's comparison takes a deadline for late exactly if its epoch is before the counter's or 2^15 or more after it, and for the current one exactly if it is |
| `TimerState.FarIsTakenForLate` | hw/mcu/atmel/samd21xx/src/hal_timer.c:114-117 | the input: a timer started at time 65535 for 2^31 - 2 ticks later is taken for late |
| `TimerCalls.NeverFar` | hw/mcu/atmel/samd21xx/src/hal_timer.c:114-117 | that cannot happen to a deadline less than 2^31 - 131072 ticks ahead |
| `HalTimer.Timer.DueMeansRequested` | hw/mcu/atmel/samd21xx/src/hal_timer.c:203-209 | no lost wake-up: whenever any pending timer is due, the interrupt is requested |
| `HalTimer.Timer.ReadRegisters` | hw/mcu/atmel/samd21xx/src/hal_timer.c:160-170 | with ticks and wraps between all register accesses, the value returned was the true time at some instant during the call, the overflow is counted once, and no wake-up is lost; if no time passes it is `ReadAtOnce` |
| `HalTimer.Timer.ReadBsp` | hw/mcu/atmel/samd21xx/src/hal_timer.c:152-174 | linearizable 32-bit read: equals a true time between call and return modulo 2^32, never before that of an earlier read; the interrupt state is restored |
| `HalTimer.Timer.SetOcmp` | hw/mcu/atmel/samd21xx/src/hal_timer.c:101-143 | afterwards the wake-up for that deadline is under way; the compare channel is on, and set to the deadline, exactly in its epoch; and the interrupt is forced exactly for a deadline in an earlier epoch or one taken for late, and else only once the deadline is reached |
| `HalTimer.Timer.Program` | hw/mcu/atmel/samd21xx/src/hal_timer.c:118-135 | in the deadline's epoch: compare value, flag and enable with time between them, and the interrupt forced only if the deadline is reached by then |
| `HalTimer.Timer.Rearm` | hw/mcu/atmel/samd21xx/src/hal_timer.c:203-209 | the compare channel is set for the head of the queue, or off if there is none; no wake-up is lost, and the interrupt is forced only for an urgent head |
| `HalTimer.Timer.FindSlot` | hw/mcu/atmel/samd21xx/src/hal_timer.c:651-663 | the walk stops at the first entry that expires strictly later, so equal deadlines stay in order of start |
| `HalTimer.Timer.Insert` | hw/mcu/atmel/samd21xx/src/hal_timer.c:649-670 | the queue lists the pending timers, sorted, the start is recorded, no wake-up is lost, and the hardware is touched exactly for a new head, for which the compare channel is then set |
| `HalTimer.Timer.StartAt` | hw/mcu/atmel/samd21xx/src/hal_timer.c:636-673 | EINVAL exactly for a null timer, a queued one or one without callback; otherwise exactly this start is added to a legal history and the queue represents it |
| `HalTimer.Timer.StartOpen` | hw/mcu/atmel/samd21xx/src/hal_timer.c:636-673 | with any run of interrupts, calls and reads between the argument check and the write of the expiry, and between that and the critical section: refused exactly by the check; accepted starts keep all invariants; where it breaks, the queue represents the pending timers in no order, with or without this start; without anything in between it does not break |
| `HalTimer.Timer.StartInside` | hw/mcu/atmel/samd21xx/src/hal_timer.c:649-670 | breaks exactly if, when the critical section begins, the timer is linked or its expiry field is not the one asked for, and then the queue represents the pending timers neither with nor without it; otherwise the queue represents the history with this start, unless the deadline has left the window |
| `HalTimer.Timer.StartRacesStart` | hw/mcu/atmel/samd21xx/src/hal_timer.c:642-663 | the failing interleaving: an interrupt starts the same timer between check and critical section |
| `TimerState.TwiceIsNotThreaded` | hw/mcu/atmel/samd21xx/src/hal_timer.c:651-663 | a timer linked twice is in no queue of all pending timers, whatever deadline the second start asked for |
| `HalTimer.Timer.Enqueue` | hw/mcu/atmel/samd21xx/src/hal_timer.c:651-663 | insertion at the position found keeps the queue sorted with FIFO among equal deadlines |
| `HalTimer.Timer.Dequeue` | hw/mcu/atmel/samd21xx/src/hal_timer.c:195-196 | removal keeps the order of the rest, and the timer counts as unlinked |
| `HalTimer.Timer.Remove` | hw/mcu/atmel/samd21xx/src/hal_timer.c:699-716 | stopping a queued timer removes it; the compare channel follows the new head exactly if it was the head |
| `HalTimer.Timer.Stop` | hw/mcu/atmel/samd21xx/src/hal_timer.c:684-721 | EINVAL exactly for null; a queued timer is removed and the stop recorded, otherwise nothing happens |
| `HalTimer.Timer.FireHead` | hw/mcu/atmel/samd21xx/src/hal_timer.c:192-200 | the head is fired exactly when its deadline is not after the time read, and it is the earliest pending timer |
| `HalTimer.Timer.ChkQueue` | hw/mcu/atmel/samd21xx/src/hal_timer.c:183-212 | the history grows by rounds, each a firing of the earliest timer, due by then, followed by exactly the starts and stops that its callback asks for and the API accepts; every timer due at entry has fired or was stopped by a callback; the remaining head was not due at the last reading, the compare channel is set for it, and the interrupt is forced only for an overflow counted by a read or an urgent deadline |
| `HalTimer.Timer.FireNext` | hw/mcu/atmel/samd21xx/src/hal_timer.c:192-200 | one round: the head fires exactly if it is due, and then its callback runs |
| `TimerCalls.RoundsAsked` | hw/mcu/atmel/samd21xx/src/hal_timer.c:192-201 | in such rounds every event is a firing or asked for by an action of the plan |
| `TimerCalls.GoneHasEvent` | hw/mcu/atmel/samd21xx/src/hal_timer.c:192-201 | a timer that is not pending any more for the same start has fired or was stopped |
| `TimerCalls.DrainedServes` | hw/mcu/atmel/samd21xx/src/hal_timer.c:192-201 | when no pending timer is due any more, every timer that was due has fired or was stopped by a callback |
| `HalTimer.Timer.Readings` | hw/mcu/atmel/samd21xx/src/hal_timer.c:152-174 | any number of reads, on a counter that lags behind the overflows cleared: each tells the time of an instant of the read, that many wraps too early |
| `HalTimer.Timer.CountOverflow` | hw/mcu/atmel/samd21xx/src/hal_timer.c:243-247 | from the clearing of the flag to the increment: the overflow is counted twice exactly if a reader comes between test and clearing, unless the count wraps in between; reads before the increment are a wrap too early exactly if it was not |
| `HalTimer.Timer.Acknowledge` | hw/mcu/atmel/samd21xx/src/hal_timer.c:236-247 | the handler with readers at all three points of the source: before the test and before the clearing every read is linearizable; the counter is wrong afterwards exactly if a reader came between test and clearing of a set flag, unless the count wrapped between these two; otherwise a read between clearing and increment tells a time a wrap too early, and is not linearizable |
| `TimerState.LateIsNotLinearizable` | hw/mcu/atmel/samd21xx/src/hal_timer.c:243-247 | a value a wrap too early was the time at no instant of a read shorter than a wrap |
| `TimerState.CountedTwice` | hw/mcu/atmel/samd21xx/src/hal_timer.c:243-247 | the input at which an overflow is counted twice |
| `TimerState.ReadsBackwards` | hw/mcu/atmel/samd21xx/src/hal_timer.c:245-246 | the input at which a reader at time 65536 is told time 0 |
| `HalTimer.Timer.IrqHandler` | hw/mcu/atmel/samd21xx/src/hal_timer.c:229-265 | with other readers before the test and before the increment: all invariants; the rounds of `ChkQueue`, and every timer due at entry served; afterwards no wake-up is lost, and the interrupt is pending again only if a reader counted an overflow or a timer was urgent in between |
| `HalTimer.Timer.Perform` | hw/mcu/atmel/samd21xx/src/hal_timer.c:622-721 | the calls of a callback add exactly the events they ask for and the API accepts, at instants in order |
| `HalTimer.Timer.Delay` | hw/mcu/atmel/samd21xx/src/hal_timer.c:580-591 | with any run of interrupts, calls and reads between its readings: the loop ends exactly at the first reading past its end; that comes too early exactly if fewer than ticks - 2^31 ticks had passed, and so never for requests up to 2^31 |
| `TimerState.DelayExit` | hw/mcu/atmel/samd21xx/src/hal_timer.c:585-586 | the loop condition ends the delay too early at a reading exactly if fewer than ticks - 2^31 ticks have passed since the first |
| `TimerState.DelayTooLong` | hw/mcu/atmel/samd21xx/src/hal_timer.c:585-586 | a request of 2^31 + 1 ticks ends at once if both readings fall on one tick, and goes on if a tick lies between them |
| `HalTimer.Timer.Run` | hw/mcu/atmel/samd21xx/src/hal_timer.c:152-265 | over every run of ticks, interrupts, client calls and reads, each start open to more of them, until a start breaks the queue: each step adds to the history exactly what it should (an interrupt its rounds, a call its event, the others nothing); the history is legal, the queue represents it, and whatever is due has its interrupt requested; it ends early only if the queue then represents no pending timers, or a start asks for a deadline out of the window |
| `Bytes.Memcpy` | libs/winc1500/src/common/nm_common.c:43-52 | copies the source bytes and nothing else |
| `Bytes.Memset` | libs/winc1500/src/common/nm_common.c:65-73 | sets the range and nothing else |
| `Bytes.Memcmp` | libs/winc1500/src/common/nm_common.c:123-136 | zero exactly when the ranges agree |
| `Sha256.ZeroCountIsLeast` | libs/winc1500/src/driver/m2m_crypto.c:343-358 | the number of zero bytes is the smallest that completes a block (section 5.1.1 of FIPS 180-4) |
| `HashRuns.HashConcat` | libs/winc1500/src/driver/m2m_crypto.c:275-279 | hashing block strings composes, so a run without INIT continues the earlier ones |
| `Sha256.HostPadIsPad` | libs/winc1500/src/driver/m2m_crypto.c:361 | the 32-bit length field gives the padding of section 5.1.1 of FIPS 180-4 exactly for messages below 2^29 bytes |
| `Sha256.BigEndianValue` | libs/winc1500/src/driver/m2m_crypto.c:361 | the length field holds the number most significant byte first |
| `Sha256.DigestWords` | libs/winc1500/src/driver/m2m_crypto.c:384-393 | the digest is made of the words the engine holds, each most significant byte first |
| `Sha256.Engine.Run` | libs/winc1500/src/driver/m2m_crypto.c:271-299 | a run adds the blocks it was given to the history of runs, and the state is what that history leaves |
| `Sha256.Context.constructor` | libs/winc1500/src/driver/m2m_crypto.c:204-213 | a fresh context, on an engine that others may have used, has given nothing and will set INIT first |
| `Sha256.Context.TopUp` | libs/winc1500/src/driver/m2m_crypto.c:236-254 | the partial block and the data taken from the update are together the bytes there were |
| `Sha256.Context.Feed` | libs/winc1500/src/driver/m2m_crypto.c:256-299 | exactly the whole blocks reach the engine in a run of its own, with INIT exactly in the first such run; the rest is less than a block |
| `Sha256.Context.Keep` | libs/winc1500/src/driver/m2m_crypto.c:300-303 | the rest is kept at the start of the block buffer |
| `Sha256.Context.Update` | libs/winc1500/src/driver/m2m_crypto.c:215-307 | what the context gave the engine followed by the buffered bytes is the message so far, for every chunk, whatever other contexts ran in between; one engine run if a block was completed, none otherwise |
| `Sha256.Context.Seal` | libs/winc1500/src/driver/m2m_crypto.c:340-347 | 0x80 after the data, then zeros to the end of the block |
| `Sha256.Context.PutLength` | libs/winc1500/src/driver/m2m_crypto.c:361 | the bit length modulo 2^32, big-endian, in the last four bytes |
| `Sha256.Context.FinalBlocks` | libs/winc1500/src/driver/m2m_crypto.c:337-365 | one or two blocks that complete the message |
| `Sha256.PadTailCompletes` | libs/winc1500/src/driver/m2m_crypto.c:337-361 | the final blocks complete the padding of the whole message, whatever was sent before |
| `Sha256.Context.Finish` | libs/winc1500/src/driver/m2m_crypto.c:310-398 | the context has given the engine exactly its padded message; the digest is the hash of what was run since the last INIT |
| `Sha256.HashChunks` | libs/winc1500/src/driver/m2m_crypto.c:204-398 | alone on an engine, for every split into updates: what was run since INIT is the padded message (of section 5.1.1 of FIPS 180-4 below 2^29 bytes), the digest its hash, and exactly the first run has INIT |
| `HashRuns.StateIsSinceInit` | libs/winc1500/src/driver/m2m_crypto.c:275-279 | the engine holds the hash of what was run since the last INIT, whoever ran it |
| `HashRuns.OwnHashIff` | libs/winc1500/src/driver/m2m_crypto.c:191-196 | contexts do not save the engine state: it is the hash of what a context gave, whatever the compression, exactly if that is what was run since the last INIT |
| `HashRuns.Undisturbed` | libs/winc1500/src/driver/m2m_crypto.c:215-307 | that is so if only its own runs follow its INIT |
| `HashRuns.FedByOthers` | libs/winc1500/src/driver/m2m_crypto.c:215-307 | what one context runs leaves what every other one has given, and whether its INIT is to come, unchanged |
| `HashContexts.Interleave` | libs/winc1500/src/driver/m2m_crypto.c:204-398 | any number of contexts on one engine, updates in any order, then one finished: it has given its own padded message, with INIT in its first run only; its digest is the hash of what was run since the last INIT, so that `OwnHashIff` says when it is right |
| `HashContexts.FirstIsLost` | libs/winc1500/src/driver/m2m_crypto.c:204-398 | two contexts that start one after the other: the digest of the first is that of the second one's block followed by its own padding |
| `HashRuns.InterleavedContexts` | libs/winc1500/src/driver/m2m_crypto.c:215-307 | the runs of two contexts that start one after the other: what was hashed since the last INIT is not what the first gave |
| `RsaSignature.FlipBuffer` | libs/winc1500/src/driver/m2m_crypto.c:405-416 | the bytes reversed into the other buffer, the rest untouched |
| `RsaSignature.ReversedTwice` | libs/winc1500/src/driver/m2m_crypto.c:405-416 | flipping twice is the identity |
| `RsaSignature.KeyPairUndoes` | libs/winc1500/src/driver/m2m_crypto.c:418-518 | a key pair of the engine, stated least significant byte first, undoes itself in the byte order of the caller too |
| `RsaSignature.WriteOperand` | libs/winc1500/src/driver/m2m_crypto.c:452-474 | an operand reaches the engine reversed and filled with zeros to whole words |
| `RsaSignature.TopWordIsZero` | libs/winc1500/src/driver/m2m_crypto.c:464 | the word the bit count starts from is zero exactly if the one to four leading bytes of the exponent are |
| `RsaSignature.ShiftingEnds` | libs/winc1500/src/driver/m2m_crypto.c:465-469 | the loop of shifts ever ends exactly if that word is not zero |
| `RsaSignature.MswBits` | libs/winc1500/src/driver/m2m_crypto.c:464-469 | then it counts the bits of the word |
| `RsaSignature.BigIntModExp` | libs/winc1500/src/driver/m2m_crypto.c:418-518 | returns exactly if the leading word of the exponent is not zero, and then the first bytes of the result buffer are the engine's result in the byte order of the caller |
| `RsaScheme.ModExpIsPower` | libs/winc1500/src/driver/m2m_crypto.c:418-518 | on an engine that is right on numbers, the result is the base raised to the exponent modulo the modulus, each read most significant byte first |
| `ModPower.KeyUndoes` | libs/winc1500/src/driver/m2m_crypto.c:554-691 | raising to one exponent and then to the other gives the number back, for a product of two primes and exponents whose product leaves 1 modulo each prime less one |
| `RsaScheme.KeyPairOfPrimes` | libs/winc1500/src/driver/m2m_crypto.c:554-691 | so such a key is a key pair of a right engine |
| `RsaSignature.FieldsOfLayout` | libs/winc1500/src/driver/m2m_crypto.c:597-620 | a block has the encoded-message layout exactly when each field inspected is right |
| `RsaSignature.Fill` | libs/winc1500/src/driver/m2m_crypto.c:672-681 | the buffer holds 00 01 FF..FF 00 T length hash |
| `RsaSignature.BuildEm` | libs/winc1500/src/driver/m2m_crypto.c:640-681 | the buffer holds the block that verification compares with; `EncodingIsStandard` says when it is the standard's |
| `RsaSignature.DigestInfoParts` | libs/winc1500/src/driver/m2m_crypto.c:522-551 | the DER value of section 9.2 of RFC 8017, note 1, is a prefix, the digest length and the digest |
| `RsaSignature.TableIsStandard` | libs/winc1500/src/driver/m2m_crypto.c:522-551 | the table entry chosen by the digest length is that prefix exactly for MD5, SHA-1 and SHA-256 |
| `RsaSignature.EncodingIsStandard` | libs/winc1500/src/driver/m2m_crypto.c:640-681 | for each of the nine hash functions of section 9.2 of RFC 8017: the block that signing builds is the standard's exactly for MD5, SHA-1 and SHA-256 |
| `RsaSignature.Sha384IsMislabelled` | libs/winc1500/src/driver/m2m_crypto.c:650-654 | a SHA-384 digest is encoded with the identifier of SHA-256 and a wrong outer length |
| `RsaSignature.SignGen` | libs/winc1500/src/driver/m2m_crypto.c:627-691 | fails exactly when the modulus is too short; otherwise it signs that encoding, or does not return exactly if the leading word of the exponent is zero |
| `RsaSignature.ScanPadding` | libs/winc1500/src/driver/m2m_crypto.c:607 | stops at the first byte from index 2 that is not 0xFF |
| `RsaSignature.CheckFields` | libs/winc1500/src/driver/m2m_crypto.c:605-620 | true exactly for the layout with a one-byte length |
| `RsaSignature.CheckEm` | libs/winc1500/src/driver/m2m_crypto.c:595-620 | accepts a block exactly when it is the encoding that signing builds and the digest has at most 255 bytes |
| `RsaSignature.SignVerify` | libs/winc1500/src/driver/m2m_crypto.c:554-624 | accepts exactly the signatures whose decrypted block is that encoding; does not return exactly if the modulus is long enough and the leading word of the exponent is zero |
| `RsaSignature.SignThenVerify` | libs/winc1500/src/driver/m2m_crypto.c:554-691 | sign_gen then verify with an inverse key pair, on any stack contents: the scan ends, and the signature is accepted exactly when it was made and the digest has at most 255 bytes |
| `RsaScheme.SignThenVerifyRsa` | libs/winc1500/src/driver/m2m_crypto.c:554-691 | for a key of two primes on a right engine: the signature is the encoded message raised to the private exponent modulo the modulus, and verification accepts it exactly if the digest has at most 255 bytes |
| `RsaSignature.AcceptsOneDigest` | libs/winc1500/src/driver/m2m_crypto.c:597-620 | a block is accepted for at most one digest of a given length |
| `BitDivision.LfsrIsRemainder` | libs/espduino/src/crc16.c:44 | for any generator, the shift register computes the remainder of long division of the message times the highest power, the start value added to its leading coefficients |
| `BitDivision.LfsrConcat` | libs/espduino/src/crc16.c:65-76 | the register composes over concatenation |
| `BitDivision.LfsrLinear` | libs/espduino/src/crc16.c:44 | the register is linear over XOR of equally long messages and start values |
| `BitDivision.LfsrInjective` | libs/espduino/src/crc16.c:44 | different registers stay different under the same message |
| `BitDivision.ZeroesOnlyItself` | libs/espduino/src/crc16.c:44 | no more bits than the register holds bring it to zero, unless they were its contents |
| `BitDivision.DetectsBurst` | libs/espduino/src/crc16.c:44 | messages differing only inside a window no wider than the register leave different registers |
| `Crc16.Data` | libs/espduino/src/crc16.c:65-76 | the loop folds crc16_add over the buffer |
| `Crc16.CrcConcat` | libs/espduino/src/crc16.c:65-76 | the CRC composes over concatenation |
| `Crc16.FourAtOnce` | libs/espduino/src/crc16.c:57-61 | four steps of the register in one: within them no bit fed back is shifted out again |
| `Crc16.AddIsSerial` | libs/espduino/src/crc16.c:46-63 | the shifts and masks of crc16_add are eight steps of a reflected shift register over the byte |
| `Crc16.StepShifts` | libs/espduino/src/crc16.c:44-63 | a step of that register is a step of polynomial division by x^16+x^12+x^5+1 |
| `Crc16.CrcShifts` | libs/espduino/src/crc16.c:65-76 | crc16_data is that register run over all bits of the message |
| `Crc16.CrcIsRemainder` | libs/espduino/src/crc16.c:44-76 | crc16_data is the remainder of long division by x^16+x^12+x^5+1, for every message and start value |
| `Crc16.CrcLinear` | libs/espduino/src/crc16.c:46-76 | crc16_data of an XOR of equally long messages and start values is the XOR of the CRCs |
| `Crc16.CrcDetectsBurst` | libs/espduino/src/crc16.c:46-76 | messages that differ inside sixteen consecutive bits have different CRCs |
| `Crc16.DetectsDamage` | libs/espduino/src/crc16.c:46-76 | messages of any equal length that differ only in two adjacent bytes have different CRCs |
| `EspLink.UnstuffsStuff` | libs/espduino/src/espduino.c:145-158 | feeding stuffed bytes appends the original bytes to the decoder buffer |
| `EspLink.FeedConcat` | libs/espduino/src/espduino.c:338-363 | the decoder works byte by byte: feeding a concatenation is feeding its parts |
| `EspLink.WalkArgs` | libs/espduino/src/espduino.c:304-310 | the walk over the arguments skips exactly what the encoder wrote |
| `EspLink.ArgsFound` | libs/espduino/src/espduino.c:193-208 | in a received buffer the i-th argument lies where the walk over the ones before it ends: its length in whole words, its bytes, and zeros up to where the walk goes on |
| `EspLink.FieldOrder` | libs/espduino/src/espduino.c:175-191 | fields of two and four bytes hold the low byte first |
| `EspLink.PayloadIntact` | libs/espduino/src/espduino.c:291-315 | a buffer that holds an encoded request passes the CRC check, and command, callback, return value, argument count and every argument can be read from it |
| `EspLink.FrameRoundTrip` | libs/espduino/src/espduino.c:145-220 | from any decoder state a frame is decoded to its payload, accepted, its return value reported if the command is the pending one, and every field and argument can be read back |
| `EspLink.FramesRoundTrip` | libs/espduino/src/espduino.c:331-364 | concatenated frames are decoded one by one |
| `EspLink.DamageBreaksCheck` | libs/espduino/src/espduino.c:299-315 | damage in two adjacent bytes before the CRC, outside argc and the length prefixes, fails the check |
| `EspLink.DamagedFrameDropped` | libs/espduino/src/espduino.c:291-329 | such a buffer is dropped with return flag, return value and calls unchanged |
| `EspLink.DamagedOnTheWire` | libs/espduino/src/espduino.c:331-364 | the same on the wire: from any decoder state a frame damaged so before stuffing loads the buffer and reports nothing |
| `Espduino.StuffConcat` | libs/espduino/src/espduino.c:160-173 | stuffing works byte by byte |
| `Espduino.Driver.WriteByte` | libs/espduino/src/espduino.c:145-158 | emits the stuffed form of a byte |
| `Espduino.Driver.WriteCrc` | libs/espduino/src/espduino.c:160-173 | emits the stuffed bytes and returns the continued CRC |
| `Espduino.Driver.RequestStart` | libs/espduino/src/espduino.c:175-191 | emits the start byte and the stuffed header, and makes the command the pending one |
| `Espduino.Driver.RequestCont` | libs/espduino/src/espduino.c:193-208 | emits one argument: padded length, data, zero padding |
| `Espduino.Driver.RequestEnd` | libs/espduino/src/espduino.c:210-220 | emits the stuffed CRC and the end byte |
| `Espduino.Driver.SendRequest` | libs/espduino/src/espduino.c:175-220 | start, one cont per argument and end emit exactly one frame of the request |
| `Espduino.Driver.CheckBuffer` | libs/espduino/src/espduino.c:299-315 | the loop over the arguments accepts exactly the buffers whose stored CRC is that of the data before it |
| `Espduino.Driver.CompletedCb` | libs/espduino/src/espduino.c:291-329 | refines the completion step of the decoder |
| `Espduino.Driver.Process` | libs/espduino/src/espduino.c:331-364 | refines the decoder over all waiting bytes |
| `Espduino.Driver.Deliver` | libs/espduino/src/espduino.c:175-364 | what one driver sends, one waiting for that command reports: return flag, value, and the request in the callback buffer with every field and argument |
| `RingBuf.Ring.constructor` | libs/espduino/src/ringbuf.c:16-25 | an empty ring |
| `RingBuf.Ring.Put` | libs/espduino/src/ringbuf.c:32-46 | appends, refused exactly when full |
| `RingBuf.Ring.Get` | libs/espduino/src/ringbuf.c:53-67 | takes the oldest byte, refused exactly when empty |
| `UartTx.Uart.FillTxBuf` | hw/mcu/atmel/samd21xx/src/hal_uart.c:45-57 | moves the oldest bytes, up to eight, to the transmit buffer in order; called only with no job in flight |
| `UartTx.Uart.TxDone` | hw/mcu/atmel/samd21xx/src/hal_uart.c:59-80 | the interrupt starts a job of the oldest bytes, up to eight, or ends transmission exactly if the ring is empty |
| `UartTx.Uart.StartTx` | hw/mcu/atmel/samd21xx/src/hal_uart.c:125-147 | afterwards a non-empty ring has transmission on, even if the interrupt strikes in between |
| `UartTx.Uart.Write` | libs/espduino/src/espduino.c:105-120 | the byte is added, once, after all earlier ones; the wait for a slot ends |
| `UartTx.Uart.Run` | libs/espduino/src/espduino.c:82-120 | over every run: bytes given to jobs followed by bytes in the ring are the bytes written, in order; the buffer in flight is never overwritten; a waiting byte has transmission on |
| `Flash.ProgramErased` | hw/mcu/atmel/samd21xx/src/hal_flash.c:146-163 | programming, which can only clear bits, stores a patched page exactly where the patched cells were erased |
| `Flash.Geometry` | hw/mcu/atmel/samd21xx/src/hal_flash.c:83-90 | where an address lies in its page, and that pages do not straddle the end |
| `Flash.Device.ReadPage` | hw/mcu/atmel/samd21xx/src/hal_flash.c:81-104 | the rest of the page that holds the address |
| `Flash.Device.Read` | hw/mcu/atmel/samd21xx/src/hal_flash.c:64-107 | equals the flat slice of the memory; with a ready controller it succeeds exactly inside the memory |
| `Flash.Device.PatchPage` | hw/mcu/atmel/samd21xx/src/hal_flash.c:147-155 | refuses exactly when some byte to be replaced is not 0xff |
| `Flash.Device.StoreInPage` | hw/mcu/atmel/samd21xx/src/hal_flash.c:137-163 | a page part is stored entirely or the memory is unchanged |
| `Flash.Device.NextPart` | hw/mcu/atmel/samd21xx/src/hal_flash.c:128-135 | the part ends with the request or with the page |
| `Flash.Device.WriteNext` | hw/mcu/atmel/samd21xx/src/hal_flash.c:125-165 | one turn stores one more part on erased cells, or changes nothing |
| `Flash.Device.Write` | hw/mcu/atmel/samd21xx/src/hal_flash.c:109-167 | exactly a prefix of the request is stored, on cells that were 0xff, everything else unchanged; success stores all; a refusal ends at a page boundary; with a ready controller it succeeds exactly if the range was erased |
| `Flash.Device.EraseSector` | hw/mcu/atmel/samd21xx/src/hal_flash.c:169-188 | sets exactly its sector to 0xff; a failure leaves a whole number of its rows erased and all else unchanged |
| `Flash.Device.SectorInfo` | hw/mcu/atmel/samd21xx/src/hal_flash.c:191-210 | valid exactly for indices below the sector count; sector `idx` starts at idx times the size and lies in the memory |
| `Flash.SectorsTile` | hw/mcu/atmel/samd21xx/src/hal_flash.c:200-208 | every address below count times size lies in exactly one of `count` ranges of that size |
| `Flash.Device.SectorOf` | hw/mcu/atmel/samd21xx/src/hal_flash.c:191-210 | an address lies in exactly one of the sectors that sector_info tells of if it is below their end, and in none otherwise |
| `Flash.Device.EraseRange` | hw/mcu/atmel/samd21xx/src/hal_flash.c:169-210 | erasing the sectors that cover a range leaves them 0xff and everything else unchanged |
| `Flash.Device.Rewrite` | hw/mcu/atmel/samd21xx/src/hal_flash.c:64-188 | after erasing the covering sectors, writing and reading back any range returns the bytes written |
| `Sessions.SameId` | libs/winc1500/src/socket/socket.c:521-527 | two sessions share an id exactly if a multiple of 65535 sessions lies between them |
| `Sessions.BumpIsNextId` | libs/winc1500/src/socket/socket.c:242-244 | incrementing and skipping zero gives the next of the ids 1..65535 |
| `Sessions.Table.constructor` | libs/winc1500/src/socket/socket.c:409-418 | no slot in use |
| `Sessions.Table.Open` | libs/winc1500/src/socket/socket.c:519-527 | the slot gets the next session; the others are unchanged |
| `Sessions.Table.Socket` | libs/winc1500/src/socket/socket.c:489-543 | takes the first free slot of the range of the kind; fails exactly when there is none, or for another domain or kind, and then changes nothing |
| `Sessions.Table.Accept` | libs/winc1500/src/socket/socket.c:235-248 | the slot named by the firmware gets the next session and keeps its pending flag; the others are unchanged |
| `Sessions.Table.Close` | libs/winc1500/src/socket/socket.c:878-903 | clears a slot in use, otherwise nothing |
| `Sessions.Table.Reply` | libs/winc1500/src/socket/socket.c:296-375 | a reply is delivered exactly if the slot is in use and a multiple of 65535 sessions lies between its session and the slot's |
| `Sessions.Table.Run` | libs/winc1500/src/socket/socket.c:235-375 | over every run each step changes slots and sessions exactly as it should, and a delivered reply is of the session its slot then had or at least 65535 sessions away |
| `MbufLedger.LedgerAlloc` | libs/winc1500/src/winc1500_socket.c:586-612 | an allocated chain comes out of the pool |
| `MbufLedger.LedgerFinish` | libs/winc1500/src/winc1500_socket.c:742-748 | a finished chain goes to one queue and its tail to the pool |
| `MbufLedger.LedgerTake` | libs/winc1500/src/winc1500_socket.c:460-464 | a packet leaves its queue for the application |
| `MbufLedger.LedgerDrop` | libs/winc1500/src/winc1500_socket.c:267-270 | a packet leaves its queue for the pool |
| `MbufLedger.LedgerReturn` | libs/winc1500/src/winc1500_socket.c:251-277 | an mbuf leaves the application for the pool |
| `WincRx.HeldApart` | libs/winc1500/src/winc1500_socket.c:586-612 | an mbuf queued or held by the application is neither in the pool nor in the receive chain |
| `WincRx.AllocChain` | libs/winc1500/src/winc1500_socket.c:586-612 | succeeds exactly if the mbufs on offer have room for 1500 bytes, and then takes just those; otherwise nothing is taken from the pool, also after a partial allocation |
| `WincRx.Refill` | libs/winc1500/src/winc1500_socket.c:586-612 | a fresh empty chain; no mbuf is lost and no held byte changes |
| `WincRx.RecvFrom` | libs/winc1500/src/socket/socket.c:923-961 | points the socket at the mbuf; fails exactly without room or when a needed request is refused, but then the pending flag stays |
| `WincRx.FirstPolled` | libs/winc1500/src/winc1500_socket.c:619-623 | the first polled socket from an index on |
| `WincRx.Aim` | libs/winc1500/src/winc1500_socket.c:619-642 | that socket is pointed at the mbuf; the cursor goes there exactly if the call succeeded |
| `WincRx.GetChain` | libs/winc1500/src/winc1500_socket.c:586-617 | an untouched chain, or flow control set exactly if there was none and the offer does not suffice |
| `WincRx.StartRx` | libs/winc1500/src/winc1500_socket.c:577-651 | for a new packet: mbufs conserved, held bytes and all other sockets unchanged, and whether the firmware holds a request for the socket called |
| `WincRx.RecvMore` | libs/winc1500/src/winc1500_socket.c:730-740 | a chunk with more to follow is noted at the cursor and the next mbuf called for; a null pointer exactly at the end of the chain |
| `WincRx.Finish` | libs/winc1500/src/winc1500_socket.c:742-748 | the packet is queued with its length, the unused tail is back in the pool |
| `WincRx.RecvLast` | libs/winc1500/src/winc1500_socket.c:730-759 | the last chunk queues the packet and starts on the next |
| `WincRead.FirstTurn` | libs/winc1500/src/socket/socket.c:154-181 | the first chunk goes to wherever the socket points and is noted in the first mbuf; an accepted request moves socket and cursor on, a refused one only the socket |
| `WincRead.TurnAtCursor` | libs/winc1500/src/socket/socket.c:154-181 | a full mbuf extends what has been received |
| `WincRead.TurnPastRefusal` | libs/winc1500/src/socket/socket.c:154-181 | the chunk after a refusal goes to the second mbuf and is noted in the first: the first keeps chunk one, cut or stretched to chunk two's length |
| `WincRead.NoNext` | libs/winc1500/src/winc1500_socket.c:632-634 | the chain ends before the payload only if the reply runs past it |
| `WincRead.LastTurn` | libs/winc1500/src/socket/socket.c:154-181 | the last chunk completes the outcome and touches no held mbuf |
| `WincRead.LastDelivers` | libs/winc1500/src/winc1500_socket.c:742-759 | whatever the callback leaves then, the reply is delivered |
| `WincRead.WholeIff` | libs/winc1500/src/socket/socket.c:143-183 | the packet holds the payload exactly if no request was refused half-way and the first mbuf's data area starts with the first chunk; its length says the truth exactly if none was refused |
| `WincRead.AimedIsWhole` | libs/winc1500/src/socket/socket.c:143-183 | for a socket aimed at the chain: no reply of up to 1500 bytes runs past it, no held byte changes, and the payload arrives whole exactly if it fits the first mbuf or the request is accepted |
| `WincRead.RefusalLosesSecond` | libs/winc1500/src/winc1500_socket.c:730-740 | the exact contents after a refusal: chunk one cut or stretched to the length of chunk two, then the rest; chunk two is lost |
| `WincRead.WholeIffAimed` | libs/winc1500/src/winc1500_socket.c:624-637 | every payload of a length arrives whole exactly if the socket points at the first mbuf of the chain |
| `WincRead.HeldIffAside` | libs/winc1500/src/socket/socket.c:164 | no reply of a length changes a held byte exactly if the socket's buffer is not in a held mbuf with contents |
| `WincLoop.HifReceive` | libs/winc1500/src/driver/m2m_hif.c:600-662 | succeeds exactly inside the window, returns that part of it, and raises RX-done exactly at the window's end or on request |
| `WincLoop.ReadChunk` | libs/winc1500/src/socket/socket.c:156-164 | reads what fits the buffer; RX-done exactly with the last chunk |
| `WincLoop.ReadMore` | libs/winc1500/src/socket/socket.c:164-175 | a turn with more to follow keeps the loop's state, or the reply runs past the chain |
| `WincLoop.ReadLast` | libs/winc1500/src/socket/socket.c:164-181 | the last turn delivers the reply |
| `WincLoop.ReadSocketData` | libs/winc1500/src/socket/socket.c:143-183 | for every place the socket points at: the reply runs past the chain exactly under `Overrun`; otherwise it is queued as one packet with its length, one RX-done and exactly its outcome, and only bytes under the socket's buffer and its own state may have changed |
| `WincAccounts.SameView` | libs/winc1500/src/winc1500_socket.c:452-463 | messages in the queues depend on held mbufs only |
| `WincAccounts.AddedMessage` | libs/winc1500/src/winc1500_socket.c:742-748 | a packet added at one socket is a message added there and nowhere else |
| `WincAccounts.DropQueue` | libs/winc1500/src/winc1500_socket.c:263-270 | close frees every queued packet to the pool |
| `WincAccounts.AccountStruck` | libs/winc1500/src/socket/socket.c:164 | a write into one mbuf keeps the account of every packet that does not contain it |
| `WincAccounts.ReplyAccounts` | libs/winc1500/src/socket/socket.c:296-345 | after a reply exactly the queued packets written into are not sound any more, and the new arrival is sound exactly if it was queued whole |
| `WincAccounts.AimedAnswers` | libs/winc1500/src/socket/socket.c:296-345 | a reply for an aimed socket strikes no packet |
| `WincAccounts.StartedAsks` | libs/winc1500/src/socket/socket.c:934-953 | a start that polls has a request at the firmware exactly if its socket was not stuck |
| `WincAccounts.RefusedIsStuck` | libs/winc1500/src/socket/socket.c:938-952 | a refused request leaves its socket stuck: pending, with nothing at the firmware |
| `WincAccounts.StartIsCalm` | libs/winc1500/src/winc1500_socket.c:577-651 | a start with no request at the firmware, itself accepted, leaves at most one request, of a socket aimed at the chain |
| `WincAccounts.ReplyIsCalm` | libs/winc1500/src/socket/socket.c:296-338 | so does an accepted reply of such a state, unless it took several chunks and no new chain was to be had |
| `WincAccounts.PollRx` | libs/winc1500/src/winc1500_socket.c:788-797 | a poll outside polling starts on a fresh chain, or sets flow control exactly if there is none and the offer does not suffice; stuck sockets stay so |
| `WincAccounts.Answer` | libs/winc1500/src/socket/socket.c:296-338 | the driver breaks exactly on a cursor left over from an earlier chain or a reply that runs past the chain |
| `WincAccounts.Pass` | libs/winc1500/src/winc1500_socket.c:717-760 | a time-out or error moves no packet; an error ends polling of the socket; receiving starts again from the next polled socket on, or flow control is set exactly if there is no chain and the offer does not suffice |
| `WincAccounts.CloseRx` | libs/winc1500/src/winc1500_socket.c:251-277 | the queue goes back to the pool; the socket's flags and buffer are cleared, polling stays |
| `WincReceiver.Receiver.constructor` | libs/winc1500/src/winc1500_socket.c:87-92 | all mbufs in the pool |
| `WincReceiver.Receiver.Watch` | libs/winc1500/src/winc1500_socket.c:679-711 | a bound datagram socket or an accepted connection is polled |
| `WincReceiver.Receiver.Poll` | libs/winc1500/src/winc1500_socket.c:788-797 | polling moves no packet; while polling it does nothing |
| `WincReceiver.Receiver.Data` | libs/winc1500/src/socket/socket.c:296-345 | a reply for any socket of which the firmware holds a request: breaks exactly under the stated condition; otherwise one message with its outcome is added, and for an aimed socket it is the payload, with no other message or held byte changed, if and only if it fits the first mbuf or the request is accepted |
| `WincReceiver.Receiver.NoData` | libs/winc1500/src/winc1500_socket.c:717-760 | the inboxes stay; an error ends polling of the socket, and receiving goes on from the next one |
| `WincReceiver.Receiver.Foreign` | libs/winc1500/src/socket/socket.c:307-344 | a reply of an earlier session of the slot: only the pending flag is cleared |
| `WincReceiver.Receiver.Take` | libs/winc1500/src/winc1500_socket.c:452-488 | the oldest message goes to the application, unchanged; refused exactly when there is none |
| `WincReceiver.Receiver.Free` | libs/winc1500/src/winc1500_socket.c:251-277 | the application's mbuf goes back to the pool |
| `WincReceiver.Receiver.Close` | libs/winc1500/src/winc1500_socket.c:251-277 | the queue goes back to the pool, other sockets unchanged |
| `WincReceiver.Receiver.Run` | libs/winc1500/src/winc1500_socket.c:577-797 | over every run until the driver breaks: each step does exactly what it should; every mbuf is in exactly one place; each sound arrival was taken or is still queued, whole and in its place; as long as no request is refused and no chain is missing after a reply of several chunks the driver does not break, at most one socket has a request, it is aimed at the chain, and every arrival is sound; a stuck socket stays so until it is closed or a reply of an earlier session comes; polling with no request at the firmware lasts for ever |
| `WincTraces.StrayedHarms` | libs/winc1500/src/socket/socket.c:164 | where a socket that may be answered points into a held packet, some one-byte reply is not delivered whole and some changes a held byte |
| `WincTraces.StrayTrace` | libs/winc1500/src/winc1500_socket.c:577-651 | with every request accepted: for any two offers that suffice one after the other, a payload that needs a second mbuf and finds no new chain, and a later poll that aims another socket, lead there |
| `WincTraces.CursorTrace` | libs/winc1500/src/winc1500_socket.c:577-651 | the same with the last request refused: the next reply finds a cursor of an earlier chain, and the driver breaks |
| `WincTraces.OverrunTrace` | libs/winc1500/src/winc1500_socket.c:632-634 | with every request accepted, on chains of two mbufs whose second ones are together shorter than a payload: the reply for the first socket runs past the chain, and the driver breaks |
| `WincTraces.StuckTrace` | libs/winc1500/src/socket/socket.c:923-953 | a socket closed with a request at the firmware and used again, whose own request is refused, is stuck |
| `WincTraces.FreedOrStalled` | libs/winc1500/src/socket/socket.c:307-344 | from there the next poll stalls receiving, unless the reply of the closed session comes first, after which it sends a request |
| `WincTraces.SuchMbufs` | libs/winc1500/src/winc1500_socket.c:586-612 | four mbufs of 1000 and 600 bytes meet the conditions of all these runs |
| `StreamTx.Stream.Send` | libs/winc1500/src/socket/socket.c:715-749 | returns 0, -6 or -14, each exactly in its case |
| `StreamTx.Stream.Transmit` | libs/winc1500/src/winc1500_socket.c:357-368 | mbufs are taken in order up to the first refusal; bytes accepted followed by bytes left are the bytes given |
| `StreamTx.Stream.StreamTx` | libs/winc1500/src/winc1500_socket.c:350-385 | exactly the mbufs before the first one that the firmware does not take are sent, in order, and gone; zero exactly when nothing is left or the refusal code equals MN_ENOBUFS; a notice without error exactly when nothing is left |
| `StreamTx.Stream.SendTo` | libs/winc1500/src/winc1500_socket.c:387-411 | MN_EINVAL with an address, MN_EAGAIN while a chain is pending; otherwise the chain is taken over, whatever is returned, and sent up to the first mbuf that the firmware does not take |
| `StreamTx.Stream.SendEvent` | libs/winc1500/src/winc1500_socket.c:761-766 | the chain goes on up to the first mbuf that the firmware does not take; a writable notice of zero exactly when nothing remains |
| `StreamTx.Stream.Close` | libs/winc1500/src/winc1500_socket.c:271-274 | what was not sent is dropped |
| `StreamTx.Stream.Run` | libs/winc1500/src/winc1500_socket.c:350-411 | over every run of refusals and SEND events each step sends, takes over and reports exactly what it should; bytes accepted followed by bytes left are the bytes given, so what was sent is a prefix |
| `StreamTx.Datagram.SendTo` | libs/winc1500/src/winc1500_socket.c:412-450 | one datagram with the bytes of the whole chain, exactly if it has at most 1400 bytes, the address is good and the request accepted; only then is the chain freed |
| `Crc7.TableDivides` | libs/winc1500/src/driver/nmspi.c:120-153 | every table entry is the byte divided bit by bit by x^7+x^3+1 |
| `Crc7.CrcByteIsSerial` | libs/winc1500/src/driver/nmspi.c:156-159 | the table lookup gives eight steps of the shift register, and seven bits |
| `Crc7.CrcHasSevenBits` | libs/winc1500/src/driver/nmspi.c:161-166 | the register never leaves 0..127 |
| `Crc7.Compute` | libs/winc1500/src/driver/nmspi.c:161-166 | the loop folds the table lookup over the buffer |
| `Crc7.CrcConcat` | libs/winc1500/src/driver/nmspi.c:161-166 | crc7 composes over concatenation |
| `Crc7.CrcMatches` | libs/winc1500/src/driver/nmspi.c:161-166 | crc7 is the shift register run over all bits of the message |
| `Crc7.CrcIsRemainder` | libs/winc1500/src/driver/nmspi.c:120-166 | crc7 is the remainder of long division by x^7+x^3+1, for every message and start value below 128 |
| `Crc7.CrcDetectsBurst` | libs/winc1500/src/driver/nmspi.c:120-166 | messages that differ inside seven consecutive bits have different CRCs |

## Left out

- HalTimer.Timer.StartAt: start requests are less than `slack` overdue and less than 2^31 - `slack` ticks ahead, a range in which signed comparison can order them, for any slack from 1 to 2^31 - 131072; it is the form inside a callback, where interrupts are masked.
- HalTimer.Timer.Perform: a start whose deadline is outside that range when it is made does nothing.
- HalTimer.Timer.Run: ends when a start breaks the queue, since walks along it may then not end, or when a start comes to queue a deadline outside the window.
- HalTimer.Timer.Elapse: the count is assumed not to wrap while the overflow flag is set, and no queued timer to be `slack` ticks overdue; the interrupt is requested by the software pending bit, the overflow flag, or the enabled compare flag; the compare flag is set when the count reaches the compare register.
- HalTimer.Timer.ChkQueue: callbacks are given as a plan with one entry per firing and do nothing past its end, so that every drain ends; walks go along the sequence that the links are proved to hold.
- HalTimer.Timer.IrqHandler: no other reader runs between the overflow test and the clearing of the flag; `Acknowledge` says what happens otherwise.
- HalTimer.Timer.Delay: the loop is followed for a given number of readings, since nothing forces time to pass.
- hal_timer_init, hal_timer_config and deinit, and the interrupt statistics.
- Sha256.Context.Update: null contexts and the wait for the engine's done flag are left out.
- RsaSignature.SignVerify: behind 00 01 some byte of the 512-byte buffer is not 0xFF, since the source's scan has no bound; null arguments, modulus sizes above 512 and the 16-bit wrap of the encoding length for digests of 65517 bytes and more are left out.
- RsaSignature.BigIntModExp: exponents of 1 to 780 bytes, the size of its buffer; register programming and the places of the operands in the chip's memory are left out.
- The CONF_CRYPTO_SOFT half of m2m_crypto.c.
- EspLink.PayloadIntact: an argument walk that leaves the 512-byte buffer, where the source reads past it, counts as a failed check.
- Espduino.Driver.CompletedCb: callbacks are recorded, not run.
- Espduino.Driver.Process: the receive ring is the sequence of waiting bytes.
- esp_ready, the wait loops with a timeout, and rest.c.
- RingBuf.Ring.constructor: sizes below 2, which the source refuses, have no ring.
- UartTx.Uart.Write: the port is open, one task writes, the scheduler has started, and a tick of delay is long enough for the job in flight to finish.
- Flash.Device.Write: page sizes that are powers of two, for which the mask is the remainder; a page starting at the end of the memory counts as failing; a failing controller operation has no effect.
- Flash.Device.EraseRange: nothing is stated about its failures beyond those of `EraseSector`.
- Sessions.Table.Accept: the firmware names the slot, in use or not; SSL sockets, and the request to the firmware, are left out.
- Sessions.Table.Reply: a RECV reply clears the pending flag before its id is checked, as in the source.
- WincLoop.ReadSocketData: the payload lies in the window and the bus works; the cursor is at the start of an untouched chain. Bytes of a data area that were never written stand as zeros.
- WincRx.RecvFrom: a polled socket is in use.
- WincRx.Pointed: the firmware holds at most one receive request per session; a second one replaces the first.
- WincReceiver.Receiver.Run: ends when the driver breaks, since what it then does to mbufs that are not its own is undefined; a cursor left over from an earlier chain counts as breaking even where its mbuf has come back. A positive status without data, remote addresses and readable notices are left out. Receive steps return the new state instead of updating it in place.
- WincReceiver.Receiver.Free: the application frees one mbuf at a time; what it does with the bytes is not modelled.
- StreamTx.Stream.Run: each call is one step; in the source `ws_tx` is tested and set outside the mutex (winc1500_socket.c:377-383, 401-404), so calls that overlap there are not modelled.
- StreamTx.Stream.Send: the buffer pointer is not null; SSL offsets and command bytes are left out.
- StreamTx.ErrToMn: only the codes that sending can give; MN_ENOBUFS is a parameter, since the header that defines it is not part of this repository.
- hif_isr and hif_set_rx_done beyond counting RX-done, sleep and wake-up of the chip.
- nmspi command and data phases, nmbus, m2m_wifi, m2m_ota, m2m_periph and the request builders: bus and register access.
- hal_gpio, hal_spi, hal_i2c, hal_watchdog, BSP files and apps: configuration and console code.
