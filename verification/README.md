# Model of the attestation link

A Dafny model of two microcontrollers, a verifier and a prover, that run an authenticated
remote-attestation protocol over a serial line, and proofs of what the protocol, its durable
counter, its framing and its provisioning tool promise.

Check everything with `dafny verify dfyconfig.toml`. Every lemma carries `{:induction false}`, so that
each induction is in its body.

## How it is put together

| files | what they model |
|---|---|
| `Bytes`, `Bits`, `Simple`, `Clock`, `Wrappers` | octets and words, the bits of a flash cell, the fixed wire formats, the 32-bit clock |
| `Records`, `Blocks`, `Scan`, `Register`, `Wear`, `Journal` | the two-block counter journal: what a torn slot can look like, what an interrupted save can leave, the register that this implements, and the journal itself as a class over flash cells |
| `Cobs`, `Reception`, `Transport` | the frame encoding, the byte-at-a-time receiver and its batch description, and both as they run on fixed buffers |
| `Verifier`, `Prover`, `DeviceStore`, `Loop` | the two devices as classes over a journal, the key page, and one pass of either main loop |
| `Trace`, `System`, `Paths`, `Exchange`, `Rounds` | the two devices as one transition system, its invariant, its theorems, the undisturbed exchange as a path of its steps, and any number of exchanges one after the other |
| `Deadlines`, `Timing` | deadlines on real time, for one session and over whole runs |
| `IntelHex`, `HexImage`, `Provision` | a reader of Intel HEX, the image printer, and provisioning of a pair |

HMAC-SHA256 and SHA-256 are function parameters, `Mac` and `Hash`, about which nothing is
assumed. A failure of the crypto library, the random source, the link or the protection check is a choice
of the environment: a boolean parameter. Below the journal the hardware is used an unknown number of
times, and `Flash.fails`, about which nothing is assumed either, says which of these uses fail: a read, an
unlock, a write, an erase or a record MAC. So a load, a save, a challenge, an answer and a start are each
proved to succeed exactly when their own conditions hold and none of the uses they make fails
(`Flash.Failed`); code that gives up without a reason does not verify.

Flash is an array of octets. A program operation may only clear bits and an erase may only set
bits, and an operation that does not report success may have changed any subset of them. Power
loss during a save is a flash operation that does not report success, followed by a restart: the
model keeps the image that flash can then hold and loads it again. Every operation that the flash
controller begins is logged with what flash held just before; `Journal.Save` ties the log to each step
of a history (`Wear.LogStep`). A record slot is accepted only if the complement field matches, so a torn
slot is never taken for another counter, whatever the MAC.

The methods of the classes are proved against functions on values (`Reception.Feed`,
`Verifier.Challenged`, `Prover.Handled`) or relations (`Register.SaveStep`), and `Loop` proves
that a pass of the main loops is a step, or a few steps, of `System.Next`. The theorems about runs
are about `System.Run`: any sequence of such steps from provisioning on. Two links between code and
trace are stated beside them: a verdict of the code is an event of the trace
(`System.VerdictIsRecorded`), and what the prover sends is the report it has just recorded
(`Loop.ReplyIsReported`). The link is not trusted
at all: any octet may arrive at any time. The only thing assumed of it is that a payload does not
carry a valid tag on a request or on the report in question unless that tag can be known: it is the
tag of a challenge or a report that a device has already released, or of a journal record
(`System.UnforgedRequest`, `System.UnforgedResponse`, `Trace.Known`). In particular, a challenge
that was computed but whose counter could not be committed is not known.

## Where the code falls short of a plain reading

- `auth_expired` compares on a 32-bit clock. `Clock.ExpiredModulo` says exactly when it reports a
  deadline; `Clock.ExpiredForgets` is the input for which it fails. `Deadlines.DeadlineIsExact`
  holds when the verifier acts at least every 2^32 ms less the timeout, and
  `Deadlines.OneMillisecondMore` shows that one millisecond more is too much. The same goes for the
  octets of a frame: `Reception.DeliveredOnTick`, `Reception.TickIsTime`, `Reception.WrapIsForgotten`.
- `ihex` starts a data record of up to 16 octets wherever a segment puts it, also across a 64 KiB
  boundary. That is right for a reader that adds the load offset to the linear base address as
  the specification says, which is what `IntelHex.Apply` does.
- `ihex` prints what `HexImage.Accepts` allows, no more and no less. It accepts a segment whose last line
  starts below 2^32 and ends beyond; a reader then does not load the union of the segments, as
  `HexImage.PrintedButNotUnion` shows, and `HexImage.Ihex` says that this is the only case.
- `ihex` refuses an empty segment that starts inside another one, although no octets overlap, as
  `HexImage.RefusedButDisjoint` shows; `HexImage.AcceptsMeans` says that this is the only such case.

## Model

| member | source | states |
|---|---|---|
| Bytes.GetPut | core/protocol/src/simple.c:20-29 | reading a stored word gives it back |
| Bytes.PutGet | core/protocol/src/simple.c:20-29 | storing a word that was read restores its four octets |
| Bytes.PutKeepsOrder | core/protocol/src/simple.c:20-29 | words are stored most significant octet first: the order of the stored octets is the order of the values |
| Simple.RequestRoundTrip | core/protocol/src/simple.c:32-50 | a buffer parses as a request if and only if it is that request serialised, and its authenticated part is the one that is hashed |
| Simple.ReportRoundTrip | core/protocol/src/simple.c:52-66 | a buffer parses as a report if and only if it is that report serialised and the result is 0 or 1 |
| Simple.DomainSeparation | core/protocol/src/simple.c:69-77 | the three inputs authenticated under `k_auth` determine their role and every field, so a tag for one is never a tag for another |
| Simple.SerializeMsg | core/protocol/src/simple.c:32-40 | writes exactly the 84 octets of the request, or nothing when the buffer is too small |
| Simple.SerializeReport | core/protocol/src/simple.c:52-58 | writes exactly the 33 octets of the report, or nothing when the buffer is too small or the result is not 0 or 1 |
| Simple.Zero | core/protocol/src/simple.c:14-18 | clears the octets asked for and no others |
| Simple.CtCompare | core/protocol/src/simple.c:5-12 | collecting the differences of all octets finds equality exactly |
| Clock.ExpiredModulo | core/platform/include/auth_platform.h:89-91 | on real time the deadline is reported if and only if the elapsed time, reduced to 32 bits, has reached it |
| Clock.ExpiredExact | core/platform/include/auth_platform.h:89-91 | read within one wrap of the start, the clock reports the deadline exactly when it has passed |
| Clock.ExpiredForgets | core/platform/include/auth_platform.h:89-91 | one wrap after the start no deadline seems to have passed |
| Records.AcceptsIffRecord | core/platform/src/auth_journal.c:41-46 | a slot passes the checks if and only if it is octet for octet the record of a non-zero counter |
| Records.RecordsAreTornProof | core/platform/src/auth_journal.c:80-84 | a slot whose bits cover those of a record is the record of no other counter, and no record looks erased, for any MAC |
| Records.TornSlotIsWhole | core/platform/src/auth_journal.c:37-46 | a partly programmed or partly erased record that load accepts is octet for octet the whole record |
| Blocks.RecoversUnique | core/platform/src/auth_journal.c:31-61 | an image recovers to at most one position |
| Blocks.RecoversLargest | core/platform/src/auth_journal.c:31-55 | load finds the largest recorded counter: every other slot is erased or holds one no larger, and the newest is just before the next free slot |
| Blocks.SavedRecovers | core/platform/src/auth_journal.c:89-92 | after a completed save a fresh load rebuilds the counter, block and offset that are in memory |
| Blocks.EraseKeepsNewest | core/platform/src/auth_journal.c:71-75 | the rollover erase does not touch the newest record |
| Blocks.TornEraseKeepsPrefix | drivers/stm32/store.c:96-133 | an erase that stops part-way leaves a block that is unreadable or holds a prefix of its records |
| Blocks.TornProgramAddsOneOrNone | drivers/stm32/store.c:53-67 | a program that stops part-way leaves a block that is unreadable, unchanged, or has exactly the new record |
| Blocks.CrashSafe | core/platform/src/auth_journal.c:65-94 | whenever power is lost during a save, the next load fails, or finds the old position, or the new one |
| Register.SaveRefinesRegister | core/platform/src/auth_journal.c:65-94 | every save, whatever becomes of it, is a save of a durable register that only grows |
| Register.LoadRefinesRegister | core/platform/src/auth_journal.c:21-62 | every successful load returns what the register is worth |
| Register.NeverRollsBack | core/platform/include/auth_platform.h:66-68 | over any history of loads, saves, failures and power losses, no load returns less than a counter reported durable or returned before |
| Register.SavesIncrease | core/platform/src/auth_journal.c:65-67 | over any history, saves that report success carry strictly increasing counters |
| Wear.HistoryIsDisciplined | core/platform/src/auth_journal.c:68-88 | over any history of loads, saves, failures and power losses, whatever operation the flash controller begins finds flash recoverable at the position that the save started from, and either erases the block that does not hold that newest record or programs a slot that is erased at that moment |
| Wear.WearOverHistory | core/platform/src/auth_journal.c:89-92 | after any stretch of a history in which no save that goes ahead fails, the journal recovers to the position that the number of successful saves determines |
| Wear.WearBound | core/platform/src/auth_journal.c:68-76 | in the log of any history, from a position with k of S slots used, n successful saves, with loads and refused saves between them, have erased exactly floor((k+n-1)/S) times, alternating between the blocks |
| Journal.Flash.ProgramUnit | drivers/stm32/store.c:58-66 | one write of the flash controller, which may leave any bits uncleared when it fails |
| Journal.Flash.ProgramSlot | drivers/stm32/store.c:62-89 | programming a slot only clears bits of it that the record has at zero and touches nothing else; it succeeds exactly when no bit has to be set and no write fails, and the slot then reads back as asked |
| Journal.Flash.Program | drivers/stm32/store.c:39-94 | refuses a wrong block or offset and does nothing when the controller stays locked; otherwise only the one slot changes, and the log keeps what flash held just before; on an erased slot it succeeds exactly when nothing fails |
| Journal.Flash.Erase | drivers/stm32/store.c:96-133 | does nothing when the controller stays locked; otherwise only sets bits, only in that block, all of them when it succeeds, which it does exactly when nothing fails, and the log keeps what flash held just before |
| Journal.Flash.Read | drivers/stm32/store.c:31-37 | returns the slot at the offset, and fails only outside the block or with the hardware |
| Journal.Journal.Load | core/platform/src/auth_journal.c:21-62 | succeeds if and only if the blocks recover and no read or MAC on the way fails, at the position they recover to |
| Journal.Journal.ScanBlock | core/platform/src/auth_journal.c:32-54 | accepts a block if and only if it holds records with increasing counters followed by erased slots and nothing fails on the way, and tracks the newest |
| Journal.Journal.CheckRecord | core/platform/src/auth_journal.c:41-46 | accepts exactly the record of a counter above the last one, and not after a gap, unless the MAC fails |
| Journal.Journal.Save | core/platform/src/auth_journal.c:65-94 | succeeds if and only if the journal is ready, the counter is larger and no use of the hardware fails, also when it has to roll over; is a save step: otherwise flash holds an image that an interrupted save can leave; its flash operations are those that `Wear` is about |
| Journal.Journal.Reserve | core/platform/src/auth_journal.c:68-76 | finds an erased slot, after erasing the other block when the active one is full, and fails only with that erase |
| Journal.Journal.WriteRecord | core/platform/src/auth_journal.c:77-88 | writes and reads back the record of the counter in that slot, and fails only with the hardware |
| Cobs.DecodeEncode | core/transport/src/auth_transport.c:17-32 | decoding an encoded packet gives it back |
| Cobs.EncodeDecode | core/transport/src/auth_transport.c:63-80 | whatever zero-free buffer decodes is the encoding of what it decodes to |
| Cobs.WireShape | core/transport/src/auth_transport.c:20-32 | a frame is payload length + 4 octets, its only zero is the last |
| Cobs.DiagnosticWire | core/transport/src/auth_transport.c:7-33 | a diagnostic of one octet is a legal frame, and these are its octets on the wire |
| Cobs.Stuff | core/transport/src/auth_transport.c:17-32 | the in-place encoder, with its back-patched 8-bit codes that never overflow, writes exactly the COBS encoding and a delimiter, and nothing around them |
| Cobs.FrameEncode | core/transport/src/auth_transport.c:5-33 | writes the wire form of a legal frame that fits, and nothing otherwise |
| Reception.ReceiveRefinesBatch | core/transport/src/auth_transport.c:36-90 | over any timed stream, the outcomes octet by octet are those of cutting it at zeros and judging each piece |
| Reception.DeliveredIff | core/transport/src/auth_transport.c:36-90 | a frame is delivered if and only if a delimiter ends a piece that is that frame on the wire, without a line error and with no octet late, the delimiter included |
| Reception.DeliveredOnTick | core/transport/src/auth_transport.c:41-45 | on real time, exactly when, among these conditions, each octet beats the timeout modulo one wrap of the clock |
| Reception.TickIsTime | core/platform/include/auth_platform.h:89-91 | for octets less than one wrap after the first, beating the timeout modulo a wrap is beating it on real time |
| Reception.WrapIsForgotten | core/platform/include/auth_platform.h:89-91 | an octet one wrap after the first is taken to be in time |
| Reception.JudgedIffWire | core/transport/src/auth_transport.c:63-89 | a zero-free buffer is accepted if and only if it is the canonical wire form of what is delivered |
| Reception.Resynchronises | core/transport/src/auth_transport.c:93-102 | from any receiver state, a frame sent whole and in time is delivered on its last octet |
| Transport.FrameReceiver.Feed | core/transport/src/auth_transport.c:36-90 | the receiver on its fixed buffers does what the receiver on values does, and writes the payload only with a frame |
| Transport.FrameReceiver.Unstuff | core/transport/src/auth_transport.c:63-80 | the nested decoding loop computes the decoding of the buffer, or fails when there is none that fits |
| Transport.FrameReceiver.LineFault | instances/stm32/main.c:48-52 | a read error spoils the frame under way |
| Transport.FrameSend | core/transport/src/auth_transport.c:93-102 | hands a leading delimiter and the frame to the link, or nothing for an illegal frame, and succeeds exactly when the link takes a legal one |
| Verifier.Device.constructor | apps/verifier/src/verifier.c:6-21 | ready only with loaded material and a timeout in range; otherwise the material is empty |
| Verifier.Device.Cancel | apps/verifier/src/verifier.c:23-28 | ends the session and clears the nonce |
| Verifier.Device.Challenge | apps/verifier/src/verifier.c:31-65 | hands out a challenge if and only if the verifier is ready with nothing outstanding, there is room, the counter is not exhausted, and random source, MAC and commit work, and only after its counter was committed; a failed commit ends readiness and wipes the buffer |
| Verifier.Device.Poll | apps/verifier/src/verifier.c:67-75 | ends an outstanding challenge exactly when its deadline is reported |
| Verifier.Device.Verify | apps/verifier/src/verifier.c:78-94 | a verdict only on an authentic report on the outstanding counter and nonce, with the deadline checked before and after |
| Prover.Device.HandleRequest | apps/prover/src/prover.c:27-91 | commits if and only if the request is newer and authentic and nothing fails, and answers if and only if it committed and the measurement and MAC work, with the comparison of the measurement and the reference; writes nothing otherwise |
| DeviceStore.MaterialRoundTrip | drivers/stm32/store.c:207-224 | a key page is in order if and only if it is the block made for that role from some material with a non-zero counter, and then it yields it |
| DeviceStore.StoreLoad | drivers/stm32/store.c:199-233 | loads the material with the counter of its journal; succeeds if and only if flash is protected, the key page is in order, the journal recovers and nothing fails |
| Loop.VerifierLoop.Poll | instances/stm32/main.c:33-36 | is a poll step of the system, and a timeout restarts the interval |
| Loop.VerifierLoop.Challenge | instances/stm32/main.c:37-45 | exactly when nothing is outstanding and the interval is over, commits, sends and restarts the interval, or halts with nothing sent when it could not commit; what it sends is the request of the challenge just released, which stays outstanding if and only if the link took it |
| Loop.VerifierLoop.Take | instances/stm32/main.c:47-97 | is an input step of the system: a frame of another type changes no session, and only the end of a session restarts the interval |
| Loop.ProverLoop.Take | instances/stm32/main.c:47-87 | is an input step of the system, with the commit made if and only if the request is acceptable and nothing fails: answers only a request, and halts exactly when handling it ended readiness |
| Loop.FirstIsDue | instances/stm32/main.c:29-37 | the first challenge is due two seconds after the start and not before, although the subtraction may wrap |
| Loop.StartVerifier | instances/stm32/main.c:26-29 | starting on a flash is a restart of the system, and the loop begins exactly when flash is protected and bootable and nothing fails |
| Loop.StartProver | instances/stm32/main.c:20-24 | starting on a flash is a restart of the system, and the loop begins exactly when flash is protected and bootable and nothing fails |
| Trace.KnownRequest | apps/prover/src/prover.c:52-55 | a known tag on a request body is that of a released challenge |
| Trace.KnownReport | apps/verifier/src/verifier.c:85-88 | a known tag on a report input is that of a report released for that counter and nonce |
| System.StepKeepsInvariant | instances/stm32/main.c:31-99 | every step of either device, with any link and at any power loss, keeps the invariant |
| System.Agreement | apps/verifier/src/verifier.c:78-94 | in every run, PASS for a counter and nonce means that the prover, after that challenge was released, processed exactly it, with the verifier's reference, and measured memory with that HMAC |
| System.CountersAreUnique | apps/verifier/src/verifier.c:50-64 | in every run no two challenges share a counter, the prover accepts and reports each at most once, and each challenge ends at most once |
| System.ProverNeverAhead | apps/prover/src/prover.c:48-62 | in every reachable state the prover's durable counter is at most the verifier's |
| System.NextChallengeIsFresh | apps/prover/src/prover.c:48-55 | in every run, a ready verifier with nothing outstanding and an unexhausted counter gets as far as committing its next challenge, and that challenge, delivered intact, is accepted by a ready prover |
| System.ReplayIsHarmless | apps/prover/src/prover.c:48-51 | in every run, a request with a counter once accepted is never answered or acted upon again, across restarts and failed saves |
| System.OutstandingIsLast | apps/verifier/src/verifier.c:59-62 | while a challenge is outstanding, the session's counter and nonce are those of the last released challenge, which has not ended |
| Trace.MismatchMeansOtherMemory | apps/verifier/src/verifier.c:93 | MISMATCH means that the prover processed exactly that challenge and found memory with another HMAC |
| Deadlines.DeadlineIsExact | apps/verifier/src/verifier.c:67-94 | acting at gaps of at most 2^32 ms less the timeout, the verifier answers exactly as on an unbounded clock |
| Deadlines.VerdictIsInTime | apps/verifier/src/verifier.c:81-93 | a verdict comes only from checks that ended before the deadline |
| Deadlines.FirstPastDeadline | apps/verifier/src/verifier.c:70-74 | the first action at or past the deadline reports the timeout |
| Deadlines.OneEnd | apps/verifier/src/verifier.c:79-91 | before the action that ends a challenge, every other one changed nothing, so it ends at most once |
| Deadlines.InvalidChangesNothing | apps/verifier/src/verifier.c:79-88 | whatever the clock shows, any number of invalid responses and idle polls leaves the session exactly as it was |
| Deadlines.OneMillisecondMore | core/platform/include/auth_platform.h:89-91 | with gaps one millisecond longer a challenge long over is taken to be pending |
| Timing.DeadlineInRun | apps/verifier/src/verifier.c:67-91 | in every run in which the verifier, while a challenge is outstanding, looks at its deadline at gaps of at most 2^32 ms less the timeout, every look sees the deadline of that very challenge as it is on real time |
| Timing.VerdictsInTime | apps/verifier/src/verifier.c:81-93 | in such a run a verdict is passed only when the checks of the response ended before the deadline of the challenge on real time |
| Timing.PollsAtDeadline | apps/verifier/src/verifier.c:67-75 | in such a run a poll gives the challenge up if and only if its deadline has passed on real time |
| Exchange.HonestExchange | instances/stm32/main.c:31-97 | from any state in which both devices are ready and nothing is outstanding, whatever came before, the steps of an undisturbed exchange, octet by octet at the given times, with polls at any time before the release and after the end and before the deadline in between, are possible and lead to one state only: its trace has gained exactly the release, the acceptance, the report and the verdict, PASS if and only if the measurement HMAC is the reference, or the timeout if the report is judged too late, and both devices are ready for the next exchange at one counter |
| Exchange.FromPairedProvisioning | instances/stm32/main.c:20-97 | the same for the restart of both devices, in either order, and the first exchange after paired provisioning, with the polls that the main loop makes before it |
| Exchange.NextIsSettled | instances/stm32/main.c:31-99 | with its saves known to succeed, a step of the system leads to one state only |
| Exchange.PollsDropped | apps/verifier/src/verifier.c:67-71 | steps from a closed session lead to the same state without their polls, when no poll after a release is late; what the clock shows at polls before the release does not matter |
| Exchange.PollsAdded | apps/verifier/src/verifier.c:67-71 | and with such polls put in they still lead there |
| Exchange.EarlyPollsAreFree | instances/stm32/main.c:32-36 | polls before all other steps may show any time on the clock |
| Exchange.PollsDoNotMatter | apps/verifier/src/verifier.c:67-71 | steps that surely lead from one closed session to another still do with polls before the release and after the end at any time, and in between before the deadline |
| Exchange.PathIsRun | instances/stm32/main.c:31-99 | the steps that passes of the loops make up are a run |
| Exchange.PathKeeps | instances/stm32/main.c:31-99 | whatever steps lead on from a state with the invariant, the invariant holds after them |
| Rounds.EveryRound | instances/stm32/main.c:31-97 | any number of undisturbed exchanges, one after the other, are possible and have one outcome only: every one has its own verdict, and the counters advance by one each time |
| Rounds.EveryRoundFromProvisioning | instances/stm32/main.c:20-97 | the same from the first start of a provisioned pair on |
| Rounds.SmoothRoundExists | instances/stm32/main.c:31-97 | at every counter, for every nonce and every memory, there is such an exchange whose report is judged in time |
| IntelHex.DecodePrinted | tools/provision.py:48-50 | the printed records, with their lengths and checksums, are read back as what they load |
| IntelHex.CorruptedIsRefused | tools/provision.py:48-50 | a printed line in which any one octet, checksum included, has been replaced by another is refused |
| IntelHex.EndLine | tools/provision.py:66 | the last line of an image is `:00000001FF` |
| IntelHex.FlashLine | tools/provision.py:62-64 | the line that leads to the start of flash is `:020000040800F2` |
| IntelHex.FlashIsLoaded | tools/provision.py:62-65 | a data record behind that line is loaded at its load offset from the start of flash |
| HexImage.Ihex | tools/provision.py:53-67 | segments are printed if and only if they do not clash and no line of theirs starts at or beyond 2^32; a reader loads exactly their union if and only if all their octets lie below 2^32 |
| HexImage.AcceptsMeans | tools/provision.py:53-65 | what is printed are exactly the segments of which no two share an address, none is empty strictly inside another, and none has a line that starts at or beyond 2^32 |
| HexImage.SortKeepsClash | tools/provision.py:56-58 | the overlap check does not depend on the order in which segments are given |
| HexImage.PrintedButNotUnion | tools/provision.py:60-65 | a segment that runs beyond 2^32 from the last address is accepted, and no 32-bit memory is its union |
| HexImage.RefusedButDisjoint | tools/provision.py:57-58 | an empty segment inside another one is refused although no address is covered twice |
| Provision.SeedsRecover | tools/provision.py:33-38 | two blocks with one seed record each recover at the provisioned counter |
| Provision.LoadedStarts | drivers/stm32/store.c:199-224 | where the device looks for them and for its own role, a freshly loaded board holds a key page in order and a journal at the provisioned counter |
| Provision.BoardsMatch | tools/provision.py:14-19 | role and addresses that the tool has for a board are those compiled into the device |
| Provision.VectorTableDecides | tools/provision.py:22-30 | an image is taken exactly when it fits and its little-endian vector table holds an aligned stack pointer in RAM and a Thumb reset vector inside the image |
| Provision.Generate | tools/provision.py:75-99 | succeeds exactly on plausible images, two distinct keys and a counter in range, and each device, with its own role and addresses, finds its material and its journal in what a reader loads from the printed images |
| Provision.PairIsInitial | tools/provision.py:89-98 | provisioning establishes the initial state of every run |
| Provision.StartLoadedVerifier | instances/stm32/main.c:26-29 | the verifier of a freshly provisioned pair comes up when it is powered, unless its flash is not protected or something fails on the way |
| Provision.StartLoadedProver | instances/stm32/main.c:20-24 | and so does the prover |
| Provision.FirstBoots | instances/stm32/main.c:20-29 | these two starts are how the runs of a fresh pair begin, and a device that has come up is ready with the provisioned material and counter |
| Provision.FirstExchangePasses | tools/provision.py:90 | the steps of the restart of a fresh pair, in either order, the polls of the main loop and the first undisturbed exchange are possible and lead to one state only, with PASS whenever the report is judged in time |

## Left out

- Display phases, LED and UART setup, clock and memory protection setup: output and hardware plumbing; `drivers/components/st7735_h7.c` and most of `drivers/stm32/board.c` are not part of this model.
- Error codes and the diagnostic frame that a device sends when it stops: observable output only; a diagnostic frame that arrives changes nothing but the receiver.
- `board_fatal`: a device that stops for good is one that takes no further step; the transition system also allows it to go on, and its theorems hold all the same.
- Session scheduling in the transition system: a challenge may be attempted at any step; the interval and `last_session` are in `Loop`.
- `protection_valid` and interrupt masking: a boolean choice of the environment, and no effect on the state.
- Constant time and clearing of secrets: only what a comparison returns is modelled, and only the clearing that a caller can see.
- Null-pointer checks: a reference in Dafny is not null.
- TinyCrypt, `crypto_hmac.c`, `crypto_sha256.c` and the streaming calls of `attestation.c`: the MAC and the hash are parameters, and the measurement is the MAC of the measured octets in order.
- Flash wear-out, and bits that read differently from one time to the next: a cell reads as what was left in it.
- Writing files, the manifest, the key file, random keys and the command line of `provision.py`, and `deploy.sh`: input and output; flash is taken to be blank before an image is loaded into it.
- Types of Intel HEX records other than data, end and linear address: the tool prints none, and the reader refuses them.
- Provision.Generate: what the plausibility rules for the vector table catch beyond what they say; `VectorTableDecides` states them.
