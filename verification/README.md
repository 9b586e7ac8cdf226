# Verified model of the IOTA/Shimmer Ledger app

The app is a small signing device. A client writes a transaction essence into a
fixed buffer, the device parses it, the user reviews and accepts it on the screen,
and the device then signs input by input. This project models that device in Dafny
and proves what its parts promise to each other: the release build, for every
device (6 or 32 data blocks) and for both coin apps.

| file | models |
|---|---|
| `Bytes`, `Arithmetic`, `Config` | little-endian fields, division lemmas, constants and status words |
| `Polymod`, `Bech32`, `Base32`, `Address` | `src/iota/bech32.c`, `src/iota/address.c`, with decoders |
| `Gf32` | the checksum as BIP-173 defines it, a remainder of polynomials over 32 elements |
| `Essence`, `ParserMeaning` | the essence format of TIP-0020 / TIP-0018 as a grammar with a serializer; what acceptance means |
| `WireFormat`, `CommandAnswers` | the same byte by byte; which commands succeed, from the bytes of APDU and buffer |
| `EssenceStardust`, `BlindsigningStardust`, `InternalTransfer` | the cursor validators and the ownership search |
| `Signing` | signature and reference unlocks |
| `ApiState`, `ApiCtx`, `ApiSpec`, `ApiCommands` | `src/api.c`: the context as value and object, what commands mean, the commands |
| `ApiReplies` | what a client decodes from answers and blocks |
| `Machine`, `MachineInvariant`, `MainLoop` | `src/main.c` with flows, timer and exceptions; the invariant |
| `MachineRuns`, `SigningRuns`, `AddressRuns` | whole runs: what precedes signatures and addresses, repeatability, atomicity |
| `RequestRuns`, `CancelRuns` | which request bytes decide account, buffer and remainder; what reject and timeout end |
| `HalfDuplex`, `RaisedScreen` | what host and user have to do for it, and runs in which they do not |
| `Format`, `Review`, `ReviewRuns` | `src/ui/ui_common.c`, the review cursor and screens; what was reviewed is what is signed |

Code that works in place is modelled in place: the context is an object with an
array buffer and an array path, and its methods are proved against the
functions of `ApiSpec`, whose results are described by the grammar, the derived
addresses and the unlock rules. The whole device is the object `MainLoop.IotaMain`;
its methods are proved to be steps of the state machine `Machine`, about which the
whole-run theorems are proved.

Modelling decisions:

- Key derivation, ed25519 signing and blake2b are arbitrary functions that may fail
  (`ApiState.Crypto`). `Context.derivations` records every path given to key
  derivation.
- A `THROW` is a result `Throw(code)`; the main loop's handler is `Machine.Catch`. The
  I/O reset exception, with its code in the SDK, leads to `Machine.Boot`.
- Pointers into the buffer are offsets. `char` is unsigned, as on the device.
- `v & 0x80000000` is `Hardened(v)`, `mode & 0x7f` is `mode % 0x80`; 16-, 32- and
  64-bit wrap-around is written out where the code can reach it.
- Signing is safe as long as the user accepts a flow only while the context has not
  been initialized since that flow was started (`Machine.Fair`; the ghost counter
  `epoch` states it). The code does not see to that, because `ui_reset` is empty
  (`src/ui/ui.c:11-13`) and `api_initialize` leaves the flow alone. Two assumptions
  about the outside do (`HalfDuplex.OrderlyIsRun`). The half-duplex transport: the
  host sends no command before the last one has been answered. And the user: no
  flow is accepted in which a screen has raised an exception, because the handler of
  the main loop answers the host and wipes the context, but leaves the flow. Both
  are needed: `HalfDuplex.StaleAcceptSigns` and `RaisedScreen.RaisedReviewSigns` are
  runs without the one and without the other. `HalfDuplex.AcceptAuthorizedIff` says
  by which test of the context the device could tell. Nothing is assumed about the
  order of commands, rejects, timer ticks, locking or the blind signing setting. A
  client that only confirms amounts below 10^18 need not rely on the user
  (`RaisedScreen.SmallAmountsAreEnough`). Path discipline, the atomicity of commands
  and what a signature stands for need no assumption at all.

Where documentation and code differ, the model follows the code: an account index
that is not hardened is answered with `SW_COMMAND_INVALID_DATA`
(`docs/specification.md` says `SW_ACCOUNT_NOT_VALID`); Show Flow ignores its
parameter; the `SIGNATURES` state is documented but never reached; claiming is mode 2
exactly, so mode 0x82 is treated like an ordinary mode.

## Model

| member | source | states |
|---|---|---|
| Polymod.PolymodStepLinear | src/iota/bech32.c:33-39 | the checksum step is linear over exclusive or |
| Polymod.PolymodStepBound | src/iota/bech32.c:33-39 | every state of the register stays below 2^30 |
| Polymod.AbsorbLinear | src/iota/bech32.c:33-39 | feeding symbols is affine in the start state: zero steps of one part, exclusive-or the other part fed |
| Polymod.AbsorbFromZero | src/iota/bech32.c:81-87 | up to six symbols fed into a zero register are just shifted in, without feedback |
| Polymod.ChecksumExact | src/iota/bech32.c:81-87 | six symbols bring a register to 1 if and only if they are the emitted checksum |
| Polymod.PolymodStepInjective | src/iota/bech32.c:33-39 | no two states of the register have the same successor |
| Polymod.BurstChangesRegister | src/iota/bech32.c:33-39 | errors inside six consecutive symbols change the register, whatever comes before and behind |
| Gf32.StepReduces | src/iota/bech32.c:33-39 | one step is multiplication by x in the field of 32 elements, with a^5 = a^3 + 1, reduced by the generator of BIP-173 with the coefficients 1, 29, 22, 20, 21, 29, 18 |
| Gf32.RegisterDivides | src/iota/bech32.c:33-39 | the register holds the remainder of the symbols read as a polynomial, modulo this generator: exactly one quotient and remainder exist, and these are they |
| Bech32.CharsetRows | src/iota/bech32.c:41 | the characters are those of the table in BIP-173 |
| Bech32.HrpExpandSplits | src/iota/bech32.c:62-73 | the prefix is expanded to the high bits of its characters, a zero and their low five bits, which together give the characters back |
| Bech32.ChecksumByRegister | src/iota/bech32.c:57-87 | the test of BIP-173, that a polynomial leaves the remainder 1, holds if and only if the register is 1 |
| Bech32.ChecksumVerifies | src/iota/bech32.c:57-87 | prefix, data and six symbols leave the remainder 1, which is the test of BIP-173, if and only if the six are those that are emitted |
| Bech32.AbsorbHighs | src/iota/bech32.c:62-68 | first pass: fails exactly on a character outside 33..126, else the register has the high bits and the separator |
| Bech32.CopyHrp | src/iota/bech32.c:69-73 | second pass: register after the expanded prefix, prefix copied, nothing behind it touched |
| Bech32.CopyData | src/iota/bech32.c:75-80 | fails exactly on a value above 31, else register and characters of the data |
| Bech32.EmitChecksum | src/iota/bech32.c:81-87 | writes the characters of the checksum and nothing else |
| Bech32.Encode | src/iota/bech32.c:43-91 | succeeds exactly for printable prefixes, 5-bit data, total length at most 108 and below the capacity; then writes the string, its terminator and nothing behind it |
| Bech32.DecodeText | src/iota/bech32.c:43-91 | splitting at the last '1' and testing the checksum recovers exactly prefix and data |
| Bech32.TextInjective | src/iota/bech32.c:43-91 | different inputs have different strings |
| Base32.EmitSymbols | src/iota/bech32.c:107-112 | emits all complete 5-bit groups, or stops exactly at the capacity; value conserved |
| Base32.Base32Encode | src/iota/bech32.c:93-127 | fails exactly when ceil(8n/5) exceeds the capacity; otherwise output read base 32 is the input read base 256 times 2^pad, pad below 5, although `val` loses its high bits |
| Base32.EncodingExact | src/iota/bech32.c:93-127 | only one list of symbols of that length has that value |
| Base32.RegroupEncoding | src/iota/bech32.c:93-127 | 5-to-8 regrouping with the zero-padding rule gives the bytes back |
| Address.EncodeBech32Hrp | src/iota/address.c:25-50 | exact success condition; a prefix of at most four characters and 65 bytes of room always suffice; writes the address string |
| Address.AddressRoundTrip | src/iota/address.c:25-50 | decoding the address string gives back the prefix and all 33 bytes |
| Address.AddressTextInjective | src/iota/address.c:25-50 | two equal address strings come from the same prefix and address |
| Address.AddressBurstDetected | src/iota/address.c:25-50 | an address string changed inside six consecutive characters no longer decodes with its prefix |
| Essence.LayoutUnique | src/iota/essence_stardust.c:268-304 | a buffer has at most one layout |
| Essence.LayoutStartsWith | src/iota/essence_stardust.c:268-304 | a buffer that passes the section checks starts with the serialized message read from it, with the recorded lengths |
| Essence.StartsWithLayout | src/iota/essence_stardust.c:268-304 | a buffer that starts with a well-formed message passes the section checks at that message's layout, and reading gives the message back |
| Essence.LayoutIffMessage | src/iota/essence_stardust.c:268-304 | the section checks can succeed if and only if the buffer starts with a message; message and BIP32 list are unique |
| Essence.InputsWritten | src/api.h:34-40 | packed 35-byte inputs: size, positions and contents of a written list |
| Essence.OutputsWritten | src/api.h:56-88 | packed 46-byte outputs: size, positions and contents of a written list |
| Essence.EntriesWritten | src/api.h:151-156 | packed 8-byte BIP32 entries: size, positions and contents of a written list |
| WireFormat.FieldValues | src/iota/essence_stardust.c:31-48 | fields of two, four and eight bytes are little-endian |
| WireFormat.HardenedIsTopBit | src/iota/essence_stardust.c:174-194 | the hardening test is the test of the top bit |
| WireFormat.SumOfParts | src/iota/essence_stardust.c:94-146 | the total of outputs is additive, and the amount for one |
| WireFormat.StartsWithBytes | src/api.h:34-88 | a buffer that starts with a message has every field at its byte offset, and the essence ends where the table begins |
| WireFormat.StartsWithIffBytes | src/iota/essence_stardust.c:60-217 | and conversely: a buffer starts with a message if and only if its bytes are these and the values are in range, stated with offsets and bounds in figures |
| EssenceStardust.ValidateInputs | src/iota/essence_stardust.c:60-90 | accepts exactly an input section: count 1..128, strictly inside the buffer, type 0, index below 128 |
| EssenceStardust.ValidateOutputs | src/iota/essence_stardust.c:94-146 | accepts exactly an output section; the wrapping 64-bit total passes at every step if and only if the mathematical sum of amounts is below 2^64 |
| EssenceStardust.ValidatePayload | src/iota/essence_stardust.c:150-161 | the wrap-around safe test accepts exactly a payload that ends inside the buffer |
| EssenceStardust.ValidateInputsBip32 | src/iota/essence_stardust.c:174-194 | accepts exactly as many hardened entries as inputs, strictly inside the buffer |
| EssenceStardust.SameBytesSameInput | src/iota/essence_stardust.c:207-213 | comparing all 35 bytes compares transaction id and index |
| EssenceStardust.ValidateInputsDuplicates | src/iota/essence_stardust.c:197-217 | accepts if and only if all inputs are pairwise distinct |
| EssenceStardust.EssenceVerifyRemainderAddress | src/iota/essence_stardust.c:219-251 | accepts exactly when the remainder output carries the address derived from the stated hardened path; leaves the path there |
| EssenceStardust.ParseSections | src/iota/essence_stardust.c:268-304 | succeeds if and only if some layout fits, and records exactly its counts, positions and lengths |
| EssenceStardust.EssenceParseAndValidateStardust | src/iota/essence_stardust.c:268-332 | accepts if and only if a layout without duplicates exists, an announced remainder is verified and hashing succeeds; describes the whole resulting context |
| ParserMeaning.ParserEqualsGrammar | src/iota/essence_stardust.c:268-332 | the validator accepts exactly the buffers that start with a well-formed message with owned remainder, total length below the buffer size |
| ParserMeaning.ParsedIsMessage | src/iota/essence_stardust.c:295-304 | recorded hash, lengths, counts and positions are those of the serialized message |
| BlindsigningStardust.ParseAndValidateBlindsigning | src/iota/blindsigning_stardust.c:72-98 | accepts exactly a hash, a count 1..128 and that many hardened entries; keeps the submitted hash |
| InternalTransfer.CheckForInternalTransfer | src/iota/internal_transfer.c:20-57 | true if and only if one output, no remainder, not mode 2, and some entry derives the output address with no failing derivation before it |
| ApiCtx.AddressGenerate | src/iota/address.c:52-79 | writes the typed address of the path at the offset and nothing else, or fails with the derivation; only hardened paths are derived |
| ApiState.AddressOfIs | src/iota/address.c:52-79 | the address of a path is a zero byte and blake2b of the public key of the path, and nothing else is |
| Signing.SignGetReferenceIndex | src/iota/signing.c:75-93 | the first earlier input with the same BIP32 pair, else 0xff |
| Signing.SignSignatureUnlockBlock | src/iota/signing.c:21-64 | moves the path to the entry and writes the signature unlock for it, or reports failure; SigningRuns.UnlockAnswers says which bytes these are |
| Signing.Sign | src/iota/signing.c:95-129 | writes exactly the unlock of this input and moves the path only for a signature |
| Signing.UnlockListWellFormed | src/iota/signing.c:75-129 | for one message: every reference names an earlier signature for the same pair and is never 0xff; no pair is signed twice; as many signatures as distinct pairs |
| Signing.UnlockBytesDistinct | src/api.h:90-111 | the bytes of a reply tell which unlock it is |
| Signing.BlindUnlocksAreSignatures | src/iota/signing.c:106-111 | in blind mode every unlock is a signature |
| SigningRuns.UnlockAnswers | src/iota/signing.c:21-129 | the answer byte by byte: 1 and the first earlier input with the same eight bytes; or two zeros, the public key of the path named by these bytes at 2..34, and the signature of the stored hash at 34..98 |
| ApiCommands.Initialize | src/api.c:33-93 | throws exactly for a mode the build does not have, and then everything but the purpose is zero; otherwise the fresh context of mode and account |
| ApiCommands.ClearData | src/api.c:107-121 | reinitializes with the stored mode and account |
| ApiCommands.SetAccount | src/api.c:234-259 | error cases in order, then the fresh context of the new account |
| ApiCommands.WriteDataBlock | src/api.c:123-146 | only when empty; replaces exactly the addressed block |
| ApiReplies.WritesInAnyOrder | src/api.c:123-146 | blocks written in any order, also repeatedly: every written block is the client's, every other one unchanged; all blocks written make the client's buffer |
| ApiReplies.ReadsMakeBuffer | src/api.c:148-163 | the blocks read one after the other make the whole buffer |
| ApiReplies.StateReplyDecodes | src/api.c:165-175 | from the answer the client decodes the data length, the data type and the size of the buffer |
| ApiReplies.ConfigReplyDecodes | src/api.c:187-225 | from the answer the client decodes lock, blind signing setting, app and device |
| ApiCommands.CheckBatch | src/api.c:304-329 | accepts exactly requests whose indices stay hardened, do not wrap and fit the buffer |
| ApiCommands.FillAddresses | src/api.c:336-352 | fails exactly when a derivation fails; otherwise bytes 33i..33i+33 are the address of index+i for all i and every other byte is zero |
| ApiCommands.GenerateAddress | src/api.c:277-382 | all error cases, and the two results with and without a flow |
| ApiCommands.PrepareSigning | src/api.c:384-444 | validated exactly if the grammar, the remainder and the hash allow it; the whole new context |
| ApiCommands.PrepareBlindsigning | src/api.c:446-484 | the same for blind messages, never in mode 2 |
| ApiCommands.UserConfirmEssence | src/api.c:507-578 | error cases, path moved to the remainder, flow locked and the right flow requested |
| ApiCommands.SignSingle | src/api.c:583-623 | error cases in order, the guard among them, which also stops a confirmed context without a message; then the serialized unlock of the input |
| ApiCommands.Dispatch | src/iota_io.c:46-114 | locked filter and command table; a filtered command changes nothing |
| Machine.OrA0IsOr | src/main.c:103 | the arithmetic form of the status byte is the bitwise or |
| MachineInvariant.AgreesIsSafe | src/api.c:526-535 | a summary that agrees with its buffer has its hardened table inside the buffer and never trips the guard |
| MachineInvariant.ClearDataIsFresh | src/api.c:107-121 | in every state that any events can lead to, clearing never throws and equals initializing with the same mode and account |
| MachineInvariant.PathOfMode | src/api.c:33-93 | in every such state the path starts with 0x8000002c and the coin of the mode: 0x80000001 for test networks, 0x8000107b for mode 3, else 0x8000107a; only modes of the build occur |
| MachineInvariant.CommandSteady | src/iota_io.c:46-114 | in every such state a command that does not throw makes its documented transition; the first three path entries stay those of mode and account, and where there are inputs their table is hardened and inside the buffer |
| MachineInvariant.StepKeepsSteady | src/main.c:53-128 | every event keeps this, accepts at any time included |
| MachineInvariant.CatchKeepsInv | src/main.c:94-121 | handling any exception keeps the invariant |
| MachineInvariant.CancelKeepsInv | src/api.c:493-505 | from every such state reject and timeout lead to an empty context without a flow that satisfies the full invariant |
| MachineInvariant.PrepareKeepsInv | src/api.c:384-444 | after prepare the stored summary agrees with parsing the buffer again |
| MachineInvariant.PrepareBlindKeepsInv | src/api.c:446-484 | the same for blind messages |
| MachineInvariant.GenerateKeepsInv | src/api.c:277-382 | after generating, the buffer holds a batch of derived addresses |
| MachineInvariant.ConfirmKeepsInv | src/api.c:507-578 | confirm keeps message, summary and the first three path entries |
| MachineInvariant.SignKeepsInv | src/api.c:583-623 | sign changes nothing but the last two path entries |
| MachineInvariant.CommandKeepsInv | src/iota_io.c:46-114 | every command that does not throw keeps the invariant and makes its documented transition |
| MachineInvariant.CommandCodes | src/iota_io.c:46-114 | commands throw only 0x6xxx codes; the locked code comes from the filter alone, the class code from none |
| MachineInvariant.AcceptKeepsInv | src/api.c:261-268 | an accept in the flow's own period keeps the invariant |
| MachineInvariant.StepKeepsInv | src/main.c:53-128 | every fair event keeps the invariant: every APDU, reject, tick, setting change and UI exception, and an accept in the period of its flow |
| MachineInvariant.BootInv | src/main.c:53-60 | the device starts in the invariant |
| MachineRuns.FreeRunSteady | src/main.c:53-128 | in every state of every run on any events the first three path entries are a function of mode and account, an empty context is unlocked and without inputs, and inputs have a hardened table inside the buffer |
| MachineRuns.RunInv | src/main.c:53-128 | the invariant holds in every state of every fair run: empty means zeroed and unlocked, locked means a pending address flow, validated or confirmed means agreement with the buffer and a hardened account, SIGNATURES never |
| MachineRuns.IntoValidated | src/api.c:384-484 | a validated state comes only from a prepare, which stores the remainder of its request bytes, a confirm or an idle step |
| MachineRuns.IntoConfirmed | src/api.c:486-491 | a confirmed state comes only from an accept in an offered flow, or stays |
| RequestRuns.AccountWasSelected | src/api.c:234-259 | whatever happens, mode and account of a context with an account are P1 and data of one account command, and stayed so since |
| RequestRuns.WrittenBy | src/api.c:123-146 | an answered write replaces exactly its block, in an empty context; any other leaves the context or empties it |
| RequestRuns.BufferWasWritten | src/api.c:123-146 | in every run each block of a buffer from which something is prepared, confirmed or signed holds the data of the last write to it, or zeros |
| RequestRuns.RemainderWasAnnounced | src/api.c:408-426 | in every run the remainder of a message that is prepared, confirmed or signed is the one announced by the bytes of its prepare command: with P2 zero none, else the output at the 16-bit index carries the address of purpose, coin, account, requested change, requested index |
| RequestRuns.SettingIsToggled | src/nv_mem.c:32-36 | in every run on any events the blind signing setting is the one at the start, toggled as often as the user did; no command and no exception changes it |
| MachineRuns.ConfirmedWasAuthorized | src/api.c:384-578 | before any confirmed state there were prepare, confirm and accept in this order, with buffer and summary unchanged since the prepare |
| SigningRuns.SigningSafety | src/api.c:583-623 | the same before every signature, since the last initialization; what leaves the device is one unlock: with the reply bytes of SigningRuns.UnlockAnswers, made with the key of the input's own hardened path over the stored hash, or naming the first earlier input with that path; the stored hash is that of the essence in the buffer, or the submitted one in blind mode with the setting enabled when the flow started |
| SigningRuns.UnlockVouches | src/iota/signing.c:21-51 | a signature is made with the hardened path of its input, below purpose, coin and account of the context |
| SigningRuns.EverySignatureVouches | src/api.c:583-623 | the same reply bytes and the same hardened path for every signature in every run on any events |
| SigningRuns.SignAnsweredAnyhow | src/api.c:590-597 | what a sign command is answered in every state that any events can lead to; without a message the guard stops it |
| SigningRuns.AgreesHash | src/iota/essence_stardust.c:253-266 | the stored hash is blake2b of exactly the serialized essence in the buffer |
| SigningRuns.ConfirmedStays | src/api.c:583-623 | a confirmed message stays confirmed and unchanged for its whole period |
| SigningRuns.UnlockOfMessage | src/iota/signing.c:21-51 | an unlock does not depend on where the shared path was left |
| SigningRuns.AnsweredByMessage | src/api.c:583-623 | from the confirmation to the next initialization every sign command, whatever happened in between, is answered by the message as it was when confirmed, including the failures; only a locked device refuses it |
| SigningRuns.SignRepeatable | src/api.c:583-623 | a signature given once is given again to the same sign command in the same period, whatever happened in between, unless the device is locked |
| SigningRuns.CollectedUnlocks | src/iota/signing.c:75-129 | the replies collected in a run, in any order and with anything in between, are byte by byte the answers for their inputs, and the serialized unlocks of one list that obeys the "Unlocks" rules of TIP-0020; in blind mode all are signatures |
| CancelRuns.RejectEmpties | src/ui/nano/flow_user_confirm_transaction.c:331-337 | in every state that any events can lead to, a reject in a confirmation ends the flow, begins a new period, leaves nothing but mode, coin and account, and is answered 0x6985; anywhere else it does nothing |
| CancelRuns.TickEmpties | src/ui/nano/flow_user_confirm.c:59-69 | the same, with 0x6401, for the tick that makes a flow 1000 ticks old; every other tick only counts |
| CancelRuns.DiscardedIsNotSigned | src/api.c:493-505 | in every run, prepare, confirm and accept of a signature come after every reject, timeout and failed command before it |
| CancelRuns.ThousandthTick | src/ui/nano/flow_user_confirm.c:59-69 | a flow that nothing else ends is answered with the timeout at the thousandth tick since its start, and at none before |
| MachineRuns.OnlyFiltersKeepState | src/main.c:98-114 | exactly the two filter codes keep the state; every reported code is 0x6xxx |
| MachineRuns.ApduAtomic | src/main.c:62-121 | in every state that any events can lead to, an APDU is stopped by a filter and changes nothing, fails and leaves the fresh context, or completes a documented transition |
| MachineRuns.LockedRefuses | src/iota_io.c:50-56 | a locked device refuses a framed command with 0x6982 and without effect if and only if its code is none of 0x00, 0x10, 0x11, 0x83, 0xff |
| CommandAnswers.AccountAnswered | src/api.c:234-259 | what an account command is answered, from its bytes |
| CommandAnswers.PrepareAnswered | src/api.c:384-444 | when a message is prepared and with which code it is refused, from the bytes of APDU and buffer: the buffer has the bytes of a message with values in range, and the output named by the request has the address of the path named by it |
| CommandAnswers.BlindAnswered | src/api.c:446-484 | the same for a blind message, and which hash and count it has |
| CommandAnswers.GenerateAnswered | src/api.c:277-382 | when addresses are generated, when they wait for the user, and with which code a request is refused, from its bytes |
| CommandAnswers.ConfirmAnswered | src/api.c:507-578 | in a run, confirm is refused unless a message is validated and no flow is open; otherwise its flow starts now |
| CommandAnswers.ReadAnswered | src/api.c:148-163 | which bytes a read is answered, or which code |
| CommandAnswers.WriteAnswered | src/api.c:123-146 | which bytes a write replaces, or which code refuses it |
| MachineRuns.GuardsNeverFire | src/api.c:526-535 | in every reachable validated or confirmed state the guards are idle, and confirm is refused exactly while a flow is open |
| AddressRuns.IntoGenerated | src/api.c:261-382 | addresses are in the buffer only after a generate command, an accept of the address on the screen, or an idle step |
| AddressRuns.AddressesWereRequested | src/api.c:261-382 | before any state with addresses there was the generate command for them in the same period; what it put on the screen was accepted in its own flow before it became readable |
| AddressRuns.ReadsRequestedAddresses | src/api.c:148-163 | every block read out in any run holds exactly the addresses named by the bytes of the client's request of this period, and zeros behind them: byte 0 and blake2b of the public key of purpose, coin, account, requested change and requested index plus i |
| AddressRuns.LockedAddressOfPath | src/api.c:354-382 | while an address waits for its accept, it is the one of the path in the context, and that is the path named by the bytes of the request |
| AddressRuns.AcceptedIsReadable | src/api.c:261-268 | an accept is answered 0x9000, and the block read next starts with the address of the path that the request named |
| ReviewRuns.ScreenShowsOwnAddress | src/ui/nano/flow_user_confirm_new_address.c:76-116 | while an address waits for its accept, whatever hardened path reads like the path on the screen derives the address that the text on the screen decodes to |
| MachineRuns.ClaimsAreSound | src/iota/essence_stardust.c:306-329 | in every validated summary the internal-transfer mark holds exactly under its conditions, and then the address bytes of the output are those of an input's path; the address bytes of an announced remainder are those of its path |
| MachineRuns.OwnedMeans | src/iota/internal_transfer.c:16-57 | a claimed owner derives the output address, and no entry before it fails to derive one; conversely such an owner is found |
| MachineRuns.FlowAge | src/ui/nano/flow_user_confirm.c:59-69 | a pending flow has seen as many ticks as the 32-bit difference says, and fewer than 1000 |
| SigningRuns.ReachesConfirmed | src/api.c:384-578 | prepare, confirm and accept in a row reach the confirmed state, except for a blind message with the setting off when the flow started |
| SigningRuns.AcceptedCanBeSigned | src/api.c:384-623 | whatever is prepared can be signed, every input and in any order, until a derivation fails or an index is out of range; if the setting was off when the flow of a blind message started, nothing is signed for the rest of the period, whatever the user does |
| HalfDuplex.AcceptAuthorizedIff | src/ui/nano/flow_user_confirm_transaction.c:323-329 | an accept answers the review of the message in the context if and only if nothing was initialized since its flow started, that is if the data is validated and locked |
| HalfDuplex.ShowAuthorizedIff | src/api.c:261-268 | the same for an address on the screen: if and only if the data is locked |
| HalfDuplex.OrderlyIsRun | src/api.c:261-275 | if the host sends no command before the last one was answered, and the user accepts no flow in which a screen has raised, then every accept comes in the period of its flow, and all theorems about runs hold |
| HalfDuplex.HostIsEnough | src/api.c:261-275 | if no screen raises while its flow is open, the host alone is enough |
| HalfDuplex.SoundIffNotRaised | src/main.c:94-121 | the condition on the user is exact: an accept comes in the period of its flow if and only if no screen of the flow has raised |
| HalfDuplex.OrderlySigning | src/api.c:583-623 | signing safety for such hosts and users |
| HalfDuplex.StaleAcceptSigns | src/ui/ui.c:11-13 | a host that does not wait: for any two blind messages of one input a run of nine steps signs the one that was never confirmed |
| HalfDuplex.HeedlessAcceptSigns | src/main.c:94-121 | a user who does not heed: from every state with a transaction under review six steps sign a message never confirmed, although the host waits |
| RaisedScreen.RaisedReviewSigns | src/ui/nano/flow_user_confirm_transaction.c:346-363 | the same as a run of ten steps from the start, for every amount from 10^18 on, with blind signing disabled |
| RaisedScreen.SmallAmountsAreEnough | src/ui/nano/flow_user_confirm_transaction.c:346-391 | if every amount put under review is below 10^18, a half-duplex host is enough, whatever the user does |
| MainLoop.IotaMain.constructor | src/main.c:53-60 | starts in the boot state |
| MainLoop.IotaMain.FlowStart | src/ui/nano/flow_user_confirm.c:41-57 | a flow starts now, and offers accept unless it is blind and the setting is off |
| MainLoop.IotaMain.Catch | src/main.c:94-121 | the handler is the one of the machine |
| MainLoop.IotaMain.Restart | src/main.c:228-254 | an I/O reset leads to the boot state |
| MainLoop.IotaMain.HandleApdu | src/main.c:62-121 | header checks, dispatch and handler together are the machine's step, also when a command throws half way, whatever accepts came before |
| MainLoop.IotaMain.CbAccept | src/ui/nano/flow_user_confirm_transaction.c:323-329 | accept sets the data type of its flow and ends it, whatever the context holds by then |
| MainLoop.IotaMain.CbReject | src/ui/nano/flow_user_confirm_transaction.c:331-337 | reject is the machine's step, of which CancelRuns.RejectEmpties says what it does |
| MainLoop.IotaMain.TickerEvent | src/ui/nano/flow_user_confirm.c:59-69 | a tick is the machine's step, of which CancelRuns.TickEmpties says what it does |
| MainLoop.IotaMain.UiThrows | src/main.c:90-121 | an exception in a callback is handled as the machine does; the I/O reset starts over |
| MainLoop.IotaMain.Serve | src/main.c:53-128 | on any events the object goes through a run of the machine, answers as it does, and derives hardened paths only; the run is fair if the accepts are |
| Format.DecSplit | src/ui/ui_common.c:57-64 | printing a number in two pieces, the second zero-padded, prints the number |
| Format.FormatU64 | src/ui/ui_common.c:50-66 | throws exactly from 10^18 on, else the decimal text and its length |
| Format.FormatValueFullDecimals | src/ui/ui_common.c:87-117 | exact text for values below 10^18; exactly when it throws or cuts |
| Format.AmountRoundTrip | src/ui/ui_common.c:87-117 | reading integer part and six decimals back gives the value |
| Format.HexLen | src/ui/ui_common.c:141-152 | the shift loop counts the hex digits |
| Format.FormatBip32 | src/ui/ui_common.c:157-195 | writes exactly the components that greedy wrapping puts on the line, as many characters as fit, and returns the full length; writes outside the buffer if and only if the last component of the line starts behind it |
| Format.FormatBip32WithLineBreaks | src/ui/ui_common.c:197-227 | writes the wrapped path and its terminator; writes outside the buffer if and only if it has fewer than two bytes more than the text |
| Format.WrappedIsPath | src/ui/ui_common.c:154-227 | at most three non-empty lines of at most 22 characters, whole components, at most 51 characters; without the breaks it is the path |
| Format.BreaksWhenFull | src/ui/ui_common.c:174-178 | a line is broken only where the next component would pass 22 characters |
| Format.WrappedReads | src/ui/ui_common.c:197-227 | a reader of hex digits recovers the five numbers of the path from the wrapped text |
| Format.WrappedInjective | src/ui/ui_common.c:197-227 | two hardened paths shown alike are equal |
| Review.FlowData.constructor | src/ui/nano/flow_user_confirm_transaction.c:431-470 | the internal-transfer screen exactly for an internal transfer or a remainder alone, else the review starts at its first output |
| Review.FlowData.CbNextDataset | src/ui/nano/flow_user_confirm_transaction.c:288-298 | stays in range and in step with the output shown |
| Review.FlowData.CbPrevDataset | src/ui/nano/flow_user_confirm_transaction.c:300-316 | the same backwards; accept appears only next to the last output |
| Review.FlowData.CbSwitch | src/ui/nano/flow_user_confirm_transaction.c:277-286 | goes on, or offers accept at the last output |
| Review.ReadIndexBijection | src/ui/nano/flow_user_confirm_transaction.c:416-429 | review entries stand for all outputs but the remainder, each exactly once and in the order of the message |
| Review.MovedByBalance | src/ui/nano/flow_user_confirm_transaction.c:288-316 | any sequence of steps ends at start plus balance modulo the count |
| Review.FullRound | src/ui/nano/flow_user_confirm_transaction.c:288-298 | as many next steps as there are entries visit each exactly once |
| Review.ShowAmount | src/ui/nano/flow_user_confirm_transaction.c:346-363 | shows the exact amount of the output; which exception is raised for which amount or index |
| Review.ShowAddress | src/ui/nano/flow_user_confirm_transaction.c:375-391 | shows the address of the output with the coin's prefix, for every valid index |
| Review.ShowNewAddress | src/ui/nano/flow_user_confirm_new_address.c:102-105 | shows the address at the start of the buffer |
| Review.ShowPath | src/ui/nano/flow_user_confirm_new_address.c:108-116 | shows the wrapped path; every path fits the scratch buffer |
| Review.ShowHash | src/ui/nano/flow_user_confirm_blindsigning.c:86-103 | shows the hash to be signed in upper-case hex |
| Review.HashTextInjective | src/ui/nano/flow_user_confirm_blindsigning.c:86-103 | the text determines the hash |
| Review.HashTextReads | src/ui/nano/flow_user_confirm_blindsigning.c:86-103 | the text is 0x and two hex digits for each byte, the high one first |
| Review.ScreenAddressDecodes | src/iota/constants.h:96-107 | with each of the four prefixes the text is lower case, short enough for BIP-173, and decodes to the prefix and the address |
| Review.ScreenPrefix | src/iota/abstraction.c:61-87 | the text starts with iota1, atoi1, smr1 or rms1, by app and network |
| ReviewRuns.SignedWasReviewed | src/api.c:384-623 | in every run, before a signature that is not blind: while the flow was open the screens read the outputs of the one essence whose hash was signed, and every output of it was on the review or pays to the selected account |
| ReviewRuns.ReviewRaisesIff | src/ui/nano/flow_user_confirm_transaction.c:288-391 | whatever steps the user takes, the address and amount screens of a review raise no exception if and only if every reviewed amount is below 10^18 |
| ReviewRuns.LargeAmountsRaise | src/ui/nano/flow_user_confirm_transaction.c:346-363 | the validator accepts a message for every amount, but from 10^18 on the first screens of its review raise |
| Review.NetworkDetermined | src/iota/abstraction.c:61-87 | an address text determines coin, main or test network, and the address |
| Review.ShownDetermines | src/ui/nano/flow_user_confirm_transaction.c:346-391 | the two texts determine the output |
| Review.ReviewShowsMessage | src/iota/abstraction.c:22-59 | the outputs shown are those of the essence whose hash is signed |

## Left out

- Machine.Fair: that accepts meet it is derived from assumptions about host and user, which are not derived from anything: the transport and the user are not part of this model.
- SigningRuns.AnsweredByMessage: derivation, signing and hashing are functions, so that a call that failed fails again; failures of the hardware that come and go are not modelled.
- Bech32.Encode: null pointer arguments are not modelled; its four loops are separate methods here.
- Format.FormatBip32: the null output pointer, which only measures, is not modelled.
- ApiCommands.SignSingle: the comparison of the APDU buffer size with the unlock size is a build constant of the SDK and always passes; the length test in `io_send` likewise.
- ApiCtx.AddressGenerate: key derivation, ed25519 and blake2b, and the byte order of public keys in `src/iota/ed25519.c`, are one arbitrary function each.
- Bech32.Decode: leaves out the limit of 90 characters and the case rules of BIP-173; Review.ScreenAddressDecodes covers them for the address strings shown.
- Machine.After: a command is one step; ticker events that the SDK may handle inside `UX_WAIT_DISPLAYED`, which the generating and signing screens call in the middle of a command, are not modelled there, because the SDK is not part of this model.
- Screen layouts, step tables, button handling and the headers of the screens: the model keeps which screens offer accept and what amounts, addresses, paths and hashes they show.
- That accept is offered only after every output was viewed is not claimed: stepping back from the first output leads to the accept screen.
- Debug builds, the non-interactive mode, non-volatile storage beyond one flag, and the fuzz and replay clients.
- `format_value_full`, `format_value_short` and `string_insert_chars_each`, which the modelled screens do not call, and `TOTAL_AMOUNT_MAX`, which the validator does not enforce.
