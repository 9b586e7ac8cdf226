/** When an accept is the user's answer to what the context holds: the exact condition on
    the device, what host and user have to do for it, and a run in which the host does
    not. */
module HalfDuplex {
  import opened Bytes
  import opened Config
  import opened Essence
  import opened ApiState
  import opened Signing
  import opened ApiSpec
  import opened Machine
  import opened MachineInvariant
  import opened MachineRuns
  import opened SigningRuns
  import opened AddressRuns

  // -------------------------------------------------------- the exact condition

  /** An offered accept answers the review of the message that the context holds if and
      only if the context was not initialized since the flow was started. The device
      could tell by looking at the context: then, and only then, it holds a validated
      message and is locked for a flow. */
  lemma AcceptAuthorizedIff(c: Crypto, ds: seq<Device>, evs: seq<Event>, n: nat)
    requires Run(c, ds, evs) && n <= |evs|
    requires ds[n].flow.Flow? && ds[n].flow.kind != NewAddress && ds[n].flow.acceptOffered
    ensures (exists i: nat, j: nat :: Reviewed(ds, evs, i, j, n)) <==> ds[n].flow.epoch == ds[n].epoch
    ensures ds[n].flow.epoch == ds[n].epoch <==> ds[n].api.dataType == VALIDATED_ESSENCE && ds[n].api.flowLocked
  {
    hide Run, Sound, After, Fair, ApiInv, Reviewed, PrepareStep;
    RunLengths(c, ds, evs);
    RunInv(c, ds, evs, n);
    if ds[n].flow.epoch == ds[n].epoch {
      var i, j := ValidatedWasPrepared(c, ds, evs, n);
    }
    forall i: nat, j: nat | Reviewed(ds, evs, i, j, n)
      ensures ds[n].flow.epoch == ds[n].epoch
    {
      ReviewedFlow(ds, evs, i, j, n);
      RunInv(c, ds, evs, j + 1);
    }
  }

  lemma ReviewedFlow(ds: seq<Device>, evs: seq<Event>, i: nat, j: nat, n: nat)
    requires Reviewed(ds, evs, i, j, n)
    ensures n < |ds| && j + 1 < |ds| && ds[j+1].flow == ds[n].flow && ds[j+1].epoch == ds[n].epoch
    ensures ds[j+1].api.dataType == VALIDATED_ESSENCE && ds[j+1].api.flowLocked
  {
    hide PrepareStep;
    assert SameMessage(ds[j+1], ds[n]);
  }

  /** The same for an address on the screen: the accept answers the generate command
      whose address the buffer holds if and only if the period is the same, that is if
      the data is locked. */
  lemma ShowAuthorizedIff(c: Crypto, ds: seq<Device>, evs: seq<Event>, n: nat)
    requires Run(c, ds, evs) && n <= |evs| && ds[n].flow.Flow? && ds[n].flow.kind == NewAddress
    ensures (exists i: nat :: Generated(c, ds, evs, i, n) && OnScreen(evs[i]) && ds[i+1].flow == ds[n].flow)
       <==> ds[n].flow.epoch == ds[n].epoch
    ensures ds[n].flow.epoch == ds[n].epoch <==> ds[n].api.dataType == LOCKED
  {
    hide Run, Sound, After, Fair, ApiInv, HoldsBatch, U32;
    RunLengths(c, ds, evs);
    RunInv(c, ds, evs, n);
    if ds[n].flow.epoch == ds[n].epoch {
      var i, k := AddressesWereRequested(c, ds, evs, n);
      assert Generated(c, ds, evs, i, n) && OnScreen(evs[i]) && ds[i+1].flow == ds[n].flow;
    }
    forall i: nat | Generated(c, ds, evs, i, n) && OnScreen(evs[i]) && ds[i+1].flow == ds[n].flow
      ensures ds[n].flow.epoch == ds[n].epoch
    {
      assert SameBatch(ds[i+1], ds[n]);
    }
  }

  // ------------------------------------------------------------- host and user

  /** A command that has not been answered: it started a flow. The empty command is never
      answered, and nobody waits for it. */
  ghost predicate Unanswered(c: Crypto, d: Device, ev: Event) {
    Sound(d.api) && ev.Apdu? && |ev.bytes| >= HEADER_SIZE && ev.bytes[1] != INS_NONE && After(c, d, ev).1.Silence?
  }

  ghost predicate Silent(c: Crypto, d: Device, ev: Event) { Sound(d.api) ==> After(c, d, ev).1.Silence? }

  /** An event after which host and device start over. */
  predicate Restarts(ev: Event) {
    (ev.Apdu? && ev.bytes == []) || ev == UiException(EXCEPTION_IO_RESET)
  }

  /** Before event `n` the host waits for the answer to a command. */
  ghost predicate AwaitsReply(c: Crypto, ds: seq<Device>, evs: seq<Event>, n: nat)
    requires n <= |evs| < |ds|
  {
    n > 0 && (Unanswered(c, ds[n-1], evs[n-1])
              || (!evs[n-1].Apdu? && !Restarts(evs[n-1]) && Silent(c, ds[n-1], evs[n-1])
                  && AwaitsReply(c, ds, evs, n - 1)))
  }

  /** The transport is half duplex: the host sends no command before the last one has
      been answered. It may always cut the connection. */
  ghost predicate HostWaits(c: Crypto, ds: seq<Device>, evs: seq<Event>)
    requires |evs| < |ds|
  {
    forall i :: 0 <= i < |evs| && evs[i].Apdu? && !Restarts(evs[i]) ==> !AwaitsReply(c, ds, evs, i)
  }

  /** Step `m` was a screen that raised, and the flow of that time is still there. */
  predicate RaisedAt(ds: seq<Device>, evs: seq<Event>, m: nat, n: nat)
    requires n <= |evs| < |ds|
  {
    m < n && evs[m].UiException? && forall k :: m <= k <= n ==> ds[k].flow == ds[n].flow
  }

  ghost predicate Raised(ds: seq<Device>, evs: seq<Event>, n: nat)
    requires n <= |evs| < |ds|
  {
    exists m: nat :: RaisedAt(ds, evs, m, n)
  }

  /** The user does not accept a flow in which a screen has raised. */
  ghost predicate UserHeeds(ds: seq<Device>, evs: seq<Event>)
    requires |evs| < |ds|
  {
    forall i :: 0 <= i < |evs| && evs[i] == Accept && ds[i].flow.Flow? ==> !Raised(ds, evs, i)
  }

  /** What a step does to the flow. */
  lemma StepFlow(c: Crypto, d: Device, ev: Event)
    requires Inv(c, d) && Sound(d.api) && Fair(d, ev)
    ensures var (d', r) := After(c, d, ev);
            match ev
            case Apdu(bytes, _) =>
              if bytes == [] then d'.flow == NoFlow
              else d'.flow == d.flow || (Unanswered(c, d, ev) && d'.flow.Flow? && d'.flow.epoch == d'.epoch)
            case UiException(e) =>
              if e == EXCEPTION_IO_RESET then d'.flow == NoFlow else d'.flow == d.flow && r.Response?
            case _ => d'.flow == NoFlow || (d'.flow == d.flow && d'.epoch == d.epoch && r.Silence?)
  {
    hide ApiInv, TableWellFormed, TableInBuffer, Fresh, Dispatch, ClearData, Steady;
    InvSteady(c, d.api);
    match ev
    case Apdu(bytes, locked) =>
      if WellFramed(bytes) {
        CommandKeepsInv(c, d.api, Command(bytes[1], bytes[2], bytes[3], bytes[5..]), locked, d.blindEnabled);
      }
    case Reject => CancelKeepsInv(c, d, SW_DENIED_BY_USER);
    case Tick => CancelKeepsInv(c, d.(timer := (d.timer + 1) % 0x1_0000_0000), SW_COMMAND_TIMEOUT);
    case _ =>
  }

  lemma StillRaised(ds: seq<Device>, evs: seq<Event>, n: nat)
    requires n < |evs| < |ds| && Raised(ds, evs, n) && ds[n+1].flow == ds[n].flow
    ensures Raised(ds, evs, n + 1)
  {
    var m: nat :| RaisedAt(ds, evs, m, n);
    assert RaisedAt(ds, evs, m, n + 1);
  }

  /** As long as the host waits, a flow without a raised screen is the one of the command
      that has not been answered, and nothing was initialized since it was started. */
  lemma {:induction false} PendingIsCurrent(c: Crypto, ds: seq<Device>, evs: seq<Event>, n: nat)
    requires FreeRun(c, ds, evs) && n <= |evs| < |ds| && FairUpTo(ds, evs, n) && HostWaits(c, ds, evs)
    ensures ds[n].flow.Flow? && !Raised(ds, evs, n) ==>
      AwaitsReply(c, ds, evs, n) && ds[n].flow.epoch == ds[n].epoch
  {
    hide FreeRun, Inv, Sound, After, Fair, Raised, Unanswered, Silent;
    if n == 0 {
      BootHasNoFlow(c, ds, evs);
    } else {
      var d, ev := ds[n-1], evs[n-1];
      PendingIsCurrent(c, ds, evs, n - 1);
      FreeRunStep(c, ds, evs, n - 1);
      StepFlow(c, d, ev);
      SilentMeans(c, d, ev);
      if ds[n].flow == d.flow && Raised(ds, evs, n - 1) {
        StillRaised(ds, evs, n - 1);
      }
      if ev.UiException? && !Restarts(ev) {
        assert RaisedAt(ds, evs, n - 1, n);
        RaisedBy(ds, evs, n - 1, n);
      }
    }
  }

  lemma RaisedBy(ds: seq<Device>, evs: seq<Event>, m: nat, n: nat)
    requires n <= |evs| < |ds| && RaisedAt(ds, evs, m, n)
    ensures Raised(ds, evs, n)
  {}

  lemma SilentMeans(c: Crypto, d: Device, ev: Event)
    requires Sound(d.api)
    ensures Silent(c, d, ev) <==> After(c, d, ev).1.Silence?
  {
    hide Sound, After;
  }

  lemma BootHasNoFlow(c: Crypto, ds: seq<Device>, evs: seq<Event>)
    requires FreeRun(c, ds, evs)
    ensures ds[0].flow == NoFlow
  {}

  /** A half-duplex host and a user who heeds raised screens. */
  ghost predicate Orderly(c: Crypto, ds: seq<Device>, evs: seq<Event>) {
    FreeRun(c, ds, evs) && HostWaits(c, ds, evs) && UserHeeds(ds, evs)
  }

  lemma {:induction false} OrderlyIsFair(c: Crypto, ds: seq<Device>, evs: seq<Event>, n: nat)
    requires Orderly(c, ds, evs) && n <= |evs| < |ds|
    ensures FairUpTo(ds, evs, n)
  {
    hide FreeRun, HostWaits, Raised;
    if n == 0 {
    } else {
      OrderlyIsFair(c, ds, evs, n - 1);
      PendingIsCurrent(c, ds, evs, n - 1);
    }
  }

  /** What host and user do is enough: then every accept comes in the period of its flow,
      and all theorems about runs hold. */
  lemma OrderlyIsRun(c: Crypto, ds: seq<Device>, evs: seq<Event>)
    requires Orderly(c, ds, evs)
    ensures Run(c, ds, evs)
  {
    OrderlyIsFair(c, ds, evs, |evs|);
  }

  /** If no screen raises while its flow is open, the host alone is enough. */
  lemma HostIsEnough(c: Crypto, ds: seq<Device>, evs: seq<Event>)
    requires FreeRun(c, ds, evs) && HostWaits(c, ds, evs)
    requires forall i :: 0 <= i < |evs| && evs[i].UiException? && !Restarts(evs[i]) ==> ds[i].flow == NoFlow
    ensures Run(c, ds, evs)
  {
    hide FreeRun, HostWaits, Sound, After;
    assert |ds| == |evs| + 1 by { FreeRunLengths(c, ds, evs); }
    forall i | 0 <= i < |evs| && evs[i] == Accept && ds[i].flow.Flow?
      ensures !Raised(ds, evs, i)
    {
      NotRaised(c, ds, evs, i);
    }
    OrderlyIsRun(c, ds, evs);
  }

  lemma NotRaised(c: Crypto, ds: seq<Device>, evs: seq<Event>, n: nat)
    requires FreeRun(c, ds, evs) && n <= |evs| < |ds| && ds[n].flow.Flow?
    requires forall i :: 0 <= i < n && evs[i].UiException? && !Restarts(evs[i]) ==> ds[i].flow == NoFlow
    ensures !Raised(ds, evs, n)
  {
    hide FreeRun, Sound;
    forall m: nat
      ensures !RaisedAt(ds, evs, m, n)
    {
      if RaisedAt(ds, evs, m, n) {
        assert ds[m].flow == ds[n].flow && ds[m+1].flow == ds[n].flow;
        FreeRunSteady(c, ds, evs, m);
        assert false;
      }
    }
  }

  /** What the user has to do is exact: with a host that waits, an accept comes in the
      period of its flow if and only if no screen of that flow has raised. No screen
      raises one of the two codes that keep the context. */
  lemma SoundIffNotRaised(c: Crypto, ds: seq<Device>, evs: seq<Event>, n: nat)
    requires FreeRun(c, ds, evs) && n <= |evs| < |ds| && FairUpTo(ds, evs, n) && HostWaits(c, ds, evs)
    requires forall m :: 0 <= m < n && evs[m].UiException? ==> !KeepsState(StatusWord(evs[m].e))
    ensures ds[n].flow.Flow? ==> (ds[n].flow.epoch == ds[n].epoch <==> !Raised(ds, evs, n))
  {
    hide FreeRun, Inv, Sound, Fair;
    PendingIsCurrent(c, ds, evs, n);
    if ds[n].flow.Flow? && Raised(ds, evs, n) {
      var m: nat :| RaisedAt(ds, evs, m, n);
      assert ds[m].flow == ds[n].flow;
      FreeRunStep(c, ds, evs, m);
      StepFlow(c, ds[m], evs[m]);
      FlowNotAhead(c, ds[m]);
      FreeEpochGrows(c, ds, evs, m + 1, n);
    }
  }

  lemma FlowNotAhead(c: Crypto, d: Device)
    requires Inv(c, d) && d.flow.Flow?
    ensures d.flow.epoch <= d.epoch
  {
    hide ApiInv;
  }

  /** Signing is safe for a half-duplex host and a user who heeds raised screens. */
  lemma OrderlySigning(c: Crypto, ds: seq<Device>, evs: seq<Event>, n: nat)
    returns (i: nat, j: nat, k: nat, u: Unlock)
    requires Orderly(c, ds, evs) && n < |evs| < |ds| && Signs(c, ds[n], evs[n])
    ensures Authorized(ds, evs, i, j, k, n)
    ensures forall m :: i < m <= n ==> ds[m].epoch == ds[i].epoch && ds[m].api.buffer == ds[i].api.buffer
                                       && ds[m].api.essence.hash == ds[n].api.essence.hash
    ensures HashOfMessage(c, ds[n].api)
    ensures ds[n].api.essence.blindsigning ==> ds[j].blindEnabled
    ensures After(c, ds[n], evs[n]).1.data == SerializeUnlock(u)
    ensures TableInBuffer(ds[n].api) && evs[n].bytes[2] < ds[n].api.essence.inputsCount
    ensures Vouches(c, ds[n].api, evs[n].bytes[2], u)
    ensures TableInPlace(ds[n].api) && AnswerBytes(c, ds[n].api, evs[n].bytes[2], After(c, ds[n], evs[n]).1.data)
  {
    hide Orderly, Run, Sound, After, Authorized, HashOfMessage, Vouches, SerializeUnlock, TableInBuffer, TableInPlace,
      AnswerBytes;
    OrderlyIsRun(c, ds, evs);
    i, j, k, u := SigningSafety(c, ds, evs, n);
  }

  // -------------------------------------------------- a host that does not wait

  function ApduOf(ins: byte, p1: byte, data: seq<byte>): Event
    requires |data| < 0x100
  {
    Apdu([CLA, ins, p1, 0, |data|] + data, false)
  }

  /** A data block with the blind message of one input: hash, count and BIP32 entry. */
  function BlindBlock(h: hash): (b: seq<byte>)
    ensures |b| == DATA_BLOCK_SIZE
  {
    h + ToLe(1, 2) + SerializeEntry(FIRST_ENTRY) + Zeros(209)
  }

  function BufferOf(h: hash): buffer { BlindBlock(h) + Zeros(API_BUFFER_SIZE_BYTES)[DATA_BLOCK_SIZE..] }

  lemma BlindMessage(h: hash)
    ensures var d := BufferOf(h);
            U16(d, 32) == 1 && BlindLayout(d, 1) && d[..32] == h && EntriesAt(d, 34, 1) == [FIRST_ENTRY]
  {
    hide ToLe, SerializeEntry, U32, U16;
    var d := BufferOf(h);
    assert |SerializeEntry(FIRST_ENTRY)| == 8 by { EntriesWritten([], 0, [FIRST_ENTRY]); OneRecord(FIRST_ENTRY); }
    assert d[..32] == h && d[32..34] == ToLe(1, 2) && d[34..42] == SerializeEntry(FIRST_ENTRY);
    U16OfToLe(d, 32, 1);
    EntryWritten(d, 34, FIRST_ENTRY);
    EntryOkWellFormed(d, 34);
  }

  lemma OneRecord(b: Entry)
    ensures SerializeEntries([b]) == SerializeEntry(b)
  {
    assert [b][..0] == [] && Concat(SerializeEntry, [b][..0]) == [];
  }

  // The states of the run, of the account `n`.

  function Start(n: u32): Api { Fresh(APP_MODE_INIT, n) }

  function Written(n: u32, h: hash): Api { Start(n).(buffer := BufferOf(h)) }

  function Validated(n: u32, h: hash): Api {
    Written(n, h).(dataType := VALIDATED_ESSENCE, dataLength := 42,
                   essence := NO_ESSENCE.(blindsigning := true, inputsCount := 1, length := 32, entries := Some(34),
                                          hash := h))
  }

  lemma SoundStates(n: u32, h: hash, t: DataType)
    requires Hardened(n) && (t == VALIDATED_ESSENCE || t == USER_CONFIRMED_ESSENCE)
    ensures Sound(Start(n)) && Sound(Written(n, h))
    ensures Sound(Validated(n, h).(dataType := t)) && Sound(Validated(n, h).(dataType := t, flowLocked := true))
    ensures Table(Validated(n, h).(dataType := t)) == [FIRST_ENTRY]
  {
    hide BufferOf, BlindLayout;
    BlindMessage(h);
  }

  lemma DoesSetAccount(c: Crypto, d: Device, n: u32)
    requires Sound(d.api) && Hardened(n)
    ensures After(c, d, ApduOf(INS_SET_ACCOUNT, APP_MODE_INIT, ToLe(n, 4)))
         == (Reinitialized(d, Start(n)), Response([], SW_OK))
  {
    hide Sound, After, ToLe, Fresh, U32;
    var ev := ApduOf(INS_SET_ACCOUNT, APP_MODE_INIT, ToLe(n, 4));
    CommandRuns(c, d, ev, INS_SET_ACCOUNT);
    assert ev.bytes[5..] == ToLe(n, 4);
    assert ToLe(n, 4)[0..4] == ToLe(n, 4);
    U32OfToLe(ToLe(n, 4), 0, n);
  }

  lemma DoesWrite(c: Crypto, d: Device, n: u32, block: seq<byte>)
    requires Sound(d.api) && d.api == Start(n) && |block| == DATA_BLOCK_SIZE
    ensures After(c, d, ApduOf(INS_WRITE_DATA_BLOCK, 0, block))
         == (d.(api := Start(n).(buffer := block + Zeros(API_BUFFER_SIZE_BYTES)[DATA_BLOCK_SIZE..])),
             Response([], SW_OK))
  {
    hide Sound, After;
    var ev := ApduOf(INS_WRITE_DATA_BLOCK, 0, block);
    CommandRuns(c, d, ev, INS_WRITE_DATA_BLOCK);
    assert ev.bytes[5..] == block;
    assert d.api.buffer[..0] + block + d.api.buffer[DATA_BLOCK_SIZE..]
        == block + Zeros(API_BUFFER_SIZE_BYTES)[DATA_BLOCK_SIZE..];
  }

  lemma DoesWriteBlind(c: Crypto, d: Device, n: u32, h: hash)
    requires Sound(d.api) && d.api == Start(n)
    ensures After(c, d, ApduOf(INS_WRITE_DATA_BLOCK, 0, BlindBlock(h)))
         == (d.(api := Written(n, h)), Response([], SW_OK))
  {
    hide Sound, After, BlindBlock, Fresh;
    DoesWrite(c, d, n, BlindBlock(h));
  }

  lemma DoesPrepare(c: Crypto, d: Device, n: u32, h: hash)
    requires Sound(d.api) && d.api == Written(n, h) && Hardened(n)
    ensures After(c, d, ApduOf(INS_PREPARE_BLINDSIGNING, 0, []))
         == (d.(api := Validated(n, h)), Response([], SW_OK))
  {
    hide Sound, After, BufferOf, BlindLayout, U16;
    BlindMessage(h);
    CommandRuns(c, d, ApduOf(INS_PREPARE_BLINDSIGNING, 0, []), INS_PREPARE_BLINDSIGNING);
  }

  lemma DoesConfirm(c: Crypto, d: Device, n: u32, h: hash)
    requires Sound(d.api) && d.api == Validated(n, h) && Hardened(n) && d.blindEnabled
    ensures After(c, d, ApduOf(INS_USER_CONFIRM_ESSENCE, 0, []))
         == (d.(api := d.api.(flowLocked := true), flow := Flow(ConfirmBlind, d.timer, true, d.epoch)), Silence)
  {
    hide Sound, After, BufferOf;
    CommandRuns(c, d, ApduOf(INS_USER_CONFIRM_ESSENCE, 0, []), INS_USER_CONFIRM_ESSENCE);
  }

  lemma DoesClear(c: Crypto, d: Device, n: u32, h: hash)
    requires Sound(d.api) && d.api == Validated(n, h).(flowLocked := true)
    ensures After(c, d, ApduOf(INS_CLEAR_DATA_BUFFER, 0, [])) == (Reinitialized(d, Start(n)), Response([], SW_OK))
  {
    hide Sound, After, BufferOf;
    CommandRuns(c, d, ApduOf(INS_CLEAR_DATA_BUFFER, 0, []), INS_CLEAR_DATA_BUFFER);
  }

  lemma DoesSign(c: Crypto, d: Device, n: u32, h: hash)
    requires Sound(d.api) && d.api == Validated(n, h).(dataType := USER_CONFIRMED_ESSENCE) && Hardened(n)
    requires SignatureFor(c, WithEntry(Start(n).path, FIRST_ENTRY), h).Some?
    ensures After(c, d, ApduOf(INS_SIGN_SINGLE, 0, [])).1
         == Response(SerializeUnlock(SignatureFor(c, WithEntry(Start(n).path, FIRST_ENTRY), h).value), SW_OK)
  {
    hide Sound, After, BufferOf, SignatureFor, SerializeUnlock;
    SoundStates(n, h, USER_CONFIRMED_ESSENCE);
    CommandRuns(c, d, ApduOf(INS_SIGN_SINGLE, 0, []), INS_SIGN_SINGLE);
  }

  function StaleEvents(n: u32, h: hash, h': hash): seq<Event> {
    [ApduOf(INS_SET_ACCOUNT, APP_MODE_INIT, ToLe(n, 4)),
     ApduOf(INS_WRITE_DATA_BLOCK, 0, BlindBlock(h)),
     ApduOf(INS_PREPARE_BLINDSIGNING, 0, []),
     ApduOf(INS_USER_CONFIRM_ESSENCE, 0, []),
     ApduOf(INS_CLEAR_DATA_BUFFER, 0, []),
     ApduOf(INS_WRITE_DATA_BLOCK, 0, BlindBlock(h')),
     ApduOf(INS_PREPARE_BLINDSIGNING, 0, []),
     Accept,
     ApduOf(INS_SIGN_SINGLE, 0, [])]
  }

  function StaleStates(n: u32, h: hash, h': hash): seq<Device> {
    var review := Flow(ConfirmBlind, 0, true, 1);
    [Boot(true, 0),
     Device(Start(n), NoFlow, 0, true, 1),
     Device(Written(n, h), NoFlow, 0, true, 1),
     Device(Validated(n, h), NoFlow, 0, true, 1),
     Device(Validated(n, h).(flowLocked := true), review, 0, true, 1),
     Device(Start(n), review, 0, true, 2),
     Device(Written(n, h'), review, 0, true, 2),
     Device(Validated(n, h'), review, 0, true, 2),
     Device(Validated(n, h').(dataType := USER_CONFIRMED_ESSENCE), NoFlow, 0, true, 2)]
  }

  lemma StaleFirstHalf(c: Crypto, n: u32, h: hash, h': hash)
    requires Hardened(n)
    ensures var ds, evs := StaleStates(n, h, h'), StaleEvents(n, h, h');
            forall i :: 0 <= i < 4 ==> Follows(c, ds[i], evs[i], ds[i+1])
  {
    hide Sound, After, Start, Validated, Written, BlindBlock, ToLe;
    var ds := StaleStates(n, h, h');
    BootIsSound();
    StatesOf(n, h);
    DoesSetAccount(c, ds[0], n);
    DoesWriteBlind(c, ds[1], n, h);
    DoesPrepare(c, ds[2], n, h);
    DoesConfirm(c, ds[3], n, h);
  }

  lemma StaleSecondHalf(c: Crypto, n: u32, h: hash, h': hash)
    requires Hardened(n)
    ensures var ds, evs := StaleStates(n, h, h'), StaleEvents(n, h, h');
            forall i :: 4 <= i < 8 ==> Follows(c, ds[i], evs[i], ds[i+1])
  {
    hide Sound, After, Start, Validated, Written, BlindBlock, ToLe;
    var ds := StaleStates(n, h, h');
    StatesOf(n, h);
    StatesOf(n, h');
    DoesClear(c, ds[4], n, h);
    DoesWriteBlind(c, ds[5], n, h');
    DoesPrepare(c, ds[6], n, h');
    AcceptsAnything(c, ds[7]);
  }

  lemma StaleNotAuthorized(n: u32, h: hash, h': hash, d: Device, i: nat, j: nat, k: nat)
    ensures !Authorized(StaleStates(n, h, h') + [d], StaleEvents(n, h, h'), i, j, k, 8)
  {
    hide PrepareStep, AcceptStep, Start, Validated, Written, BlindBlock, ToLe;
  }

  /** Without the assumption signing is not safe: for every account, every two hashes and
      all cryptography that does not fail there is a run of nine steps in which the user
      reviews `h`, the client clears the data and prepares `h'`, the accept in the old
      flow confirms `h'`, and the device signs it. No confirm command was given for it,
      and the accept is the only step that the assumption excludes. */
  lemma StaleAcceptSigns(c: Crypto, n: u32, h: hash, h': hash) returns (ds: seq<Device>, evs: seq<Event>)
    requires Hardened(n) && SignatureFor(c, WithEntry(Start(n).path, FIRST_ENTRY), h').Some?
    ensures FreeRun(c, ds, evs) && |evs| == 9
    ensures CommandOf(evs[3], INS_USER_CONFIRM_ESSENCE) && ds[4].api.essence.hash == h
    ensures forall m :: 0 <= m < 9 ==> (Fair(ds[m], evs[m]) <==> m != 7)
    ensures Signs(c, ds[8], evs[8]) && After(c, ds[8], evs[8]).1.data
         == SerializeUnlock(SignatureFor(c, WithEntry(Start(n).path, FIRST_ENTRY), h').value)
    ensures forall i: nat, j: nat, k: nat :: !Authorized(ds, evs, i, j, k, 8)
  {
    hide Sound, After, Start, Validated, Written, BlindBlock, SignatureFor, SerializeUnlock, ToLe, Authorized;
    evs := StaleEvents(n, h, h');
    StatesOf(n, h);
    StatesOf(n, h');
    StaleFirstHalf(c, n, h, h');
    StaleSecondHalf(c, n, h, h');
    var d8 := StaleStates(n, h, h')[8];
    DoesSign(c, d8, n, h');
    var d9 := After(c, d8, evs[8]).0;
    ds := StaleStates(n, h, h') + [d9];
    forall i | 0 <= i < 9
      ensures Follows(c, ds[i], evs[i], ds[i+1])
    {
      if i < 8 {
        assert ds[i] == StaleStates(n, h, h')[i] && ds[i+1] == StaleStates(n, h, h')[i+1];
      }
    }
    forall i: nat, j: nat, k: nat
      ensures !Authorized(ds, evs, i, j, k, 8)
    {
      StaleNotAuthorized(n, h, h', d9, i, j, k);
    }
  }

  lemma BootIsSound()
    ensures Sound(Boot(true, 0).api)
  {}

  lemma StatesOf(n: u32, h: hash)
    requires Hardened(n)
    ensures Sound(Start(n)) && Sound(Written(n, h)) && Sound(Validated(n, h))
    ensures Sound(Validated(n, h).(flowLocked := true)) && Sound(Validated(n, h).(dataType := USER_CONFIRMED_ESSENCE))
    ensures Validated(n, h).essence.hash == h && Validated(n, h).essence.inputsCount == 1
  {
    hide Sound, BufferOf;
    SoundStates(n, h, VALIDATED_ESSENCE);
    SoundStates(n, h, USER_CONFIRMED_ESSENCE);
  }

  lemma AcceptsAnything(c: Crypto, d: Device)
    requires Sound(d.api) && d.flow.Flow? && d.flow.acceptOffered && d.flow.kind != NewAddress
    ensures After(c, d, Accept)
         == (d.(api := d.api.(dataType := USER_CONFIRMED_ESSENCE), flow := NoFlow), Response([], SW_OK))
  {
    hide Sound;
  }

  // -------------------------------------------------- a user who does not heed

  /** The code of the SDK that the formatting of amounts throws. */
  const INVALID_PARAMETER: u16 := 2

  function HeedlessEvents(n: u32, h: hash): seq<Event> {
    [UiException(INVALID_PARAMETER),
     ApduOf(INS_SET_ACCOUNT, APP_MODE_INIT, ToLe(n, 4)),
     ApduOf(INS_WRITE_DATA_BLOCK, 0, BlindBlock(h)),
     ApduOf(INS_PREPARE_BLINDSIGNING, 0, []),
     Accept,
     ApduOf(INS_SIGN_SINGLE, 0, [])]
  }

  function HeedlessStates(d: Device, n: u32, h: hash): seq<Device> {
    var e := d.epoch;
    [d,
     d.(api := Start(0), epoch := e + 1),
     d.(api := Start(n), epoch := e + 2),
     d.(api := Written(n, h), epoch := e + 2),
     d.(api := Validated(n, h), epoch := e + 2),
     d.(api := Validated(n, h).(dataType := USER_CONFIRMED_ESSENCE), flow := NoFlow, epoch := e + 2)]
  }

  lemma RaiseAnswers(c: Crypto, d: Device)
    requires Sound(d.api)
    ensures After(c, d, UiException(INVALID_PARAMETER))
         == (d.(api := Start(0), epoch := d.epoch + 1), Response([], 0x69a2))
    ensures Sound(Start(0))
  {
    hide TableWellFormed, TableInBuffer;
  }

  /** From every state in which a transaction is under review: the screen raises, and the
      host gets its answer; it selects the account, writes and prepares `h`, answered
      each time; the accept in the old flow confirms `h`, and the device signs it. The
      accept is the only step that is not fair. */
  lemma HeedlessAcceptSigns(c: Crypto, d: Device, n: u32, h: hash)
    requires Inv(c, d) && d.flow.Flow? && d.flow.kind == ConfirmTransaction && d.flow.epoch == d.epoch
    requires Hardened(n) && SignatureFor(c, WithEntry(Start(n).path, FIRST_ENTRY), h).Some?
    ensures var ds, evs := HeedlessStates(d, n, h), HeedlessEvents(n, h);
            (forall i :: 0 <= i < 6 ==> Sound(ds[i].api) && After(c, ds[i], evs[i]).1.Response?)
            && (forall i :: 0 <= i < 5 ==> ds[i+1] == After(c, ds[i], evs[i]).0)
            && (forall i :: 0 <= i < 6 ==> (Fair(ds[i], evs[i]) <==> i != 4))
            && After(c, ds[5], evs[5]).1
               == Response(SerializeUnlock(SignatureFor(c, WithEntry(Start(n).path, FIRST_ENTRY), h).value), SW_OK)
  {
    hide Inv, Sound, After, Start, Validated, Written, BlindBlock, SignatureFor, SerializeUnlock, ToLe;
    var ds := HeedlessStates(d, n, h);
    SoundOfInv(c, d);
    OffersAccept(c, d);
    StatesOf(n, h);
    RaiseAnswers(c, d);
    DoesSetAccount(c, ds[1], n);
    DoesWriteBlind(c, ds[2], n, h);
    DoesPrepare(c, ds[3], n, h);
    AcceptsAnything(c, ds[4]);
    DoesSign(c, ds[5], n, h);
  }

  lemma OffersAccept(c: Crypto, d: Device)
    requires Inv(c, d) && d.flow.Flow? && d.flow.kind == ConfirmTransaction
    ensures d.flow.acceptOffered
  {
    hide ApiInv;
  }
}
