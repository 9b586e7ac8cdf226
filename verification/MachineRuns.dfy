/** Whole runs of the device: what must have happened before a signature leaves it,
    and what every command leaves behind. */
module MachineRuns {
  import opened Bytes
  import opened Config
  import opened Essence
  import opened Address
  import opened ApiState
  import opened Signing
  import opened ApiSpec
  import opened Machine
  import opened MachineInvariant
  import opened InternalTransfer

  /** One step. A state outside `Sound` would allow anything; `FreeRunSteady` shows that
      there is none in a run. */
  ghost predicate Follows(c: Crypto, d: Device, ev: Event, d': Device) {
    Sound(d.api) ==> d' == After(c, d, ev).0
  }

  /** `ds` are the successive states of the device on any events `evs`. */
  ghost predicate FreeRun(c: Crypto, ds: seq<Device>, evs: seq<Event>) {
    |ds| == |evs| + 1 && (exists b, n :: ds[0] == Boot(b, n))
    && forall i :: 0 <= i < |evs| ==> Follows(c, ds[i], evs[i], ds[i+1])
  }

  /** In every state of every run, fair or not, the invariant of all events holds, and the
      next state is the one that the device goes to. */
  lemma {:induction false} FreeRunSteady(c: Crypto, ds: seq<Device>, evs: seq<Event>, n: nat)
    requires FreeRun(c, ds, evs) && n <= |evs|
    ensures Steady(ds[n].api) && Sound(ds[n].api)
    ensures n < |evs| ==> ds[n+1] == After(c, ds[n], evs[n]).0
  {
    hide Steady, Sound, After, Fresh;
    if n == 0 {
      InitModeSupported();
      FreshSteady(APP_MODE_INIT, 0);
    } else {
      FreeRunSteady(c, ds, evs, n - 1);
      StepKeepsSteady(c, ds[n-1], evs[n-1]);
    }
    SteadySound(ds[n].api);
    if n < |evs| {
      assert Follows(c, ds[n], evs[n], ds[n+1]);
    }
  }

  /** Every accept among the first `n` events comes in the period of its flow. */
  predicate FairUpTo(ds: seq<Device>, evs: seq<Event>, n: nat)
    requires n <= |evs| < |ds|
  {
    forall i :: 0 <= i < n ==> Fair(ds[i], evs[i])
  }

  ghost predicate Run(c: Crypto, ds: seq<Device>, evs: seq<Event>) {
    FreeRun(c, ds, evs) && FairUpTo(ds, evs, |evs|)
  }

  lemma {:induction false} FreeRunInv(c: Crypto, ds: seq<Device>, evs: seq<Event>, n: nat)
    requires FreeRun(c, ds, evs) && n <= |evs| && FairUpTo(ds, evs, n)
    ensures Inv(c, ds[n]) && Sound(ds[n].api)
  {
    hide Inv, Sound, After, Fair;
    if n == 0 {
      var b, e :| ds[0] == Boot(b, e);
      BootInv(c, b, e);
      SoundOfInv(c, ds[0]);
    } else {
      FreeRunInv(c, ds, evs, n - 1);
      assert Fair(ds[n-1], evs[n-1]) && Follows(c, ds[n-1], evs[n-1], ds[n-1+1]);
      StepKeepsInv(c, ds[n-1], evs[n-1]);
      SoundOfInv(c, ds[n]);
    }
  }

  /** The invariant holds in every state of every run. */
  lemma RunInv(c: Crypto, ds: seq<Device>, evs: seq<Event>, n: nat)
    requires Run(c, ds, evs) && n <= |evs|
    ensures Inv(c, ds[n]) && Sound(ds[n].api)
  {
    hide FreeRun, Inv, Sound, Fair;
    assert |ds| == |evs| + 1 by { FreeRunLengths(c, ds, evs); }
    FreeRunInv(c, ds, evs, n);
  }

  lemma RunSteady(c: Crypto, ds: seq<Device>, evs: seq<Event>, n: nat)
    requires Run(c, ds, evs) && n <= |evs|
    ensures |ds| == |evs| + 1 && Steady(ds[n].api)
  {
    hide FreeRun, Steady;
    FreeRunLengths(c, ds, evs);
    FreeRunSteady(c, ds, evs, n);
  }

  lemma FreeRunLengths(c: Crypto, ds: seq<Device>, evs: seq<Event>)
    requires FreeRun(c, ds, evs)
    ensures |ds| == |evs| + 1
  {}

  lemma SoundOfInv(c: Crypto, d: Device)
    requires Inv(c, d)
    ensures Sound(d.api)
  {
    InvSound(c, d.api);
  }

  lemma FreeRunStep(c: Crypto, ds: seq<Device>, evs: seq<Event>, n: nat)
    requires FreeRun(c, ds, evs) && n < |evs| < |ds| && FairUpTo(ds, evs, n + 1)
    ensures Inv(c, ds[n]) && Sound(ds[n].api) && Fair(ds[n], evs[n]) && ds[n+1] == After(c, ds[n], evs[n]).0
  {
    hide Inv, Sound, After, Fair;
    FreeRunInv(c, ds, evs, n);
    assert Follows(c, ds[n], evs[n], ds[n+1]);
  }

  lemma RunStep(c: Crypto, ds: seq<Device>, evs: seq<Event>, n: nat)
    requires Run(c, ds, evs) && n < |evs|
    ensures Inv(c, ds[n]) && Sound(ds[n].api) && Fair(ds[n], evs[n]) && ds[n+1] == After(c, ds[n], evs[n]).0
  {
    hide FreeRun, Inv, Sound, After, Fair;
    assert |ds| == |evs| + 1 by { FreeRunLengths(c, ds, evs); }
    FreeRunStep(c, ds, evs, n);
  }

  // ------------------------------------------------- one step, by what it changes

  /** The same initialization period, message and summary. */
  predicate SameMessage(d: Device, d': Device) {
    d.epoch == d'.epoch && d.api.buffer == d'.api.buffer && d.api.essence == d'.api.essence
    && d.api.path[..3] == d'.api.path[..3] && d.api.appMode == d'.api.appMode
  }

  predicate WellFramed(bytes: seq<byte>) {
    |bytes| >= HEADER_SIZE && bytes[0] == CLA && |bytes| == bytes[4] + HEADER_SIZE
  }

  predicate CommandOf(ev: Event, ins: byte) {
    ev.Apdu? && |ev.bytes| >= HEADER_SIZE && ev.bytes[0] == CLA && ev.bytes[1] == ins
    && |ev.bytes| == ev.bytes[4] + HEADER_SIZE
  }

  /** A command that is framed as it should be is executed. */
  lemma CommandRuns(c: Crypto, d: Device, ev: Event, ins: byte)
    requires Sound(d.api) && CommandOf(ev, ins)
    ensures After(c, d, ev) == Execute(c, d, Command(ins, ev.bytes[2], ev.bytes[3], ev.bytes[5..]), ev.locked)
  {
    hide Execute, Sound;
  }

  predicate PrepareStep(d: Device, ev: Event, d': Device) {
    (CommandOf(ev, INS_PREPARE_SIGNING) || CommandOf(ev, INS_PREPARE_BLINDSIGNING))
    && d.epoch == d'.epoch && d.api.buffer == d'.api.buffer
    && d.api.dataType == EMPTY && d'.api.dataType == VALIDATED_ESSENCE && !d'.api.flowLocked
    && (d'.api.essence.blindsigning <==> CommandOf(ev, INS_PREPARE_BLINDSIGNING))
    && (CommandOf(ev, INS_PREPARE_SIGNING) ==> RemainderAsRequested(ev.bytes[3], ev.bytes[5..], d'.api.essence))
  }

  predicate ConfirmStep(d: Device, ev: Event, d': Device) {
    CommandOf(ev, INS_USER_CONFIRM_ESSENCE) && SameMessage(d, d')
    && d.api.dataType == d'.api.dataType == VALIDATED_ESSENCE && !d.api.flowLocked && d'.api.flowLocked
    && d'.flow.Flow? && d'.flow.kind == (if d.api.essence.blindsigning then ConfirmBlind else ConfirmTransaction)
    && (d.api.essence.blindsigning && d'.flow.acceptOffered ==> d.blindEnabled)
  }

  predicate AcceptStep(d: Device, ev: Event, d': Device) {
    ev == Accept && SameMessage(d, d') && d.flow.Flow? && d.flow.acceptOffered && d.flow.kind != NewAddress
    && d.api.dataType == VALIDATED_ESSENCE && d.api.flowLocked && d'.api.dataType == USER_CONFIRMED_ESSENCE
  }

  /** Nothing of interest happened to a validated message. */
  predicate Idles(d: Device, d': Device) {
    SameMessage(d, d') && d.api.dataType == d'.api.dataType
    && d.api.flowLocked == d'.api.flowLocked && d.flow == d'.flow
  }

  /** Events that are neither a command nor an accept leave things alone, or wipe them. */
  lemma OtherStep(c: Crypto, d: Device, ev: Event)
    requires Steady(d.api) && Sound(d.api) && !ev.Apdu? && ev != Accept
    ensures var d' := After(c, d, ev).0;
            d'.api.dataType == EMPTY || (d'.api == d.api && d'.flow == d.flow && d'.epoch == d.epoch)
  {
    hide Steady, Fresh, TableWellFormed, TableInBuffer, GuardFires;
    FreshKnowsItself(APP_MODE_INIT, 0);
    match ev
    case Reject => CancelKeepsInv(c, d, SW_DENIED_BY_USER);
    case Tick => CancelKeepsInv(c, d.(timer := (d.timer + 1) % 0x1_0000_0000), SW_COMMAND_TIMEOUT);
    case _ =>
  }

  /** A command that completed without initializing, and the flow it started if any. */
  predicate Completes(d: Device, ins: byte, d': Device, out: Outcome) {
    !Initializes(ins) && d'.epoch == d.epoch && Transition(d.api, ins, d'.api, out)
    && if out.Async? then
         d'.flow == Flow(out.kind, d.timer, out.kind == ConfirmBlind ==> d.blindEnabled, d.epoch)
       else d'.flow == d.flow
  }

  /** A command is stopped by a filter, wipes everything, or completes. */
  lemma CommandStep(c: Crypto, d: Device, bytes: seq<byte>, locked: bool)
    requires Steady(d.api) && Sound(d.api)
    ensures var d' := HandleApdu(c, d, bytes, locked).0;
            d' == d || d'.api.dataType == EMPTY
            || (WellFramed(bytes) && exists out :: Completes(d, bytes[1], d', out))
  {
    hide Steady, Fresh, Dispatch, TableWellFormed, TableInBuffer, GuardFires;
    FreshKnowsItself(APP_MODE_INIT, 0);
    if WellFramed(bytes) {
      var cmd := Command(bytes[1], bytes[2], bytes[3], bytes[5..]);
      var s := Dispatch(c, d.api, cmd, locked, d.blindEnabled);
      CommandSteady(c, d.api, cmd, locked, d.blindEnabled);
      FreshKnowsItself(s.api.appMode, s.api.path[BIP32_ACCOUNT_INDEX]);
      assert s.out.Throw? || Initializes(cmd.ins) || Completes(d, cmd.ins, Execute(c, d, cmd, locked).0, s.out);
    }
  }

  lemma PreparedBy(c: Crypto, d: Device, ev: Event)
    requires Steady(d.api) && Sound(d.api) && CommandOf(ev, INS_PREPARE_SIGNING)
    ensures var d' := After(c, d, ev).0;
            d' == d || d'.api.dataType == EMPTY || RemainderAsRequested(ev.bytes[3], ev.bytes[5..], d'.api.essence)
  {
    hide Steady, Sound, After, Fresh, Dispatch, PrepareSigning, RemainderAsRequested, GenerateAddress,
      PrepareBlindsigning, SetAccount, WriteDataBlock, UserConfirmEssence, SignSingle, ReadDataBlock;
    FreshKnowsItself(APP_MODE_INIT, 0);
    CommandRuns(c, d, ev, INS_PREPARE_SIGNING);
    DispatchOf(c, d.api, Command(INS_PREPARE_SIGNING, ev.bytes[2], ev.bytes[3], ev.bytes[5..]), ev.locked,
               d.blindEnabled);
    PrepareSteady(c, d.api, ev.bytes[3], ev.bytes[5..]);
  }

  /** The only ways into a validated state. */
  lemma IntoValidated(c: Crypto, d: Device, ev: Event)
    requires Inv(c, d) && Sound(d.api) && Fair(d, ev)
    requires After(c, d, ev).0.api.dataType == VALIDATED_ESSENCE
    ensures var d' := After(c, d, ev).0;
            PrepareStep(d, ev, d') || ConfirmStep(d, ev, d') || Idles(d, d')
  {
    hide ApiInv, FlowInv, Sound, Steady, HandleApdu, HandleReject, HandleTick, Catch, Fresh, RemainderAsRequested;
    InvSteady(c, d.api);
    match ev
    case Apdu(bytes, locked) =>
      CommandStep(c, d, bytes, locked);
      if CommandOf(ev, INS_PREPARE_SIGNING) {
        PreparedBy(c, d, ev);
      }
    case Accept =>
    case _ => OtherStep(c, d, ev);
  }

  /** The only ways into a confirmed state. */
  lemma IntoConfirmed(c: Crypto, d: Device, ev: Event)
    requires Inv(c, d) && Sound(d.api) && Fair(d, ev)
    requires After(c, d, ev).0.api.dataType == USER_CONFIRMED_ESSENCE
    ensures var d' := After(c, d, ev).0;
            AcceptStep(d, ev, d') || (d.api.dataType == USER_CONFIRMED_ESSENCE && SameMessage(d, d'))
  {
    hide ApiInv, Sound, Steady, HandleApdu, HandleReject, HandleTick, Catch, Fresh;
    InvSteady(c, d.api);
    match ev
    case Apdu(bytes, locked) => CommandStep(c, d, bytes, locked);
    case Accept =>
    case _ => OtherStep(c, d, ev);
  }

  // ------------------------------------------------------------- signing safety

  /** Step `i` prepared the message that the device holds from `i + 1` to `n`. */
  predicate Prepared(ds: seq<Device>, evs: seq<Event>, i: nat, n: nat) {
    i < n < |ds| && |ds| == |evs| + 1 && PrepareStep(ds[i], evs[i], ds[i+1])
    && forall m :: i < m <= n ==> SameMessage(ds[m], ds[n])
  }

  /** Step `j` started the confirmation flow that is still the one at `n`. */
  predicate Reviewed(ds: seq<Device>, evs: seq<Event>, i: nat, j: nat, n: nat) {
    Prepared(ds, evs, i, n) && i < j < n && ConfirmStep(ds[j], evs[j], ds[j+1])
    && forall m :: j < m <= n ==> ds[m].flow == ds[n].flow
  }

  /** A prepare, a confirm and an accept, in this order and within one initialization
      period, with the buffer and the summary unchanged since the prepare. */
  predicate Authorized(ds: seq<Device>, evs: seq<Event>, i: nat, j: nat, k: nat, n: nat) {
    Prepared(ds, evs, i, n) && i < j < k < n && Reviewed(ds, evs, i, j, k)
    && AcceptStep(ds[k], evs[k], ds[k+1])
  }

  lemma {:induction false} ValidatedWasPrepared(c: Crypto, ds: seq<Device>, evs: seq<Event>, n: nat)
    returns (i: nat, j: nat)
    requires Run(c, ds, evs) && n <= |evs| && ds[n].api.dataType == VALIDATED_ESSENCE
    ensures Prepared(ds, evs, i, n)
    ensures ds[n].api.flowLocked ==> Reviewed(ds, evs, i, j, n)
  {
    hide Inv, Sound, After, Fair, Run, PrepareStep, ConfirmStep;
    if n == 0 {
      BootIsEmpty(c, ds, evs);
      assert false;
    } else {
      RunLengths(c, ds, evs);
      RunStep(c, ds, evs, n - 1);
      var d, d', ev := ds[n-1], ds[n], evs[n-1];
      IntoValidated(c, d, ev);
      if PrepareStep(d, ev, d') {
        PrepareStartsUnlocked(d, ev, d');
        i, j := n - 1, n - 1;
      } else {
        ConfirmParts(d, ev, d');
        i, j := ValidatedWasPrepared(c, ds, evs, n - 1);
        if ConfirmStep(d, ev, d') {
          j := n - 1;
        }
      }
    }
  }

  lemma RunLengths(c: Crypto, ds: seq<Device>, evs: seq<Event>)
    requires Run(c, ds, evs)
    ensures |ds| == |evs| + 1
  {}

  lemma BootIsEmpty(c: Crypto, ds: seq<Device>, evs: seq<Event>)
    requires Run(c, ds, evs)
    ensures ds[0].api.dataType == EMPTY
  {}

  lemma PrepareStartsUnlocked(d: Device, ev: Event, d': Device)
    requires PrepareStep(d, ev, d')
    ensures !d'.api.flowLocked
  {}

  lemma ConfirmParts(d: Device, ev: Event, d': Device)
    requires ConfirmStep(d, ev, d') || Idles(d, d')
    ensures SameMessage(d, d') && d.api.dataType == d'.api.dataType
    ensures !ConfirmStep(d, ev, d') ==> d.flow == d'.flow && d.api.flowLocked == d'.api.flowLocked
  {}

  lemma {:induction false} ConfirmedWasAuthorized(c: Crypto, ds: seq<Device>, evs: seq<Event>, n: nat)
    returns (i: nat, j: nat, k: nat)
    requires Run(c, ds, evs) && n <= |evs| && ds[n].api.dataType == USER_CONFIRMED_ESSENCE
    ensures Authorized(ds, evs, i, j, k, n)
  {
    hide Inv, Sound, After, Fair, Run, PrepareStep, ConfirmStep;
    if n == 0 {
      BootIsEmpty(c, ds, evs);
      assert false;
    } else {
      RunLengths(c, ds, evs);
      RunStep(c, ds, evs, n - 1);
      var d, d', ev := ds[n-1], ds[n], evs[n-1];
      IntoConfirmed(c, d, ev);
      if AcceptStep(d, ev, d') {
        i, j := ValidatedWasPrepared(c, ds, evs, n - 1);
        k := n - 1;
      } else {
        i, j, k := ConfirmedWasAuthorized(c, ds, evs, n - 1);
      }
    }
  }

  lemma InvAgrees(c: Crypto, d: Device)
    requires Inv(c, d) && (d.api.dataType == VALIDATED_ESSENCE || d.api.dataType == USER_CONFIRMED_ESSENCE)
    ensures Agrees(c, d.api) && AccountSelected(d.api)
  {
    hide Agrees;
  }

  /** A step never goes back to an earlier initialization period. */
  lemma StepEpoch(c: Crypto, d: Device, ev: Event)
    requires Sound(d.api)
    ensures After(c, d, ev).0.epoch >= d.epoch
  {
    hide TableWellFormed, TableInBuffer, Fresh, Dispatch, ClearData;
  }

  lemma {:induction false} FreeEpochGrows(c: Crypto, ds: seq<Device>, evs: seq<Event>, m: nat, n: nat)
    requires FreeRun(c, ds, evs) && m <= n <= |evs| < |ds| && FairUpTo(ds, evs, n)
    ensures ds[m].epoch <= ds[n].epoch
  {
    hide FreeRun, Inv, Sound, After, Fair;
    if m == n {
    } else {
      FreeEpochGrows(c, ds, evs, m, n - 1);
      FreeRunStep(c, ds, evs, n - 1);
      StepEpoch(c, ds[n-1], evs[n-1]);
    }
  }

  lemma EpochGrows(c: Crypto, ds: seq<Device>, evs: seq<Event>, m: nat, n: nat)
    requires Run(c, ds, evs) && m <= n <= |evs|
    ensures ds[m].epoch <= ds[n].epoch
  {
    hide FreeRun, Fair;
    assert |ds| == |evs| + 1 by { FreeRunLengths(c, ds, evs); }
    FreeEpochGrows(c, ds, evs, m, n);
  }

  // ---------------------------------------------------------------- atomicity

  /** No code from outside the 0x6xxx range is reported as one of the two codes that
      keep the state. */
  lemma OnlyFiltersKeepState(e: u16)
    ensures KeepsState(StatusWord(e)) <==> e == SW_DEVICE_IS_LOCKED || e == SW_CLA_NOT_SUPPORTED
    ensures StatusWord(e) / 0x1000 == 6
  {}

  /** The two filters in front of the commands. */
  predicate FilteredOut(bytes: seq<byte>, locked: bool) {
    |bytes| >= HEADER_SIZE
    && (bytes[0] != CLA || (|bytes| == bytes[4] + HEADER_SIZE && locked && !AllowedWhenLocked(bytes[1])))
  }

  /** An APDU leaves the device as it was exactly when a filter stopped it, leaves the
      freshly initialized context when anything else failed, and otherwise completes a
      transition of the table. */
  lemma ApduAtomic(c: Crypto, d: Device, bytes: seq<byte>, locked: bool)
    requires Steady(d.api) && |bytes| > 0
    ensures Sound(d.api)
    ensures var (d', r) := HandleApdu(c, d, bytes, locked);
      if r.Response? && r.sw != SW_OK then
        r.data == [] && r.sw / 0x1000 == 6
        && (KeepsState(r.sw) <==> FilteredOut(bytes, locked))
        && d' == (if FilteredOut(bytes, locked) then d else Reinitialized(d, Fresh(APP_MODE_INIT, 0)))
      else
        WellFramed(bytes) && !FilteredOut(bytes, locked)
        && exists out :: Transition(d.api, bytes[1], d'.api, out) && (r.Silence? <==> out.Async? || out.NoReply?)
  {
    hide Steady, TableWellFormed, TableInBuffer, Fresh, Dispatch, Transition;
    SteadySound(d.api);
    if WellFramed(bytes) {
      var cmd := Command(bytes[1], bytes[2], bytes[3], bytes[5..]);
      var s := Dispatch(c, d.api, cmd, locked, d.blindEnabled);
      CommandSteady(c, d.api, cmd, locked, d.blindEnabled);
      CommandCodes(c, d.api, cmd, locked, d.blindEnabled);
    }
  }

  /** A locked device refuses everything but getting the configuration, the account,
      clearing, resetting and the empty command, with its own code, and changes nothing. */
  lemma LockedRefuses(c: Crypto, d: Device, bytes: seq<byte>)
    requires Steady(d.api) && WellFramed(bytes)
    ensures Sound(d.api)
    ensures After(c, d, Apdu(bytes, true)) == (d, Response([], 0x6982))
       <==> bytes[1] !in {0x00, 0x10, 0x11, 0x83, 0xff}
    ensures After(c, d, Apdu(bytes, false)).1 != Response([], 0x6982)
  {
    hide Steady, TableWellFormed, TableInBuffer, Fresh, Dispatch;
    SteadySound(d.api);
    var cmd := Command(bytes[1], bytes[2], bytes[3], bytes[5..]);
    CommandCodes(c, d.api, cmd, true, d.blindEnabled);
    CommandCodes(c, d.api, cmd, false, d.blindEnabled);
  }

  // ------------------------------------------------------------- what is offered

  /** In every reachable state the guards of confirm and sign are idle: signing fails
      only for an index out of range or a failing derivation. */
  lemma GuardsNeverFire(c: Crypto, ds: seq<Device>, evs: seq<Event>, n: nat)
    requires Run(c, ds, evs) && n <= |evs|
    requires ds[n].api.dataType == VALIDATED_ESSENCE || ds[n].api.dataType == USER_CONFIRMED_ESSENCE
    ensures AccountSelected(ds[n].api) && !GuardFires(ds[n].api)
    ensures ds[n].api.dataType == VALIDATED_ESSENCE ==>
      (UserConfirmEssence(ds[n].api).out.Throw? <==> ds[n].api.flowLocked)
  {
    hide Inv, Sound, Run, Agrees, GuardFires;
    RunLengths(c, ds, evs);
    RunInv(c, ds, evs, n);
    InvAgrees(c, ds[n]);
    AgreesIsSafe(c, ds[n].api);
  }

  // ----------------------------------------------------------- ownership claims

  /** In a validated or confirmed summary: an internal transfer has one output and no
      remainder, and an input entry derives the output's address; a remainder's address
      is the one of the stated hardened path. */
  lemma ClaimsAreSound(c: Crypto, a: Api)
    requires ApiInv(c, a) && !a.essence.blindsigning
    requires a.dataType == VALIDATED_ESSENCE || a.dataType == USER_CONFIRMED_ESSENCE
    ensures a.essence.outputs.Some? && TableInBuffer(a)
    ensures a.essence.outputs.value + OUTPUT_SIZE * a.essence.outputsCount <= API_BUFFER_SIZE_BYTES
    ensures a.essence.isInternalTransfer <==>
      a.essence.outputsCount == 1 && !a.essence.hasRemainder && a.appMode != APP_MODE_SHIMMER_CLAIMING
      && Owned(c, RootPath(a), Table(a), OutputAddress(a.buffer, a.essence.outputs.value, 0))
    ensures a.essence.isInternalTransfer ==>
      var o := a.essence.outputs.value + 12;
      exists b :: b in Table(a) && IsAddress(c, Below(a, b.change, b.index), a.buffer[o..o+33])
    ensures a.essence.hasRemainder ==>
      a.essence.remainderIndex < a.essence.outputsCount && EntryWellFormed(a.essence.remainder)
      && AddressOf(c, WithEntry(RootPath(a), a.essence.remainder))
         == Some(OutputAddress(a.buffer, a.essence.outputs.value, a.essence.remainderIndex))
    ensures a.essence.hasRemainder ==>
      var o := a.essence.outputs.value + 46 * a.essence.remainderIndex + 12;
      IsAddress(c, Below(a, a.essence.remainder.change, a.essence.remainder.index), a.buffer[o..o+33])
  {
    hide HasLayout, AddressOf, Owned, HoldsAddresses, TableWellFormed, EntriesAt, IsAddress;
    var l :| AgreesAt(c, a, l);
    LayoutBounds(a.buffer, l);
    TableOfLayout(c, a, l);
    if a.essence.hasRemainder {
      var o := a.essence.outputs.value + 46 * a.essence.remainderIndex + 12;
      AddressOfIs(c, WithEntry(RootPath(a), a.essence.remainder), a.buffer[o..o+33]);
      BelowIs(a, a.essence.remainder);
    }
    if a.essence.isInternalTransfer {
      OwnerIs(c, a, OutputAddress(a.buffer, a.essence.outputs.value, 0));
    }
  }

  lemma BelowIs(a: Api, b: Entry)
    requires Grounded(a)
    ensures WithEntry(RootPath(a), b) == WithEntry(a.path, b) == Below(a, b.change, b.index)
  {
    assert a.path[0] == a.path[..3][0] && a.path[1] == a.path[..3][1] && a.path[2] == a.path[..3][2];
  }

  lemma OwnerIs(c: Crypto, a: Api, x: address)
    requires Grounded(a) && TableInBuffer(a) && Owned(c, RootPath(a), Table(a), x)
    ensures exists b :: b in Table(a) && IsAddress(c, Below(a, b.change, b.index), x)
  {
    hide Table, AddressOf, IsAddress, Grounded;
    OwnedMeans(c, RootPath(a), Table(a), x);
    var i :| 0 <= i < |Table(a)| && AddressOf(c, WithEntry(RootPath(a), Table(a)[i])) == Some(x);
    AddressOfIs(c, WithEntry(RootPath(a), Table(a)[i]), x);
    BelowIs(a, Table(a)[i]);
    assert Table(a)[i] in Table(a);
  }

  /** Entry `i` derives the address, and no derivation before it fails. */
  predicate Finds(c: Crypto, p: path, table: seq<Entry>, out: address, i: nat) {
    i < |table| && AddressOf(c, WithEntry(p, table[i])) == Some(out)
    && forall k :: 0 <= k < i ==> AddressOf(c, WithEntry(p, table[k])).Some?
  }

  /** Being owned means that an entry derives the address, and no entry before it fails to
      derive one: the search can miss an owner only behind a derivation that fails. */
  lemma OwnedMeans(c: Crypto, p: path, table: seq<Entry>, out: address)
    ensures Owned(c, p, table, out) <==> exists i: nat :: Finds(c, p, table, out, i)
    ensures Owned(c, p, table, out) ==>
      exists i :: 0 <= i < |table| && AddressOf(c, WithEntry(p, table[i])) == Some(out)
    ensures (forall i :: 0 <= i < |table| ==> AddressOf(c, WithEntry(p, table[i])).Some?) ==>
      (Owned(c, p, table, out) <==>
        exists i :: 0 <= i < |table| && AddressOf(c, WithEntry(p, table[i])) == Some(out))
  {
    hide AddressOf;
    if Owned(c, p, table, out) {
      var i :| FirstOwner(c, p, table, out, i);
      assert Finds(c, p, table, out, i);
    }
    if i: nat :| Finds(c, p, table, out, i) {
      FirstOwnerExists(c, p, table, out, i);
    }
    if i :| 0 <= i < |table| && AddressOf(c, WithEntry(p, table[i])) == Some(out) {
      assert (forall k :: 0 <= k < |table| ==> AddressOf(c, WithEntry(p, table[k])).Some?) ==>
        Finds(c, p, table, out, i);
    }
  }

  lemma {:induction false} FirstOwnerExists(c: Crypto, p: path, table: seq<Entry>, out: address, i: nat)
    requires Finds(c, p, table, out, i)
    ensures Owned(c, p, table, out)
  {
    hide AddressOf;
    if k :| 0 <= k < i && AddressOf(c, WithEntry(p, table[k])) == Some(out) {
      FirstOwnerExists(c, p, table, out, k);
    } else {
      assert FirstOwner(c, p, table, out, i);
    }
  }

  // -------------------------------------------------------------------- timeout

  function Ticks(evs: seq<Event>, m: nat, n: nat): nat
    requires m <= n <= |evs|
  {
    if m == n then 0 else Ticks(evs, m, n - 1) + if evs[n-1] == Tick then 1 else 0
  }

  /** A flow that is pending has seen fewer than a thousand ticks since it was started,
      whatever the 32-bit tick counter did. */
  lemma {:induction false} FlowAge(c: Crypto, ds: seq<Device>, evs: seq<Event>, m: nat, n: nat)
    requires Run(c, ds, evs) && m <= n <= |evs|
    requires ds[m].flow.Flow? && ds[m].flow.start == ds[m].timer
    requires forall k :: m <= k <= n ==> ds[k].flow == ds[m].flow
    ensures Ticks(evs, m, n) == Elapsed(ds[n].timer, ds[m].flow.start) < FLOW_TIMEOUT
  {
    hide Sound, Run, After, Fair, ApiInv;
    RunLengths(c, ds, evs);
    RunInv(c, ds, evs, n);
    if m == n {
    } else {
      FlowAge(c, ds, evs, m, n - 1);
      RunStep(c, ds, evs, n - 1);
      TimerStep(c, ds[n-1], evs[n-1]);
      TickElapsed(ds[n-1].timer, ds[m].flow.start);
    }
  }

  lemma TimerStep(c: Crypto, d: Device, ev: Event)
    requires Inv(c, d) && Sound(d.api) && After(c, d, ev).0.flow == d.flow && d.flow.Flow?
    ensures After(c, d, ev).0.timer == if ev == Tick then (d.timer + 1) % 0x1_0000_0000 else d.timer
  {
    hide ApiInv, TableWellFormed, TableInBuffer, Fresh, Dispatch, Steady;
    InvSteady(c, d.api);
    if ev == Tick {
      CancelKeepsInv(c, d.(timer := (d.timer + 1) % 0x1_0000_0000), SW_COMMAND_TIMEOUT);
    }
  }
}
