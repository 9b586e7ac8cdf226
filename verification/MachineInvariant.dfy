/** Every step keeps the invariants of module Machine: `Steady` for any events, `Inv` for
    fair ones; and what they mean for the commands. */
module MachineInvariant {
  import opened Bytes
  import opened Config
  import opened Essence
  import opened ApiState
  import opened Signing
  import opened ApiSpec
  import opened Machine
  import opened InternalTransfer

  lemma TableOfLayout(c: Crypto, a: Api, l: Layout)
    requires AgreesAt(c, a, l)
    ensures TableInBuffer(a) && TableWellFormed(a)
    ensures Table(a) == EntriesAt(a.buffer, l.essenceLength, l.inputs)
    ensures !GuardFires(a)
  {
    hide HasLayout, RemainderVerified, StaysInWallet, EntryOk, EntryWellFormed, EntriesAt;
    LayoutBounds(a.buffer, l);
    EntriesWellFormed(a.buffer, l.essenceLength, l.inputs);
  }

  lemma TableOfBlind(a: Api)
    requires AgreesBlind(a)
    ensures TableInBuffer(a) && TableWellFormed(a)
    ensures Table(a) == EntriesAt(a.buffer, 34, U16(a.buffer, 32))
    ensures !GuardFires(a)
  {
    hide U16, EntryOk, EntryWellFormed, EntriesAt;
    EntriesWellFormed(a.buffer, 34, U16(a.buffer, 32));
  }

  /** A validated or confirmed summary never trips the guard of confirm and sign. */
  lemma AgreesIsSafe(c: Crypto, a: Api)
    requires Agrees(c, a)
    ensures TableInBuffer(a) && TableWellFormed(a) && !GuardFires(a)
  {
    hide AgreesAt, AgreesBlind, TableWellFormed, GuardFires;
    if a.essence.blindsigning {
      TableOfBlind(a);
    } else {
      var l :| AgreesAt(c, a, l);
      TableOfLayout(c, a, l);
    }
  }

  // ----------------------------------------------- the invariant of all events

  lemma SteadySound(a: Api)
    requires Steady(a)
    ensures Sound(a)
  {
    hide TableWellFormed, TableInBuffer;
    assert a.path[0] == a.path[..3][0] && a.path[1] == a.path[..3][1];
  }

  lemma FreshSteady(mode: byte, account: u32)
    requires ModeSupported(mode) && (Hardened(account) || account == 0)
    ensures Steady(Fresh(mode, account))
  {}

  /** The path starts with the purpose, the coin of the mode and the account, if one is
      selected: test network, Shimmer or IOTA. */
  lemma PathOfMode(a: Api)
    requires Steady(a)
    ensures a.path[0] == 0x8000_002c
    ensures a.path[1] == if a.appMode >= 128 then 0x8000_0001 else if a.appMode == 3 then 0x8000_107b else 0x8000_107a
    ensures a.path[2] >= 0x8000_0000 || a.path[2] == 0
    ensures if APP == IotaApp then a.appMode == 1 || a.appMode == 129
            else a.appMode == 2 || a.appMode == 3 || a.appMode == 130 || a.appMode == 131
  {
    hide TableWellFormed, TableInBuffer;
    assert a.path[0] == a.path[..3][0] && a.path[1] == a.path[..3][1] && a.path[2] == a.path[..3][2];
  }

  lemma InitModeSupported()
    ensures ModeSupported(APP_MODE_INIT)
  {}

  /** `api_clear_data` never throws, and leaves the context that initializing with the
      same mode and account leaves. */
  lemma ClearDataIsFresh(c: Crypto, a: Api)
    requires Steady(a)
    ensures ClearData(a) == Done(Fresh(a.appMode, a.path[BIP32_ACCOUNT_INDEX]))
    ensures ApiInv(c, ClearData(a).api)
  {
    hide Agrees, HoldsAddresses, Fresh, TableWellFormed;
    FreshInv(c, a.appMode, a.path[BIP32_ACCOUNT_INDEX]);
  }

  lemma FreshInv(c: Crypto, mode: byte, account: u32)
    requires ModeSupported(mode) && (Hardened(account) || account == 0)
    ensures ApiInv(c, Fresh(mode, account))
  {
    hide Agrees, HoldsAddresses;
  }

  /** Nothing but the last two path entries, the data type and the lock changes. */
  lemma SteadyPathStep(a: Api, b: Api)
    requires Steady(a) && b == a.(path := b.path, dataType := b.dataType, flowLocked := b.flowLocked)
    requires b.path[..3] == a.path[..3] && b.dataType != EMPTY
    ensures Steady(b)
  {
    hide Table;
    assert a.path[2] == a.path[..3][2] && b.path[2] == b.path[..3][2];
    assert RootPath(a) == RootPath(b);
    if a.essence.inputsCount > 0 {
      assert Table(a) == Table(b) by { SameTable(a, b); }
    }
  }

  lemma SameTable(a: Api, b: Api)
    requires TableInBuffer(a) && a.buffer == b.buffer && a.essence == b.essence
    ensures TableInBuffer(b) && Table(a) == Table(b)
  {}

  /** The same mode, and the same purpose, coin and account. */
  predicate SameAccount(a: Api, b: Api) { a.appMode == b.appMode && a.path[..3] == b.path[..3] }

  lemma PathParts(p: path, b: Entry)
    ensures WithEntry(p, b)[..3] == p[..3]
  {}

  /** The summary holds the remainder that the request names: the index of its output and
      the BIP32 index and change of its path, in this order; or none. */
  predicate RemainderAsRequested(p2: byte, data: seq<byte>, e: Info) {
    |data| == 10
    && if p2 == 0 then !e.hasRemainder
       else e.hasRemainder && e.remainderIndex == U16(data, 0)
            && e.remainder.index == U32(data, 2) && e.remainder.change == U32(data, 6)
  }

  lemma PrepareSteady(c: Crypto, a: Api, p2: byte, data: seq<byte>)
    requires Steady(a)
    ensures var s := PrepareSigning(c, a, p2, data);
            s.out.Throw? || (s.out == Reply([], SW_OK) && Steady(s.api)
                             && RemainderAsRequested(p2, data, s.api.essence)
                             && SameAccount(a, s.api)
                             && a.dataType == EMPTY && s.api.dataType == VALIDATED_ESSENCE && !s.api.flowLocked
                             && !s.api.essence.blindsigning && s.api.buffer == a.buffer)
  {
    hide EssenceAccepted, EssenceParsed, U16, U32, Table;
    var s := PrepareSigning(c, a, p2, data);
    if s.out.Reply? {
      var b := Announced(a, p2, data);
      var l :| EssenceAccepted(c, b, l) && s.api == EssenceParsed(c, b, l).(dataType := VALIDATED_ESSENCE);
      ParsedParts(c, b, l);
      ParsedTable(c, b, l);
      assert s.api.path[2] == s.api.path[..3][2] && a.path[2] == a.path[..3][2];
    }
  }

  lemma ParsedTable(c: Crypto, b: Api, l: Layout)
    requires EssenceAccepted(c, b, l)
    ensures var r := EssenceParsed(c, b, l).(dataType := VALIDATED_ESSENCE);
            TableInBuffer(r) && TableWellFormed(r)
  {
    hide HasLayout, RemainderVerified, StaysInWallet, EntryOk, EntryWellFormed, EntriesAt;
    LayoutBounds(b.buffer, l);
    EntriesWellFormed(b.buffer, l.essenceLength, l.inputs);
  }

  lemma PrepareBlindSteady(a: Api)
    requires Steady(a)
    ensures var s := PrepareBlindsigning(a);
            s.out.Throw? || (s.out == Reply([], SW_OK) && Steady(s.api) && SameAccount(a, s.api)
                             && a.dataType == EMPTY && s.api.dataType == VALIDATED_ESSENCE && !s.api.flowLocked
                             && s.api.essence.blindsigning && s.api.buffer == a.buffer)
  {
    hide U16, EntryOk, EntryWellFormed, EntriesAt;
    var s := PrepareBlindsigning(a);
    if s.out.Reply? {
      EntriesWellFormed(a.buffer, 34, U16(a.buffer, 32));
    }
  }

  lemma GenerateSteady(c: Crypto, a: Api, p1: byte, data: seq<byte>)
    requires Steady(a)
    ensures var s := GenerateAddress(c, a, p1, data);
            s.out.Throw? || (Steady(s.api) && a.dataType == EMPTY && SameAccount(a, s.api)
              && if p1 == 0 then s.out == Reply([], SW_OK) && s.api.dataType == GENERATED_ADDRESSES
                 else s.out == Async(NewAddress) && s.api.dataType == LOCKED)
  {
    hide AllDerived, Filled, U32, BatchAllowed, TableWellFormed;
    var s := GenerateAddress(c, a, p1, data);
    if !s.out.Throw? {
      assert s.api.path[..3] == a.path[..3];
      assert a.path[2] == a.path[..3][2] && s.api.path[2] == s.api.path[..3][2];
    }
  }

  lemma ConfirmSteady(a: Api)
    requires Steady(a)
    ensures var s := UserConfirmEssence(a);
            s.out.Throw? || (Steady(s.api) && a.dataType == s.api.dataType == VALIDATED_ESSENCE
              && !a.flowLocked && s.api.flowLocked && s.api.buffer == a.buffer && s.api.essence == a.essence
              && s.api.path[..3] == a.path[..3] && s.api.appMode == a.appMode
              && s.out == Async(if a.essence.blindsigning then ConfirmBlind else ConfirmTransaction))
  {
    hide Steady, GuardFires;
    var s := UserConfirmEssence(a);
    if !s.out.Throw? {
      PathParts(a.path, a.essence.remainder);
      SteadyPathStep(a, s.api);
    }
  }

  lemma SignSteady(c: Crypto, a: Api, p1: byte)
    requires Steady(a) && Sound(a)
    ensures var s := SignSingle(c, a, p1);
            s.out.Throw? || (s.out.Reply? && Steady(s.api) && a.dataType == USER_CONFIRMED_ESSENCE
              && s.api == a.(path := s.api.path) && s.api.path[..3] == a.path[..3])
  {
    hide Steady, GuardFires, UnlockFor, Table, TableWellFormed;
    var s := SignSingle(c, a, p1);
    if !s.out.Throw? {
      PathParts(a.path, Table(a)[p1]);
      SteadyPathStep(a, s.api);
    }
  }

  lemma WriteSteady(a: Api, p1: byte, data: seq<byte>)
    requires Steady(a)
    ensures var s := WriteDataBlock(a, p1, data);
            s.out.Throw? || (s.out == Reply([], SW_OK) && Steady(s.api) && a.dataType == s.api.dataType == EMPTY
                             && SameAccount(a, s.api))
  {
    hide TableWellFormed;
  }

  lemma SetAccountSteady(a: Api, p1: byte, data: seq<byte>)
    ensures var s := SetAccount(a, p1, data);
            s.out.Throw? || (s.out == Reply([], SW_OK) && Steady(s.api)
              && s.api == Fresh(p1, s.api.path[BIP32_ACCOUNT_INDEX]))
  {
    hide Steady, U32;
    if |data| == 4 && Hardened(U32(data, 0)) && ModeSupported(p1) {
      FreshSteady(p1, U32(data, 0));
    }
  }

  /** What a command that does not throw does to the context: the transition table of
      docs/specification.md, section "API Commands". */
  predicate Transition(a: Api, ins: byte, a': Api, out: Outcome) {
    && (!Initializes(ins) ==> SameAccount(a, a'))
    && if Initializes(ins) then out == Reply([], SW_OK) && a' == Fresh(a'.appMode, a'.path[BIP32_ACCOUNT_INDEX])
    else if ins == INS_WRITE_DATA_BLOCK then
      out == Reply([], SW_OK) && a.dataType == a'.dataType == EMPTY
    else if ins == INS_PREPARE_SIGNING || ins == INS_PREPARE_BLINDSIGNING then
      out.Reply? && a.dataType == EMPTY && a'.dataType == VALIDATED_ESSENCE && a'.buffer == a.buffer
      && !a'.flowLocked && (a'.essence.blindsigning <==> ins == INS_PREPARE_BLINDSIGNING)
    else if ins == INS_GENERATE_ADDRESS then
      a.dataType == EMPTY && ((out.Reply? && a'.dataType == GENERATED_ADDRESSES)
                              || (out == Async(NewAddress) && a'.dataType == LOCKED))
    else if ins == INS_USER_CONFIRM_ESSENCE then
      a.dataType == a'.dataType == VALIDATED_ESSENCE && !a.flowLocked && a'.flowLocked
      && a'.buffer == a.buffer && a'.essence == a.essence
      && out == Async(if a.essence.blindsigning then ConfirmBlind else ConfirmTransaction)
    else if ins == INS_SIGN_SINGLE then
      out.Reply? && a.dataType == USER_CONFIRMED_ESSENCE && a' == a.(path := a'.path)
    else a' == a && (out.Reply? || out.NoReply?)
  }

  lemma FreshKnowsItself(mode: byte, account: u32)
    ensures Fresh(mode, account).appMode == mode && Fresh(mode, account).path[BIP32_ACCOUNT_INDEX] == account
    ensures Fresh(mode, account).dataType == EMPTY
    ensures Fresh(mode, account).buffer == Zeros(API_BUFFER_SIZE_BYTES)
  {}

  /** The commands behind the filter. */
  lemma DispatchOf(c: Crypto, a: Api, cmd: Command, locked: bool, blindEnabled: bool)
    requires Sound(a)
    ensures var s := Dispatch(c, a, cmd, locked, blindEnabled);
            if locked && !AllowedWhenLocked(cmd.ins) then s == Thrown(a, SW_DEVICE_IS_LOCKED)
            else
              (cmd.ins == INS_SET_ACCOUNT ==> s == SetAccount(a, cmd.p1, cmd.data))
              && (cmd.ins == INS_WRITE_DATA_BLOCK ==> s == WriteDataBlock(a, cmd.p1, cmd.data))
              && (cmd.ins == INS_PREPARE_SIGNING ==> s == PrepareSigning(c, a, cmd.p2, cmd.data))
              && (cmd.ins == INS_PREPARE_BLINDSIGNING ==> s == PrepareBlindsigning(a))
              && (cmd.ins == INS_GENERATE_ADDRESS ==> s == GenerateAddress(c, a, cmd.p1, cmd.data))
              && (cmd.ins == INS_USER_CONFIRM_ESSENCE ==> s == UserConfirmEssence(a))
              && (cmd.ins == INS_SIGN_SINGLE ==> s == SignSingle(c, a, cmd.p1))
              && (cmd.ins == INS_READ_DATA_BLOCK ==> s == ReadDataBlock(a, cmd.p1))
              && (cmd.ins == INS_CLEAR_DATA_BUFFER ==> s == ClearData(a))
              && (cmd.ins == INS_RESET ==> s == Done(Fresh(APP_MODE_INIT, 0)))
  {
    hide Sound, SetAccount, WriteDataBlock, PrepareSigning, PrepareBlindsigning, GenerateAddress, UserConfirmEssence,
      SignSingle, ReadDataBlock, ClearData, GetAppConfig, GetDataBufferState, Fresh;
  }

  /** Every command that does not throw keeps this invariant and makes its transition,
      in every state that any events can lead to. */
  lemma CommandSteady(c: Crypto, a: Api, cmd: Command, locked: bool, blindEnabled: bool)
    requires Steady(a) && Sound(a)
    ensures var s := Dispatch(c, a, cmd, locked, blindEnabled);
            s.out.Throw? || (Steady(s.api) && Transition(a, cmd.ins, s.api, s.out))
  {
    hide ApiInv, Steady, Sound, WriteDataBlock, PrepareSigning, PrepareBlindsigning, GenerateAddress, SignSingle,
      SetAccount, UserConfirmEssence, ClearData, Fresh;
    InitModeSupported();
    FreshSteady(APP_MODE_INIT, 0);
    FreshKnowsItself(APP_MODE_INIT, 0);
    FreshKnowsItself(a.appMode, a.path[BIP32_ACCOUNT_INDEX]);
    SetAccountSteady(a, cmd.p1, cmd.data);
    WriteSteady(a, cmd.p1, cmd.data);
    PrepareSteady(c, a, cmd.p2, cmd.data);
    PrepareBlindSteady(a);
    GenerateSteady(c, a, cmd.p1, cmd.data);
    ClearDataIsFresh(c, a);
    InvSteady(c, ClearData(a).api);
    ConfirmSteady(a);
    SignSteady(c, a, cmd.p1);
    if cmd.ins == INS_SET_ACCOUNT && !SetAccount(a, cmd.p1, cmd.data).out.Throw? {
      FreshKnowsItself(cmd.p1, SetAccount(a, cmd.p1, cmd.data).api.path[BIP32_ACCOUNT_INDEX]);
    }
  }

  lemma InvSteady(c: Crypto, a: Api)
    requires ApiInv(c, a)
    ensures Steady(a)
  {}

  /** Every step on any event keeps the invariant of all events. */
  lemma StepKeepsSteady(c: Crypto, d: Device, ev: Event)
    requires Steady(d.api)
    ensures Sound(d.api) && Steady(After(c, d, ev).0.api)
  {
    hide Steady, ApiInv, Fresh, Sound, Dispatch, ClearData;
    SteadySound(d.api);
    InitModeSupported();
    FreshSteady(APP_MODE_INIT, 0);
    match ev
    case Apdu(bytes, locked) =>
      if |bytes| >= HEADER_SIZE && bytes[0] == CLA && |bytes| == bytes[4] + HEADER_SIZE {
        CommandSteady(c, d.api, Command(bytes[1], bytes[2], bytes[3], bytes[5..]), locked, d.blindEnabled);
      }
    case Accept =>
      var t := if d.flow.Flow? && d.flow.kind == NewAddress then GENERATED_ADDRESSES else USER_CONFIRMED_ESSENCE;
      SteadyPathStep(d.api, d.api.(dataType := t));
    case _ =>
      ClearDataIsFresh(c, d.api);
      InvSteady(c, ClearData(d.api).api);
  }

  // ------------------------------------------------ the invariant of fair events

  lemma InvSound(c: Crypto, a: Api)
    requires ApiInv(c, a)
    ensures Sound(a)
  {
    hide Steady;
    SteadySound(a);
  }

  lemma FlowOfFresh(d: Device, mode: byte, account: u32)
    requires FlowInv(d)
    ensures FlowInv(Reinitialized(d, Fresh(mode, account)))
    ensures FlowInv(Reinitialized(d, Fresh(mode, account)).(flow := NoFlow))
  {}

  lemma CatchKeepsInv(c: Crypto, d: Device, e: u16)
    requires Inv(c, d)
    ensures Inv(c, Catch(d, e).0)
  {
    hide ApiInv, FlowInv, Fresh;
    InitModeSupported();
    FreshInv(c, APP_MODE_INIT, 0);
    FlowOfFresh(d, APP_MODE_INIT, 0);
  }

  lemma CancelKeepsInv(c: Crypto, d: Device, sw: u16)
    requires Steady(d.api)
    ensures Inv(c, Cancel(d, sw).0)
    ensures Cancel(d, sw).0.flow == NoFlow && Cancel(d, sw).0.api.dataType == EMPTY
  {
    hide ApiInv;
    ClearDataIsFresh(c, d.api);
  }

  // -------------------------------------------------------------- the commands

  /** Agreement and addresses depend on the context only through these parts. */
  lemma SameParts(c: Crypto, a: Api, b: Api)
    requires a.buffer == b.buffer && a.appMode == b.appMode && a.path[..3] == b.path[..3]
    requires a.dataLength == b.dataLength
    ensures a.essence == b.essence ==> (Agrees(c, a) <==> Agrees(c, b))
    ensures HoldsAddresses(c, a) <==> HoldsAddresses(c, b)
    ensures Base(a).path == Base(b).path
  {
    hide EssenceAccepted, EssenceParsed, AllDerived, BlindLayout, BatchAllowed;
    assert a.path[2] == a.path[..3][2] && b.path[2] == b.path[..3][2];
    assert RootPath(a) == RootPath(b);
    if a.essence == b.essence {
      assert Base(a) == Base(b);
      assert forall l :: AgreesAt(c, a, l) <==> AgreesAt(c, b, l);
    }
    forall e, n
      ensures HoldsBatch(c, a, e, n) <==> HoldsBatch(c, b, e, n)
    {
    }
  }

  lemma PrepareKeepsInv(c: Crypto, a: Api, p2: byte, data: seq<byte>)
    requires ApiInv(c, a)
    ensures var s := PrepareSigning(c, a, p2, data);
            s.out.Throw? || (s.out == Reply([], SW_OK) && ApiInv(c, s.api)
                             && a.dataType == EMPTY && s.api.dataType == VALIDATED_ESSENCE && !s.api.flowLocked
                             && !s.api.essence.blindsigning && s.api.buffer == a.buffer)
  {
    hide EssenceAccepted, EssenceParsed, HoldsAddresses, AgreesBlind, U16, U32, TableInBuffer, TableWellFormed;
    var s := PrepareSigning(c, a, p2, data);
    PrepareSteady(c, a, p2, data);
    if s.out.Reply? {
      var b := Announced(a, p2, data);
      var l :| EssenceAccepted(c, b, l) && s.api == EssenceParsed(c, b, l).(dataType := VALIDATED_ESSENCE);
      ParsedParts(c, b, l);
      assert s.api.path[2] == s.api.path[..3][2] && a.path[2] == a.path[..3][2];
      assert Base(s.api) == b;
      assert AgreesAt(c, s.api, l);
    }
  }

  lemma ParsedParts(c: Crypto, b: Api, l: Layout)
    requires EssenceAccepted(c, b, l)
    ensures var r := EssenceParsed(c, b, l);
            r == b.(path := r.path, dataLength := l.dataLength, essence := r.essence)
            && r.path[..3] == b.path[..3] && r.essence.hasRemainder == b.essence.hasRemainder
            && r.essence.remainderIndex == b.essence.remainderIndex && r.essence.remainder == b.essence.remainder
            && r.essence.blindsigning == b.essence.blindsigning
  {
    hide EssenceAccepted, StaysInWallet, HasLayout;
  }

  lemma PrepareBlindKeepsInv(c: Crypto, a: Api)
    requires ApiInv(c, a)
    ensures var s := PrepareBlindsigning(a);
            s.out.Throw? || (s.out == Reply([], SW_OK) && ApiInv(c, s.api)
                             && a.dataType == EMPTY && s.api.dataType == VALIDATED_ESSENCE && !s.api.flowLocked
                             && s.api.essence.blindsigning && s.api.buffer == a.buffer)
  {
    hide HoldsAddresses, U16, BlindLayout, AgreesAt, TableInBuffer, TableWellFormed;
    PrepareBlindSteady(a);
  }

  lemma GenerateKeepsInv(c: Crypto, a: Api, p1: byte, data: seq<byte>)
    requires ApiInv(c, a)
    ensures var s := GenerateAddress(c, a, p1, data);
            s.out.Throw? || (ApiInv(c, s.api) && a.dataType == EMPTY && |data| == 12
              && HoldsBatch(c, s.api, Entry(U32(data, 0), U32(data, 4)), U32(data, 8))
              && (p1 != 0 ==> U32(data, 8) == 1
                              && s.api.path == WithEntry(a.path, Entry(U32(data, 0), U32(data, 4))))
              && s.api.path[..3] == a.path[..3] && s.api.appMode == a.appMode
              && if p1 == 0 then s.out == Reply([], SW_OK) && s.api.dataType == GENERATED_ADDRESSES
                 else s.out == Async(NewAddress) && s.api.dataType == LOCKED)
  {
    hide Agrees, AllDerived, Filled, U32, TableInBuffer, TableWellFormed;
    var s := GenerateAddress(c, a, p1, data);
    GenerateSteady(c, a, p1, data);
    if !s.out.Throw? {
      var b, count := Entry(U32(data, 0), U32(data, 4)), U32(data, 8);
      assert a.path[2] == a.path[..3][2];
      assert RootPath(s.api) == a.path;
      assert HoldsBatch(c, s.api, b, count);
    }
  }

  lemma PathStepKeepsInv(c: Crypto, a: Api, b: Entry, locked: bool)
    requires ApiInv(c, a) && (a.flowLocked ==> locked)
    requires a.dataType == VALIDATED_ESSENCE || a.dataType == USER_CONFIRMED_ESSENCE
    ensures ApiInv(c, a.(flowLocked := locked)) && ApiInv(c, a.(flowLocked := locked, path := WithEntry(a.path, b)))
  {
    hide Agrees, HoldsAddresses, Steady;
    PathParts(a.path, b);
    SteadyPathStep(a, a.(flowLocked := locked));
    SteadyPathStep(a, a.(flowLocked := locked, path := WithEntry(a.path, b)));
    SameParts(c, a, a.(flowLocked := locked));
    SameParts(c, a, a.(flowLocked := locked, path := WithEntry(a.path, b)));
    assert WithEntry(a.path, b)[2] == a.path[2];
  }

  lemma ConfirmKeepsInv(c: Crypto, a: Api)
    requires ApiInv(c, a)
    ensures var s := UserConfirmEssence(a);
            s.out.Throw? || (ApiInv(c, s.api) && a.dataType == s.api.dataType == VALIDATED_ESSENCE
              && !a.flowLocked && s.api.flowLocked && s.api.buffer == a.buffer && s.api.essence == a.essence
              && s.api.path[..3] == a.path[..3] && s.api.appMode == a.appMode
              && s.out == Async(if a.essence.blindsigning then ConfirmBlind else ConfirmTransaction))
  {
    hide ApiInv, GuardFires;
    if a.dataType == VALIDATED_ESSENCE {
      PathStepKeepsInv(c, a, a.essence.remainder, true);
    }
  }

  lemma SignKeepsInv(c: Crypto, a: Api, p1: byte)
    requires ApiInv(c, a) && Sound(a)
    ensures var s := SignSingle(c, a, p1);
            s.out.Throw? || (s.out.Reply? && ApiInv(c, s.api) && a.dataType == USER_CONFIRMED_ESSENCE
              && s.api == a.(path := s.api.path) && s.api.path[..3] == a.path[..3])
  {
    hide ApiInv, GuardFires, UnlockFor, Table, TableWellFormed;
    if a.dataType == USER_CONFIRMED_ESSENCE && !GuardFires(a) && p1 < a.essence.inputsCount {
      LockedWhenConfirmed(c, a);
      PathStepKeepsInv(c, a, Table(a)[p1], true);
      assert a.(flowLocked := true) == a;
      assert PathAfter(a, p1)[..3] == a.path[..3];
    }
  }

  lemma LockedWhenConfirmed(c: Crypto, a: Api)
    requires ApiInv(c, a) && a.dataType == USER_CONFIRMED_ESSENCE
    ensures a.flowLocked
  {
    hide Agrees;
  }

  lemma WriteKeepsInv(c: Crypto, a: Api, p1: byte, data: seq<byte>)
    requires ApiInv(c, a)
    ensures var s := WriteDataBlock(a, p1, data);
            s.out.Throw? || (s.out == Reply([], SW_OK) && ApiInv(c, s.api)
              && a.dataType == s.api.dataType == EMPTY)
  {
    hide Agrees, HoldsAddresses, Fresh;
  }

  lemma SetAccountKeepsInv(c: Crypto, a: Api, p1: byte, data: seq<byte>)
    ensures var s := SetAccount(a, p1, data);
            s.out.Throw? || (s.out == Reply([], SW_OK) && ApiInv(c, s.api)
              && s.api == Fresh(p1, s.api.path[BIP32_ACCOUNT_INDEX]))
  {
    hide ApiInv, U32;
    if |data| == 4 && Hardened(U32(data, 0)) && ModeSupported(p1) {
      FreshInv(c, p1, U32(data, 0));
    }
  }

  lemma CommandKeepsInv(c: Crypto, a: Api, cmd: Command, locked: bool, blindEnabled: bool)
    requires ApiInv(c, a) && Sound(a)
    ensures var s := Dispatch(c, a, cmd, locked, blindEnabled);
            s.out.Throw? || (ApiInv(c, s.api) && Transition(a, cmd.ins, s.api, s.out))
  {
    hide ApiInv, Sound, WriteDataBlock, PrepareSigning, PrepareBlindsigning, GenerateAddress, SignSingle, SetAccount,
      UserConfirmEssence, ClearData, Fresh, Transition;
    InvSteady(c, a);
    CommandSteady(c, a, cmd, locked, blindEnabled);
    InitModeSupported();
    FreshInv(c, APP_MODE_INIT, 0);
    SetAccountKeepsInv(c, a, cmd.p1, cmd.data);
    WriteKeepsInv(c, a, cmd.p1, cmd.data);
    PrepareKeepsInv(c, a, cmd.p2, cmd.data);
    PrepareBlindKeepsInv(c, a);
    GenerateKeepsInv(c, a, cmd.p1, cmd.data);
    ClearDataIsFresh(c, a);
    ConfirmKeepsInv(c, a);
    SignKeepsInv(c, a, cmd.p1);
  }

  /** Codes that commands throw; only the filter throws the locked code. */
  lemma CommandCodes(c: Crypto, a: Api, cmd: Command, locked: bool, blindEnabled: bool)
    requires Sound(a)
    ensures var s := Dispatch(c, a, cmd, locked, blindEnabled);
      (s.out.Reply? ==> s.out.sw == SW_OK)
      && (s.out.Throw? ==> s.out.code / 0x1000 == 6 && s.out.code != SW_CLA_NOT_SUPPORTED)
      && (s.out == Throw(SW_DEVICE_IS_LOCKED) <==> locked && !AllowedWhenLocked(cmd.ins))
  {
    hide EssenceAccepted, BlindLayout, AllDerived, UnlockFor, GuardFires, TableInBuffer, TableWellFormed, U16, U32,
      Fresh, ModeSupported;
  }

  lemma ExecuteKeepsInv(c: Crypto, d: Device, cmd: Command, locked: bool)
    requires Inv(c, d) && Sound(d.api)
    ensures Inv(c, Execute(c, d, cmd, locked).0)
  {
    hide ApiInv, Dispatch, Fresh;
    var s := Dispatch(c, d.api, cmd, locked, d.blindEnabled);
    CommandKeepsInv(c, d.api, cmd, locked, d.blindEnabled);
    if s.out.Throw? {
      CatchKeepsInv(c, d, s.out.code);
    } else if Initializes(cmd.ins) {
      FlowOfFresh(d, s.api.appMode, s.api.path[BIP32_ACCOUNT_INDEX]);
    }
  }

  lemma AcceptKeepsInv(c: Crypto, d: Device)
    requires Inv(c, d) && Fair(d, Accept)
    ensures Inv(c, HandleAccept(d).0)
  {
    hide Agrees, HoldsAddresses, Steady;
    var t := if d.flow.Flow? && d.flow.kind == NewAddress then GENERATED_ADDRESSES else USER_CONFIRMED_ESSENCE;
    SteadyPathStep(d.api, d.api.(dataType := t));
    SameParts(c, d.api, d.api.(dataType := t));
  }

  /** Every fair step keeps the invariant of fair events. */
  lemma StepKeepsInv(c: Crypto, d: Device, ev: Event)
    requires Inv(c, d) && Fair(d, ev)
    ensures Sound(d.api) && Inv(c, After(c, d, ev).0)
  {
    hide ApiInv, Fresh, Sound;
    InvSound(c, d.api);
    InvSteady(c, d.api);
    match ev
    case Apdu(bytes, locked) =>
      InitModeSupported();
      FreshInv(c, APP_MODE_INIT, 0);
      FreshKnowsItself(APP_MODE_INIT, 0);
      CatchKeepsInv(c, d, SW_INCORRECT_LENGTH);
      CatchKeepsInv(c, d, SW_CLA_NOT_SUPPORTED);
      CatchKeepsInv(c, d, SW_INCORRECT_LENGTH_P3);
      if |bytes| >= HEADER_SIZE && bytes[0] == CLA && |bytes| == bytes[4] + HEADER_SIZE {
        ExecuteKeepsInv(c, d, Command(bytes[1], bytes[2], bytes[3], bytes[5..]), locked);
      }
    case Accept => AcceptKeepsInv(c, d);
    case Reject => CancelKeepsInv(c, d, SW_DENIED_BY_USER);
    case Tick =>
      var t := d.(timer := (d.timer + 1) % 0x1_0000_0000);
      CancelKeepsInv(c, t, SW_COMMAND_TIMEOUT);
      if d.flow.Flow? {
        TickElapsed(d.timer, d.flow.start);
      }
    case ToggleBlindsigning =>
    case UiException(e) =>
      CatchKeepsInv(c, d, e);
      BootInv(c, d.blindEnabled, d.epoch + 1);
  }

  lemma TickElapsed(timer: u32, start: u32)
    ensures Elapsed(timer, start) < FLOW_TIMEOUT ==>
      Elapsed((timer + 1) % 0x1_0000_0000, start) == Elapsed(timer, start) + 1
  {}

  lemma BootInv(c: Crypto, blindEnabled: bool, epoch: nat)
    ensures Inv(c, Boot(blindEnabled, epoch))
  {
    hide ApiInv;
    InitModeSupported();
    FreshInv(c, APP_MODE_INIT, 0);
  }
}
