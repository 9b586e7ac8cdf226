/** The device as a state machine: the context, the pending flow, the UI timer and
    the main loop of src/main.c with its exception handling. */
module Machine {
  import opened Bytes
  import opened Config
  import opened Essence
  import opened Address
  import opened ApiState
  import opened Signing
  import opened ApiSpec

  const CLA: byte := 0x7b
  const HEADER_SIZE := 5
  const FLOW_TIMEOUT := 1000

  /** The code of the SDK that the main loop passes on; `main` then starts over. */
  const EXCEPTION_IO_RESET: u16 := 0x10

  /** A started flow. `acceptOffered` says whether it has an accept step; `epoch`
      tells in which initialization period it was started. */
  datatype Flow = NoFlow | Flow(kind: FlowKind, start: u32, acceptOffered: bool, epoch: nat)

  /** `epoch` counts the initializations of the context. */
  datatype Device = Device(api: Api, flow: Flow, timer: u32, blindEnabled: bool, epoch: nat)

  datatype Response = Silence | Response(data: seq<byte>, sw: u16)

  datatype Event =
    | Apdu(bytes: seq<byte>, locked: bool)
    | Accept
    | Reject
    | Tick
    | ToggleBlindsigning
    | UiException(e: u16)

  /** The device after `IOTA_main` has started. */
  function Boot(blindEnabled: bool, epoch: nat): Device {
    Device(Fresh(APP_MODE_INIT, 0), NoFlow, 0, blindEnabled, epoch)
  }

  // ------------------------------------------------------------------ main loop

  /** `0xa0 | low` for a byte. */
  function OrA0(low: byte): byte {
    low + (if low / 0x80 % 2 == 0 then 0x80 else 0) + if low / 0x20 % 2 == 0 then 0x20 else 0
  }

  lemma OrA0IsOr(low: bv8)
    ensures OrA0(low as int) == (low | 0xa0) as int
  {}

  /** The status word sent for a thrown code. */
  function StatusWord(e: u16): u16 {
    if e / 0x1000 == 6 then e else 0x6900 + OrA0(e % 0x100)
  }

  predicate KeepsState(sw: u16) { sw == SW_DEVICE_IS_LOCKED || sw == SW_CLA_NOT_SUPPORTED }

  function Reinitialized(d: Device, a: Api): Device { d.(api := a, epoch := d.epoch + 1) }

  /** The handler for every exception but the I/O reset. */
  function Catch(d: Device, e: u16): (Device, Response) {
    var sw := StatusWord(e);
    (if KeepsState(sw) then d else Reinitialized(d, Fresh(APP_MODE_INIT, 0)), Response([], sw))
  }

  predicate Initializes(ins: byte) {
    ins == INS_SET_ACCOUNT || ins == INS_RESET || ins == INS_CLEAR_DATA_BUFFER
  }

  ghost function Execute(c: Crypto, d: Device, cmd: Command, locked: bool): (Device, Response)
    requires Sound(d.api)
  {
    var s := Dispatch(c, d.api, cmd, locked, d.blindEnabled);
    match s.out
    case Throw(code) => Catch(d, code)
    case NoReply => (d.(api := s.api), Silence)
    case Reply(data, sw) =>
      (if Initializes(cmd.ins) then Reinitialized(d, s.api) else d.(api := s.api), Response(data, sw))
    case Async(kind) =>
      (d.(api := s.api, flow := Flow(kind, d.timer, kind == ConfirmBlind ==> d.blindEnabled, d.epoch)), Silence)
  }

  ghost function HandleApdu(c: Crypto, d: Device, bytes: seq<byte>, locked: bool): (Device, Response)
    requires Sound(d.api)
  {
    if |bytes| == 0 then (Boot(d.blindEnabled, d.epoch + 1), Silence)
    else if |bytes| < HEADER_SIZE then Catch(d, SW_INCORRECT_LENGTH)
    else if bytes[0] != CLA then Catch(d, SW_CLA_NOT_SUPPORTED)
    else if |bytes| != bytes[4] + HEADER_SIZE then Catch(d, SW_INCORRECT_LENGTH_P3)
    else Execute(c, d, Command(bytes[1], bytes[2], bytes[3], bytes[5..]), locked)
  }

  // ------------------------------------------------------------- flow callbacks

  /** Reject and timeout: wipe the data, answer, leave the flow. */
  function Cancel(d: Device, sw: u16): (Device, Response) {
    var s := ClearData(d.api);
    match s.out
    case Throw(code) => Catch(d, code)
    case _ => (Reinitialized(d, s.api).(flow := NoFlow), Response([], sw))
  }

  function HandleAccept(d: Device): (Device, Response) {
    if d.flow.Flow? && d.flow.acceptOffered then
      var t := if d.flow.kind == NewAddress then GENERATED_ADDRESSES else USER_CONFIRMED_ESSENCE;
      (d.(api := d.api.(dataType := t), flow := NoFlow), Response([], SW_OK))
    else (d, Silence)
  }

  /** Only the two confirmation flows have a reject step. */
  function HandleReject(d: Device): (Device, Response) {
    if d.flow.Flow? && d.flow.kind != NewAddress then Cancel(d, SW_DENIED_BY_USER) else (d, Silence)
  }

  function Elapsed(timer: u32, start: u32): u32 { (timer - start) % 0x1_0000_0000 }

  function HandleTick(d: Device): (Device, Response) {
    var t := d.(timer := (d.timer + 1) % 0x1_0000_0000);
    if d.flow.Flow? && Elapsed(t.timer, d.flow.start) >= FLOW_TIMEOUT then Cancel(t, SW_COMMAND_TIMEOUT)
    else (t, Silence)
  }

  ghost function After(c: Crypto, d: Device, ev: Event): (Device, Response)
    requires Sound(d.api)
  {
    match ev
    case Apdu(bytes, locked) => HandleApdu(c, d, bytes, locked)
    case Accept => HandleAccept(d)
    case Reject => HandleReject(d)
    case Tick => HandleTick(d)
    case ToggleBlindsigning => (d.(blindEnabled := !d.blindEnabled), Silence)
    case UiException(e) =>
      if e == EXCEPTION_IO_RESET then (Boot(d.blindEnabled, d.epoch + 1), Silence) else Catch(d, e)
  }

  // -------------------------------------------------------------- the invariant

  function RootPath(a: Api): path { Fresh(a.appMode, a.path[BIP32_ACCOUNT_INDEX]).path }

  /** The first three path entries are a function of mode and account. */
  predicate Grounded(a: Api) {
    ModeSupported(a.appMode) && a.protocol == Stardust && a.coin == CoinOf()
    && a.path[..3] == RootPath(a)[..3] && (AccountSelected(a) || a.path[BIP32_ACCOUNT_INDEX] == 0)
  }

  /** The context as the validator saw it. */
  function Base(a: Api): Api {
    Fresh(a.appMode, a.path[BIP32_ACCOUNT_INDEX]).(
      buffer := a.buffer,
      essence := NO_ESSENCE.(hasRemainder := a.essence.hasRemainder,
                             remainderIndex := a.essence.remainderIndex, remainder := a.essence.remainder))
  }

  /** The summary is what parsing the buffer again would give. */
  ghost predicate AgreesAt(c: Crypto, a: Api, l: Layout) {
    EssenceAccepted(c, Base(a), l)
    && a.essence == EssenceParsed(c, Base(a), l).essence && a.dataLength == l.dataLength
  }

  predicate AgreesBlind(a: Api) {
    var n := U16(a.buffer, 32);
    BlindLayout(a.buffer, n)
    && a.essence == NO_ESSENCE.(blindsigning := true, inputsCount := n, length := 32, entries := Some(34),
                                hash := a.buffer[..32])
    && a.dataLength == 34 + ENTRY_SIZE * n
  }

  ghost predicate Agrees(c: Crypto, a: Api) {
    if a.essence.blindsigning then AgreesBlind(a) else exists l :: AgreesAt(c, a, l)
  }

  /** The buffer holds `count` derived addresses and zeros. */
  predicate HoldsBatch(c: Crypto, a: Api, b: Entry, count: u32) {
    BatchAllowed(b, count, false) && AllDerived(c, RootPath(a), b, count)
    && a.buffer == Filled(c, RootPath(a), b, count) && a.dataLength == count * ADDRESS_WITH_TYPE_SIZE_BYTES
  }

  ghost predicate HoldsAddresses(c: Crypto, a: Api) { exists b, count :: HoldsBatch(c, a, b, count) }

  /** What holds whatever host and user do: the path is grounded, an empty context is
      unlocked and without inputs, and where there are inputs the account is selected
      and their hardened table lies inside the buffer. */
  predicate Steady(a: Api) {
    && Grounded(a)
    && (a.dataType == EMPTY ==> a.essence.inputsCount == 0 && !a.flowLocked)
    && (a.essence.inputsCount > 0 ==> AccountSelected(a) && TableInBuffer(a) && TableWellFormed(a))
  }

  ghost predicate ApiInv(c: Crypto, a: Api) {
    && Steady(a)
    && (a.dataType == EMPTY ==> a == Fresh(a.appMode, a.path[BIP32_ACCOUNT_INDEX]).(buffer := a.buffer))
    && (a.dataType == GENERATED_ADDRESSES || a.dataType == LOCKED ==> AccountSelected(a) && HoldsAddresses(c, a))
    && (a.dataType == VALIDATED_ESSENCE || a.dataType == USER_CONFIRMED_ESSENCE ==>
          AccountSelected(a) && Agrees(c, a))
    && a.dataType != SIGNATURES
    && (a.dataType == LOCKED || a.dataType == USER_CONFIRMED_ESSENCE ==> a.flowLocked)
  }

  /** The flow of the current epoch that the context is waiting for. */
  predicate Awaiting(d: Device, kind: FlowKind) {
    d.flow.Flow? && d.flow.epoch == d.epoch && d.flow.kind == kind
  }

  predicate FlowInv(d: Device) {
    && (d.api.dataType == LOCKED <==> Awaiting(d, NewAddress))
    && (d.api.dataType == VALIDATED_ESSENCE && d.api.flowLocked && d.api.essence.blindsigning
        <==> Awaiting(d, ConfirmBlind))
    && (d.api.dataType == VALIDATED_ESSENCE && d.api.flowLocked && !d.api.essence.blindsigning
        <==> Awaiting(d, ConfirmTransaction))
    && (d.flow.Flow? ==> d.flow.epoch <= d.epoch && Elapsed(d.timer, d.flow.start) < FLOW_TIMEOUT)
    && (d.flow.Flow? && d.flow.kind != ConfirmBlind ==> d.flow.acceptOffered)
  }

  ghost predicate Inv(c: Crypto, d: Device) { ApiInv(c, d.api) && FlowInv(d) }

  /** The user accepts a flow only while the context has not been initialized since the
      flow was started. Nothing is required of any other event. Module HalfDuplex says
      which runs meet this. */
  predicate Fair(d: Device, ev: Event) {
    ev == Accept && d.flow.Flow? ==> d.flow.epoch == d.epoch
  }
}
