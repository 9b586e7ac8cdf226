/** What each command of src/api.c does to the context and what it answers. Buffer
    contents are described by the grammar of module Essence, by the addresses derived
    and by the unlock rules, not by cursors and loops. */
module ApiSpec {
  import opened Bytes
  import opened Config
  import opened Essence
  import opened Address
  import opened ApiState
  import opened Signing

  datatype FlowKind = NewAddress | ConfirmTransaction | ConfirmBlind

  /** `Async` is `IO_ASYNCH_REPLY` after starting a flow, `Throw` a thrown code. */
  datatype Outcome = Reply(data: seq<byte>, sw: u16) | NoReply | Async(kind: FlowKind) | Throw(code: u16)

  /** After `Throw` the context is whatever it was; the main loop replaces it. */
  datatype Step = Step(out: Outcome, api: Api)

  function Done(a: Api): Step { Step(Reply([], SW_OK), a) }

  function Thrown(a: Api, code: u16): Step { Step(Throw(code), a) }

  function Initialize(a: Api, mode: byte, account: u32): Step {
    if ModeSupported(mode) then Done(Fresh(mode, account)) else Thrown(a, SW_ACCOUNT_NOT_VALID)
  }

  function ClearData(a: Api): Step { Initialize(a, a.appMode, a.path[BIP32_ACCOUNT_INDEX]) }

  function SetAccount(a: Api, p1: byte, data: seq<byte>): Step {
    if |data| != 4 then Thrown(a, SW_INCORRECT_LENGTH)
    else if p1 % 0x80 > APP_MODE_SHIMMER then Thrown(a, SW_INCORRECT_P1P2)
    else if !Hardened(U32(data, 0)) then Thrown(a, SW_COMMAND_INVALID_DATA)
    else Initialize(a, p1, U32(data, 0))
  }

  function WriteDataBlock(a: Api, p1: byte, data: seq<byte>): Step {
    if a.dataType != EMPTY then Thrown(a, SW_COMMAND_NOT_ALLOWED)
    else if |data| != DATA_BLOCK_SIZE then Thrown(a, SW_INCORRECT_LENGTH)
    else if p1 >= DATA_BLOCK_COUNT then Thrown(a, SW_INCORRECT_P1P2)
    else
      var o := p1 * DATA_BLOCK_SIZE;
      Done(a.(buffer := a.buffer[..o] + data + a.buffer[o+DATA_BLOCK_SIZE..]))
  }

  function ReadDataBlock(a: Api, p1: byte): Step {
    if a.dataType != GENERATED_ADDRESSES && a.dataType != SIGNATURES then Thrown(a, SW_COMMAND_NOT_ALLOWED)
    else if p1 >= DATA_BLOCK_COUNT then Thrown(a, SW_INCORRECT_P1P2)
    else
      var o := p1 * DATA_BLOCK_SIZE;
      Step(Reply(a.buffer[o..o+DATA_BLOCK_SIZE], SW_OK), a)
  }

  function TypeCode(t: DataType): byte {
    match t
    case EMPTY => 0
    case GENERATED_ADDRESSES => 1
    case VALIDATED_ESSENCE => 2
    case USER_CONFIRMED_ESSENCE => 3
    case SIGNATURES => 4
    case LOCKED => 5
  }

  function GetDataBufferState(a: Api): Step {
    Step(Reply(ToLe(a.dataLength, 2) + [TypeCode(a.dataType), DATA_BLOCK_SIZE, DATA_BLOCK_COUNT], SW_OK), a)
  }

  /** Version 0.8.6; flag bits: device locked, blind signing enabled, Shimmer app. */
  function GetAppConfig(a: Api, locked: bool, blindEnabled: bool): Step {
    var flags := (if locked then 1 else 0) + (if blindEnabled then 2 else 0) + if APP == ShimmerApp then 4 else 0;
    var device := match TARGET case NanoX => 1 case NanoSPlus => 2 case NanoS => 0;
    Step(Reply([0, 8, 6, flags, device, 0], SW_OK), a)
  }

  // ----------------------------------------------------------- address generation

  /** The `i`th path of a batch that starts at `b`. */
  function BatchPath(p: path, b: Entry, i: nat): path
    requires b.index + i < 0x1_0000_0000
  {
    WithEntry(p, Entry(b.index + i, b.change))
  }

  predicate AllDerived(c: Crypto, p: path, b: Entry, count: nat)
    requires b.index + count < 0x1_0000_0000
  {
    forall i :: 0 <= i < count ==> AddressOf(c, BatchPath(p, b, i)).Some?
  }

  /** The generated addresses one after the other, zeros behind them. */
  function Filled(c: Crypto, p: path, b: Entry, count: nat): (d: buffer)
    requires b.index + count < 0x1_0000_0000 && AllDerived(c, p, b, count)
  {
    seq(API_BUFFER_SIZE_BYTES, k requires 0 <= k =>
      if k / ADDRESS_WITH_TYPE_SIZE_BYTES < count then
        AddressOf(c, BatchPath(p, b, k / ADDRESS_WITH_TYPE_SIZE_BYTES)).value[k % ADDRESS_WITH_TYPE_SIZE_BYTES]
      else 0)
  }

  /** The request is in range, and neither wraps an index nor loses its hardening. */
  predicate BatchAllowed(b: Entry, count: u32, show: bool) {
    count <= API_GENERATE_ADDRESSES_MAX_COUNT && (show ==> count == 1)
    && Hardened(b.index) && 0x8000_0000 <= b.change <= 0x8000_0001
    && b.index + count < 0x1_0000_0000
  }

  function GenerateAddress(c: Crypto, a: Api, p1: byte, data: seq<byte>): Step {
    if a.flowLocked then Thrown(a, SW_COMMAND_NOT_ALLOWED)
    else if !AccountSelected(a) then Thrown(a, SW_ACCOUNT_NOT_VALID)
    else if a.dataType != EMPTY then Thrown(a, SW_COMMAND_NOT_ALLOWED)
    else if |data| != 12 then Thrown(a, SW_INCORRECT_LENGTH)
    else
      var b, count := Entry(U32(data, 0), U32(data, 4)), U32(data, 8);
      if !BatchAllowed(b, count, p1 != 0) then Thrown(a, SW_COMMAND_INVALID_DATA)
      else if !AllDerived(c, a.path, b, count) then Thrown(a, SW_UNKNOWN)
      else
        var filled := a.(buffer := Filled(c, a.path, b, count), dataLength := count * ADDRESS_WITH_TYPE_SIZE_BYTES);
        if p1 == 0 then
          Done(filled.(path := BatchPath(a.path, b, count), dataType := GENERATED_ADDRESSES))
        else
          Step(Async(NewAddress),
               filled.(path := WithEntry(a.path, b), dataType := LOCKED, flowLocked := true,
                       essence := a.essence.(outputsCount := 1, remainder := b, remainderIndex := 0)))
  }

  // -------------------------------------------------------------- prepare, confirm

  /** The context that the validator sees: marked, and with the request's remainder. */
  function Announced(a: Api, p2: byte, data: seq<byte>): Api
    requires |data| == 10
  {
    var e := a.essence.(blindsigning := false);
    a.(essence :=
        if p2 != 0 then
          e.(hasRemainder := true, remainderIndex := U16(data, 0), remainder := Entry(U32(data, 2), U32(data, 6)))
        else e.(hasRemainder := false))
  }

  ghost function PrepareSigning(c: Crypto, a: Api, p2: byte, data: seq<byte>): Step {
    if a.dataType != EMPTY then Thrown(a, SW_COMMAND_NOT_ALLOWED)
    else if !AccountSelected(a) then Thrown(a, SW_ACCOUNT_NOT_VALID)
    else if |data| != 10 then Thrown(a, SW_INCORRECT_LENGTH)
    else if p2 != 0 && (a.appMode == APP_MODE_SHIMMER_CLAIMING || !Hardened(U32(data, 2))
                        || !Hardened(U32(data, 6)) || U16(data, 0) >= OUTPUTS_MAX_COUNT)
    then Thrown(a, SW_COMMAND_INVALID_DATA)
    else
      var b := Announced(a, p2, data);
      if l :| EssenceAccepted(c, b, l) then Done(EssenceParsed(c, b, l).(dataType := VALIDATED_ESSENCE))
      else Thrown(a, SW_COMMAND_INVALID_DATA)
  }

  function PrepareBlindsigning(a: Api): Step {
    if a.dataType != EMPTY || a.appMode == APP_MODE_SHIMMER_CLAIMING then Thrown(a, SW_COMMAND_NOT_ALLOWED)
    else if !AccountSelected(a) then Thrown(a, SW_ACCOUNT_NOT_VALID)
    else if !BlindLayout(a.buffer, U16(a.buffer, 32)) then Thrown(a, SW_COMMAND_INVALID_DATA)
    else
      var b := a.(essence := a.essence.(blindsigning := true));
      Done(BlindParsed(b, U16(a.buffer, 32)).(dataType := VALIDATED_ESSENCE))
  }

  /** The consistency guard repeated in confirm and sign. */
  predicate GuardFires(a: Api) {
    a.dataLength >= API_BUFFER_SIZE_BYTES || a.essence.length >= API_BUFFER_SIZE_BYTES
    || a.dataLength < a.essence.length || a.essence.inputsCount < INPUTS_MIN_COUNT
    || a.essence.inputsCount > INPUTS_MAX_COUNT
  }

  function UserConfirmEssence(a: Api): Step {
    if a.flowLocked || a.dataType != VALIDATED_ESSENCE then Thrown(a, SW_COMMAND_NOT_ALLOWED)
    else if !AccountSelected(a) then Thrown(a, SW_ACCOUNT_NOT_VALID)
    else if a.essence.blindsigning then Step(Async(ConfirmBlind), a.(flowLocked := true))
    else if GuardFires(a) then Thrown(a, SW_UNKNOWN)
    else Step(Async(ConfirmTransaction), a.(flowLocked := true, path := WithEntry(a.path, a.essence.remainder)))
  }

  function SignSingle(c: Crypto, a: Api, p1: byte): Step
    requires a.dataType == USER_CONFIRMED_ESSENCE && !GuardFires(a) ==> TableInBuffer(a)
  {
    if a.dataType != USER_CONFIRMED_ESSENCE then Thrown(a, SW_COMMAND_NOT_ALLOWED)
    else if GuardFires(a) then Thrown(a, SW_UNKNOWN)
    else if p1 >= a.essence.inputsCount then Thrown(a, SW_INCORRECT_P1P2)
    else match UnlockFor(c, a, p1)
      case None => Thrown(a, SW_UNKNOWN)
      case Some(u) => Step(Reply(SerializeUnlock(u), SW_OK), a.(path := PathAfter(a, p1)))
  }

  // ---------------------------------------------------------------------- dispatch

  const INS_NONE: byte := 0x00
  const INS_GET_APP_CONFIG: byte := 0x10
  const INS_SET_ACCOUNT: byte := 0x11
  const INS_GET_DATA_BUFFER_STATE: byte := 0x80
  const INS_WRITE_DATA_BLOCK: byte := 0x81
  const INS_READ_DATA_BLOCK: byte := 0x82
  const INS_CLEAR_DATA_BUFFER: byte := 0x83
  const INS_SHOW_FLOW: byte := 0x90
  const INS_PREPARE_BLINDSIGNING: byte := 0x91
  const INS_PREPARE_SIGNING: byte := 0xa0
  const INS_GENERATE_ADDRESS: byte := 0xa1
  const INS_USER_CONFIRM_ESSENCE: byte := 0xa3
  const INS_SIGN_SINGLE: byte := 0xa4
  const INS_RESET: byte := 0xff

  predicate AllowedWhenLocked(ins: byte) {
    ins == INS_NONE || ins == INS_GET_APP_CONFIG || ins == INS_SET_ACCOUNT || ins == INS_RESET
    || ins == INS_CLEAR_DATA_BUFFER
  }

  datatype Command = Command(ins: byte, p1: byte, p2: byte, data: seq<byte>)

  ghost function Dispatch(c: Crypto, a: Api, cmd: Command, locked: bool, blindEnabled: bool): Step
    requires a.dataType == USER_CONFIRMED_ESSENCE && !GuardFires(a) ==> TableInBuffer(a)
  {
    if locked && !AllowedWhenLocked(cmd.ins) then Thrown(a, SW_DEVICE_IS_LOCKED)
    else if cmd.ins == INS_NONE then Step(NoReply, a)
    else if cmd.ins == INS_GET_APP_CONFIG then GetAppConfig(a, locked, blindEnabled)
    else if cmd.ins == INS_SET_ACCOUNT then SetAccount(a, cmd.p1, cmd.data)
    else if cmd.ins == INS_RESET then Done(Fresh(APP_MODE_INIT, 0))
    else if cmd.ins == INS_WRITE_DATA_BLOCK then WriteDataBlock(a, cmd.p1, cmd.data)
    else if cmd.ins == INS_PREPARE_SIGNING then PrepareSigning(c, a, cmd.p2, cmd.data)
    else if cmd.ins == INS_PREPARE_BLINDSIGNING then PrepareBlindsigning(a)
    else if cmd.ins == INS_GENERATE_ADDRESS then GenerateAddress(c, a, cmd.p1, cmd.data)
    else if cmd.ins == INS_GET_DATA_BUFFER_STATE then GetDataBufferState(a)
    else if cmd.ins == INS_CLEAR_DATA_BUFFER then ClearData(a)
    else if cmd.ins == INS_USER_CONFIRM_ESSENCE then UserConfirmEssence(a)
    else if cmd.ins == INS_SIGN_SINGLE then SignSingle(c, a, cmd.p1)
    else if cmd.ins == INS_READ_DATA_BLOCK then ReadDataBlock(a, cmd.p1)
    else if cmd.ins == INS_SHOW_FLOW then Done(a)
    else Thrown(a, SW_INS_NOT_SUPPORTED)
  }

  // ---------------------------------------------------- what the commands rely on

  /** Between commands: the context was initialized, and a confirmed message that passes
      the guard has its hardened BIP32 table inside the buffer. */
  predicate Sound(a: Api) {
    a.path[0] == BIP32_PURPOSE && Hardened(a.path[1]) && a.protocol == Stardust
    && (a.dataType == USER_CONFIRMED_ESSENCE && !GuardFires(a) ==>
          AccountSelected(a) && TableInBuffer(a) && TableWellFormed(a))
  }
}
