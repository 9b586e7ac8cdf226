/** Model of src/api.c and of `iota_dispatch` in src/iota_io.c: the commands on the
    shared context, each proved to do what module ApiSpec says. */
module ApiCommands {
  import opened Bytes
  import opened Config
  import opened Essence
  import opened Address
  import opened ApiState
  import opened ApiCtx
  import opened EssenceStardust
  import opened BlindsigningStardust
  import opened Signing
  import opened ApiSpec

  /** `explicit_bzero` on the whole context. */
  method Wipe(api: Context)
    requires api.Valid()
    modifies api`appMode, api`protocol, api`coin, api`dataType, api`dataLength, api`essence, api`flowLocked,
             api.buffer, api.bip32Path
    ensures api.State() == WIPED
  {
    forall i | 0 <= i < API_BUFFER_SIZE_BYTES {
      api.buffer[i] := 0;
    }
    forall i | 0 <= i < BIP32_PATH_LEN {
      api.bip32Path[i] := 0;
    }
    api.appMode, api.protocol, api.coin := 0, NoProtocol, CoinIota;
    api.dataType, api.dataLength, api.essence, api.flowLocked := EMPTY, 0, NO_ESSENCE, false;
    assert api.buffer[..] == Zeros(API_BUFFER_SIZE_BYTES);
    assert api.bip32Path[..] == [0, 0, 0, 0, 0];
  }

  /** `api_initialize`: wipes everything first, then may throw. */
  method Initialize(api: Context, mode: byte, account: u32) returns (out: Outcome)
    requires api.Valid()
    modifies api`appMode, api`protocol, api`coin, api`dataType, api`dataLength, api`essence, api`flowLocked,
             api.buffer, api.bip32Path
    ensures var s := ApiSpec.Initialize(old(api.State()), mode, account);
            out == s.out && (!out.Throw? ==> api.State() == s.api)
    ensures out.Throw? ==> api.State() == WIPED.(path := [BIP32_PURPOSE, 0, 0, 0, 0])
  {
    Wipe(api);
    api.bip32Path[0] := BIP32_PURPOSE;
    var family := mode % 0x80;
    if APP == IotaApp && family == APP_MODE_IOTA_STARDUST {
      api.bip32Path[BIP32_COIN_INDEX] := BIP32_COIN_IOTA;
      api.protocol, api.coin := Stardust, CoinIota;
    } else if APP == ShimmerApp && family == APP_MODE_SHIMMER_CLAIMING {
      api.bip32Path[BIP32_COIN_INDEX] := BIP32_COIN_IOTA;
      api.protocol, api.coin := Stardust, CoinShimmer;
    } else if APP == ShimmerApp && family == APP_MODE_SHIMMER {
      api.bip32Path[BIP32_COIN_INDEX] := BIP32_COIN_SHIMMER;
      api.protocol, api.coin := Stardust, CoinShimmer;
    } else {
      assert api.bip32Path[..] == [BIP32_PURPOSE, 0, 0, 0, 0];
      return Throw(SW_ACCOUNT_NOT_VALID);
    }
    if mode >= 0x80 {
      api.bip32Path[BIP32_COIN_INDEX] := BIP32_COIN_TESTNET;
    }
    api.bip32Path[BIP32_ACCOUNT_INDEX] := account;
    api.appMode := mode;
    assert api.bip32Path[..] == [BIP32_PURPOSE, CoinIndex(mode), account, 0, 0];
    return Reply([], SW_OK);
  }

  method ClearData(api: Context) returns (out: Outcome)
    requires api.Valid()
    modifies api`appMode, api`protocol, api`coin, api`dataType, api`dataLength, api`essence, api`flowLocked,
             api.buffer, api.bip32Path
    ensures var s := ApiSpec.ClearData(old(api.State()));
            out == s.out && (!out.Throw? ==> api.State() == s.api)
  {
    out := Initialize(api, api.appMode, api.bip32Path[BIP32_ACCOUNT_INDEX]);
  }

  method SetAccount(api: Context, p1: byte, data: seq<byte>) returns (out: Outcome)
    requires api.Valid()
    modifies api`appMode, api`protocol, api`coin, api`dataType, api`dataLength, api`essence, api`flowLocked,
             api.buffer, api.bip32Path
    ensures var s := ApiSpec.SetAccount(old(api.State()), p1, data);
            out == s.out && (!out.Throw? ==> api.State() == s.api)
  {
    if |data| != 4 {
      return Throw(SW_INCORRECT_LENGTH);
    }
    if p1 % 0x80 > APP_MODE_SHIMMER {
      return Throw(SW_INCORRECT_P1P2);
    }
    var account := U32(data, 0);
    if !Hardened(account) {
      return Throw(SW_COMMAND_INVALID_DATA);
    }
    out := Initialize(api, p1, account);
  }

  method WriteDataBlock(api: Context, p1: byte, data: seq<byte>) returns (out: Outcome)
    requires api.Valid()
    modifies api.buffer
    ensures var s := ApiSpec.WriteDataBlock(old(api.State()), p1, data);
            out == s.out && (!out.Throw? ==> api.State() == s.api)
  {
    if api.dataType != EMPTY {
      return Throw(SW_COMMAND_NOT_ALLOWED);
    }
    if |data| != DATA_BLOCK_SIZE {
      return Throw(SW_INCORRECT_LENGTH);
    }
    if p1 >= DATA_BLOCK_COUNT {
      return Throw(SW_INCORRECT_P1P2);
    }
    var o := p1 * DATA_BLOCK_SIZE;
    ghost var was := api.buffer[..];
    forall i | 0 <= i < DATA_BLOCK_SIZE {
      api.buffer[o + i] := data[i];
    }
    assert api.buffer[..] == was[..o] + data + was[o+DATA_BLOCK_SIZE..];
    return Reply([], SW_OK);
  }

  method ReadDataBlock(api: Context, p1: byte) returns (out: Outcome)
    requires api.Valid()
    ensures var s := ApiSpec.ReadDataBlock(api.State(), p1);
            out == s.out && (!out.Throw? ==> api.State() == s.api)
  {
    if api.dataType != GENERATED_ADDRESSES && api.dataType != SIGNATURES {
      return Throw(SW_COMMAND_NOT_ALLOWED);
    }
    if p1 >= DATA_BLOCK_COUNT {
      return Throw(SW_INCORRECT_P1P2);
    }
    var o := p1 * DATA_BLOCK_SIZE;
    return Reply(api.buffer[o..o+DATA_BLOCK_SIZE], SW_OK);
  }

  /** The filling loop of `api_generate_address`. */
  method FillAddresses(api: Context, b: Entry, count: u32) returns (ok: bool)
    requires api.Valid() && api.Disciplined() && BatchAllowed(b, count, false)
    requires forall i :: 0 <= i < 3 ==> Hardened(api.bip32Path[i])
    modifies api`derivations, api.buffer, api.bip32Path
    ensures api.Disciplined()
    ensures ok <==> AllDerived(api.crypto, old(api.bip32Path[..]), b, count)
    ensures ok ==> api.buffer[..] == Filled(api.crypto, old(api.bip32Path[..]), b, count)
    ensures ok ==> api.bip32Path[..] == BatchPath(old(api.bip32Path[..]), b, count)
  {
    hide AddressOf, Filled;
    ghost var p := api.bip32Path[..];
    api.bip32Path[BIP32_ADDRESS_INDEX] := b.index;
    api.bip32Path[BIP32_CHANGE_INDEX] := b.change;
    forall i | 0 <= i < API_BUFFER_SIZE_BYTES {
      api.buffer[i] := 0;
    }
    assert api.bip32Path[..] == BatchPath(p, b, 0);
    for i := 0 to count
      invariant api.Disciplined() && api.bip32Path[..] == BatchPath(p, b, i)
      invariant FilledSoFar(api.crypto, api.buffer[..], p, b, i)
    {
      ghost var was := api.buffer[..];
      var o := i * ADDRESS_WITH_TYPE_SIZE_BYTES;
      BatchFits(count, i);
      ok := AddressGenerate(api, api.bip32Path, api.buffer, o);
      if !ok {
        assert AddressOf(api.crypto, BatchPath(p, b, i)) == None;
        return;
      }
      OneMoreAddress(api.crypto, was, api.buffer[..], p, b, i);
      api.bip32Path[BIP32_ADDRESS_INDEX] := api.bip32Path[BIP32_ADDRESS_INDEX] + 1;
      assert api.bip32Path[..] == BatchPath(p, b, i + 1);
    }
    FilledAtEnd(api.crypto, api.buffer[..], p, b, count);
    ok := true;
  }

  lemma BatchFits(count: nat, i: nat)
    requires count <= API_GENERATE_ADDRESSES_MAX_COUNT && i < count
    ensures i * ADDRESS_WITH_TYPE_SIZE_BYTES + ADDRESS_WITH_TYPE_SIZE_BYTES <= API_BUFFER_SIZE_BYTES
  {}

  /** The first `n` addresses are in place and everything behind them is zero. */
  ghost predicate FilledSoFar(c: Crypto, d: buffer, p: path, b: Entry, n: nat) {
    b.index + n < 0x1_0000_0000 && 33 * n <= |d| && AllDerived(c, p, b, n)
    && (forall i :: 0 <= i < n ==> AddressAt(d, i) == AddressOf(c, BatchPath(p, b, i)).value)
    && forall k :: 33 * n <= k < |d| ==> d[k] == 0
  }

  function AddressAt(d: buffer, i: nat): seq<byte>
    requires 33 * i + 33 <= |d|
  {
    d[33 * i..33 * i + 33]
  }

  lemma OneMoreAddress(c: Crypto, was: buffer, d: buffer, p: path, b: Entry, n: nat)
    requires FilledSoFar(c, was, p, b, n) && 33 * n + 33 <= |d| && b.index + n + 1 < 0x1_0000_0000
    requires d[..33*n] == was[..33*n] && d[33*n+33..] == was[33*n+33..]
    requires AddressOf(c, BatchPath(p, b, n)).Some? && d[33*n..33*n+33] == AddressOf(c, BatchPath(p, b, n)).value
    ensures FilledSoFar(c, d, p, b, n + 1)
  {
    hide AddressOf;
    forall i | 0 <= i < n
      ensures AddressAt(d, i) == AddressAt(was, i)
    {
      SubSlice(d, 0, 33 * n, 33 * i, 33 * i + 33);
      SubSlice(was, 0, 33 * n, 33 * i, 33 * i + 33);
      assert d[0..33*n] == was[0..33*n];
    }
    forall k | 33 * (n + 1) <= k < |d|
      ensures d[k] == 0
    {
      assert d[k] == d[33*n+33..][k - 33 * n - 33];
    }
  }

  lemma FilledAtEnd(c: Crypto, d: buffer, p: path, b: Entry, n: nat)
    requires FilledSoFar(c, d, p, b, n)
    ensures d == Filled(c, p, b, n)
  {
    hide AddressOf;
    forall k | 0 <= k < |d|
      ensures d[k] == Filled(c, p, b, n)[k]
    {
      if k / 33 < n {
        assert AddressAt(d, k / 33)[k % 33] == d[k];
      }
    }
  }

  /** The range checks of `api_generate_address` on its request. */
  method CheckBatch(b: Entry, count: u32, showOnScreen: bool) returns (ok: bool)
    ensures ok <==> BatchAllowed(b, count, showOnScreen)
    ensures ok ==> BatchAllowed(b, count, false) && b.index + count < 0x1_0000_0000
    ensures ok ==> count * ADDRESS_WITH_TYPE_SIZE_BYTES < 0x1_0000
  {
    if count > API_GENERATE_ADDRESSES_MAX_COUNT {
      return false;
    }
    if showOnScreen && count != 1 {
      return false;
    }
    if !Hardened(b.index) || !Hardened(b.change) {
      return false;
    }
    if b.change % 0x8000_0000 >= 2 {
      return false;
    }
    if !Hardened((b.index + count) % 0x1_0000_0000) {
      return false;
    }
    return true;
  }

  method GenerateAddress(api: Context, p1: byte, data: seq<byte>) returns (out: Outcome)
    requires api.Valid() && api.Disciplined() && Sound(api.State())
    modifies api`derivations, api`dataType, api`dataLength, api`essence, api`flowLocked, api.buffer, api.bip32Path
    ensures api.Disciplined()
    ensures var s := ApiSpec.GenerateAddress(api.crypto, old(api.State()), p1, data);
            out == s.out && (!out.Throw? ==> api.State() == s.api)
  {
    hide AddressOf, Filled, AllDerived, U32, BatchAllowed, TableWellFormed, TableInBuffer;
    if api.flowLocked {
      return Throw(SW_COMMAND_NOT_ALLOWED);
    }
    if !Hardened(api.bip32Path[BIP32_ACCOUNT_INDEX]) {
      return Throw(SW_ACCOUNT_NOT_VALID);
    }
    if api.dataType != EMPTY {
      return Throw(SW_COMMAND_NOT_ALLOWED);
    }
    api.dataType := LOCKED;
    if |data| != 12 {
      return Throw(SW_INCORRECT_LENGTH);
    }
    var b, count := Entry(U32(data, 0), U32(data, 4)), U32(data, 8);
    var showOnScreen := p1 != 0;
    var inRange := CheckBatch(b, count, showOnScreen);
    if !inRange {
      return Throw(SW_COMMAND_INVALID_DATA);
    }
    ghost var p := api.bip32Path[..];
    var ok := FillAddresses(api, b, count);
    if !ok {
      return Throw(SW_UNKNOWN);
    }
    api.dataLength := count * ADDRESS_WITH_TYPE_SIZE_BYTES;
    if !showOnScreen {
      api.dataType := GENERATED_ADDRESSES;
      return Reply([], SW_OK);
    }
    api.essence := api.essence.(outputsCount := 1, remainder := b, remainderIndex := 0);
    api.bip32Path[BIP32_ADDRESS_INDEX] := b.index;
    api.bip32Path[BIP32_CHANGE_INDEX] := b.change;
    assert api.bip32Path[..] == WithEntry(p, b);
    api.flowLocked := true;
    return Async(NewAddress);
  }

  method PrepareSigning(api: Context, p2: byte, data: seq<byte>) returns (out: Outcome)
    requires api.Valid() && api.Disciplined() && Sound(api.State())
    modifies api`derivations, api`dataType, api`dataLength, api`essence, api.bip32Path
    ensures api.Disciplined()
    ensures var s := ApiSpec.PrepareSigning(api.crypto, old(api.State()), p2, data);
            out == s.out && (!out.Throw? ==> api.State() == s.api)
  {
    hide EssenceAccepted, EssenceParsed, U16, U32;
    ghost var a := api.State();
    if api.dataType != EMPTY {
      return Throw(SW_COMMAND_NOT_ALLOWED);
    }
    api.dataType := LOCKED;
    if !Hardened(api.bip32Path[BIP32_ACCOUNT_INDEX]) {
      return Throw(SW_ACCOUNT_NOT_VALID);
    }
    if |data| != 10 {
      return Throw(SW_INCORRECT_LENGTH);
    }
    if p2 != 0 {
      if api.appMode == APP_MODE_SHIMMER_CLAIMING {
        return Throw(SW_COMMAND_INVALID_DATA);
      }
      var remainder := Entry(U32(data, 2), U32(data, 6));
      if !Hardened(remainder.change) || !Hardened(remainder.index) {
        return Throw(SW_COMMAND_INVALID_DATA);
      }
      if api.protocol == Stardust && U16(data, 0) >= OUTPUTS_MAX_COUNT {
        return Throw(SW_COMMAND_INVALID_DATA);
      }
      api.essence := api.essence.(hasRemainder := true, remainderIndex := U16(data, 0), remainder := remainder);
    } else {
      api.essence := api.essence.(hasRemainder := false);
    }
    api.essence := api.essence.(blindsigning := false);
    ghost var b := Announced(a, p2, data);
    assert api.State() == b.(dataType := LOCKED);
    var ok;
    ghost var l;
    ok, l := EssenceParseAndValidateStardust(api);
    TypeDoesNotMatter(api.crypto, b, LOCKED);
    if !ok {
      return Throw(SW_COMMAND_INVALID_DATA);
    }
    AcceptedLayoutUnique(api.crypto, b);
    api.dataType := VALIDATED_ESSENCE;
    ParsedTypeDoesNotMatter(api.crypto, b, LOCKED, l);
    return Reply([], SW_OK);
  }

  /** The validator does not look at the type mark. */
  lemma TypeDoesNotMatter(c: Crypto, b: Api, t: DataType)
    ensures forall l :: EssenceAccepted(c, b, l) <==> EssenceAccepted(c, b.(dataType := t), l)
  {
    hide HasLayout, AddressOf;
  }

  lemma ParsedTypeDoesNotMatter(c: Crypto, b: Api, t: DataType, l: Layout)
    requires EssenceAccepted(c, b, l) && EssenceAccepted(c, b.(dataType := t), l)
    ensures EssenceParsed(c, b, l) == EssenceParsed(c, b.(dataType := t), l).(dataType := b.dataType)
  {
    hide HasLayout, AddressOf;
  }

  lemma AcceptedLayoutUnique(c: Crypto, b: Api)
    ensures forall l, l' :: EssenceAccepted(c, b, l) && EssenceAccepted(c, b, l') ==> l == l'
  {
    hide HasLayout, RemainderVerified;
    forall l, l' | EssenceAccepted(c, b, l) && EssenceAccepted(c, b, l')
      ensures l == l'
    {
      LayoutUnique(b.buffer, l, l');
    }
  }

  method PrepareBlindsigning(api: Context) returns (out: Outcome)
    requires api.Valid() && Sound(api.State())
    modifies api`dataType, api`dataLength, api`essence
    ensures var s := ApiSpec.PrepareBlindsigning(old(api.State()));
            out == s.out && (!out.Throw? ==> api.State() == s.api)
  {
    hide BlindLayout, U16;
    if api.dataType != EMPTY {
      return Throw(SW_COMMAND_NOT_ALLOWED);
    }
    if api.protocol != Stardust || api.appMode == APP_MODE_SHIMMER_CLAIMING {
      return Throw(SW_COMMAND_NOT_ALLOWED);
    }
    api.dataType := LOCKED;
    if !Hardened(api.bip32Path[BIP32_ACCOUNT_INDEX]) {
      return Throw(SW_ACCOUNT_NOT_VALID);
    }
    api.essence := api.essence.(blindsigning := true);
    var ok := ParseAndValidateBlindsigning(api);
    if !ok {
      return Throw(SW_COMMAND_INVALID_DATA);
    }
    api.dataType := VALIDATED_ESSENCE;
    return Reply([], SW_OK);
  }

  method UserConfirmEssence(api: Context) returns (out: Outcome)
    requires api.Valid() && Sound(api.State())
    modifies api`flowLocked, api.bip32Path
    ensures var s := ApiSpec.UserConfirmEssence(old(api.State()));
            out == s.out && (!out.Throw? ==> api.State() == s.api)
  {
    if api.flowLocked {
      return Throw(SW_COMMAND_NOT_ALLOWED);
    }
    if api.dataType != VALIDATED_ESSENCE {
      return Throw(SW_COMMAND_NOT_ALLOWED);
    }
    if !Hardened(api.bip32Path[BIP32_ACCOUNT_INDEX]) {
      return Throw(SW_ACCOUNT_NOT_VALID);
    }
    if !api.essence.blindsigning {
      if api.dataLength >= API_BUFFER_SIZE_BYTES || api.essence.length >= API_BUFFER_SIZE_BYTES
        || api.dataLength < api.essence.length || api.essence.inputsCount < INPUTS_MIN_COUNT
        || (api.protocol == Stardust && api.essence.inputsCount > INPUTS_MAX_COUNT)
      {
        return Throw(SW_UNKNOWN);
      }
      api.bip32Path[BIP32_ADDRESS_INDEX] := api.essence.remainder.index;
      api.bip32Path[BIP32_CHANGE_INDEX] := api.essence.remainder.change;
      assert api.bip32Path[..] == WithEntry(old(api.bip32Path[..]), api.essence.remainder);
      api.flowLocked := true;
      return Async(ConfirmTransaction);
    }
    api.flowLocked := true;
    return Async(ConfirmBlind);
  }

  method SignSingle(api: Context, output: array<byte>, p1: byte) returns (out: Outcome)
    requires api.Valid() && api.Disciplined() && Sound(api.State())
    requires output != api.buffer && (output as object) != (api.bip32Path as object)
    requires output.Length >= SIGNATURE_UNLOCK_SIZE
    modifies api`derivations, api.bip32Path, output
    ensures api.Disciplined()
    ensures var s := ApiSpec.SignSingle(api.crypto, old(api.State()), p1);
            out == s.out && (!out.Throw? ==> api.State() == s.api)
  {
    hide UnlockFor, PathAfter, SerializeUnlock, TableWellFormed;
    if api.dataType != USER_CONFIRMED_ESSENCE {
      return Throw(SW_COMMAND_NOT_ALLOWED);
    }
    if api.dataLength >= API_BUFFER_SIZE_BYTES || api.essence.length >= API_BUFFER_SIZE_BYTES
      || api.dataLength < api.essence.length || api.essence.inputsCount < INPUTS_MIN_COUNT
      || (api.protocol == Stardust && api.essence.inputsCount > INPUTS_MAX_COUNT)
    {
      return Throw(SW_UNKNOWN);
    }
    if p1 >= api.essence.inputsCount {
      return Throw(SW_INCORRECT_P1P2);
    }
    var size := Sign(api, output, p1);
    if size == 0 {
      return Throw(SW_UNKNOWN);
    }
    return Reply(output[..size], SW_OK);
  }

  method GetDataBufferState(api: Context) returns (out: Outcome)
    requires api.Valid()
    ensures var s := ApiSpec.GetDataBufferState(api.State());
            out == s.out && (!out.Throw? ==> api.State() == s.api)
  {
    return Reply(ToLe(api.dataLength, 2) + [TypeCode(api.dataType), DATA_BLOCK_SIZE, DATA_BLOCK_COUNT], SW_OK);
  }

  method GetAppConfig(api: Context, locked: bool, blindEnabled: bool) returns (out: Outcome)
    requires api.Valid()
    ensures var s := ApiSpec.GetAppConfig(api.State(), locked, blindEnabled);
            out == s.out && (!out.Throw? ==> api.State() == s.api)
  {
    var flags := if locked then 1 else 0;
    if blindEnabled {
      flags := flags + 2;
    }
    if APP == ShimmerApp {
      flags := flags + 4;
    }
    var device := match TARGET case NanoX => 1 case NanoSPlus => 2 case NanoS => 0;
    return Reply([0, 8, 6, flags, device, 0], SW_OK);
  }

  /** `iota_dispatch` */
  method Dispatch(api: Context, apdu: array<byte>, cmd: Command, locked: bool, blindEnabled: bool)
    returns (out: Outcome)
    requires api.Valid() && api.Disciplined() && Sound(api.State())
    requires apdu != api.buffer && (apdu as object) != (api.bip32Path as object)
    requires apdu.Length >= SIGNATURE_UNLOCK_SIZE
    modifies api, api.buffer, api.bip32Path, apdu
    ensures api.Disciplined()
    ensures var s := ApiSpec.Dispatch(api.crypto, old(api.State()), cmd, locked, blindEnabled);
            out == s.out && (!out.Throw? ==> api.State() == s.api)
    ensures locked && !AllowedWhenLocked(cmd.ins) ==> api.State() == old(api.State())
  {
    hide ApiSpec.SetAccount, ApiSpec.WriteDataBlock, ApiSpec.PrepareSigning, ApiSpec.PrepareBlindsigning,
      ApiSpec.GenerateAddress, ApiSpec.GetDataBufferState, ApiSpec.ClearData, ApiSpec.UserConfirmEssence,
      ApiSpec.SignSingle, ApiSpec.ReadDataBlock, ApiSpec.GetAppConfig, Fresh, TableWellFormed;
    if locked && !AllowedWhenLocked(cmd.ins) {
      return Throw(SW_DEVICE_IS_LOCKED);
    }
    if cmd.ins == INS_NONE {
      return NoReply;
    } else if cmd.ins == INS_GET_APP_CONFIG {
      out := GetAppConfig(api, locked, blindEnabled);
    } else if cmd.ins == INS_SET_ACCOUNT {
      out := SetAccount(api, cmd.p1, cmd.data);
    } else if cmd.ins == INS_RESET {
      out := Initialize(api, APP_MODE_INIT, 0);
    } else if cmd.ins == INS_WRITE_DATA_BLOCK {
      out := WriteDataBlock(api, cmd.p1, cmd.data);
    } else if cmd.ins == INS_PREPARE_SIGNING {
      out := PrepareSigning(api, cmd.p2, cmd.data);
    } else if cmd.ins == INS_PREPARE_BLINDSIGNING {
      out := PrepareBlindsigning(api);
    } else if cmd.ins == INS_GENERATE_ADDRESS {
      out := GenerateAddress(api, cmd.p1, cmd.data);
    } else if cmd.ins == INS_GET_DATA_BUFFER_STATE {
      out := GetDataBufferState(api);
    } else if cmd.ins == INS_CLEAR_DATA_BUFFER {
      out := ClearData(api);
    } else if cmd.ins == INS_USER_CONFIRM_ESSENCE {
      out := UserConfirmEssence(api);
    } else if cmd.ins == INS_SIGN_SINGLE {
      out := SignSingle(api, apdu, cmd.p1);
    } else if cmd.ins == INS_READ_DATA_BLOCK {
      out := ReadDataBlock(api, cmd.p1);
    } else if cmd.ins == INS_SHOW_FLOW {
      out := Reply([], SW_OK);
    } else {
      out := Throw(SW_INS_NOT_SUPPORTED);
    }
  }
}
