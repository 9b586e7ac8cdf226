/** Model of src/iota/blindsigning_stardust.c. */
module BlindsigningStardust {
  import opened Bytes
  import opened Config
  import opened Essence
  import opened ApiState
  import opened ApiCtx
  import opened EssenceStardust

  method ValidateEssenceHash(data: array<byte>, idx: nat) returns (ok: bool, next: nat, h: hash)
    requires data.Length == API_BUFFER_SIZE_BYTES
    ensures ok <==> idx + 32 < API_BUFFER_SIZE_BYTES
    ensures ok ==> next == idx + 32 && h == data[idx..idx+32]
  {
    if !(idx + 32 < API_BUFFER_SIZE_BYTES) {
      return false, idx, Zeros(32);
    }
    return true, idx + 32, data[idx..idx+32];
  }

  /** Accepts exactly the buffers that hold a hash, a count and that many hardened
      entries, and keeps the submitted hash. */
  method ParseAndValidateBlindsigning(api: Context) returns (ok: bool)
    requires api.Valid()
    modifies api`essence, api`dataLength
    ensures ok <==> BlindLayout(old(api.buffer[..]), U16(old(api.buffer[..]), 32))
    ensures ok ==> api.State() == BlindParsed(old(api.State()), U16(old(api.buffer[..]), 32))
  {
    hide U16, EntriesSection;
    var idx, h;
    ok, idx, h := ValidateEssenceHash(api.buffer, 0);
    assert ok && idx == 32;
    api.essence := api.essence.(hash := h);
    api.essence := api.essence.(length := idx);
    var inputsCount;
    ok, idx, inputsCount := GetUint16(api.buffer, idx);
    assert ok && idx == 34;
    api.essence := api.essence.(inputsCount := inputsCount);
    if !(INPUTS_MIN_COUNT <= inputsCount <= INPUTS_MAX_COUNT) {
      return false;
    }
    api.essence := api.essence.(entries := Some(idx));
    ok, idx := ValidateInputsBip32(api.buffer, idx, inputsCount);
    if !ok {
      return;
    }
    api.dataLength := idx;
  }
}
