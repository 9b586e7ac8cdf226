/** Model of src/iota/essence_stardust.c: the cursor validator. Each step is proved
    against the section predicates of module Essence. */
module EssenceStardust {
  import opened Bytes
  import opened Config
  import opened Essence
  import opened Address
  import opened ApiState
  import opened ApiCtx
  import opened InternalTransfer

  method GetUint32(data: array<byte>, idx: nat) returns (ok: bool, next: nat, v: u32)
    requires data.Length == API_BUFFER_SIZE_BYTES
    ensures ok <==> idx + 4 < API_BUFFER_SIZE_BYTES
    ensures ok ==> next == idx + 4 && v == U32(data[..], idx)
  {
    if !(idx + 4 < API_BUFFER_SIZE_BYTES) {
      return false, idx, 0;
    }
    return true, idx + 4, U32(data[..], idx);
  }

  method GetUint16(data: array<byte>, idx: nat) returns (ok: bool, next: nat, v: u16)
    requires data.Length == API_BUFFER_SIZE_BYTES
    ensures ok <==> idx + 2 < API_BUFFER_SIZE_BYTES
    ensures ok ==> next == idx + 2 && v == U16(data[..], idx)
  {
    if !(idx + 2 < API_BUFFER_SIZE_BYTES) {
      return false, idx, 0;
    }
    return true, idx + 2, U16(data[..], idx);
  }

  method GetUint8(data: array<byte>, idx: nat) returns (ok: bool, next: nat, v: byte)
    requires data.Length == API_BUFFER_SIZE_BYTES
    ensures ok <==> idx + 1 < API_BUFFER_SIZE_BYTES
    ensures ok ==> next == idx + 1 && v == data[idx]
  {
    if !(idx + 1 < API_BUFFER_SIZE_BYTES) {
      return false, idx, 0;
    }
    return true, idx + 1, data[idx];
  }

  method ValidateInputs(data: array<byte>, idx: nat)
    returns (ok: bool, next: nat, inputs: nat, inputsCount: u16)
    requires data.Length == API_BUFFER_SIZE_BYTES
    ensures ok <==> InputsSection(data[..], idx)
    ensures ok ==> inputsCount == U16(data[..], idx) && inputs == idx + 2
    ensures ok ==> next == idx + 2 + INPUT_SIZE * inputsCount
  {
    hide U16;
    inputs := idx;
    ok, next, inputsCount := GetUint16(data, idx);
    if !ok {
      return;
    }
    if !(INPUTS_MIN_COUNT <= inputsCount <= INPUTS_MAX_COUNT) {
      return false, next, inputs, inputsCount;
    }
    inputs := next;
    for i := 0 to inputsCount
      invariant next == idx + 2 + INPUT_SIZE * i && next < API_BUFFER_SIZE_BYTES
      invariant forall k :: 0 <= k < i ==> InputOk(data[..], idx + 2 + INPUT_SIZE * k)
    {
      if !(next + INPUT_SIZE < API_BUFFER_SIZE_BYTES) {
        return false, next, inputs, inputsCount;
      }
      if data[next] != 0 || U16(data[..], next + 33) >= OUTPUTS_MAX_COUNT {
        assert !InputOk(data[..], idx + 2 + INPUT_SIZE * i);
        return false, next, inputs, inputsCount;
      }
      next := next + INPUT_SIZE;
    }
    ok := true;
  }

  lemma {:induction false} SumOfOutputsAt(d: seq<byte>, o: nat, i: nat, n: nat)
    requires i <= n && o + OUTPUT_SIZE * n <= |d|
    ensures SumAmounts(OutputsAt(d, o, i)) <= SumAmounts(OutputsAt(d, o, n))
    ensures i > 0 ==>
      SumAmounts(OutputsAt(d, o, i)) == SumAmounts(OutputsAt(d, o, i - 1)) + U64(d, o + OUTPUT_SIZE * (i - 1) + 1)
  {
    hide U64;
    if i == n {
      if i > 0 {
        assert OutputsAt(d, o, i)[..i-1] == OutputsAt(d, o, i - 1);
      }
    } else {
      SumOfOutputsAt(d, o, i, n - 1);
      assert OutputsAt(d, o, n)[..n-1] == OutputsAt(d, o, n - 1);
    }
  }

  /** The wrapping sum passes its test at every output exactly when the sum of all
      amounts stays below 2^64. */
  method ValidateOutputs(data: array<byte>, idx: nat)
    returns (ok: bool, next: nat, outputs: nat, outputsCount: u16)
    requires data.Length == API_BUFFER_SIZE_BYTES
    ensures ok <==> OutputsSection(data[..], idx)
    ensures ok ==> outputsCount == U16(data[..], idx) && outputs == idx + 2
    ensures ok ==> next == idx + 2 + OUTPUT_SIZE * outputsCount
  {
    hide U16, U64, SumAmounts, OutputsAt, OutputAt;
    outputs := idx;
    ok, next, outputsCount := GetUint16(data, idx);
    if !ok {
      return;
    }
    if !(OUTPUTS_MIN_COUNT <= outputsCount <= OUTPUTS_MAX_COUNT) {
      return false, next, outputs, outputsCount;
    }
    outputs := next;
    var totalAmount: u64 := 0;
    NoOutputs(data[..], outputs);
    for i := 0 to outputsCount
      invariant next == outputs + OUTPUT_SIZE * i && next < API_BUFFER_SIZE_BYTES
      invariant forall k :: 0 <= k < i ==> OutputOk(data[..], idx + 2 + OUTPUT_SIZE * k)
      invariant totalAmount == SumAmounts(OutputsAt(data[..], outputs, i))
    {
      if !(next + OUTPUT_SIZE < API_BUFFER_SIZE_BYTES) {
        return false, next, outputs, outputsCount;
      }
      var amount := U64(data[..], next + 1);
      if data[next] != 3 || !(amount > 0) || data[next + 9] != 0 || data[next + 10] != 1
        || data[next + 11] != 0 || data[next + 12] != 0 || data[next + 45] != 0
      {
        assert !OutputOk(data[..], idx + 2 + OUTPUT_SIZE * i);
        return false, next, outputs, outputsCount;
      }
      SumOfOutputsAt(data[..], outputs, i + 1, i + 1);
      totalAmount := (totalAmount + amount) % TWO64;
      if !(totalAmount >= amount) {
        if idx + 2 + OUTPUT_SIZE * outputsCount < API_BUFFER_SIZE_BYTES {
          SumOfOutputsAt(data[..], outputs, i + 1, outputsCount);
        }
        return false, next, outputs, outputsCount;
      }
      next := next + OUTPUT_SIZE;
    }
    ok := true;
  }

  lemma NoOutputs(d: seq<byte>, o: nat)
    requires o <= |d|
    ensures SumAmounts(OutputsAt(d, o, 0)) == 0
  {}

  method ValidatePayload(data: array<byte>, idx: nat) returns (ok: bool, next: nat)
    requires data.Length == API_BUFFER_SIZE_BYTES
    ensures ok <==> PayloadSection(data[..], idx)
    ensures ok ==> next == idx + 4 + U32(data[..], idx)
  {
    hide U32;
    var payloadLength;
    ok, next, payloadLength := GetUint32(data, idx);
    if !ok {
      return;
    }
    if !(next < API_BUFFER_SIZE_BYTES && payloadLength < API_BUFFER_SIZE_BYTES
         && (next + payloadLength) % 0x1_0000_0000 < API_BUFFER_SIZE_BYTES)
    {
      return false, next;
    }
    next := next + payloadLength;
  }

  method ValidateSkipBytes(idx: nat, bytesToSkip: u16) returns (ok: bool, next: nat)
    ensures ok <==> idx + bytesToSkip < API_BUFFER_SIZE_BYTES
    ensures ok ==> next == idx + bytesToSkip
  {
    if !(idx + bytesToSkip < API_BUFFER_SIZE_BYTES) {
      return false, idx;
    }
    return true, idx + bytesToSkip;
  }

  /** Also the copy of this function in src/iota/blindsigning_stardust.c. */
  method ValidateInputsBip32(data: array<byte>, idx: nat, inputsCount: u16) returns (ok: bool, next: nat)
    requires data.Length == API_BUFFER_SIZE_BYTES && idx < API_BUFFER_SIZE_BYTES
    ensures ok <==> EntriesSection(data[..], idx, inputsCount)
    ensures ok ==> next == idx + ENTRY_SIZE * inputsCount
  {
    hide U32;
    next := idx;
    for i := 0 to inputsCount
      invariant next == idx + ENTRY_SIZE * i && next < API_BUFFER_SIZE_BYTES
      invariant forall k :: 0 <= k < i ==> EntryOk(data[..], idx + ENTRY_SIZE * k)
    {
      if !(next + ENTRY_SIZE < API_BUFFER_SIZE_BYTES) {
        return false, next;
      }
      if !Hardened(U32(data[..], next)) || !Hardened(U32(data[..], next + 4)) {
        assert !EntryOk(data[..], idx + ENTRY_SIZE * i);
        return false, next;
      }
      next := next + ENTRY_SIZE;
    }
    ok := true;
  }

  /** Comparing all 35 bytes compares the inputs, as the type bytes are zero. */
  lemma SameBytesSameInput(d: seq<byte>, o: nat, p: nat)
    requires o + INPUT_SIZE <= |d| && p + INPUT_SIZE <= |d| && InputOk(d, o) && InputOk(d, p)
    ensures d[o..o+INPUT_SIZE] == d[p..p+INPUT_SIZE] <==> InputAt(d, o) == InputAt(d, p)
  {
    hide U16, InputOk, InputAt, SerializeInput;
    SerializeInputAt(d, o);
    SerializeInputAt(d, p);
    if d[o..o+INPUT_SIZE] == d[p..p+INPUT_SIZE] {
      InputOkWellFormed(d, p);
      InputWritten(d, o, InputAt(d, p));
    }
  }

  method ValidateInputsDuplicates(data: array<byte>, inputs: nat, inputsCount: u16) returns (ok: bool)
    requires inputs + INPUT_SIZE * inputsCount <= data.Length
    requires forall i :: 0 <= i < inputsCount ==> InputOk(data[..], inputs + INPUT_SIZE * i)
    ensures ok <==> Distinct(InputsAt(data[..], inputs, inputsCount))
  {
    hide U16, InputOk, InputAt;
    if inputsCount < 2 {
      return true;
    }
    ghost var xs := InputsAt(data[..], inputs, inputsCount);
    for i := 0 to inputsCount
      invariant forall k, m :: 0 <= k < i && k < m < inputsCount ==> xs[k] != xs[m]
    {
      for j := i + 1 to inputsCount
        invariant forall k, m :: 0 <= k < i && k < m < inputsCount ==> xs[k] != xs[m]
        invariant forall m :: i < m < j ==> xs[i] != xs[m]
      {
        var o, p := inputs + INPUT_SIZE * i, inputs + INPUT_SIZE * j;
        SameBytesSameInput(data[..], o, p);
        if data[o..o+INPUT_SIZE] == data[p..p+INPUT_SIZE] {
          assert xs[i] == xs[j];
          return false;
        }
      }
    }
    return true;
  }

  /** `essence_verify_remainder_address`: also leaves the path at the remainder. */
  method EssenceVerifyRemainderAddress(api: Context, outputs: nat, outputsCount: u16,
                                       remainderIndex: u16, remainder: Entry)
    returns (ok: bool)
    requires api.Valid() && api.Disciplined()
    requires forall i :: 0 <= i < 3 ==> Hardened(api.bip32Path[i])
    requires outputs + OUTPUT_SIZE * outputsCount <= API_BUFFER_SIZE_BYTES
    modifies api`derivations, api.bip32Path
    ensures api.Disciplined()
    ensures ok <==> remainderIndex < outputsCount && EntryWellFormed(remainder)
                    && AddressOf(api.crypto, WithEntry(old(api.bip32Path[..]), remainder))
                       == Some(OutputAddress(api.buffer[..], outputs, remainderIndex))
    ensures ok ==> api.bip32Path[..] == WithEntry(old(api.bip32Path[..]), remainder)
  {
    hide AddressOf;
    if !(remainderIndex < outputsCount) {
      return false;
    }
    if !Hardened(remainder.change) || !Hardened(remainder.index) {
      return false;
    }
    var tmp := new byte[ADDRESS_WITH_TYPE_SIZE_BYTES](_ => 0);
    api.bip32Path[BIP32_ADDRESS_INDEX] := remainder.index;
    api.bip32Path[BIP32_CHANGE_INDEX] := remainder.change;
    assert api.bip32Path[..] == WithEntry(old(api.bip32Path[..]), remainder);
    ok := AddressGenerate(api, api.bip32Path, tmp, 0);
    if !ok {
      return;
    }
    assert tmp[..] == tmp[0..33];
    ok := OutputAddress(api.buffer[..], outputs, remainderIndex) == tmp[..];
  }

  method EssenceHash(api: Context) returns (ok: bool)
    requires api.Valid() && api.essence.length <= API_BUFFER_SIZE_BYTES
    modifies api`essence
    ensures ok <==> api.crypto.blake2b(api.buffer[..old(api.essence.length)]).Some?
    ensures ok ==> api.essence
                   == old(api.essence).(hash := api.crypto.blake2b(api.buffer[..old(api.essence.length)]).value)
  {
    match api.crypto.blake2b(api.buffer[..api.essence.length])
    case None => ok := false;
    case Some(h) =>
      api.essence := api.essence.(hash := h);
      ok := true;
  }

  /** The parsing part: everything that depends on the buffer alone but the
      duplicate check. On failure some fields may already be written. */
  method ParseSections(api: Context) returns (ok: bool, ghost l: Layout)
    requires api.Valid()
    modifies api`essence, api`dataLength
    ensures ok <==> SectionsOk(api.buffer[..], l)
    ensures !ok ==> forall l' :: !SectionsOk(api.buffer[..], l')
    ensures ok ==> api.dataLength == l.dataLength
    ensures ok ==> api.essence == old(api.essence).(
      inputsCount := l.inputs, length := l.essenceLength, inputs := Some(l.inputsAt),
      outputsCount := l.outputs, outputs := Some(l.outputsAt), entries := Some(l.essenceLength))
  {
    hide InputsSection, OutputsSection, PayloadSection, EntriesSection, U16, U32;
    l := Layout(0, 0, 0);
    SectionBounds(api.buffer[..]);
    var idx: nat, transactionEssenceType;
    ok, idx, transactionEssenceType := GetUint8(api.buffer, 0);
    if !ok || transactionEssenceType != 1 {
      return false, l;
    }
    ok, idx := ValidateSkipBytes(idx, 8);
    assert ok && idx == 9;
    var inputs, inputsCount;
    ok, idx, inputs, inputsCount := ValidateInputs(api.buffer, idx);
    if !ok {
      return;
    }
    api.essence := api.essence.(inputs := Some(inputs), inputsCount := inputsCount);
    l := Layout(inputsCount, 0, 0);
    ok, idx := ValidateSkipBytes(idx, 32);
    if !ok {
      return;
    }
    assert idx == l.outputCountAt;
    var outputs, outputsCount;
    ok, idx, outputs, outputsCount := ValidateOutputs(api.buffer, idx);
    if !ok {
      return;
    }
    api.essence := api.essence.(outputs := Some(outputs), outputsCount := outputsCount);
    l := Layout(inputsCount, outputsCount, 0);
    assert idx == l.payloadLengthAt;
    ok, idx := ValidatePayload(api.buffer, idx);
    if !ok {
      return;
    }
    l := Layout(inputsCount, outputsCount, U32(api.buffer[..], l.payloadLengthAt));
    assert idx == l.essenceLength;
    api.essence := api.essence.(length := idx, entries := Some(idx));
    ok, idx := ValidateInputsBip32(api.buffer, idx, inputsCount);
    if !ok {
      return;
    }
    api.dataLength := idx;
  }

  /** `HasLayout` without the duplicate check. */
  ghost predicate SectionsOk(d: buffer, l: Layout) {
    && d[0] == 1
    && InputsSection(d, 9) && U16(d, 9) == l.inputs
    && OutputsSection(d, l.outputCountAt) && U16(d, l.outputCountAt) == l.outputs
    && PayloadSection(d, l.payloadLengthAt) && U32(d, l.payloadLengthAt) == l.payload
    && EntriesSection(d, l.essenceLength, l.inputs)
  }

  lemma SectionBounds(d: buffer)
    ensures forall o: nat :: InputsSection(d, o) ==> o + 2 + INPUT_SIZE * U16(d, o) < |d|
    ensures forall o: nat :: OutputsSection(d, o) ==> o + 2 + OUTPUT_SIZE * U16(d, o) < |d|
    ensures forall o: nat :: PayloadSection(d, o) ==> o + 4 + U32(d, o) < |d|
    ensures forall o: nat, n: nat :: EntriesSection(d, o, n) ==> o + ENTRY_SIZE * n < |d|
  {}

  /** `essence_parse_and_validate_stardust` accepts exactly the buffers that have a
      layout, a verified remainder where one is announced, and a hash. */
  method EssenceParseAndValidateStardust(api: Context) returns (ok: bool, ghost l: Layout)
    requires api.Valid() && api.Disciplined()
    requires forall i :: 0 <= i < 3 ==> Hardened(api.bip32Path[i])
    modifies api`derivations, api`essence, api`dataLength, api.bip32Path
    ensures api.Disciplined()
    ensures ok <==> EssenceAccepted(api.crypto, old(api.State()), l)
    ensures !ok ==> forall l' :: !EssenceAccepted(api.crypto, old(api.State()), l')
    ensures ok ==> api.State() == EssenceParsed(api.crypto, old(api.State()), l)
  {
    hide AddressOf, InputsSection, OutputsSection, PayloadSection, EntriesSection, StaysInWallet, Distinct,
      InputsAt, RemainderVerified, U16, U32;
    ghost var a := api.State();
    ok, l := ParseSections(api);
    if !ok {
      NoSectionsNoLayout(a.buffer);
      return;
    }
    SectionsLayout(a.buffer, l);
    if api.essence.hasRemainder {
      RemainderMeaning(api.crypto, a, l);
      ok := EssenceVerifyRemainderAddress(api, api.essence.outputs.value, api.essence.outputsCount,
                                          api.essence.remainderIndex, api.essence.remainder);
      if !ok {
        return;
      }
    }
    ok := ValidateInputsDuplicates(api.buffer, api.essence.inputs.value, api.essence.inputsCount);
    if !ok {
      return;
    }
    ok := EssenceHash(api);
    if !ok {
      return;
    }
    var internal := CheckForInternalTransfer(api, l);
    InternalOfPath(api.crypto, a, api.State(), l);
    if internal {
      api.essence := api.essence.(isInternalTransfer := true);
    }
  }

  lemma NoSectionsNoLayout(d: buffer)
    requires forall l :: !SectionsOk(d, l)
    ensures forall l :: !HasLayout(d, l)
  {
    forall l
      ensures !HasLayout(d, l)
    {
      assert !SectionsOk(d, l);
    }
  }

  lemma SectionsLayout(d: buffer, l: Layout)
    requires SectionsOk(d, l)
    ensures HasLayout(d, l) <==> Distinct(InputsAt(d, l.inputsAt, l.inputs))
    ensures l.dataLength < |d|
    ensures forall i :: 0 <= i < l.inputs ==> InputOk(d, l.inputsAt + INPUT_SIZE * i)
    ensures forall l' :: HasLayout(d, l') ==> l' == l
  {
    hide InputOk, OutputOk, EntryOk, Distinct, InputsAt;
    forall l' | HasLayout(d, l')
      ensures l' == l
    {
      assert l'.inputs == l.inputs;
      assert l'.outputs == l.outputs;
    }
  }

  lemma RemainderMeaning(c: Crypto, a: Api, l: Layout)
    requires SectionsOk(a.buffer, l)
    ensures l.outputsAt + OUTPUT_SIZE * l.outputs <= API_BUFFER_SIZE_BYTES
    ensures HasLayout(a.buffer, l) ==>
      (RemainderVerified(c, a, l) <==>
        a.essence.remainderIndex < l.outputs && EntryWellFormed(a.essence.remainder)
        && AddressOf(c, WithEntry(a.path, a.essence.remainder))
           == Some(OutputAddress(a.buffer, l.outputsAt, a.essence.remainderIndex)))
  {
    hide HasLayout, AddressOf, InputOk, OutputOk, EntryOk;
  }

  /** The search for an owner sees only the first three path entries. */
  lemma InternalOfPath(c: Crypto, a: Api, b: Api, l: Layout)
    requires HasLayout(a.buffer, l) && b.buffer == a.buffer && b.appMode == a.appMode
    requires b.essence.hasRemainder == a.essence.hasRemainder && b.path[..3] == a.path[..3]
    ensures StaysInWallet(c, a, l) <==> StaysInWallet(c, b, l)
  {
    hide HasLayout, AddressOf;
    assert a.path[0] == a.path[..3][0] && a.path[1] == a.path[..3][1] && a.path[2] == a.path[..3][2];
    assert b.path[0] == b.path[..3][0] && b.path[1] == b.path[..3][1] && b.path[2] == b.path[..3][2];
    assert forall e: Entry :: WithEntry(a.path, e) == WithEntry(b.path, e);
    LayoutBounds(a.buffer, l);
    var table, out := EntriesAt(a.buffer, l.essenceLength, l.inputs), OutputAddress(a.buffer, l.outputsAt, 0);
    forall i
      ensures FirstOwner(c, a.path, table, out, i) <==> FirstOwner(c, b.path, table, out, i)
    {
    }
  }
}
