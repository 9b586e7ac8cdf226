/** Model of src/iota/internal_transfer.c. */
module InternalTransfer {
  import opened Bytes
  import opened Config
  import opened Essence
  import opened Address
  import opened ApiState
  import opened ApiCtx

  method CheckForInternalTransfer(api: Context, ghost l: Layout) returns (r: bool)
    requires api.Valid() && api.Disciplined() && HasLayout(api.buffer[..], l)
    requires api.essence.outputsCount == l.outputs && api.essence.outputs == Some(l.outputsAt)
    requires api.essence.inputsCount == l.inputs && api.essence.entries == Some(l.essenceLength)
    requires forall i :: 0 <= i < 3 ==> Hardened(api.bip32Path[i])
    modifies api`derivations
    ensures api.Disciplined()
    ensures r <==> StaysInWallet(api.crypto, api.State(), l)
  {
    hide HasLayout, AddressOf, U32, EntryAt, EntryOk, EntriesAt, OutputAddress;
    ghost var d, e, a := api.buffer[..], l.essenceLength, api.State();
    LayoutBounds(d, l);
    if !(api.essence.outputsCount == 1 && !api.essence.hasRemainder) {
      return false;
    }
    if api.appMode == APP_MODE_SHIMMER_CLAIMING {
      return false;
    }
    var output := OutputAddress(api.buffer[..], api.essence.outputs.value, 0);
    var entries := api.essence.entries.value;
    var tmp := new u32[BIP32_PATH_LEN];
    forall i | 0 <= i < BIP32_PATH_LEN {
      tmp[i] := api.bip32Path[i];
    }
    var input := new byte[ADDRESS_WITH_TYPE_SIZE_BYTES](_ => 0);
    ghost var table := EntriesAt(d, e, l.inputs);
    for i := 0 to api.essence.inputsCount
      invariant api.Disciplined() && api.State() == a
      invariant tmp[..3] == a.path[..3]
      invariant NotYet(api.crypto, a.path, table, output, i)
    {
      TableEntry(d, l, i);
      var entry := EntryAt(api.buffer[..], entries + ENTRY_SIZE * i);
      tmp[BIP32_ADDRESS_INDEX] := entry.index;
      tmp[BIP32_CHANGE_INDEX] := entry.change;
      assert tmp[..] == WithEntry(a.path, entry);
      var ok := AddressGenerate(api, tmp, input, 0);
      if !ok {
        NoOwner(api.crypto, a.path, table, output, i);
        return false;
      }
      assert input[..] == input[0..33];
      if output == input[..] {
        assert FirstOwner(api.crypto, a.path, table, output, i);
        return true;
      }
    }
    return false;
  }

  lemma TableEntry(d: buffer, l: Layout, i: nat)
    requires HasLayout(d, l) && i < l.inputs
    ensures l.essenceLength + ENTRY_SIZE * l.inputs <= |d|
    ensures EntriesAt(d, l.essenceLength, l.inputs)[i] == EntryAt(d, l.essenceLength + ENTRY_SIZE * i)
    ensures EntryWellFormed(EntryAt(d, l.essenceLength + ENTRY_SIZE * i))
  {
    hide HasLayout, U32, EntryAt, EntryOk, EntryWellFormed;
    LayoutBounds(d, l);
    assert EntryOk(d, l.essenceLength + ENTRY_SIZE * i);
    EntryOkWellFormed(d, l.essenceLength + ENTRY_SIZE * i);
  }

  /** The first `n` entries derive addresses other than `out`. */
  predicate NotYet(c: Crypto, p: path, table: seq<Entry>, out: address, n: nat) {
    n <= |table| && forall k :: 0 <= k < n ==>
      AddressOf(c, WithEntry(p, table[k])).Some? && AddressOf(c, WithEntry(p, table[k])) != Some(out)
  }

  lemma LayoutBounds(d: buffer, l: Layout)
    requires HasLayout(d, l)
    ensures l.dataLength < |d| && l.outputsAt + OUTPUT_SIZE * l.outputs <= |d|
    ensures 1 <= l.inputs <= 128 && 1 <= l.outputs <= 128
    ensures forall i :: 0 <= i < l.inputs ==> EntryOk(d, l.essenceLength + ENTRY_SIZE * i)
  {}

  /** A derivation that fails ends the search without an owner. */
  lemma NoOwner(c: Crypto, p: path, table: seq<Entry>, out: address, i: nat)
    requires i < |table| && AddressOf(c, WithEntry(p, table[i])) == None
    requires NotYet(c, p, table, out, i)
    ensures !Owned(c, p, table, out)
  {
    hide AddressOf;
  }
}
