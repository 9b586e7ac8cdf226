/** The transaction essence of TIP-0020 with basic outputs of TIP-0018, in the one
    shape the device accepts, followed by one BIP32 entry for each input: what such
    a message is, how it is written, and where its parts lie. */
module Essence {
  import opened Bytes
  import opened Config

  const INPUT_SIZE := 35
  const OUTPUT_SIZE := 46
  const ENTRY_SIZE := 8

  datatype Input = Input(transactionId: seq<byte>, outputIndex: u16)
  datatype Output = Output(amount: u64, pubkeyHash: seq<byte>)
  datatype Entry = Entry(index: u32, change: u32)
  datatype Essence = Essence(
    networkId: seq<byte>, inputs: seq<Input>, commitment: seq<byte>,
    outputs: seq<Output>, payload: seq<byte>)

  /** The BIP32 entry of the first address. */
  const FIRST_ENTRY := Entry(0x8000_0000, 0x8000_0000)

  // -------------------------------------------------------------------- grammar

  predicate InputWellFormed(i: Input) {
    |i.transactionId| == 32 && i.outputIndex < OUTPUTS_MAX_COUNT
  }

  predicate OutputWellFormed(o: Output) { o.amount > 0 && |o.pubkeyHash| == 32 }

  predicate EntryWellFormed(b: Entry) { Hardened(b.index) && Hardened(b.change) }

  function SumAmounts(outputs: seq<Output>): nat {
    if |outputs| == 0 then 0 else SumAmounts(outputs[..|outputs|-1]) + outputs[|outputs|-1].amount
  }

  predicate Distinct<T(==)>(xs: seq<T>) {
    forall i, j :: 0 <= i < j < |xs| ==> xs[i] != xs[j]
  }

  predicate WellFormed(e: Essence) {
    && |e.networkId| == 8 && |e.commitment| == 32
    && INPUTS_MIN_COUNT <= |e.inputs| <= INPUTS_MAX_COUNT
    && (forall i :: 0 <= i < |e.inputs| ==> InputWellFormed(e.inputs[i]))
    && Distinct(e.inputs)
    && OUTPUTS_MIN_COUNT <= |e.outputs| <= OUTPUTS_MAX_COUNT
    && (forall i :: 0 <= i < |e.outputs| ==> OutputWellFormed(e.outputs[i]))
    && SumAmounts(e.outputs) < TWO64
  }

  function SerializeInput(i: Input): seq<byte> { [0] + i.transactionId + ToLe(i.outputIndex, 2) }

  /** Output type 3, amount, no native tokens, one address unlock condition for an
      ed25519 address, no feature blocks. */
  function SerializeOutput(o: Output): seq<byte> {
    [3] + ToLe(o.amount, 8) + [0, 1, 0, 0] + o.pubkeyHash + [0]
  }

  function SerializeEntry(b: Entry): seq<byte> { ToLe(b.index, 4) + ToLe(b.change, 4) }

  /** Records written one after the other. */
  function Concat<T>(write: T -> seq<byte>, xs: seq<T>): seq<byte> {
    if |xs| == 0 then [] else Concat(write, xs[..|xs|-1]) + write(xs[|xs|-1])
  }

  function SerializeInputs(xs: seq<Input>): seq<byte> { Concat(SerializeInput, xs) }

  function SerializeOutputs(xs: seq<Output>): seq<byte> { Concat(SerializeOutput, xs) }

  function SerializeEntries(xs: seq<Entry>): seq<byte> { Concat(SerializeEntry, xs) }

  function Serialize(e: Essence): seq<byte> {
    [1] + e.networkId + ToLe(|e.inputs|, 2) + SerializeInputs(e.inputs) + e.commitment
    + ToLe(|e.outputs|, 2) + SerializeOutputs(e.outputs) + ToLe(|e.payload|, 4) + e.payload
  }

  /** The buffer starts with the message, and at least one byte is left over. */
  predicate StartsWith(d: buffer, e: Essence, bs: seq<Entry>) {
    && WellFormed(e)
    && |bs| == |e.inputs|
    && (forall i :: 0 <= i < |bs| ==> EntryWellFormed(bs[i]))
    && |Serialize(e) + SerializeEntries(bs)| < |d|
    && Serialize(e) + SerializeEntries(bs) <= d
  }

  // --------------------------------------------------------------------- layout

  /** The three variable lengths; every position follows from them. */
  datatype Layout = Layout(inputs: nat, outputs: nat, payload: nat) {
    const inputsAt := 11
    const commitmentAt := 11 + INPUT_SIZE * inputs
    const outputCountAt := commitmentAt + 32
    const outputsAt := outputCountAt + 2
    const payloadLengthAt := outputsAt + OUTPUT_SIZE * outputs
    const essenceLength := payloadLengthAt + 4 + payload
    const dataLength := essenceLength + ENTRY_SIZE * inputs
  }

  predicate InputOk(d: seq<byte>, o: nat)
    requires o + INPUT_SIZE <= |d|
  {
    d[o] == 0 && U16(d, o + 33) < OUTPUTS_MAX_COUNT
  }

  predicate OutputOk(d: seq<byte>, o: nat)
    requires o + OUTPUT_SIZE <= |d|
  {
    d[o] == 3 && U64(d, o + 1) > 0 && d[o + 9] == 0 && d[o + 10] == 1 && d[o + 11] == 0
    && d[o + 12] == 0 && d[o + 45] == 0
  }

  predicate EntryOk(d: seq<byte>, o: nat)
    requires o + ENTRY_SIZE <= |d|
  {
    Hardened(U32(d, o)) && Hardened(U32(d, o + 4))
  }

  function InputAt(d: seq<byte>, o: nat): Input
    requires o + INPUT_SIZE <= |d|
  {
    Input(d[o+1..o+33], U16(d, o + 33))
  }

  function OutputAt(d: seq<byte>, o: nat): Output
    requires o + OUTPUT_SIZE <= |d|
  {
    Output(U64(d, o + 1), d[o+13..o+45])
  }

  function EntryAt(d: seq<byte>, o: nat): Entry
    requires o + ENTRY_SIZE <= |d|
  {
    Entry(U32(d, o), U32(d, o + 4))
  }

  function InputsAt(d: seq<byte>, o: nat, n: nat): (xs: seq<Input>)
    requires o + INPUT_SIZE * n <= |d|
    ensures |xs| == n
  {
    seq(n, i requires 0 <= i < n => InputAt(d, o + INPUT_SIZE * i))
  }

  function OutputsAt(d: seq<byte>, o: nat, n: nat): (xs: seq<Output>)
    requires o + OUTPUT_SIZE * n <= |d|
    ensures |xs| == n
  {
    seq(n, i requires 0 <= i < n => OutputAt(d, o + OUTPUT_SIZE * i))
  }

  function EntriesAt(d: seq<byte>, o: nat, n: nat): (xs: seq<Entry>)
    requires o + ENTRY_SIZE * n <= |d|
    ensures |xs| == n
  {
    seq(n, i requires 0 <= i < n => EntryAt(d, o + ENTRY_SIZE * i))
  }

  /** The sections as the cursor meets them. */
  predicate InputsSection(d: buffer, o: nat) {
    o + 2 < |d| && INPUTS_MIN_COUNT <= U16(d, o) <= INPUTS_MAX_COUNT
    && o + 2 + INPUT_SIZE * U16(d, o) < |d|
    && forall i :: 0 <= i < U16(d, o) ==> InputOk(d, o + 2 + INPUT_SIZE * i)
  }

  predicate OutputsSection(d: buffer, o: nat) {
    o + 2 < |d| && OUTPUTS_MIN_COUNT <= U16(d, o) <= OUTPUTS_MAX_COUNT
    && o + 2 + OUTPUT_SIZE * U16(d, o) < |d|
    && (forall i :: 0 <= i < U16(d, o) ==> OutputOk(d, o + 2 + OUTPUT_SIZE * i))
    && SumAmounts(OutputsAt(d, o + 2, U16(d, o))) < TWO64
  }

  predicate PayloadSection(d: buffer, o: nat) { o + 4 < |d| && o + 4 + U32(d, o) < |d| }

  predicate EntriesSection(d: buffer, o: nat, n: nat) {
    o + ENTRY_SIZE * n < |d| && forall i :: 0 <= i < n ==> EntryOk(d, o + ENTRY_SIZE * i)
  }

  /** `d` is laid out as `l` says, every field has an accepted value and no input
      occurs twice. */
  predicate HasLayout(d: buffer, l: Layout) {
    && d[0] == 1
    && InputsSection(d, 9) && U16(d, 9) == l.inputs
    && OutputsSection(d, l.outputCountAt) && U16(d, l.outputCountAt) == l.outputs
    && PayloadSection(d, l.payloadLengthAt) && U32(d, l.payloadLengthAt) == l.payload
    && EntriesSection(d, l.essenceLength, l.inputs)
    && Distinct(InputsAt(d, l.inputsAt, l.inputs))
  }

  function EssenceAt(d: buffer, l: Layout): Essence
    requires HasLayout(d, l)
  {
    Essence(d[1..9], InputsAt(d, l.inputsAt, l.inputs), d[l.commitmentAt..l.outputCountAt],
            OutputsAt(d, l.outputsAt, l.outputs), d[l.payloadLengthAt+4..l.essenceLength])
  }

  /** A buffer has at most one layout. */
  lemma LayoutUnique(d: buffer, l: Layout, l': Layout)
    requires HasLayout(d, l) && HasLayout(d, l')
    ensures l == l'
  {
    hide InputsSection, OutputsSection, PayloadSection, EntriesSection, Distinct, InputsAt, U16, U32;
    assert l.inputs == l'.inputs;
    assert l.outputs == l'.outputs;
  }

  // ------------------------------------------------- reading what the layout says

  lemma ToLeOfU16(d: seq<byte>, o: nat)
    requires o + 2 <= |d|
    ensures ToLe(U16(d, o), 2) == d[o..o+2]
  {
    ToLeOfLe(d[o..o+2]);
  }

  lemma ToLeOfU32(d: seq<byte>, o: nat)
    requires o + 4 <= |d|
    ensures ToLe(U32(d, o), 4) == d[o..o+4]
  {
    ToLeOfLe(d[o..o+4]);
  }

  lemma ToLeOfU64(d: seq<byte>, o: nat)
    requires o + 8 <= |d|
    ensures ToLe(U64(d, o), 8) == d[o..o+8]
  {
    ToLeOfLe(d[o..o+8]);
  }

  lemma SerializeInputAt(d: seq<byte>, o: nat)
    requires o + INPUT_SIZE <= |d| && InputOk(d, o)
    ensures SerializeInput(InputAt(d, o)) == d[o..o+INPUT_SIZE]
  {
    hide ToLe, U16;
    ToLeOfU16(d, o + 33);
  }

  lemma SerializeOutputAt(d: seq<byte>, o: nat)
    requires o + OUTPUT_SIZE <= |d| && OutputOk(d, o)
    ensures SerializeOutput(OutputAt(d, o)) == d[o..o+OUTPUT_SIZE]
  {
    hide ToLe, U64;
    ToLeOfU64(d, o + 1);
  }

  lemma SerializeEntryAt(d: seq<byte>, o: nat)
    requires o + ENTRY_SIZE <= |d|
    ensures SerializeEntry(EntryAt(d, o)) == d[o..o+ENTRY_SIZE]
  {
    hide ToLe, U32;
    ToLeOfU32(d, o);
    ToLeOfU32(d, o + 4);
  }

  /** Record `i` of a section of records of one size. */
  function RecordAt(d: seq<byte>, o: nat, size: nat, i: nat): seq<byte> {
    var p := o + size * i;
    if p + size <= |d| then d[p..p+size] else []
  }

  lemma {:induction false} ConcatLength<T>(write: T -> seq<byte>, size: nat, xs: seq<T>)
    requires forall i :: 0 <= i < |xs| ==> |write(xs[i])| == size
    ensures |Concat(write, xs)| == size * |xs|
  {
    if |xs| == 0 {
    } else {
      var n := |xs| - 1;
      ConcatLength(write, size, xs[..n]);
      assert |write(xs[n])| == size;
      assert size * (n + 1) == size * n + size;
    }
  }

  /** A section is the records written one after the other if and only if each record
      is in its place. */
  lemma {:induction false} ConcatIffRecords<T>(write: T -> seq<byte>, size: nat, xs: seq<T>, d: seq<byte>, o: nat)
    requires forall i :: 0 <= i < |xs| ==> |write(xs[i])| == size
    requires o + size * |xs| <= |d|
    ensures d[o..o+size*|xs|] == Concat(write, xs)
       <==> forall i :: 0 <= i < |xs| ==> RecordAt(d, o, size, i) == write(xs[i])
  {
    hide RecordAt;
    if |xs| == 0 {
    } else {
      var n := |xs| - 1;
      assert size * |xs| == size * n + size;
      ConcatIffRecords(write, size, xs[..n], d, o);
      ConcatLength(write, size, xs[..n]);
      assert |write(xs[n])| == size;
      LastRecord(d, o, size, n, Concat(write, xs[..n]), write(xs[n]));
      assert forall i :: 0 <= i < n ==> xs[..n][i] == xs[i];
    }
  }

  lemma LastRecord(d: seq<byte>, o: nat, size: nat, n: nat, s: seq<byte>, t: seq<byte>)
    requires o + size * n + size <= |d| && |s| == size * n && |t| == size
    ensures d[o..o+size*n+size] == s + t <==> d[o..o+size*n] == s && RecordAt(d, o, size, n) == t
  {
    SplitIff(d[o..o+size*n+size], s, t);
    SubSlice(d, o, size * n + size, 0, size * n);
    SubSlice(d, o, size * n + size, size * n, size * n + size);
  }

  lemma SplitIff(d: seq<byte>, s: seq<byte>, t: seq<byte>)
    requires |d| == |s| + |t|
    ensures d == s + t <==> d[..|s|] == s && d[|s|..] == t
  {}

  lemma SerializeInputsAt(d: seq<byte>, o: nat, n: nat)
    requires o + INPUT_SIZE * n <= |d|
    requires forall i :: 0 <= i < n ==> InputOk(d, o + INPUT_SIZE * i)
    ensures SerializeInputs(InputsAt(d, o, n)) == d[o..o+INPUT_SIZE*n]
  {
    hide SerializeInput, InputAt, InputOk;
    forall i | 0 <= i < n
      ensures SerializeInput(InputsAt(d, o, n)[i]) == RecordAt(d, o, INPUT_SIZE, i)
    {
      SerializeInputAt(d, o + INPUT_SIZE * i);
    }
    ConcatIffRecords(SerializeInput, INPUT_SIZE, InputsAt(d, o, n), d, o);
  }

  lemma SerializeOutputsAt(d: seq<byte>, o: nat, n: nat)
    requires o + OUTPUT_SIZE * n <= |d|
    requires forall i :: 0 <= i < n ==> OutputOk(d, o + OUTPUT_SIZE * i)
    ensures SerializeOutputs(OutputsAt(d, o, n)) == d[o..o+OUTPUT_SIZE*n]
  {
    hide SerializeOutput, OutputAt, OutputOk;
    forall i | 0 <= i < n
      ensures SerializeOutput(OutputsAt(d, o, n)[i]) == RecordAt(d, o, OUTPUT_SIZE, i)
    {
      SerializeOutputAt(d, o + OUTPUT_SIZE * i);
    }
    ConcatIffRecords(SerializeOutput, OUTPUT_SIZE, OutputsAt(d, o, n), d, o);
  }

  lemma SerializeEntriesAt(d: seq<byte>, o: nat, n: nat)
    requires o + ENTRY_SIZE * n <= |d|
    ensures SerializeEntries(EntriesAt(d, o, n)) == d[o..o+ENTRY_SIZE*n]
  {
    hide SerializeEntry, EntryAt;
    forall i | 0 <= i < n
      ensures SerializeEntry(EntriesAt(d, o, n)[i]) == RecordAt(d, o, ENTRY_SIZE, i)
    {
      SerializeEntryAt(d, o + ENTRY_SIZE * i);
    }
    ConcatIffRecords(SerializeEntry, ENTRY_SIZE, EntriesAt(d, o, n), d, o);
  }

  lemma Extend(d: seq<byte>, i: nat, j: nat)
    requires i <= j <= |d|
    ensures d[..i] + d[i..j] == d[..j]
  {}

  lemma SerializeFromParts(e: Essence, d: seq<byte>, a: nat, b: nat, c: nat, f: nat, g: nat, h: nat)
    requires 11 <= a <= b <= c <= f <= g <= h <= |d|
    requires d[0] == 1 && e.networkId == d[1..9] && ToLe(|e.inputs|, 2) == d[9..11]
    requires SerializeInputs(e.inputs) == d[11..a] && e.commitment == d[a..b]
    requires ToLe(|e.outputs|, 2) == d[b..c] && SerializeOutputs(e.outputs) == d[c..f]
    requires ToLe(|e.payload|, 4) == d[f..g] && e.payload == d[g..h]
    ensures Serialize(e) == d[..h]
  {
    hide ToLe, SerializeInputs, SerializeOutputs;
    assert [1] == d[..1];
    Extend(d, 1, 9);
    Extend(d, 9, 11);
    Extend(d, 11, a);
    Extend(d, a, b);
    Extend(d, b, c);
    Extend(d, c, f);
    Extend(d, f, g);
    Extend(d, g, h);
  }

  lemma SerializeAt(d: buffer, l: Layout)
    requires HasLayout(d, l)
    ensures Serialize(EssenceAt(d, l)) == d[..l.essenceLength]
  {
    hide U16, U32, ToLe, SerializeInputs, SerializeOutputs, SumAmounts, InputOk, OutputOk, EntryOk,
      Distinct, InputsAt, OutputsAt, Serialize;
    ToLeOfU16(d, 9);
    SerializeInputsAt(d, l.inputsAt, l.inputs);
    ToLeOfU16(d, l.outputCountAt);
    SerializeOutputsAt(d, l.outputsAt, l.outputs);
    ToLeOfU32(d, l.payloadLengthAt);
    SerializeFromParts(EssenceAt(d, l), d, l.commitmentAt, l.outputCountAt, l.outputsAt,
                       l.payloadLengthAt, l.payloadLengthAt + 4, l.essenceLength);
  }

  lemma InputOkWellFormed(d: seq<byte>, o: nat)
    requires o + INPUT_SIZE <= |d|
    ensures InputOk(d, o) ==> InputWellFormed(InputAt(d, o))
  {
    hide U16;
  }

  lemma OutputOkWellFormed(d: seq<byte>, o: nat)
    requires o + OUTPUT_SIZE <= |d|
    ensures OutputOk(d, o) ==> OutputWellFormed(OutputAt(d, o))
  {
    hide U64;
  }

  lemma EntryOkWellFormed(d: seq<byte>, o: nat)
    requires o + ENTRY_SIZE <= |d|
    ensures EntryOk(d, o) <==> EntryWellFormed(EntryAt(d, o))
  {
    hide U32;
  }

  lemma EntriesWellFormed(d: seq<byte>, o: nat, n: nat)
    requires o + ENTRY_SIZE * n <= |d|
    ensures (forall i :: 0 <= i < n ==> EntryOk(d, o + ENTRY_SIZE * i))
       <==> (forall i :: 0 <= i < n ==> EntryWellFormed(EntriesAt(d, o, n)[i]))
  {
    hide EntryOk, EntryWellFormed, EntryAt;
    if forall i :: 0 <= i < n ==> EntryOk(d, o + ENTRY_SIZE * i) {
      forall i | 0 <= i < n
        ensures EntryWellFormed(EntriesAt(d, o, n)[i])
      {
        EntryOkWellFormed(d, o + ENTRY_SIZE * i);
      }
    }
    if forall i :: 0 <= i < n ==> EntryWellFormed(EntriesAt(d, o, n)[i]) {
      forall i | 0 <= i < n
        ensures EntryOk(d, o + ENTRY_SIZE * i)
      {
        assert EntryWellFormed(EntriesAt(d, o, n)[i]);
        EntryOkWellFormed(d, o + ENTRY_SIZE * i);
      }
    }
  }

  lemma WellFormedAt(d: buffer, l: Layout)
    requires HasLayout(d, l)
    ensures WellFormed(EssenceAt(d, l))
  {
    hide U16, U32, SumAmounts, Distinct, InputOk, OutputOk, EntryOk, InputAt, OutputAt,
      InputWellFormed, OutputWellFormed;
    forall i | 0 <= i < l.inputs
      ensures InputWellFormed(InputsAt(d, l.inputsAt, l.inputs)[i])
    {
      InputOkWellFormed(d, l.inputsAt + INPUT_SIZE * i);
    }
    forall i | 0 <= i < l.outputs
      ensures OutputWellFormed(OutputsAt(d, l.outputsAt, l.outputs)[i])
    {
      OutputOkWellFormed(d, l.outputsAt + OUTPUT_SIZE * i);
    }
  }

  /** A laid out buffer starts with the message read from it. */
  lemma LayoutStartsWith(d: buffer, l: Layout)
    requires HasLayout(d, l)
    ensures StartsWith(d, EssenceAt(d, l), EntriesAt(d, l.essenceLength, l.inputs))
    ensures Serialize(EssenceAt(d, l)) == d[..l.essenceLength]
    ensures Serialize(EssenceAt(d, l)) + SerializeEntries(EntriesAt(d, l.essenceLength, l.inputs))
         == d[..l.dataLength]
  {
    hide U16, U32, Serialize, SerializeEntries, WellFormed, InputsSection, OutputsSection, PayloadSection,
      EntryWellFormed, Distinct, InputsAt, EntriesAt;
    SerializeAt(d, l);
    WellFormedAt(d, l);
    EntriesWellFormed(d, l.essenceLength, l.inputs);
    SerializeEntriesAt(d, l.essenceLength, l.inputs);
    Extend(d, l.essenceLength, l.dataLength);
  }

  // --------------------------------------------- laying out what has been written

  lemma Peel(d: seq<byte>, s: seq<byte>, t: seq<byte>)
    requires |s + t| <= |d| && d[..|s + t|] == s + t
    ensures d[..|s|] == s && d[|s|..|s|+|t|] == t
  {
    assert d[..|s|] == d[..|s + t|][..|s|];
    assert d[|s|..|s|+|t|] == d[..|s + t|][|s|..];
  }

  lemma SubSlice(d: seq<byte>, o: nat, n: nat, i: nat, j: nat)
    requires i <= j <= n && o + n <= |d|
    ensures d[o..o+n][i..j] == d[o+i..o+j]
  {
    var s, t := d[o..o+n][i..j], d[o+i..o+j];
    assert forall k :: 0 <= k < |s| ==> s[k] == t[k];
  }

  lemma U16OfToLe(d: seq<byte>, o: nat, v: u16)
    requires o + 2 <= |d| && d[o..o+2] == ToLe(v, 2)
    ensures U16(d, o) == v
  {
    Powers();
    LeOfToLe(v, 2);
  }

  lemma U32OfToLe(d: seq<byte>, o: nat, v: u32)
    requires o + 4 <= |d| && d[o..o+4] == ToLe(v, 4)
    ensures U32(d, o) == v
  {
    Powers();
    LeOfToLe(v, 4);
  }

  lemma U64OfToLe(d: seq<byte>, o: nat, v: u64)
    requires o + 8 <= |d| && d[o..o+8] == ToLe(v, 8)
    ensures U64(d, o) == v
  {
    Powers();
    LeOfToLe(v, 8);
  }

  lemma InputWritten(d: seq<byte>, o: nat, x: Input)
    requires InputWellFormed(x) && o + INPUT_SIZE <= |d| && d[o..o+INPUT_SIZE] == SerializeInput(x)
    ensures InputOk(d, o) && InputAt(d, o) == x
  {
    hide ToLe, U16;
    var r := d[o..o+INPUT_SIZE];
    assert d[o] == r[0] && d[o+1..o+33] == r[1..33] && d[o+33..o+35] == r[33..35];
    U16OfToLe(d, o + 33, x.outputIndex);
  }

  lemma OutputWritten(d: seq<byte>, o: nat, x: Output)
    requires OutputWellFormed(x) && o + OUTPUT_SIZE <= |d| && d[o..o+OUTPUT_SIZE] == SerializeOutput(x)
    ensures OutputOk(d, o) && OutputAt(d, o) == x
  {
    hide ToLe, U64;
    var r := d[o..o+OUTPUT_SIZE];
    assert d[o] == r[0];
    SubSlice(d, o, OUTPUT_SIZE, 1, 9);
    SubSlice(d, o, OUTPUT_SIZE, 13, 45);
    assert d[o+9] == r[9] && d[o+10] == r[10] && d[o+11] == r[11] && d[o+12] == r[12] && d[o+45] == r[45];
    U64OfToLe(d, o + 1, x.amount);
  }

  lemma EntryWritten(d: seq<byte>, o: nat, x: Entry)
    requires o + ENTRY_SIZE <= |d| && d[o..o+ENTRY_SIZE] == SerializeEntry(x)
    ensures EntryAt(d, o) == x
  {
    hide ToLe, U32;
    var r := d[o..o+ENTRY_SIZE];
    assert d[o..o+4] == r[..4] && d[o+4..o+8] == r[4..];
    U32OfToLe(d, o, x.index);
    U32OfToLe(d, o + 4, x.change);
  }

  lemma SerializedInputSize(x: Input)
    ensures InputWellFormed(x) ==> |SerializeInput(x)| == INPUT_SIZE
  {}

  lemma SerializedOutputSize(x: Output)
    ensures OutputWellFormed(x) ==> |SerializeOutput(x)| == OUTPUT_SIZE
  {}

  lemma InputsWritten(d: seq<byte>, o: nat, xs: seq<Input>)
    requires forall i :: 0 <= i < |xs| ==> InputWellFormed(xs[i])
    ensures |SerializeInputs(xs)| == INPUT_SIZE * |xs|
    ensures o + INPUT_SIZE * |xs| <= |d| && d[o..o+INPUT_SIZE*|xs|] == SerializeInputs(xs) ==>
      InputsAt(d, o, |xs|) == xs && forall i :: 0 <= i < |xs| ==> InputOk(d, o + INPUT_SIZE * i)
  {
    hide InputOk, InputAt, SerializeInput, InputWellFormed;
    forall i | 0 <= i < |xs|
      ensures |SerializeInput(xs[i])| == INPUT_SIZE
    {
      SerializedInputSize(xs[i]);
    }
    ConcatLength(SerializeInput, INPUT_SIZE, xs);
    if o + INPUT_SIZE * |xs| <= |d| && d[o..o+INPUT_SIZE*|xs|] == SerializeInputs(xs) {
      ConcatIffRecords(SerializeInput, INPUT_SIZE, xs, d, o);
      forall i | 0 <= i < |xs|
        ensures InputOk(d, o + INPUT_SIZE * i) && InputsAt(d, o, |xs|)[i] == xs[i]
      {
        assert RecordAt(d, o, INPUT_SIZE, i) == SerializeInput(xs[i]);
        InputWritten(d, o + INPUT_SIZE * i, xs[i]);
      }
    }
  }

  lemma OutputsWritten(d: seq<byte>, o: nat, xs: seq<Output>)
    requires forall i :: 0 <= i < |xs| ==> OutputWellFormed(xs[i])
    ensures |SerializeOutputs(xs)| == OUTPUT_SIZE * |xs|
    ensures o + OUTPUT_SIZE * |xs| <= |d| && d[o..o+OUTPUT_SIZE*|xs|] == SerializeOutputs(xs) ==>
      OutputsAt(d, o, |xs|) == xs && forall i :: 0 <= i < |xs| ==> OutputOk(d, o + OUTPUT_SIZE * i)
  {
    hide OutputOk, OutputAt, SerializeOutput, OutputWellFormed;
    forall i | 0 <= i < |xs|
      ensures |SerializeOutput(xs[i])| == OUTPUT_SIZE
    {
      SerializedOutputSize(xs[i]);
    }
    ConcatLength(SerializeOutput, OUTPUT_SIZE, xs);
    if o + OUTPUT_SIZE * |xs| <= |d| && d[o..o+OUTPUT_SIZE*|xs|] == SerializeOutputs(xs) {
      ConcatIffRecords(SerializeOutput, OUTPUT_SIZE, xs, d, o);
      forall i | 0 <= i < |xs|
        ensures OutputOk(d, o + OUTPUT_SIZE * i) && OutputsAt(d, o, |xs|)[i] == xs[i]
      {
        assert RecordAt(d, o, OUTPUT_SIZE, i) == SerializeOutput(xs[i]);
        OutputWritten(d, o + OUTPUT_SIZE * i, xs[i]);
      }
    }
  }

  lemma EntriesWritten(d: seq<byte>, o: nat, xs: seq<Entry>)
    ensures |SerializeEntries(xs)| == ENTRY_SIZE * |xs|
    ensures o + ENTRY_SIZE * |xs| <= |d| && d[o..o+ENTRY_SIZE*|xs|] == SerializeEntries(xs) ==>
      EntriesAt(d, o, |xs|) == xs
  {
    hide EntryAt;
    ConcatLength(SerializeEntry, ENTRY_SIZE, xs);
    if o + ENTRY_SIZE * |xs| <= |d| && d[o..o+ENTRY_SIZE*|xs|] == SerializeEntries(xs) {
      ConcatIffRecords(SerializeEntry, ENTRY_SIZE, xs, d, o);
      forall i | 0 <= i < |xs|
        ensures EntriesAt(d, o, |xs|)[i] == xs[i]
      {
        assert RecordAt(d, o, ENTRY_SIZE, i) == SerializeEntry(xs[i]);
        EntryWritten(d, o + ENTRY_SIZE * i, xs[i]);
      }
    }
  }

  function LayoutOf(e: Essence): Layout { Layout(|e.inputs|, |e.outputs|, |e.payload|) }

  /** The parts of a message lie where its layout says. */
  lemma PartsWritten(d: seq<byte>, e: Essence, l: Layout)
    requires WellFormed(e) && l == LayoutOf(e)
    requires |Serialize(e)| <= |d| && d[..|Serialize(e)|] == Serialize(e)
    ensures |Serialize(e)| == l.essenceLength && d[0] == 1 && d[1..9] == e.networkId
    ensures d[9..11] == ToLe(|e.inputs|, 2) && d[11..l.commitmentAt] == SerializeInputs(e.inputs)
    ensures d[l.commitmentAt..l.outputCountAt] == e.commitment
    ensures d[l.outputCountAt..l.outputsAt] == ToLe(|e.outputs|, 2)
    ensures d[l.outputsAt..l.payloadLengthAt] == SerializeOutputs(e.outputs)
    ensures d[l.payloadLengthAt..l.payloadLengthAt+4] == ToLe(|e.payload|, 4)
    ensures d[l.payloadLengthAt+4..l.essenceLength] == e.payload
  {
    hide ToLe, SerializeInputs, SerializeOutputs, SumAmounts, Distinct, InputWellFormed, OutputWellFormed,
      InputsAt, OutputsAt, InputOk, OutputOk;
    InputsWritten(d, 11, e.inputs);
    OutputsWritten(d, l.outputsAt, e.outputs);
    PeelNine(d, [1], e.networkId, ToLe(|e.inputs|, 2), SerializeInputs(e.inputs), e.commitment,
             ToLe(|e.outputs|, 2), SerializeOutputs(e.outputs), ToLe(|e.payload|, 4), e.payload);
  }

  lemma PeelNine(d: seq<byte>, a: seq<byte>, b: seq<byte>, c: seq<byte>, e: seq<byte>, f: seq<byte>,
                 g: seq<byte>, h: seq<byte>, i: seq<byte>, j: seq<byte>)
    requires |a + b + c + e + f + g + h + i + j| <= |d|
    requires d[..|a + b + c + e + f + g + h + i + j|] == a + b + c + e + f + g + h + i + j
    ensures d[..|a|] == a && d[|a|..|a|+|b|] == b && d[|a|+|b|..|a|+|b|+|c|] == c
    ensures var p := |a| + |b| + |c|;
            d[p..p+|e|] == e && d[p+|e|..p+|e|+|f|] == f && d[p+|e|+|f|..p+|e|+|f|+|g|] == g
    ensures var p := |a| + |b| + |c| + |e| + |f| + |g|;
            d[p..p+|h|] == h && d[p+|h|..p+|h|+|i|] == i && d[p+|h|+|i|..p+|h|+|i|+|j|] == j
  {
    Peel(d, a + b + c + e + f + g + h + i, j);
    Peel(d, a + b + c + e + f + g + h, i);
    Peel(d, a + b + c + e + f + g, h);
    Peel(d, a + b + c + e + f, g);
    Peel(d, a + b + c + e, f);
    Peel(d, a + b + c, e);
    Peel(d, a + b, c);
    Peel(d, a, b);
  }

  /** A buffer that starts with a message is laid out as that message, and reading
      it gives the message back. */
  lemma StartsWithLayout(d: buffer, e: Essence, bs: seq<Entry>)
    requires StartsWith(d, e, bs)
    ensures HasLayout(d, LayoutOf(e)) && EssenceAt(d, LayoutOf(e)) == e
    ensures EntriesAt(d, LayoutOf(e).essenceLength, |e.inputs|) == bs
  {
    hide ToLe, SerializeInputs, SerializeOutputs, SumAmounts, Distinct, InputWellFormed, OutputWellFormed,
      Serialize, SerializeEntries, InputsAt, OutputsAt, EntriesAt, InputOk, OutputOk, EntryOk, U16, U32;
    var l := LayoutOf(e);
    assert d[..|Serialize(e)|] == (Serialize(e) + SerializeEntries(bs))[..|Serialize(e)|];
    PartsWritten(d, e, l);
    EntriesWritten(d, l.essenceLength, bs);
    Peel(d, Serialize(e), SerializeEntries(bs));
    EntriesWellFormed(d, l.essenceLength, l.inputs);
    U16OfToLe(d, 9, l.inputs);
    InputsWritten(d, 11, e.inputs);
    U16OfToLe(d, l.outputCountAt, l.outputs);
    OutputsWritten(d, l.outputsAt, e.outputs);
    U32OfToLe(d, l.payloadLengthAt, l.payload);
  }

  /** The layout exists exactly when the buffer starts with a message, and then both
      are determined by the buffer. */
  lemma LayoutIffMessage(d: buffer)
    ensures (exists l :: HasLayout(d, l)) <==> (exists e, bs :: StartsWith(d, e, bs))
    ensures forall e, bs, e', bs' :: StartsWith(d, e, bs) && StartsWith(d, e', bs') ==> e == e' && bs == bs'
  {
    hide HasLayout, StartsWith;
    if l :| HasLayout(d, l) {
      LayoutStartsWith(d, l);
    }
    forall e, bs | StartsWith(d, e, bs)
      ensures HasLayout(d, LayoutOf(e))
    {
      StartsWithLayout(d, e, bs);
    }
    forall e, bs, e', bs' | StartsWith(d, e, bs) && StartsWith(d, e', bs')
      ensures e == e' && bs == bs'
    {
      StartsWithLayout(d, e, bs);
      StartsWithLayout(d, e', bs');
      LayoutUnique(d, LayoutOf(e), LayoutOf(e'));
    }
  }
}
