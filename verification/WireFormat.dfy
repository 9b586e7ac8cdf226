/** The packed structures of src/api.h byte by byte: what lies where in a buffer that
    starts with a message, without the functions that write and read it. */
module WireFormat {
  import opened Bytes
  import opened Config
  import opened Essence

  function At(d: seq<byte>, o: nat): int
    requires o < |d|
  {
    d[o]
  }

  /** Fields are little-endian. */
  lemma FieldValues(d: seq<byte>, o: nat)
    ensures o + 2 <= |d| ==> U16(d, o) == At(d, o) + 0x100 * At(d, o + 1)
    ensures o + 4 <= |d| ==>
      U32(d, o) == At(d, o) + 0x100 * At(d, o + 1) + 0x1_0000 * At(d, o + 2) + 0x100_0000 * At(d, o + 3)
    ensures o + 8 <= |d| ==>
      U64(d, o) == At(d, o) + 0x100 * At(d, o + 1) + 0x1_0000 * At(d, o + 2) + 0x100_0000 * At(d, o + 3)
                   + 0x1_0000_0000 * At(d, o + 4) + 0x100_0000_0000 * At(d, o + 5)
                   + 0x1_0000_0000_0000 * At(d, o + 6) + 0x100_0000_0000_0000 * At(d, o + 7)
  {
    if o + 2 <= |d| {
      LeFirst(d, o, 2);
      LeFirst(d, o + 1, 1);
      LeFirst(d, o + 2, 0);
    }
    if o + 4 <= |d| {
      LeFirst(d, o, 4);
      LeFirst(d, o + 1, 3);
      LeFirst(d, o + 2, 2);
      LeFirst(d, o + 3, 1);
      LeFirst(d, o + 4, 0);
    }
    if o + 8 <= |d| {
      LeFirst(d, o, 8);
      LeFirst(d, o + 1, 7);
      LeFirst(d, o + 2, 6);
      LeFirst(d, o + 3, 5);
      LeFirst(d, o + 4, 4);
      LeFirst(d, o + 5, 3);
      LeFirst(d, o + 6, 2);
      LeFirst(d, o + 7, 1);
      LeFirst(d, o + 8, 0);
    }
  }

  lemma LeFirst(d: seq<byte>, o: nat, n: nat)
    requires o + n <= |d|
    ensures Le(d[o..o+n]) == if n == 0 then 0 else d[o] + 0x100 * Le(d[o+1..o+n])
  {
    if n > 0 {
      assert d[o..o+n][1..] == d[o+1..o+n];
    }
  }

  /** The hardening test is the test of the top bit. */
  lemma HardenedIsTopBit(v: u32)
    ensures Hardened(v) <==> (v as bv32) & 0x8000_0000 != 0
  {
    TopBit(v as bv32);
  }

  lemma TopBit(b: bv32)
    ensures b & 0x8000_0000 != 0 <==> b >= 0x8000_0000
  {}

  /** The lengths of the variable parts and the offsets behind them. */
  function CommitmentOffset(inputs: nat): nat { 11 + 35 * inputs }

  function PayloadOffset(inputs: nat, outputs: nat): nat { 11 + 35 * inputs + 34 + 46 * outputs }

  function TableOffset(inputs: nat, outputs: nat, payload: nat): nat {
    11 + 35 * inputs + 34 + 46 * outputs + 4 + payload
  }

  predicate InputBytes(d: seq<byte>, o: nat, x: Input) {
    o + 35 <= |d| && d[o] == 0 && d[o+1..o+33] == x.transactionId && x.outputIndex == U16(d, o + 33)
  }

  predicate OutputBytes(d: seq<byte>, o: nat, x: Output) {
    o + 46 <= |d| && d[o] == 3 && x.amount == U64(d, o + 1)
    && d[o+9] == 0 && d[o+10] == 1 && d[o+11] == 0 && d[o+12] == 0
    && d[o+13..o+45] == x.pubkeyHash && d[o+45] == 0
  }

  predicate EntryBytes(d: seq<byte>, o: nat, b: Entry) {
    o + 8 <= |d| && b.index == U32(d, o) && b.change == U32(d, o + 4)
  }

  /** The message byte by byte. */
  predicate MessageBytes(d: buffer, e: Essence, bs: seq<Entry>) {
    var n, m, p := |e.inputs|, |e.outputs|, |e.payload|;
    var c, q, t := CommitmentOffset(n), PayloadOffset(n, m), TableOffset(n, m, p);
    && t + 8 * n < |d| && |bs| == n
    && d[0] == 1 && d[1..9] == e.networkId
    && n == U16(d, 9)
    && (forall i :: 0 <= i < n ==> InputBytes(d, 11 + 35 * i, e.inputs[i]))
    && d[c..c+32] == e.commitment
    && m == U16(d, c + 32)
    && (forall i :: 0 <= i < m ==> OutputBytes(d, c + 34 + 46 * i, e.outputs[i]))
    && p == U32(d, q) && d[q+4..t] == e.payload
    && (forall i :: 0 <= i < n ==> EntryBytes(d, t + 8 * i, bs[i]))
  }

  /** A buffer that starts with a serialized message has these bytes, and the essence
      ends where its table begins. */
  lemma StartsWithBytes(d: buffer, e: Essence, bs: seq<Entry>)
    requires StartsWith(d, e, bs)
    ensures MessageBytes(d, e, bs)
    ensures |Serialize(e)| == TableOffset(|e.inputs|, |e.outputs|, |e.payload|)
  {
    hide StartsWith, Serialize, U16, U32, U64, HasLayout, InputsAt, OutputsAt, EntriesAt, InputBytes, OutputBytes,
      EntryBytes;
    StartsWithLayout(d, e, bs);
    LayoutStartsWith(d, LayoutOf(e));
    SameCount(d, e, bs);
    FixedBytes(d, LayoutOf(e));
    SectionBytes(d, LayoutOf(e));
  }

  lemma FixedBytes(d: buffer, l: Layout)
    requires HasLayout(d, l)
    ensures l.essenceLength + 8 * l.inputs < |d| && d[0] == 1 && U16(d, 9) == l.inputs
    ensures U16(d, l.outputCountAt) == l.outputs && U32(d, l.payloadLengthAt) == l.payload
  {
    hide U16, U32, Distinct, SumAmounts, InputOk, OutputOk, EntryOk, InputsAt, OutputsAt;
  }

  lemma SectionBytes(d: buffer, l: Layout)
    requires HasLayout(d, l)
    ensures l.essenceLength + 8 * l.inputs < |d|
    ensures forall i :: 0 <= i < l.inputs ==> InputBytes(d, 11 + 35 * i, InputsAt(d, 11, l.inputs)[i])
    ensures forall i :: 0 <= i < l.outputs ==>
      OutputBytes(d, l.outputsAt + 46 * i, OutputsAt(d, l.outputsAt, l.outputs)[i])
    ensures forall i :: 0 <= i < l.inputs ==>
      EntryBytes(d, l.essenceLength + 8 * i, EntriesAt(d, l.essenceLength, l.inputs)[i])
  {
    hide U16, U32, U64, Distinct, SumAmounts;
    forall i | 0 <= i < l.inputs
      ensures InputBytes(d, 11 + 35 * i, InputsAt(d, 11, l.inputs)[i])
    {
      assert InputOk(d, 11 + 35 * i);
    }
    forall i | 0 <= i < l.outputs
      ensures OutputBytes(d, l.outputsAt + 46 * i, OutputsAt(d, l.outputsAt, l.outputs)[i])
    {
      assert OutputOk(d, l.outputsAt + 46 * i);
    }
  }

  lemma SameCount(d: buffer, e: Essence, bs: seq<Entry>)
    requires StartsWith(d, e, bs)
    ensures |bs| == |e.inputs|
  {}

  /** What the device asks of the values: 1 to 128 different inputs with indices below
      128, 1 to 128 outputs with positive amounts that add up to less than 2^64, and
      hardened entries. */
  predicate Acceptable(e: Essence, bs: seq<Entry>) {
    && 1 <= |e.inputs| <= 128 && 1 <= |e.outputs| <= 128
    && (forall i :: 0 <= i < |e.inputs| ==> e.inputs[i].outputIndex < 128)
    && (forall i, j :: 0 <= i < j < |e.inputs| ==> e.inputs[i] != e.inputs[j])
    && (forall i :: 0 <= i < |e.outputs| ==> e.outputs[i].amount > 0)
    && SumAmounts(e.outputs) < 0x1_0000_0000_0000_0000
    && forall i :: 0 <= i < |bs| ==> bs[i].index >= 0x8000_0000 && bs[i].change >= 0x8000_0000
  }

  /** The sum of the parts; with one output it is its amount. */
  lemma {:induction false} SumOfParts(xs: seq<Output>, ys: seq<Output>)
    ensures SumAmounts(xs + ys) == SumAmounts(xs) + SumAmounts(ys)
    ensures |ys| == 1 ==> SumAmounts(ys) == ys[0].amount
  {
    if |ys| == 0 {
      assert xs + ys == xs;
    } else {
      var n := |ys| - 1;
      assert (xs + ys)[..|xs + ys|-1] == xs + ys[..n];
      SumOfParts(xs, ys[..n]);
    }
  }

  /** A buffer starts with a message exactly if it has these bytes, with such values. */
  lemma StartsWithIffBytes(d: buffer, e: Essence, bs: seq<Entry>)
    ensures StartsWith(d, e, bs) <==> MessageBytes(d, e, bs) && Acceptable(e, bs)
  {
    hide StartsWith, MessageBytes, Acceptable;
    if StartsWith(d, e, bs) {
      StartsWithBytes(d, e, bs);
      StartsWithValues(d, e, bs);
    }
    if MessageBytes(d, e, bs) && Acceptable(e, bs) {
      BytesLayout(d, e, bs);
      LayoutStartsWith(d, LayoutOf(e));
    }
  }

  lemma StartsWithValues(d: buffer, e: Essence, bs: seq<Entry>)
    requires StartsWith(d, e, bs)
    ensures Acceptable(e, bs)
  {
    hide Serialize, SerializeEntries, SumAmounts;
    forall i | 0 <= i < |e.inputs|
      ensures e.inputs[i].outputIndex < 128
    {
      assert InputWellFormed(e.inputs[i]);
    }
    forall i | 0 <= i < |e.outputs|
      ensures e.outputs[i].amount > 0
    {
      assert OutputWellFormed(e.outputs[i]);
    }
    forall i | 0 <= i < |bs|
      ensures bs[i].index >= 0x8000_0000 && bs[i].change >= 0x8000_0000
    {
      assert EntryWellFormed(bs[i]);
    }
  }

  lemma BytesLayout(d: buffer, e: Essence, bs: seq<Entry>)
    requires MessageBytes(d, e, bs) && Acceptable(e, bs)
    ensures HasLayout(d, LayoutOf(e)) && EssenceAt(d, LayoutOf(e)) == e
    ensures EntriesAt(d, LayoutOf(e).essenceLength, |e.inputs|) == bs
  {
    hide U16, U32, U64, SumAmounts;
    var l := LayoutOf(e);
    InputsByBytes(d, e);
    OutputsByBytes(d, e, l.outputsAt);
    EntriesByBytes(d, bs, l.essenceLength);
  }

  lemma InputsByBytes(d: buffer, e: Essence)
    requires 11 + 35 * |e.inputs| <= |d|
    requires forall i :: 0 <= i < |e.inputs| ==> InputBytes(d, 11 + 35 * i, e.inputs[i])
    requires forall i :: 0 <= i < |e.inputs| ==> e.inputs[i].outputIndex < 128
    ensures InputsAt(d, 11, |e.inputs|) == e.inputs
    ensures forall i :: 0 <= i < |e.inputs| ==> InputOk(d, 11 + 35 * i)
  {
    hide U16;
    forall i | 0 <= i < |e.inputs|
      ensures InputAt(d, 11 + 35 * i) == e.inputs[i] && InputOk(d, 11 + 35 * i)
    {
      assert InputBytes(d, 11 + 35 * i, e.inputs[i]);
    }
  }

  lemma OutputsByBytes(d: buffer, e: Essence, o: nat)
    requires o + 46 * |e.outputs| <= |d|
    requires forall i :: 0 <= i < |e.outputs| ==> OutputBytes(d, o + 46 * i, e.outputs[i])
    requires forall i :: 0 <= i < |e.outputs| ==> e.outputs[i].amount > 0
    ensures OutputsAt(d, o, |e.outputs|) == e.outputs
    ensures forall i :: 0 <= i < |e.outputs| ==> OutputOk(d, o + 46 * i)
  {
    hide U64;
    forall i | 0 <= i < |e.outputs|
      ensures OutputAt(d, o + 46 * i) == e.outputs[i] && OutputOk(d, o + 46 * i)
    {
      assert OutputBytes(d, o + 46 * i, e.outputs[i]);
    }
  }

  lemma EntriesByBytes(d: buffer, bs: seq<Entry>, o: nat)
    requires o + 8 * |bs| <= |d|
    requires forall i :: 0 <= i < |bs| ==> EntryBytes(d, o + 8 * i, bs[i])
    requires forall i :: 0 <= i < |bs| ==> bs[i].index >= 0x8000_0000 && bs[i].change >= 0x8000_0000
    ensures EntriesAt(d, o, |bs|) == bs
    ensures forall i :: 0 <= i < |bs| ==> EntryOk(d, o + 8 * i)
  {
    hide U32;
    forall i | 0 <= i < |bs|
      ensures EntryAt(d, o + 8 * i) == bs[i] && EntryOk(d, o + 8 * i)
    {
      assert EntryBytes(d, o + 8 * i, bs[i]);
    }
  }
}
