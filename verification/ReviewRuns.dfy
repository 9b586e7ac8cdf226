/** Reviews in whole runs: what was shown is what is signed, what is shown for a new
    address, and which messages can be reviewed. */
module ReviewRuns {
  import opened Bytes
  import opened Config
  import opened Essence
  import opened Address
  import opened ApiState
  import opened Signing
  import opened ApiSpec
  import opened Format
  import opened Machine
  import opened MachineInvariant
  import opened MachineRuns
  import opened SigningRuns
  import opened AddressRuns
  import opened ParserMeaning
  import opened Review
  import InternalTransfer

  // --------------------------------------------------------- reviewed and signed

  /** The screens read the outputs of `e`. */
  predicate Shows(a: Api, e: Essence) {
    OutputsInBuffer(a) && a.essence.outputsCount == |e.outputs|
    && forall r :: 0 <= r < |e.outputs| ==>
      OutputOf(a, r) == e.outputs[r] && |e.outputs[r].pubkeyHash| == 32
      && OutputAddress(a.buffer, a.essence.outputs.value, r) == TypedAddress(e.outputs[r])
  }

  /** The output pays to an address of the selected account. */
  ghost predicate OwnOutput(c: Crypto, a: Api, o: Output) {
    |o.pubkeyHash| == 32
    && exists b :: EntryWellFormed(b) && AddressOf(c, WithEntry(RootPath(a), b)) == Some(TypedAddress(o))
  }

  /** Every output is on the review, or it pays to the selected account. */
  ghost predicate AllAccounted(c: Crypto, a: Api, e: Essence) {
    forall r :: 0 <= r < |e.outputs| ==>
      (ShowsReview(a.essence) && r in ReviewedOutputs(|e.outputs|, a.essence.hasRemainder, a.essence.remainderIndex))
      || OwnOutput(c, a, e.outputs[r])
  }

  lemma Accounted(c: Crypto, a: Api, e: Essence)
    requires ApiInv(c, a) && !a.essence.blindsigning && Shows(a, e)
    requires a.dataType == VALIDATED_ESSENCE || a.dataType == USER_CONFIRMED_ESSENCE
    ensures AllAccounted(c, a, e)
  {
    hide ApiInv, AddressOf, OutputAddress, TypedAddress, OutputOf, ReviewedOutputs, Owned, Table, TableWellFormed,
      GuardFires, Agrees;
    ClaimsAreSound(c, a);
    AgreesOfInv(c, a);
    AgreesIsSafe(c, a);
    var has, rem := a.essence.hasRemainder, a.essence.remainderIndex;
    ReadIndexBijection(|e.outputs|, has, rem);
    forall r | 0 <= r < |e.outputs|
      ensures (ShowsReview(a.essence) && r in ReviewedOutputs(|e.outputs|, has, rem)) || OwnOutput(c, a, e.outputs[r])
    {
      if has && r == rem {
        assert EntryWellFormed(a.essence.remainder);
      } else if a.essence.isInternalTransfer {
        OwnerOf(c, a, TypedAddress(e.outputs[r]));
      }
    }
  }

  lemma AgreesOfInv(c: Crypto, a: Api)
    requires ApiInv(c, a) && (a.dataType == VALIDATED_ESSENCE || a.dataType == USER_CONFIRMED_ESSENCE)
    ensures Agrees(c, a)
  {
    hide Agrees, HoldsAddresses;
  }

  lemma OwnerOf(c: Crypto, a: Api, out: address)
    requires TableInBuffer(a) && TableWellFormed(a) && Owned(c, RootPath(a), Table(a), out)
    ensures exists b :: EntryWellFormed(b) && AddressOf(c, WithEntry(RootPath(a), b)) == Some(out)
  {
    hide AddressOf, Table;
    OwnedMeans(c, RootPath(a), Table(a), out);
    var i :| 0 <= i < |Table(a)| && AddressOf(c, WithEntry(RootPath(a), Table(a)[i])) == Some(out);
    assert EntryWellFormed(Table(a)[i]);
  }

  /** What was reviewed is what was signed. Before a signature for a message that is not
      blind there were a prepare, a confirm and an accept; while its flow was open the
      screens read the outputs of the one essence `e` whose hash was signed; and every
      output of `e` was on the review or pays to the selected account. */
  lemma SignedWasReviewed(c: Crypto, ds: seq<Device>, evs: seq<Event>, n: nat)
    returns (i: nat, j: nat, k: nat, u: Unlock, e: Essence)
    requires Run(c, ds, evs) && n < |evs| && Signs(c, ds[n], evs[n]) && !ds[n].api.essence.blindsigning
    ensures Authorized(ds, evs, i, j, k, n) && After(c, ds[n], evs[n]).1.data == SerializeUnlock(u)
    ensures TableInBuffer(ds[n].api) && evs[n].bytes[2] < ds[n].api.essence.inputsCount
    ensures Vouches(c, ds[n].api, evs[n].bytes[2], u) && c.blake2b(Serialize(e)) == Some(ds[n].api.essence.hash)
    ensures TableInPlace(ds[n].api) && AnswerBytes(c, ds[n].api, evs[n].bytes[2], After(c, ds[n], evs[n]).1.data)
    ensures forall m :: j < m <= k ==> Shows(ds[m].api, e) && ds[m].flow == ds[k].flow
    ensures AllAccounted(c, ds[n].api, e)
  {
    hide Inv, Sound, After, Run, Serialize, StartsWith, Vouches, SerializeUnlock, TableInBuffer, Shows, AllAccounted,
      TableInPlace, AnswerBytes;
    RunLengths(c, ds, evs);
    i, j, k, u := SigningSafety(c, ds, evs, n);
    RunInv(c, ds, evs, n);
    SignNeedsConfirmed(c, ds[n], evs[n]);
    InvParts(c, ds[n]);
    e := ReviewShowsMessage(c, ds[n].api);
    ShowsIt(ds[n].api, e);
    Accounted(c, ds[n].api, e);
    forall m | j < m <= k
      ensures Shows(ds[m].api, e) && ds[m].flow == ds[k].flow
    {
      assert SameMessage(ds[m], ds[n]);
      ShowsSame(ds[n].api, ds[m].api, e);
    }
  }

  lemma InvParts(c: Crypto, d: Device)
    requires Inv(c, d)
    ensures ApiInv(c, d.api)
  {}

  lemma ShowsIt(a: Api, e: Essence)
    requires OutputsInBuffer(a) && a.essence.outputsCount == |e.outputs|
    requires forall k :: 0 <= k < |e.outputs| ==>
      OutputOf(a, k) == e.outputs[k] && |e.outputs[k].pubkeyHash| == 32
      && OutputAddress(a.buffer, a.essence.outputs.value, k) == TypedAddress(e.outputs[k])
    ensures Shows(a, e)
  {
    hide OutputAddress, TypedAddress, OutputOf;
  }

  lemma ShowsSame(a: Api, b: Api, e: Essence)
    requires Shows(a, e) && a.buffer == b.buffer && a.essence == b.essence
    ensures Shows(b, e)
  {
    hide OutputAddress, TypedAddress, OutputAt;
    forall r | 0 <= r < |e.outputs|
      ensures OutputOf(b, r) == OutputOf(a, r)
    {
    }
  }

  // ------------------------------------------------------------- the new address

  /** While an address waits for its accept, the screens show an address text and a path
      text that fit them, and whatever hardened path reads like the path text derives
      the address that the address text decodes to. */
  lemma ScreenShowsOwnAddress(c: Crypto, ds: seq<Device>, evs: seq<Event>, n: nat)
    requires Run(c, ds, evs) && n <= |evs| && ds[n].api.dataType == LOCKED
    ensures |Wrapped(ds[n].api.path)| + 2 <= SCRATCH_SIZE && AllHardened(ds[n].api.path)
    ensures var a := ds[n].api;
            var hrp := Hrp(a.coin, a.appMode);
            forall q: path :: AllHardened(q) && Wrapped(q) == Wrapped(a.path) ==>
              IsAddress(c, q, a.buffer[..33])
              && DecodeAddress(AddressText(hrp, a.buffer[..33])) == Some((hrp, a.buffer[..33]))
  {
    hide Run, AddressOf, IsAddress, AddressText, DecodeAddress, Wrapped;
    RunLengths(c, ds, evs);
    var i := LockedAddressOfPath(c, ds, evs, n);
    var a := ds[n].api;
    WrappedIsPath(a.path);
    AddressRoundTrip(Hrp(a.coin, a.appMode), a.buffer[..33]);
    forall q: path | AllHardened(q) && Wrapped(q) == Wrapped(a.path)
      ensures q == a.path
    {
      WrappedInjective(q, a.path);
    }
  }

  // ------------------------------------------------- messages that can be reviewed

  /** The output shown after a sequence of steps from the first entry. */
  function OutputAfter(a: Api, moves: seq<Move>): nat
    requires ReviewedCount(a.essence.outputsCount, a.essence.hasRemainder) > 0
  {
    var n := ReviewedCount(a.essence.outputsCount, a.essence.hasRemainder);
    MovedInRange(n, moves);
    ReadIndex(Moved(0, n, moves), a.essence.hasRemainder, a.essence.remainderIndex)
  }

  /** There is something to review, and it can be read. */
  predicate ReviewPossible(a: Api) {
    ShowsReview(a.essence) && OutputsInBuffer(a)
    && ReviewedCount(a.essence.outputsCount, a.essence.hasRemainder) > 0
  }

  /** What the address screen and the amount screen of this output do. */
  function ScreensAfter(a: Api, moves: seq<Move>): Formatted
    requires ReviewPossible(a)
  {
    var k := OutputAfter(a, moves) % 0x100;
    if AddressOutcome(a, k).Throw? then AddressOutcome(a, k) else AmountOutcome(a, k)
  }

  lemma MovedInRange(n: int, moves: seq<Move>)
    requires n > 0
    ensures 0 <= Moved(0, n, moves) < n
  {
    MovedByBalance(0, n, moves);
  }

  /** The review of a validated message raises no exception, whatever steps the user
      takes, if and only if every reviewed amount is below 10^18. */
  lemma ReviewRaisesIff(c: Crypto, a: Api) returns (e: Essence)
    requires ApiInv(c, a) && !a.essence.blindsigning && ShowsReview(a.essence)
    requires a.dataType == VALIDATED_ESSENCE || a.dataType == USER_CONFIRMED_ESSENCE
    ensures ReviewPossible(a)
    ensures Shows(a, e) && exists bs :: StartsWith(a.buffer, e, bs)
    ensures (forall moves :: ScreensAfter(a, moves) == Written)
       <==> forall r :: 0 <= r < |e.outputs| && IsReviewed(r, a.essence.hasRemainder, a.essence.remainderIndex) ==>
              e.outputs[r].amount < MAX_INT_DEC * MAX_INT_DEC
  {
    hide ApiInv, StartsWith, OutputOf, OutputAfter, ScreensAfter, OutputAddress, TypedAddress;
    e := ReviewShowsMessage(c, a);
    ShowsIt(a, e);
    var has, rem := a.essence.hasRemainder, a.essence.remainderIndex;
    SummaryBounds(c, a);
    AmountsPositive(a.buffer, e);
    if forall moves :: ScreensAfter(a, moves) == Written {
      forall r | 0 <= r < |e.outputs| && IsReviewed(r, has, rem)
        ensures e.outputs[r].amount < MAX_INT_DEC * MAX_INT_DEC
      {
        var moves := WayTo(a, r);
        assert ScreensAfter(a, moves) == Written;
        ScreensOf(a, e, moves);
      }
    }
    if forall r :: 0 <= r < |e.outputs| && IsReviewed(r, has, rem) ==> e.outputs[r].amount < MAX_INT_DEC * MAX_INT_DEC {
      forall moves
        ensures ScreensAfter(a, moves) == Written
      {
        OutputIsReviewed(a, moves);
        ScreensOf(a, e, moves);
      }
    }
  }

  /** The screens of one output. */
  lemma ScreensOf(a: Api, e: Essence, moves: seq<Move>)
    requires ReviewPossible(a) && a.essence.outputsCount == |e.outputs| <= OUTPUTS_MAX_COUNT
    requires OutputAfter(a, moves) < |e.outputs|
    requires OutputOf(a, OutputAfter(a, moves)) == e.outputs[OutputAfter(a, moves)]
    requires e.outputs[OutputAfter(a, moves)].amount > 0
    ensures ScreensAfter(a, moves) == Written <==>
      e.outputs[OutputAfter(a, moves)].amount < MAX_INT_DEC * MAX_INT_DEC
  {
    hide OutputOf, OutputAfter;
  }

  /** Every output that is reviewed can be reached. */
  lemma WayTo(a: Api, r: nat) returns (moves: seq<Move>)
    requires r < a.essence.outputsCount && IsReviewed(r, a.essence.hasRemainder, a.essence.remainderIndex)
    requires a.essence.hasRemainder ==> a.essence.remainderIndex < a.essence.outputsCount
    ensures ReviewedCount(a.essence.outputsCount, a.essence.hasRemainder) > 0 && OutputAfter(a, moves) == r
  {
    hide Moved;
    var n := ReviewedCount(a.essence.outputsCount, a.essence.hasRemainder);
    var k := EntryOf(r, a.essence.outputsCount, a.essence.hasRemainder, a.essence.remainderIndex);
    moves := seq(k, _ => Forward);
    AfterNextsIs(0, n, k);
  }

  lemma OutputIsReviewed(a: Api, moves: seq<Move>)
    requires ReviewedCount(a.essence.outputsCount, a.essence.hasRemainder) > 0
    requires a.essence.hasRemainder ==> a.essence.remainderIndex < a.essence.outputsCount
    ensures var r := OutputAfter(a, moves);
            r < a.essence.outputsCount && IsReviewed(r, a.essence.hasRemainder, a.essence.remainderIndex)
  {
    hide Moved;
    MovedInRange(ReviewedCount(a.essence.outputsCount, a.essence.hasRemainder), moves);
  }

  lemma SummaryBounds(c: Crypto, a: Api)
    requires ApiInv(c, a) && !a.essence.blindsigning
    requires a.dataType == VALIDATED_ESSENCE || a.dataType == USER_CONFIRMED_ESSENCE
    ensures 1 <= a.essence.outputsCount <= OUTPUTS_MAX_COUNT
    ensures a.essence.hasRemainder ==> a.essence.remainderIndex < a.essence.outputsCount
  {
    hide HasLayout, StaysInWallet, HoldsAddresses;
    var l :| AgreesAt(c, a, l);
    InternalTransfer.LayoutBounds(a.buffer, l);
  }

  lemma AmountsPositive(d: buffer, e: Essence)
    requires exists bs :: StartsWith(d, e, bs)
    ensures forall r :: 0 <= r < |e.outputs| ==> e.outputs[r].amount > 0
  {
    hide Serialize, SerializeEntries, Distinct, SumAmounts;
    forall r | 0 <= r < |e.outputs|
      ensures e.outputs[r].amount > 0
    {
      assert OutputWellFormed(e.outputs[r]);
    }
  }

  /** A message with one input and two outputs, the first one of `v`. */
  function AmountMessage(v: u64): Essence {
    Essence(Zeros(8), [Input(Zeros(32), 0)], Zeros(32), [Output(v, Zeros(32)), Output(1, Zeros(32))], [])
  }

  lemma AmountMessageSize(v: u64)
    requires 0 < v && v + 1 < TWO64
    ensures WellFormed(AmountMessage(v)) && EntryWellFormed(FIRST_ENTRY)
    ensures |Serialize(AmountMessage(v))| == 176 && |SerializeEntries([FIRST_ENTRY])| == 8
  {
    hide SerializeInputs, SerializeOutputs, SerializeEntries;
    var e := AmountMessage(v);
    assert e.outputs[..1] == [e.outputs[0]] && e.outputs[..1][..0] == [];
    assert SumAmounts(e.outputs[..1]) == v;
    InputsWritten([], 0, e.inputs);
    OutputsWritten([], 0, e.outputs);
    EntriesWritten([], 0, [FIRST_ENTRY]);
  }

  /** The buffer with this message and its BIP32 entry. */
  function AmountBuffer(v: u64): buffer
    requires 0 < v && v + 1 < TWO64
  {
    AmountMessageSize(v);
    Serialize(AmountMessage(v)) + SerializeEntries([FIRST_ENTRY]) + Zeros(API_BUFFER_SIZE_BYTES - 184)
  }

  lemma AmountBufferStarts(v: u64)
    requires 0 < v && v + 1 < TWO64
    ensures StartsWith(AmountBuffer(v), AmountMessage(v), [FIRST_ENTRY])
  {
    hide Serialize, SerializeEntries, WellFormed;
    AmountMessageSize(v);
  }

  /** Every amount is accepted by the validator, but from 10^18 on the first screens of
      the review raise. */
  lemma LargeAmountsRaise(c: Crypto, mode: byte, account: u32, v: u64, data: seq<byte>)
    requires ModeSupported(mode) && Hardened(account) && 0 < v && v + 1 < TWO64 && |data| == 10
    requires c.blake2b(Serialize(AmountMessage(v))).Some?
    ensures var s := PrepareSigning(c, Fresh(mode, account).(buffer := AmountBuffer(v)), 0, data);
            s.out == Reply([], SW_OK) && ReviewPossible(s.api)
            && ScreensAfter(s.api, [])
               == if v < MAX_INT_DEC * MAX_INT_DEC then Written else Formatted.Throw(InvalidParameter)
  {
    hide PrepareSigning, StartsWith, Serialize, AmountMessage, AmountBuffer, ApiInv, Fresh, ReviewPossible,
      ScreensAfter;
    AmountBufferStarts(v);
    PreparedWithoutRemainder(c, mode, account, AmountBuffer(v), AmountMessage(v), [FIRST_ENTRY], data);
    FirstScreen(c, PrepareSigning(c, Fresh(mode, account).(buffer := AmountBuffer(v)), 0, data).api, v);
  }

  /** A message in the buffer of an initialized context is prepared. */
  lemma PreparedWithoutRemainder(c: Crypto, mode: byte, account: u32, d: buffer, e: Essence, bs: seq<Entry>,
                                 data: seq<byte>)
    requires ModeSupported(mode) && Hardened(account) && |data| == 10
    requires StartsWith(d, e, bs) && c.blake2b(Serialize(e)).Some?
    ensures var s := PrepareSigning(c, Fresh(mode, account).(buffer := d), 0, data);
            s.out == Reply([], SW_OK) && ApiInv(c, s.api) && s.api.dataType == VALIDATED_ESSENCE
            && s.api.buffer == d && !s.api.essence.blindsigning && !s.api.essence.hasRemainder
  {
    hide StartsWith, Serialize, EssenceAccepted, EssenceParsed, LayoutOf, Zeros, ApiInv;
    var a := Fresh(mode, account).(buffer := d);
    NoRemainderAccepted(c, a, e, bs);
    AcceptedLayout(c, a, e, bs);
    assert Announced(a, 0, data) == a;
    WrittenInv(c, mode, account, d);
    PrepareKeepsInv(c, a, 0, data);
    ParsedParts(c, a, LayoutOf(e));
  }

  lemma FirstScreen(c: Crypto, a: Api, v: u64)
    requires ApiInv(c, a) && a.dataType == VALIDATED_ESSENCE && !a.essence.blindsigning && !a.essence.hasRemainder
    requires 0 < v && v + 1 < TWO64 && a.buffer == AmountBuffer(v)
    ensures ReviewPossible(a)
    ensures ScreensAfter(a, []) == if v < MAX_INT_DEC * MAX_INT_DEC then Written else Formatted.Throw(InvalidParameter)
  {
    hide StartsWith, Serialize, AmountBuffer, ApiInv, OutputOf, Zeros;
    AmountBufferStarts(v);
    var e := ReviewShowsMessage(c, a);
    LayoutIffMessage(a.buffer);
    assert e == AmountMessage(v);
    ClaimsAreSound(c, a);
  }

  lemma NoRemainderAccepted(c: Crypto, a: Api, e: Essence, bs: seq<Entry>)
    requires StartsWith(a.buffer, e, bs) && c.blake2b(Serialize(e)).Some? && !a.essence.hasRemainder
    ensures MessageAccepted(c, a, e, bs)
  {}

  lemma WrittenInv(c: Crypto, mode: byte, account: u32, d: buffer)
    requires ModeSupported(mode) && Hardened(account)
    ensures ApiInv(c, Fresh(mode, account).(buffer := d))
  {
    hide Agrees, HoldsAddresses;
  }
}
