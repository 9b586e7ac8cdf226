/** Whole runs, seen from the addresses that leave the device. */
module AddressRuns {
  import opened Bytes
  import opened Config
  import opened Essence
  import opened Address
  import opened ApiState
  import opened Signing
  import opened ApiSpec
  import opened Machine
  import opened MachineInvariant
  import opened MachineRuns
  import opened CommandAnswers

  /** The same initialization period and generated data. */
  predicate SameBatch(d: Device, d': Device) {
    d.epoch == d'.epoch && d.api.buffer == d'.api.buffer && d.api.dataLength == d'.api.dataLength
    && d.api.path == d'.api.path && d.api.appMode == d'.api.appMode
  }

  function RequestStart(ev: Event): Entry
    requires ev.Apdu? && |ev.bytes| == HEADER_SIZE + 12
  {
    Entry(U32(ev.bytes, 5), U32(ev.bytes, 9))
  }

  function RequestCount(ev: Event): u32
    requires ev.Apdu? && |ev.bytes| == HEADER_SIZE + 12
  {
    U32(ev.bytes, 13)
  }

  predicate OnScreen(ev: Event)
    requires ev.Apdu? && |ev.bytes| >= HEADER_SIZE
  {
    ev.bytes[2] != 0
  }

  /** A generate command filled the buffer with what it asked for; on screen it started
      the flow that has to be accepted first. */
  predicate GenerateStep(c: Crypto, d: Device, ev: Event, d': Device) {
    CommandOf(ev, INS_GENERATE_ADDRESS) && |ev.bytes| == HEADER_SIZE + 12
    && d.epoch == d'.epoch && d.api.dataType == EMPTY
    && HoldsBatch(c, d'.api, RequestStart(ev), RequestCount(ev))
    && d.api.path[..3] == d'.api.path[..3] && d.api.appMode == d'.api.appMode
    && if OnScreen(ev) then
         RequestCount(ev) == 1 && d'.api.dataType == LOCKED && d'.flow == Flow(NewAddress, d.timer, true, d.epoch)
         && d'.api.path == WithEntry(d.api.path, RequestStart(ev))
       else d'.api.dataType == GENERATED_ADDRESSES
  }

  /** The user accepted the address on the screen. */
  predicate ShownStep(d: Device, ev: Event, d': Device) {
    ev == Accept && SameBatch(d, d') && d.flow.Flow? && d.flow.kind == NewAddress
    && d.api.dataType == LOCKED && d'.api.dataType == GENERATED_ADDRESSES
  }

  /** The only ways into a state with addresses. */
  lemma IntoGenerated(c: Crypto, d: Device, ev: Event)
    requires Inv(c, d) && Sound(d.api) && Fair(d, ev)
    requires After(c, d, ev).0.api.dataType == GENERATED_ADDRESSES || After(c, d, ev).0.api.dataType == LOCKED
    ensures var d' := After(c, d, ev).0;
            GenerateStep(c, d, ev, d') || ShownStep(d, ev, d')
            || (SameBatch(d, d') && d.api.dataType == d'.api.dataType
                && (d.api.dataType == LOCKED ==> d.flow == d'.flow))
  {
    hide ApiInv, Sound, Steady, HandleApdu, HandleReject, HandleTick, Catch, Fresh, HoldsBatch, U32;
    InvSteady(c, d.api);
    match ev
    case Apdu(bytes, locked) =>
      CommandStep(c, d, bytes, locked);
      if WellFramed(bytes) && bytes[1] == INS_GENERATE_ADDRESS {
        GeneratedBy(c, d, ev);
      }
    case Accept =>
    case _ => OtherStep(c, d, ev);
  }

  lemma GeneratedBy(c: Crypto, d: Device, ev: Event)
    requires Inv(c, d) && Sound(d.api) && CommandOf(ev, INS_GENERATE_ADDRESS)
    requires After(c, d, ev).0.api.dataType == GENERATED_ADDRESSES || After(c, d, ev).0.api.dataType == LOCKED
    ensures GenerateStep(c, d, ev, After(c, d, ev).0) || After(c, d, ev).0 == d
  {
    hide ApiInv, TableWellFormed, TableInBuffer, Fresh, GenerateAddress, HoldsBatch, U32, Dispatch, Steady,
      PrepareSigning, PrepareBlindsigning, SetAccount, WriteDataBlock, UserConfirmEssence, SignSingle, ReadDataBlock;
    FreshKnowsItself(APP_MODE_INIT, 0);
    var cmd := Command(ev.bytes[1], ev.bytes[2], ev.bytes[3], ev.bytes[5..]);
    if !Dispatch(c, d.api, cmd, ev.locked, d.blindEnabled).out.Throw? {
      DispatchOf(c, d.api, cmd, ev.locked, d.blindEnabled);
      GenerateKeepsInv(c, d.api, cmd.p1, cmd.data);
      if |cmd.data| == 12 {
        FieldBehind(ev.bytes, 5, 0);
        FieldBehind(ev.bytes, 5, 4);
        FieldBehind(ev.bytes, 5, 8);
      }
    }
  }

  lemma FieldBehind(d: seq<byte>, k: nat, o: nat)
    requires k + o + 4 <= |d|
    ensures U32(d[k..], o) == U32(d, k + o)
  {
    assert d[k..][o..o+4] == d[k+o..k+o+4];
  }

  /** Step `i` generated what the device holds from `i + 1` to `n`. */
  predicate Generated(c: Crypto, ds: seq<Device>, evs: seq<Event>, i: nat, n: nat) {
    i < n < |ds| && |ds| == |evs| + 1 && GenerateStep(c, ds[i], evs[i], ds[i+1])
    && forall m :: i < m <= n ==> SameBatch(ds[m], ds[n])
  }

  /** The flow that step `i` started was still the one in which step `k` accepted. */
  predicate AcceptedOnScreen(ds: seq<Device>, evs: seq<Event>, i: nat, k: nat, n: nat) {
    i < k < n < |ds| && |ds| == |evs| + 1 && ShownStep(ds[k], evs[k], ds[k+1])
    && forall m :: i < m <= k ==> ds[m].flow == ds[k].flow
  }

  /** Before any state with addresses there was the generate command that asked for
      them; what it put on the screen was accepted before it became readable. */
  lemma {:induction false} AddressesWereRequested(c: Crypto, ds: seq<Device>, evs: seq<Event>, n: nat)
    returns (i: nat, k: nat)
    requires Run(c, ds, evs) && n <= |evs|
    requires ds[n].api.dataType == GENERATED_ADDRESSES || ds[n].api.dataType == LOCKED
    ensures Generated(c, ds, evs, i, n)
    ensures ds[n].api.dataType == GENERATED_ADDRESSES && OnScreen(evs[i]) ==> AcceptedOnScreen(ds, evs, i, k, n)
    ensures ds[n].api.dataType == LOCKED ==>
      OnScreen(evs[i]) && forall m :: i < m <= n ==> ds[m].flow == ds[n].flow
  {
    hide Inv, Sound, After, Fair, Run, HoldsBatch, U32;
    RunLengths(c, ds, evs);
    if n == 0 {
      BootIsEmpty(c, ds, evs);
      assert false;
    } else {
      RunStep(c, ds, evs, n - 1);
      IntoGenerated(c, ds[n-1], evs[n-1]);
      if GenerateStep(c, ds[n-1], evs[n-1], ds[n]) {
        i, k := n - 1, n - 1;
      } else {
        i, k := AddressesWereRequested(c, ds, evs, n - 1);
        if ShownStep(ds[n-1], evs[n-1], ds[n]) {
          k := n - 1;
        }
      }
    }
  }

  /** While an address waits for its accept, it is the one of the path, and that is the
      path that the generate command `i` of the period asked for. */
  lemma LockedAddressOfPath(c: Crypto, ds: seq<Device>, evs: seq<Event>, n: nat) returns (i: nat)
    requires Run(c, ds, evs) && n <= |evs| && ds[n].api.dataType == LOCKED
    ensures AllHardened(ds[n].api.path) && AddressOf(c, ds[n].api.path) == Some(ds[n].api.buffer[..33])
    ensures Generated(c, ds, evs, i, n) && IsAddress(c, ds[n].api.path, ds[n].api.buffer[..33])
    ensures ds[n].api.path == Below(ds[n].api, U32(evs[i].bytes, 9), U32(evs[i].bytes, 5))
  {
    hide Inv, After, Fair, Run, U32, AddressOf, TableWellFormed, TableInBuffer, IsAddress;
    RunLengths(c, ds, evs);
    RunInv(c, ds, evs, n);
    var k;
    i, k := AddressesWereRequested(c, ds, evs, n);
    var a, b := ds[n].api, RequestStart(evs[i]);
    assert SameBatch(ds[i+1], ds[n]);
    assert HoldsBatch(c, ds[i+1].api, b, 1);
    LockedPath(c, ds[n]);
    OneAddress(c, a, b);
    RunInv(c, ds, evs, i);
    WithRootPath(c, ds[i], a, b);
    BelowIs(a, b);
    AddressOfIs(c, a.path, a.buffer[..33]);
  }

  lemma LockedPath(c: Crypto, d: Device)
    requires Inv(c, d) && d.api.dataType == LOCKED
    ensures AccountSelected(d.api) && Grounded(d.api)
  {
    hide HoldsAddresses, Agrees;
  }

  lemma WithRootPath(c: Crypto, d: Device, a: Api, b: Entry)
    requires Inv(c, d) && d.api.path[..3] == a.path[..3] && d.api.appMode == a.appMode
    ensures WithEntry(d.api.path, b) == WithEntry(RootPath(a), b)
  {
    hide HoldsAddresses, Agrees, FlowInv;
    assert d.api.path[2] == d.api.path[..3][2] && a.path[2] == a.path[..3][2];
    assert RootPath(d.api) == RootPath(a);
    assert d.api.path[0] == d.api.path[..3][0] && d.api.path[1] == d.api.path[..3][1];
    assert RootPath(a)[0] == RootPath(d.api)[..3][0] && RootPath(a)[1] == RootPath(d.api)[..3][1];
  }

  lemma OneAddress(c: Crypto, a: Api, b: Entry)
    requires b.index + 1 < 0x1_0000_0000 && AllDerived(c, RootPath(a), b, 1)
    requires a.buffer == Filled(c, RootPath(a), b, 1)
    ensures AddressOf(c, WithEntry(RootPath(a), b)) == Some(a.buffer[..33])
  {
    hide AddressOf;
    assert BatchPath(RootPath(a), b, 0) == WithEntry(RootPath(a), b);
    assert AddressOf(c, BatchPath(RootPath(a), b, 0)).Some?;
    var x := AddressOf(c, BatchPath(RootPath(a), b, 0)).value;
    assert forall k :: 0 <= k < 33 ==> a.buffer[k] == x[k];
    assert a.buffer[..33] == x;
  }

  /** Byte `k` of the addresses requested, one after the other, with zeros behind. */
  function Requested(c: Crypto, p: path, b: Entry, count: nat, k: nat): byte
    requires b.index + count < 0x1_0000_0000 && AllDerived(c, p, b, count)
  {
    if k / ADDRESS_WITH_TYPE_SIZE_BYTES < count then
      AddressOf(c, BatchPath(p, b, k / ADDRESS_WITH_TYPE_SIZE_BYTES)).value[k % ADDRESS_WITH_TYPE_SIZE_BYTES]
    else 0
  }

  /** `v` is byte `k` of `count` addresses one after the other, from `index` on, or zero
      behind them. */
  ghost predicate ByteOfAddresses(c: Crypto, a: Api, index: u32, change: u32, count: u32, k: nat, v: byte)
    requires index + count < 0x1_0000_0000
  {
    if k / 33 < count then exists x :: IsAddress(c, Below(a, change, index + k / 33), x) && v == x[k % 33] else v == 0
  }

  /** `r` is block `p1` of these addresses. */
  ghost predicate BlockOfAddresses(c: Crypto, a: Api, index: u32, change: u32, count: u32, p1: byte, r: seq<byte>) {
    index + count < 0x1_0000_0000 && |r| == 251
    && forall o :: 0 <= o < 251 ==> ByteOfAddresses(c, a, index, change, count, p1 * 251 + o, r[o])
  }

  /** A block read out in any run holds exactly the addresses that the client's generate
      command of this initialization period asked for, and zeros behind them; if the
      command put its address on the screen, the user has accepted it in between. */
  lemma ReadsRequestedAddresses(c: Crypto, ds: seq<Device>, evs: seq<Event>, n: nat)
    returns (i: nat, k: nat)
    requires Run(c, ds, evs) && n < |evs| && CommandOf(evs[n], INS_READ_DATA_BLOCK)
    requires Sound(ds[n].api) && After(c, ds[n], evs[n]).1.Response? && After(c, ds[n], evs[n]).1.sw == SW_OK
    ensures Generated(c, ds, evs, i, n) && (OnScreen(evs[i]) ==> AcceptedOnScreen(ds, evs, i, k, n))
    ensures AccountSelected(ds[n].api)
    ensures var r, b, count := After(c, ds[n], evs[n]).1.data, RequestStart(evs[i]), RequestCount(evs[i]);
            BatchAllowed(b, count, OnScreen(evs[i])) && AllDerived(c, RootPath(ds[n].api), b, count)
            && |r| == DATA_BLOCK_SIZE
            && forall o :: 0 <= o < DATA_BLOCK_SIZE ==>
              r[o] == Requested(c, RootPath(ds[n].api), b, count, evs[n].bytes[2] * DATA_BLOCK_SIZE + o)
    ensures var q := evs[i].bytes;
            BlockOfAddresses(c, ds[n].api, U32(q, 5), U32(q, 9), U32(q, 13), evs[n].bytes[2],
                             After(c, ds[n], evs[n]).1.data)
  {
    hide Inv, Sound, After, Fair, Run, HoldsBatch, U32, BatchAllowed, AcceptedOnScreen, AllDerived, Requested;
    RunLengths(c, ds, evs);
    RunInv(c, ds, evs, n);
    ReadNeedsAddresses(c, ds[n], evs[n]);
    i, k := AddressesWereRequested(c, ds, evs, n);
    var a, b, count := ds[n].api, RequestStart(evs[i]), RequestCount(evs[i]);
    assert SameBatch(ds[i+1], ds[n]);
    SameBatchHeld(c, ds[i+1].api, a, b, count);
    BatchBytes(c, a, b, count, OnScreen(evs[i]));
    InvGrounded(c, ds[n]);
    RequestedBlock(c, a, b, count, evs[n].bytes[2], After(c, ds[n], evs[n]).1.data);
  }

  lemma InvGrounded(c: Crypto, d: Device)
    requires Inv(c, d)
    ensures Grounded(d.api)
  {
    hide Agrees, HoldsAddresses, TableWellFormed;
  }

  lemma RequestedBlock(c: Crypto, a: Api, b: Entry, count: u32, p1: byte, r: seq<byte>)
    requires Grounded(a) && b.index + count < 0x1_0000_0000 && AllDerived(c, RootPath(a), b, count) && |r| == 251
    requires forall o :: 0 <= o < 251 ==> r[o] == Requested(c, RootPath(a), b, count, p1 * 251 + o)
    ensures BlockOfAddresses(c, a, b.index, b.change, count, p1, r)
  {
    hide Grounded, RootPath, AddressOf, IsAddress;
    forall o | 0 <= o < 251
      ensures ByteOfAddresses(c, a, b.index, b.change, count, p1 * 251 + o, r[o])
    {
      var i := (p1 * 251 + o) / 33;
      if i < count {
        var q := BatchPath(RootPath(a), b, i);
        assert AddressOf(c, q).Some?;
        BelowIs(a, Entry(b.index + i, b.change));
        AddressOfIs(c, q, AddressOf(c, q).value);
      }
    }
  }

  lemma SameBatchHeld(c: Crypto, a: Api, b: Api, e: Entry, count: u32)
    requires HoldsBatch(c, a, e, count) && a.buffer == b.buffer && a.dataLength == b.dataLength
    requires a.path[..3] == b.path[..3] && a.appMode == b.appMode
    ensures HoldsBatch(c, b, e, count)
  {
    assert a.path[2] == a.path[..3][2] && b.path[2] == b.path[..3][2];
    assert RootPath(a) == RootPath(b);
  }

  lemma BatchBytes(c: Crypto, a: Api, b: Entry, count: u32, show: bool)
    requires HoldsBatch(c, a, b, count) && (show ==> count == 1)
    ensures BatchAllowed(b, count, show) && b.index + count < 0x1_0000_0000 && AllDerived(c, RootPath(a), b, count)
    ensures forall k :: 0 <= k < API_BUFFER_SIZE_BYTES ==> a.buffer[k] == Requested(c, RootPath(a), b, count, k)
  {
    hide AddressOf, AllDerived, BatchPath;
  }

  lemma ReadNeedsAddresses(c: Crypto, d: Device, ev: Event)
    requires Inv(c, d) && Sound(d.api) && CommandOf(ev, INS_READ_DATA_BLOCK)
    requires After(c, d, ev).1.Response? && After(c, d, ev).1.sw == SW_OK
    ensures d.api.dataType == GENERATED_ADDRESSES && AccountSelected(d.api) && ev.bytes[2] < DATA_BLOCK_COUNT
    ensures var o := ev.bytes[2] * DATA_BLOCK_SIZE;
            After(c, d, ev).1.data == d.api.buffer[o..o+DATA_BLOCK_SIZE]
  {
    hide Agrees, HoldsAddresses, FlowInv, TableWellFormed, TableInBuffer, Fresh;
  }

  /** What the user accepts can be read: the address on the screen, that of the path that
      the generate command `i` asked for, starts the block that is read next. */
  lemma AcceptedIsReadable(c: Crypto, ds: seq<Device>, evs: seq<Event>, n: nat) returns (i: nat)
    requires Run(c, ds, evs) && n + 1 < |evs| && |ds| == |evs| + 1
    requires ds[n].api.dataType == LOCKED && evs[n] == Accept
    requires CommandOf(evs[n+1], INS_READ_DATA_BLOCK) && !evs[n+1].locked && evs[n+1].bytes[2] == 0
    ensures Sound(ds[n].api) && After(c, ds[n], evs[n]).1 == Response([], 0x9000)
    ensures Generated(c, ds, evs, i, n) && Sound(ds[n+1].api)
    ensures var r, q := After(c, ds[n+1], evs[n+1]).1, evs[i].bytes;
            r.Response? && r.sw == 0x9000 && |r.data| == 251
            && IsAddress(c, Below(ds[n].api, U32(q, 9), U32(q, 5)), r.data[..33])
  {
    hide Run, Inv, Sound, After, Fair, U32, AddressOf, IsAddress, Steady, HoldsBatch;
    i := LockedAddressOfPath(c, ds, evs, n);
    RunStep(c, ds, evs, n);
    RunStep(c, ds, evs, n + 1);
    RunSteady(c, ds, evs, n + 1);
    AcceptReleases(c, ds[n]);
    ReadAnswered(c, ds[n+1], evs[n+1]);
    assert ds[n].api.buffer[0..251][..33] == ds[n].api.buffer[..33];
  }

  lemma AcceptReleases(c: Crypto, d: Device)
    requires Inv(c, d) && Sound(d.api) && d.api.dataType == LOCKED
    ensures After(c, d, Accept)
         == (d.(api := d.api.(dataType := GENERATED_ADDRESSES), flow := NoFlow), Response([], 0x9000))
  {
    hide ApiInv, Sound;
  }
}
