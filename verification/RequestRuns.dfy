/** Whole runs, seen from the bytes of the client's commands: which of them decide the
    account, the buffer and the remainder of what is signed. */
module RequestRuns {
  import opened Bytes
  import opened Config
  import opened Essence
  import opened ApiState
  import opened Signing
  import opened ApiSpec
  import opened ApiReplies
  import opened Machine
  import opened MachineInvariant
  import opened MachineRuns

  // ---------------------------------------------------------------- the account

  /** The context has the mode and the account of this command. */
  predicate AccountOf(ev: Event, a: Api) {
    CommandOf(ev, 0x11) && |ev.bytes| == 9 && a.appMode == ev.bytes[2] && a.path[2] == U32(ev.bytes, 5)
  }

  /** An account is selected by its command alone. */
  lemma IntoAccount(c: Crypto, d: Device, ev: Event)
    requires Steady(d.api) && Sound(d.api) && AccountSelected(After(c, d, ev).0.api)
    ensures var a := After(c, d, ev).0.api;
            AccountOf(ev, a) || (a.appMode == d.api.appMode && a.path[2] == d.api.path[2])
  {
    hide Steady, Fresh, Dispatch, SetAccount, ClearData, U32, TableWellFormed, TableInBuffer, AccountOf;
    FreshKnowsItself(APP_MODE_INIT, 0);
    FreshKnowsItself(d.api.appMode, d.api.path[2]);
    ClearDataIsFresh(c, d.api);
    match ev
    case Apdu(bytes, locked) =>
      if WellFramed(bytes) {
        var cmd := Command(bytes[1], bytes[2], bytes[3], bytes[5..]);
        CommandSteady(c, d.api, cmd, locked, d.blindEnabled);
        if Initializes(cmd.ins) {
          SelectedBy(c, d, ev);
        }
        KeptThird(d.api, Dispatch(c, d.api, cmd, locked, d.blindEnabled).api);
      }
    case _ =>
  }

  lemma KeptThird(a: Api, b: Api)
    ensures SameAccount(a, b) ==> a.path[2] == b.path[2]
  {
    assert a.path[2] == a.path[..3][2] && b.path[2] == b.path[..3][2];
  }

  lemma SelectedBy(c: Crypto, d: Device, ev: Event)
    requires Steady(d.api) && Sound(d.api) && ev.Apdu? && WellFramed(ev.bytes) && Initializes(ev.bytes[1])
    ensures var s := Dispatch(c, d.api, Command(ev.bytes[1], ev.bytes[2], ev.bytes[3], ev.bytes[5..]), ev.locked,
                              d.blindEnabled);
            s.out.Throw? || AccountOf(ev, s.api) || s.api.path[2] == 0
            || (s.api.appMode == d.api.appMode && s.api.path[2] == d.api.path[2])
  {
    hide Steady, Sound, Fresh, Dispatch, ClearData;
    var cmd := Command(ev.bytes[1], ev.bytes[2], ev.bytes[3], ev.bytes[5..]);
    DispatchOf(c, d.api, cmd, ev.locked, d.blindEnabled);
    ClearDataIsFresh(c, d.api);
    FreshKnowsItself(APP_MODE_INIT, 0);
    FreshKnowsItself(d.api.appMode, d.api.path[2]);
    if |cmd.data| == 4 {
      assert ev.bytes[5..][0..4] == ev.bytes[5..9];
      FreshKnowsItself(cmd.p1, U32(cmd.data, 0));
    }
  }

  /** Whatever happens: a selected account, and the mode with it, are those of one account
      command, and stayed so since. */
  lemma {:induction false} AccountWasSelected(c: Crypto, ds: seq<Device>, evs: seq<Event>, n: nat) returns (i: nat)
    requires FreeRun(c, ds, evs) && n <= |evs| && |ds| == |evs| + 1 && AccountSelected(ds[n].api)
    ensures i < n && forall m :: i < m <= n ==> AccountOf(evs[i], ds[m].api)
  {
    hide FreeRun, Steady, Sound, After, AccountOf, Fresh;
    if n == 0 {
      BootHasNoAccount(c, ds, evs);
      assert false;
    } else {
      FreeRunSteady(c, ds, evs, n - 1);
      IntoAccount(c, ds[n-1], evs[n-1]);
      if AccountOf(evs[n-1], ds[n].api) {
        i := n - 1;
      } else {
        i := AccountWasSelected(c, ds, evs, n - 1);
        SameAccountOf(evs[i], ds[n-1].api, ds[n].api);
      }
    }
  }

  lemma SameAccountOf(ev: Event, a: Api, b: Api)
    requires AccountOf(ev, a) && a.appMode == b.appMode && a.path[2] == b.path[2]
    ensures AccountOf(ev, b)
  {}

  lemma BootHasNoAccount(c: Crypto, ds: seq<Device>, evs: seq<Event>)
    requires FreeRun(c, ds, evs)
    ensures !AccountSelected(ds[0].api)
  {}

  // ----------------------------------------------------------------- the buffer

  /** `b` of `d` becomes the data of this command, and no other block changes. */
  predicate WriteStep(d: Device, ev: Event, d': Device) {
    CommandOf(ev, 0x81) && |ev.bytes| == 256 && ev.bytes[2] < DATA_BLOCK_COUNT
    && d'.epoch == d.epoch && d'.api == d.api.(buffer := d'.api.buffer)
    && forall k: byte :: k < DATA_BLOCK_COUNT ==>
      Block(d'.api.buffer, k) == if k == ev.bytes[2] then ev.bytes[5..] else Block(d.api.buffer, k)
  }

  /** A write command lands in an empty context, or changes nothing, or fails. */
  lemma WrittenBy(c: Crypto, d: Device, ev: Event)
    requires Steady(d.api) && Sound(d.api) && CommandOf(ev, 0x81)
    ensures var (d', r) := After(c, d, ev);
            if r == Response([], 0x9000) then d.api.dataType == EMPTY && WriteStep(d, ev, d')
            else d' == d || (d'.api.dataType == EMPTY && d'.api.buffer == Zeros(API_BUFFER_SIZE_BYTES))
  {
    hide Steady, Sound, After, Fresh, Dispatch, Block;
    FreshKnowsItself(APP_MODE_INIT, 0);
    CommandRuns(c, d, ev, INS_WRITE_DATA_BLOCK);
    var cmd := Command(INS_WRITE_DATA_BLOCK, ev.bytes[2], ev.bytes[3], ev.bytes[5..]);
    DispatchOf(c, d.api, cmd, ev.locked, d.blindEnabled);
    if d.api.dataType == EMPTY && cmd.p1 < DATA_BLOCK_COUNT && |cmd.data| == DATA_BLOCK_SIZE {
      OneBlock(d.api, cmd.p1, cmd.data);
    }
  }

  /** An empty context holds what it held, or what a write command brought, or zeros. */
  lemma IntoEmpty(c: Crypto, d: Device, ev: Event)
    requires Steady(d.api) && Sound(d.api) && After(c, d, ev).0.api.dataType == EMPTY
    ensures var d' := After(c, d, ev).0;
            (d.api.dataType == EMPTY && (d'.api.buffer == d.api.buffer || WriteStep(d, ev, d')))
            || d'.api.buffer == Zeros(API_BUFFER_SIZE_BYTES)
  {
    hide Steady, Fresh, Dispatch, ClearData, TableWellFormed, TableInBuffer, WriteStep, Zeros;
    FreshKnowsItself(APP_MODE_INIT, 0);
    FreshKnowsItself(d.api.appMode, d.api.path[2]);
    ClearDataIsFresh(c, d.api);
    match ev
    case Apdu(bytes, locked) =>
      if WellFramed(bytes) {
        var cmd := Command(bytes[1], bytes[2], bytes[3], bytes[5..]);
        var s := Dispatch(c, d.api, cmd, locked, d.blindEnabled);
        CommandSteady(c, d.api, cmd, locked, d.blindEnabled);
        FreshKnowsItself(s.api.appMode, s.api.path[2]);
        if cmd.ins == INS_WRITE_DATA_BLOCK {
          WrittenBy(c, d, ev);
        }
      }
    case _ =>
  }

  /** The last write to block `k` before state `n` is `evs[i]`, and it is still there. */
  predicate LastWritten(ds: seq<Device>, evs: seq<Event>, i: nat, n: nat, k: byte)
    requires k < DATA_BLOCK_COUNT
  {
    i < n < |ds| && |ds| == |evs| + 1 && WriteStep(ds[i], evs[i], ds[i+1]) && evs[i].bytes[2] == k
    && forall m :: i < m <= n ==> Block(ds[m].api.buffer, k) == evs[i].bytes[5..]
  }

  /** The states in which the buffer is the client's. */
  predicate HoldsMessage(t: DataType) { t == EMPTY || t == VALIDATED_ESSENCE || t == USER_CONFIRMED_ESSENCE }

  lemma IntoMessage(c: Crypto, d: Device, ev: Event)
    requires Inv(c, d) && Sound(d.api) && Fair(d, ev) && HoldsMessage(After(c, d, ev).0.api.dataType)
    ensures var d' := After(c, d, ev).0;
            (HoldsMessage(d.api.dataType) && (d'.api.buffer == d.api.buffer || WriteStep(d, ev, d')))
            || d'.api.buffer == Zeros(API_BUFFER_SIZE_BYTES)
  {
    hide ApiInv, FlowInv, Sound, After, WriteStep, Fair, Zeros, RemainderAsRequested, Steady;
    InvSteady(c, d.api);
    if After(c, d, ev).0.api.dataType == EMPTY {
      IntoEmpty(c, d, ev);
    } else if After(c, d, ev).0.api.dataType == VALIDATED_ESSENCE {
      IntoValidated(c, d, ev);
    } else {
      IntoConfirmed(c, d, ev);
    }
  }

  /** Every block of a buffer from which something is prepared, confirmed or signed holds
      the data of the last write to it, or zeros if there was none. */
  lemma {:induction false} BufferWasWritten(c: Crypto, ds: seq<Device>, evs: seq<Event>, n: nat, k: byte)
    requires Run(c, ds, evs) && n <= |evs| && |ds| == |evs| + 1 && k < DATA_BLOCK_COUNT
    requires HoldsMessage(ds[n].api.dataType)
    ensures (exists i: nat :: LastWritten(ds, evs, i, n, k))
            || forall o :: 0 <= o < DATA_BLOCK_SIZE ==> Block(ds[n].api.buffer, k)[o] == 0
  {
    hide Run, Inv, Sound, After, Fair, WriteStep, HoldsMessage, LastWritten;
    if n == 0 {
      BootIsZero(c, ds, evs);
    } else {
      RunStep(c, ds, evs, n - 1);
      IntoMessage(c, ds[n-1], evs[n-1]);
      if ds[n].api.buffer == Zeros(API_BUFFER_SIZE_BYTES) {
      } else {
        BufferWasWritten(c, ds, evs, n - 1, k);
        WrittenOrKept(ds, evs, n, k);
        var m: nat := n - 1;
        if i: nat :| LastWritten(ds, evs, i, m, k) {
          assert LastWritten(ds, evs, i, n, k) || LastWritten(ds, evs, m, n, k);
        }
      }
    }
  }

  lemma BootIsZero(c: Crypto, ds: seq<Device>, evs: seq<Event>)
    requires Run(c, ds, evs)
    ensures ds[0].api.buffer == Zeros(API_BUFFER_SIZE_BYTES)
  {}

  lemma WrittenOrKept(ds: seq<Device>, evs: seq<Event>, n: nat, k: byte)
    requires 0 < n <= |evs| && |ds| == |evs| + 1 && k < DATA_BLOCK_COUNT
    requires ds[n].api.buffer == ds[n-1].api.buffer || WriteStep(ds[n-1], evs[n-1], ds[n])
    ensures LastWritten(ds, evs, n - 1, n, k) || Block(ds[n].api.buffer, k) == Block(ds[n-1].api.buffer, k)
    ensures Block(ds[n].api.buffer, k) == Block(ds[n-1].api.buffer, k) ==>
      forall i: nat :: LastWritten(ds, evs, i, n - 1, k) ==> LastWritten(ds, evs, i, n, k)
  {
    hide Block;
  }

  // -------------------------------------------------------------- the remainder

  /** The prepare command with these bytes, fifteen of them, announced this remainder: with
      P2 zero none; otherwise the output at its 16-bit index carries the address at its
      32-bit index and change, in this order, below the selected account. */
  ghost predicate RemainderAnnounced(c: Crypto, q: seq<byte>, a: Api) {
    |q| == 15
    && if q[3] == 0 then !a.essence.hasRemainder
       else
         a.essence.hasRemainder && a.essence.remainderIndex == U16(q, 5)
         && a.essence.remainder.index == U32(q, 7) && a.essence.remainder.change == U32(q, 11)
         && Hardened(U32(q, 7)) && Hardened(U32(q, 11)) && U16(q, 5) < a.essence.outputsCount
         && OutputCarries(c, a, U16(q, 5), Below(a, U32(q, 11), U32(q, 7)))
  }

  /** Output `k` of the buffer is to the address of path `q`. */
  ghost predicate OutputCarries(c: Crypto, a: Api, k: nat, q: path) {
    var o := 45 + 35 * a.essence.inputsCount + 46 * k + 12;
    o + 33 <= API_BUFFER_SIZE_BYTES && IsAddress(c, q, a.buffer[o..o+33])
  }

  /** The remainder of every message that is prepared, confirmed or signed is the one that
      the prepare command of its period announced, and it belongs to the account. */
  lemma RemainderWasAnnounced(c: Crypto, ds: seq<Device>, evs: seq<Event>, n: nat) returns (i: nat)
    requires Run(c, ds, evs) && n <= |evs| && |ds| == |evs| + 1 && !ds[n].api.essence.blindsigning
    requires ds[n].api.dataType == VALIDATED_ESSENCE || ds[n].api.dataType == USER_CONFIRMED_ESSENCE
    ensures Prepared(ds, evs, i, n) && CommandOf(evs[i], 0xa0)
    ensures RemainderAnnounced(c, evs[i].bytes, ds[n].api)
  {
    hide Run, Inv, Sound, After, Fair, RemainderAsRequested, OutputCarries, ConfirmStep, AcceptStep;
    var j;
    if ds[n].api.dataType == VALIDATED_ESSENCE {
      i, j := ValidatedWasPrepared(c, ds, evs, n);
    } else {
      var k;
      i, j, k := ConfirmedWasAuthorized(c, ds, evs, n);
    }
    assert SameMessage(ds[i+1], ds[n]);
    RunInv(c, ds, evs, n);
    if ds[n].api.essence.hasRemainder {
      RemainderPlace(c, ds[n]);
    }
    RequestBytes(evs[i].bytes, ds[n].api.essence);
  }

  lemma RequestBytes(q: seq<byte>, e: Info)
    requires |q| >= 5 && RemainderAsRequested(q[3], q[5..], e)
    ensures |q| == 15
    ensures if q[3] == 0 then !e.hasRemainder
            else e.hasRemainder && e.remainderIndex == U16(q, 5) && e.remainder.index == U32(q, 7)
                 && e.remainder.change == U32(q, 11)
  {
    assert q[5..][0..2] == q[5..7] && q[5..][2..6] == q[7..11] && q[5..][6..10] == q[11..15];
  }

  lemma RemainderPlace(c: Crypto, d: Device)
    requires Inv(c, d) && !d.api.essence.blindsigning && d.api.essence.hasRemainder
    requires d.api.dataType == VALIDATED_ESSENCE || d.api.dataType == USER_CONFIRMED_ESSENCE
    ensures var e := d.api.essence;
            e.remainderIndex < e.outputsCount && EntryWellFormed(e.remainder)
            && OutputCarries(c, d.api, e.remainderIndex, Below(d.api, e.remainder.change, e.remainder.index))
  {
    hide ApiInv, FlowInv, AddressOf, IsAddress, Owned;
    ClaimsAreSound(c, d.api);
    OutputsPlace(c, d.api);
  }

  lemma OutputsPlace(c: Crypto, a: Api)
    requires ApiInv(c, a) && !a.essence.blindsigning
    requires a.dataType == VALIDATED_ESSENCE || a.dataType == USER_CONFIRMED_ESSENCE
    ensures a.essence.outputs == Some(45 + 35 * a.essence.inputsCount as nat)
  {
    hide HasLayout, RemainderVerified, StaysInWallet, HoldsAddresses;
    var l :| AgreesAt(c, a, l);
  }

  // ----------------------------------------------------------------- the setting

  function Toggles(evs: seq<Event>, n: nat): nat
    requires n <= |evs|
  {
    if n == 0 then 0 else Toggles(evs, n - 1) + if evs[n-1] == ToggleBlindsigning then 1 else 0
  }

  /** Blind signing is enabled by the user alone: the setting is the one at the start,
      toggled as often as the user did. No command and no exception changes it. */
  lemma {:induction false} SettingIsToggled(c: Crypto, ds: seq<Device>, evs: seq<Event>, n: nat)
    requires FreeRun(c, ds, evs) && n <= |evs| && |ds| == |evs| + 1
    ensures ds[n].blindEnabled == ds[0].blindEnabled <==> Toggles(evs, n) % 2 == 0
  {
    hide FreeRun, Steady, Sound, After;
    if n > 0 {
      SettingIsToggled(c, ds, evs, n - 1);
      FreeRunSteady(c, ds, evs, n - 1);
      SettingStep(c, ds[n-1], evs[n-1]);
    }
  }

  lemma SettingStep(c: Crypto, d: Device, ev: Event)
    requires Sound(d.api)
    ensures After(c, d, ev).0.blindEnabled == if ev == ToggleBlindsigning then !d.blindEnabled else d.blindEnabled
  {
    hide Sound, Dispatch, ClearData, Fresh;
  }
}
