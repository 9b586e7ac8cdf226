/** Whole runs, seen from the user's reject and the timeout: what they leave behind, what
    they answer, and that nothing prepared before them is signed. */
module CancelRuns {
  import opened Bytes
  import opened Config
  import opened Essence
  import opened ApiState
  import opened Signing
  import opened ApiSpec
  import opened Machine
  import opened MachineInvariant
  import opened MachineRuns
  import opened SigningRuns

  /** `a'` knows nothing but the mode, the coin and the account of `a`. */
  predicate Emptied(a: Api, a': Api) {
    var e := a'.essence;
    && a'.path == [a.path[0], a.path[1], a.path[2], 0, 0]
    && a'.appMode == a.appMode && a'.protocol == a.protocol && a'.coin == a.coin
    && (forall k :: 0 <= k < |a'.buffer| ==> a'.buffer[k] == 0)
    && a'.dataType == EMPTY && a'.dataLength == 0 && !a'.flowLocked
    && e.inputsCount == 0 && e.outputsCount == 0 && e.length == 0
    && e.inputs.None? && e.outputs.None? && e.entries.None?
    && !e.blindsigning && !e.hasRemainder && !e.isInternalTransfer
    && e.remainderIndex == 0 && e.remainder == Entry(0, 0)
    && forall k :: 0 <= k < 32 ==> e.hash[k] == 0
  }

  lemma CancelEmpties(c: Crypto, d: Device, sw: u16)
    requires Steady(d.api)
    ensures Cancel(d, sw) == (Device(Cancel(d, sw).0.api, NoFlow, d.timer, d.blindEnabled, d.epoch + 1),
                              Response([], sw))
    ensures Emptied(d.api, Cancel(d, sw).0.api)
  {
    hide ApiInv, TableWellFormed, TableInBuffer;
    ClearDataIsFresh(c, d.api);
    var p := d.api.path;
    assert p[0] == p[..3][0] && p[1] == p[..3][1];
  }

  /** A flow in which the user confirms a message, and not an address. */
  predicate ConfirmationOpen(d: Device) {
    d.flow.Flow? && (d.flow.kind == ConfirmTransaction || d.flow.kind == ConfirmBlind)
  }

  /** In every state that any events can lead to, a reject empties the context, ends the
      flow and is answered that the user refused; without a confirmation it does nothing. */
  lemma RejectEmpties(c: Crypto, d: Device)
    requires Steady(d.api)
    ensures Sound(d.api)
    ensures var (d', r) := After(c, d, Reject);
            if ConfirmationOpen(d) then
              d' == Device(d'.api, NoFlow, d.timer, d.blindEnabled, d.epoch + 1) && Emptied(d.api, d'.api)
              && r == Response([], 0x6985)
            else d' == d && r == Silence
  {
    hide Steady, Cancel, Emptied;
    SteadySound(d.api);
    CancelEmpties(c, d, SW_DENIED_BY_USER);
  }

  /** The tick that makes a flow a thousand ticks old, on a 32-bit counter that wraps. */
  predicate TimesOut(d: Device) { d.flow.Flow? && (d.timer + 1 - d.flow.start) % 0x1_0000_0000 >= 1000 }

  /** In every such state the last tick empties the context, ends the flow and is answered
      with the timeout; every other one only counts. */
  lemma TickEmpties(c: Crypto, d: Device)
    requires Steady(d.api)
    ensures Sound(d.api)
    ensures var (d', r) := After(c, d, Tick);
            if TimesOut(d) then
              d' == Device(d'.api, NoFlow, (d.timer + 1) % 0x1_0000_0000, d.blindEnabled, d.epoch + 1)
              && Emptied(d.api, d'.api) && r == Response([], 0x6401)
            else d' == d.(timer := (d.timer + 1) % 0x1_0000_0000) && r == Silence
  {
    hide Steady, Cancel, Emptied;
    SteadySound(d.api);
    CancelEmpties(c, d.(timer := (d.timer + 1) % 0x1_0000_0000), SW_COMMAND_TIMEOUT);
    if d.flow.Flow? {
      ElapsedNext(d);
    }
  }

  lemma ElapsedNext(d: Device)
    requires d.flow.Flow?
    ensures Elapsed((d.timer + 1) % 0x1_0000_0000, d.flow.start) == (d.timer + 1 - d.flow.start) % 0x1_0000_0000
  {}

  /** The user rejects, the flow times out, or a command is answered with an error that is
      neither the locked device's nor the wrong class. */
  ghost predicate Discards(c: Crypto, d: Device, ev: Event) {
    Sound(d.api)
    && match ev
       case Reject => ConfirmationOpen(d)
       case Tick => TimesOut(d)
       case Apdu(_, _) =>
         var r := After(c, d, ev).1;
         r.Response? && r.sw != 0x9000 && r.sw != 0x6982 && r.sw != 0x6e00
       case _ => false
  }

  lemma DiscardBegins(c: Crypto, d: Device, ev: Event)
    requires Steady(d.api) && Discards(c, d, ev)
    ensures After(c, d, ev).0.epoch == d.epoch + 1 && After(c, d, ev).0.api.dataType == EMPTY
  {
    hide Steady, HandleApdu, HandleReject, HandleTick, Sound, Fresh;
    match ev
    case Reject => RejectEmpties(c, d);
    case Tick => TickEmpties(c, d);
    case Apdu(bytes, locked) =>
      FreshKnowsItself(APP_MODE_INIT, 0);
      if |bytes| > 0 {
        ApduAtomic(c, d, bytes, locked);
      } else {
        assert HandleApdu(c, d, bytes, locked).1 == Silence by { NoBytes(c, d, bytes, locked); }
      }
  }

  lemma NoBytes(c: Crypto, d: Device, bytes: seq<byte>, locked: bool)
    requires Sound(d.api) && |bytes| == 0
    ensures HandleApdu(c, d, bytes, locked).1 == Silence
  {}

  /** Nothing prepared before a reject, a timeout or a failed command is signed after it:
      the prepare, the confirm and the accept of every later signature come later. */
  lemma DiscardedIsNotSigned(c: Crypto, ds: seq<Device>, evs: seq<Event>, r: nat, n: nat)
    returns (i: nat, j: nat, k: nat)
    requires Run(c, ds, evs) && r < n < |evs| && |ds| == |evs| + 1
    requires Discards(c, ds[r], evs[r]) && Signs(c, ds[n], evs[n])
    ensures r < i && Authorized(ds, evs, i, j, k, n)
  {
    hide Run, After, Sound, Steady, Inv, Discards, Signs, Vouches, HashOfMessage, AnswerBytes, TableInBuffer,
      TableInPlace, PrepareStep, ConfirmStep, AcceptStep, Fair;
    var u;
    i, j, k, u := SigningSafety(c, ds, evs, n);
    RunSteady(c, ds, evs, r);
    RunStep(c, ds, evs, r);
    DiscardBegins(c, ds[r], evs[r]);
  }

  /** A flow that starts is told from the others by its start: it is now. */
  lemma StartsNow(c: Crypto, d: Device, ev: Event)
    requires Steady(d.api) && Sound(d.api)
    requires After(c, d, ev).0.flow.Flow? && After(c, d, ev).0.flow != d.flow
    ensures After(c, d, ev).0.flow.start == After(c, d, ev).0.timer
  {
    hide Steady, Dispatch, ClearData, TableWellFormed, TableInBuffer, Fresh;
  }

  /** A flow that nothing else ends is answered with the timeout at the thousandth tick
      since it started, and at none before. */
  lemma ThousandthTick(c: Crypto, ds: seq<Device>, evs: seq<Event>, m: nat, n: nat)
    requires Run(c, ds, evs) && m < n < |evs| && |ds| == |evs| + 1
    requires ds[m+1].flow.Flow? && ds[m+1].flow != ds[m].flow
    requires forall k :: m < k <= n ==> ds[k].flow == ds[m+1].flow
    requires evs[n] == Tick
    ensures Ticks(evs, m + 1, n) < 1000 && Sound(ds[n].api)
    ensures After(c, ds[n], evs[n]).1 == if Ticks(evs, m + 1, n) == 999 then Response([], 0x6401) else Silence
  {
    hide Run, After, Sound, Steady, Inv, Ticks, Fair, Emptied, Elapsed;
    RunSteady(c, ds, evs, m);
    RunSteady(c, ds, evs, n);
    RunStep(c, ds, evs, m);
    StartsNow(c, ds[m], evs[m]);
    FlowAge(c, ds, evs, m + 1, n);
    TickEmpties(c, ds[n]);
    NextElapsed(ds[n].timer, ds[n].flow.start);
  }

  lemma NextElapsed(timer: u32, start: u32)
    ensures Elapsed(timer, start) < 1000 ==>
      ((timer + 1 - start) % 0x1_0000_0000 >= 1000 <==> Elapsed(timer, start) == 999)
  {}
}
