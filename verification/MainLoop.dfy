/** Model of src/main.c, of the flow bookkeeping in src/ui/nano/flow_user_confirm.c
    and of the callbacks in src/api.c: the device as one object whose methods are the
    events, each proved to be the step of module Machine. */
module MainLoop {
  import opened Bytes
  import opened Config
  import opened ApiState
  import opened ApiCtx
  import opened Signing
  import opened ApiSpec
  import opened Machine
  import opened MachineInvariant
  import opened MachineRuns
  import ApiCommands

  class IotaMain {
    const api: Context
    /** `G_io_apdu_buffer` */
    const apduBuffer: array<byte>
    var timerEvents: u32
    var nvBlindsigning: bool

    // flow_data
    var flowActive: bool
    var flowKind: FlowKind
    var flowTimerStart: u32
    var acceptOffered: bool

    ghost var flowEpoch: nat
    ghost var epoch: nat

    ghost predicate Valid()
      reads this, api
    {
      api.Valid() && api.Disciplined() && apduBuffer.Length >= SIGNATURE_UNLOCK_SIZE
      && apduBuffer != api.buffer && (apduBuffer as object) != (api.bip32Path as object)
    }

    ghost function State(): Device
      requires api.Valid()
      reads this, api, api.buffer, api.bip32Path
    {
      Device(api.State(),
             if flowActive then Flow(flowKind, flowTimerStart, acceptOffered, flowEpoch) else NoFlow,
             timerEvents, nvBlindsigning, epoch)
    }

    /** `main` up to the first `io_exchange`. */
    constructor (crypto: Crypto, blindsigning: bool)
      ensures Valid() && State() == Boot(blindsigning, 1) && Inv(api.crypto, State())
      ensures fresh(api) && fresh(api.buffer) && fresh(api.bip32Path) && fresh(apduBuffer)
    {
      api := new Context(crypto);
      apduBuffer := new byte[260](_ => 0);
      timerEvents, nvBlindsigning := 0, blindsigning;
      flowActive, flowKind, flowTimerStart, acceptOffered := false, NewAddress, 0, false;
      flowEpoch, epoch := 0, 1;
      new;
      InitModeSupported();
      var out := ApiCommands.Initialize(api, APP_MODE_INIT, 0);
      BootInv(api.crypto, blindsigning, 1);
    }

    /** `flow_init` and `flow_stop` */
    method FlowStop()
      modifies `flowActive, `flowTimerStart, `acceptOffered
      ensures !flowActive
    {
      flowActive, flowTimerStart, acceptOffered := false, 0, false;
    }

    /** `flow_start_user_confirm`, and the choice of `flow_start_blindsigning`. */
    method FlowStart(kind: FlowKind)
      modifies `flowActive, `flowKind, `flowTimerStart, `acceptOffered, `flowEpoch
      ensures flowActive && flowKind == kind && flowTimerStart == timerEvents && flowEpoch == epoch
      ensures acceptOffered == (kind == ConfirmBlind ==> nvBlindsigning)
    {
      FlowStop();
      flowKind, flowTimerStart := kind, timerEvents;
      flowActive := true;
      acceptOffered := true;
      if kind == ConfirmBlind && !nvBlindsigning {
        acceptOffered := false;
      }
      flowEpoch := epoch;
    }

    /** The exception handler of the main loop. */
    method Catch(e: u16) returns (r: Response)
      requires Valid()
      modifies this`epoch, api, api.buffer, api.bip32Path
      ensures Valid() && (State(), r) == Machine.Catch(old(State()), e)
    {
      var sw: u16;
      if e / 0x1000 == 6 {
        sw := e;
      } else {
        sw := 0x6900 + OrA0(e % 0x100);
      }
      if sw != SW_DEVICE_IS_LOCKED && sw != SW_CLA_NOT_SUPPORTED {
        InitModeSupported();
        var out := ApiCommands.Initialize(api, APP_MODE_INIT, 0);
        epoch := epoch + 1;
      }
      r := Response([], sw);
    }

    /** `ui_init` and `io_initialize` after an I/O reset. */
    method Restart()
      requires Valid()
      modifies this, api, api.buffer, api.bip32Path
      ensures Valid() && State() == Boot(old(nvBlindsigning), old(epoch) + 1)
    {
      timerEvents := 0;
      FlowStop();
      InitModeSupported();
      var out := ApiCommands.Initialize(api, APP_MODE_INIT, 0);
      epoch := epoch + 1;
    }

    /** One turn of the loop in `IOTA_main` on `rx` received bytes. */
    method HandleApdu(bytes: seq<byte>, locked: bool) returns (r: Response)
      requires Valid() && Sound(api.State())
      modifies this, api, api.buffer, api.bip32Path, apduBuffer
      ensures Valid() && (State(), r) == old(Machine.HandleApdu(api.crypto, State(), bytes, locked))
    {
      hide Sound, ApiSpec.Dispatch, ApiSpec.Initialize, Fresh;
      ghost var d := State();
      if |bytes| == 0 {
        Restart();
        return Silence;
      }
      if !(|bytes| >= HEADER_SIZE) {
        r := Catch(SW_INCORRECT_LENGTH);
        return;
      }
      if bytes[0] != CLA {
        r := Catch(SW_CLA_NOT_SUPPORTED);
        return;
      }
      if |bytes| != bytes[4] + HEADER_SIZE {
        r := Catch(SW_INCORRECT_LENGTH_P3);
        return;
      }
      var cmd := Command(bytes[1], bytes[2], bytes[3], bytes[5..]);
      CommandCodes(api.crypto, d.api, cmd, locked, nvBlindsigning);
      var out := ApiCommands.Dispatch(api, apduBuffer, cmd, locked, nvBlindsigning);
      match out
      case Throw(code) =>
        r := Catch(code);
      case NoReply => r := Silence;
      case Reply(data, sw) =>
        if Initializes(cmd.ins) {
          epoch := epoch + 1;
        }
        r := Response(data, sw);
      case Async(kind) =>
        FlowStart(kind);
        r := Silence;
    }

    /** The accept step of a flow: the callback of src/api.c, then `flow_stop`. It does the
        same whatever the context holds by then. */
    method CbAccept() returns (r: Response)
      requires Valid()
      modifies this, api`dataType
      ensures Valid() && (State(), r) == old(Machine.HandleAccept(State()))
    {
      if !flowActive || !acceptOffered {
        return Silence;
      }
      if flowKind == NewAddress {
        api.dataType := GENERATED_ADDRESSES;
      } else {
        api.dataType := USER_CONFIRMED_ESSENCE;
      }
      FlowStop();
      r := Response([], SW_OK);
    }

    /** The reject and timeout callbacks: wipe, answer, then `flow_stop`. If wiping throws,
        the exception leaves the callback. */
    method Cancel(sw: u16) returns (r: Response)
      requires Valid()
      modifies this, api, api.buffer, api.bip32Path
      ensures Valid() && (State(), r) == old(Machine.Cancel(State(), sw))
    {
      hide Fresh;
      var out := ApiCommands.ClearData(api);
      if out.Throw? {
        r := Catch(out.code);
        return;
      }
      epoch := epoch + 1;
      FlowStop();
      r := Response([], sw);
    }

    method CbReject() returns (r: Response)
      requires Valid()
      modifies this, api, api.buffer, api.bip32Path
      ensures Valid() && (State(), r) == old(Machine.HandleReject(State()))
    {
      hide Machine.Cancel;
      if !flowActive || flowKind == NewAddress {
        return Silence;
      }
      r := Cancel(SW_DENIED_BY_USER);
    }

    /** The ticker event of `io_event` with `flow_timer_event`. */
    method TickerEvent() returns (r: Response)
      requires Valid()
      modifies this, api, api.buffer, api.bip32Path
      ensures Valid() && (State(), r) == old(Machine.HandleTick(State()))
    {
      hide Machine.Cancel;
      timerEvents := (timerEvents + 1) % 0x1_0000_0000;
      if flowActive {
        if (timerEvents - flowTimerStart) % 0x1_0000_0000 >= FLOW_TIMEOUT {
          r := Cancel(SW_COMMAND_TIMEOUT);
          return;
        }
      }
      r := Silence;
    }

    /** An exception that a UI callback throws inside `io_exchange`. */
    method UiThrows(e: u16) returns (r: Response)
      requires Valid()
      modifies this, api, api.buffer, api.bip32Path
      ensures Valid()
      ensures (State(), r) == if e == EXCEPTION_IO_RESET then (Boot(old(nvBlindsigning), old(epoch) + 1), Silence)
                              else old(Machine.Catch(State(), e))
    {
      if e == EXCEPTION_IO_RESET {
        Restart();
        return Silence;
      }
      r := Catch(e);
    }

    /** `nv_toggle_blindsigning` from the settings menu. */
    method ToggleBlindsigning()
      modifies `nvBlindsigning
      ensures nvBlindsigning == !old(nvBlindsigning)
    {
      nvBlindsigning := !nvBlindsigning;
    }

    /** One event: a step of the machine, which keeps its invariants. */
    method Handle(ev: Event) returns (r: Response)
      requires Valid() && Steady(api.State())
      modifies this, api, api.buffer, api.bip32Path, apduBuffer
      ensures Valid() && Steady(api.State())
      ensures old(Sound(State().api)) && (State(), r) == old(After(api.crypto, State(), ev))
      ensures old(Inv(api.crypto, State()) && Fair(State(), ev)) ==> Inv(api.crypto, State())
    {
      hide Inv, Steady, Sound, Machine.HandleApdu, HandleAccept, HandleReject, HandleTick, Machine.Catch;
      ghost var d := State();
      StepKeepsSteady(api.crypto, d, ev);
      if Inv(api.crypto, d) && Fair(d, ev) {
        StepKeepsInv(api.crypto, d, ev);
      }
      match ev
      case Apdu(bytes, locked) => r := HandleApdu(bytes, locked);
      case Accept => r := CbAccept();
      case Reject => r := CbReject();
      case Tick => r := TickerEvent();
      case ToggleBlindsigning =>
        ToggleBlindsigning();
        r := Silence;
      case UiException(e) => r := UiThrows(e);
    }

    /** The loop of `IOTA_main` on any events: the object goes through a run of the
        machine, answers as the machine does, and has asked key derivation for hardened
        paths only. If the accepts among the events are fair, so is the run. */
    method Serve(evs: seq<Event>) returns (rs: seq<Response>, ghost ds: seq<Device>)
      requires Valid() && exists b, n :: State() == Boot(b, n)
      modifies this, api, api.buffer, api.bip32Path, apduBuffer
      ensures Valid() && api.Disciplined() && Steady(api.State())
      ensures FreeRun(api.crypto, ds, evs) && ds[|evs|] == State()
      ensures |rs| == |evs| && forall i :: 0 <= i < |evs| ==>
        Sound(ds[i].api) && rs[i] == After(api.crypto, ds[i], evs[i]).1 && ds[i+1] == After(api.crypto, ds[i], evs[i]).0
      ensures FairUpTo(ds, evs, |evs|) ==> Run(api.crypto, ds, evs) && Inv(api.crypto, State())
    {
      hide Inv, Steady, Sound, After, Fair, Fresh;
      ghost var b, n :| State() == Boot(b, n);
      InitModeSupported();
      FreshSteady(APP_MODE_INIT, 0);
      rs, ds := [], [State()];
      for i := 0 to |evs|
        invariant Valid() && Steady(api.State())
        invariant |ds| == i + 1 && ds[0] == Boot(b, n) && ds[i] == State() && |rs| == i
        invariant forall k :: 0 <= k < i ==>
          Sound(ds[k].api) && rs[k] == After(api.crypto, ds[k], evs[k]).1
          && ds[k+1] == After(api.crypto, ds[k], evs[k]).0
      {
        var r := Handle(evs[i]);
        rs, ds := rs + [r], ds + [State()];
      }
      if FairUpTo(ds, evs, |evs|) {
        RunInv(api.crypto, ds, evs, |evs|);
      }
    }
  }
}
