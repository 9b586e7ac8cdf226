/** What the commands that fill the context are answered, decided from the bytes of the
    APDU and of the buffer: exactly when they succeed, and the code if they do not. */
module CommandAnswers {
  import opened Bytes
  import opened Config
  import opened Essence
  import opened ApiState
  import opened Signing
  import opened ApiSpec
  import opened Machine
  import opened MachineInvariant
  import opened MachineRuns
  import opened ParserMeaning
  import opened WireFormat

  lemma Answered(c: Crypto, d: Device, ev: Event, ins: byte)
    requires Steady(d.api) && Sound(d.api) && CommandOf(ev, ins) && !ev.locked
    ensures var cmd := Command(ins, ev.bytes[2], ev.bytes[3], ev.bytes[5..]);
            var s := Dispatch(c, d.api, cmd, false, d.blindEnabled);
            After(c, d, ev).1 == match s.out
              case Throw(code) => Response([], code)
              case NoReply => Silence
              case Async(_) => Silence
              case Reply(data, sw) => Response(data, sw)
  {
    hide Steady, Dispatch, Sound, After;
    CommandRuns(c, d, ev, ins);
    CommandCodes(c, d.api, Command(ins, ev.bytes[2], ev.bytes[3], ev.bytes[5..]), false, d.blindEnabled);
  }

  // -------------------------------------------------------------- the account

  predicate ModeKnown(mode: byte) {
    if APP == IotaApp then mode == 1 || mode == 129 else mode == 2 || mode == 3 || mode == 130 || mode == 131
  }

  lemma AccountAnswered(c: Crypto, d: Device, ev: Event)
    requires Steady(d.api) && CommandOf(ev, 0x11) && !ev.locked
    ensures Sound(d.api)
    ensures var q := ev.bytes;
            After(c, d, ev).1 == Response([],
              if |q| != 9 then 0x6700
              else if q[2] % 128 > 3 then 0x6b00
              else if !Hardened(U32(q, 5)) then 0x6a80
              else if !ModeKnown(q[2]) then 0x6388
              else 0x9000)
  {
    hide Steady, Dispatch, Sound, After, Fresh;
    SteadySound(d.api);
    Answered(c, d, ev, INS_SET_ACCOUNT);
    DispatchOf(c, d.api, Command(INS_SET_ACCOUNT, ev.bytes[2], ev.bytes[3], ev.bytes[5..]), false, d.blindEnabled);
    if |ev.bytes| == 9 {
      assert ev.bytes[5..][0..4] == ev.bytes[5..9];
    }
  }

  // --------------------------------------------------------------- the message

  /** The buffer holds this message, and it can be hashed; where the request names a
      remainder, it is the output with the address of the path that the request names. */
  ghost predicate Preparable(c: Crypto, a: Api, q: seq<byte>, e: Essence, bs: seq<Entry>)
    requires |q| == 15
  {
    var t := TableOffset(|e.inputs|, |e.outputs|, |e.payload|);
    && MessageBytes(a.buffer, e, bs) && Acceptable(e, bs)
    && t <= |a.buffer| && c.blake2b(a.buffer[..t]).Some?
    && (q[3] != 0 ==>
          U16(q, 5) < |e.outputs|
          && IsAddress(c, Below(a, U32(q, 11), U32(q, 7)), [0] + e.outputs[U16(q, 5)].pubkeyHash))
  }

  ghost predicate SomethingPreparable(c: Crypto, a: Api, q: seq<byte>)
    requires |q| == 15
  {
    exists e, bs :: Preparable(c, a, q, e, bs)
  }

  lemma PreparableIsAccepted(c: Crypto, a: Api, q: seq<byte>, e: Essence, bs: seq<Entry>)
    requires Grounded(a) && |q| == 15 && (q[3] != 0 ==> Hardened(U32(q, 7)) && Hardened(U32(q, 11)))
    requires U16(q, 5) == U16(q[5..], 0) && U32(q, 7) == U32(q[5..], 2) && U32(q, 11) == U32(q[5..], 6)
    ensures MessageAccepted(c, Announced(a, q[3], q[5..]), e, bs) <==> Preparable(c, a, q, e, bs)
  {
    hide StartsWith, MessageBytes, Acceptable, U16, U32, Serialize, AddressOf, IsAddress, Grounded, Below, WithEntry;
    StartsWithIffBytes(a.buffer, e, bs);
    if StartsWith(a.buffer, e, bs) {
      StartsWithBytes(a.buffer, e, bs);
      EssenceIsPrefix(a.buffer, e, bs);
      var k := U16(q, 5);
      if q[3] != 0 && k < |e.outputs| {
        HashSize(a.buffer, e, bs, k);
        BelowIs(a, Entry(U32(q, 7), U32(q, 11)));
        AddressOfIs(c, Below(a, U32(q, 11), U32(q, 7)), TypedAddress(e.outputs[k]));
      }
    }
  }

  lemma EssenceIsPrefix(d: buffer, e: Essence, bs: seq<Entry>)
    requires StartsWith(d, e, bs)
    ensures |Serialize(e)| <= |d| && Serialize(e) == d[..|Serialize(e)|]
  {
    hide Serialize, SerializeEntries, WellFormed;
    assert d[..|Serialize(e)|] == (Serialize(e) + SerializeEntries(bs))[..|Serialize(e)|];
  }

  lemma HashSize(d: buffer, e: Essence, bs: seq<Entry>, k: nat)
    requires StartsWith(d, e, bs) && k < |e.outputs|
    ensures |e.outputs[k].pubkeyHash| == 32
  {
    hide Serialize, SerializeEntries;
    assert OutputWellFormed(e.outputs[k]);
  }

  /** When a message is prepared, and with which code it is refused. */
  lemma PrepareAnswered(c: Crypto, d: Device, ev: Event)
    requires Steady(d.api) && CommandOf(ev, 0xa0) && !ev.locked
    ensures Sound(d.api)
    ensures var a, q := d.api, ev.bytes;
            After(c, d, ev).1 == Response([],
              if a.dataType != EMPTY then 0x6900
              else if !Hardened(a.path[2]) then 0x6388
              else if |q| != 15 then 0x6700
              else if q[3] != 0 && (a.appMode == 2 || !Hardened(U32(q, 7)) || !Hardened(U32(q, 11)) || U16(q, 5) >= 128)
              then 0x6a80
              else if !SomethingPreparable(c, a, q) then 0x6a80
              else 0x9000)
  {
    hide Steady, Dispatch, Sound, After, Fresh, Preparable, MessageAccepted, EssenceAccepted, EssenceParsed, Announced,
      SomethingPreparable, U16, U32;
    SteadySound(d.api);
    Answered(c, d, ev, INS_PREPARE_SIGNING);
    DispatchOf(c, d.api, Command(INS_PREPARE_SIGNING, ev.bytes[2], ev.bytes[3], ev.bytes[5..]), false, d.blindEnabled);
    var a, q := d.api, ev.bytes;
    if |q| == 15 {
      RequestFields(q);
      ParserEqualsGrammar(c, Announced(a, q[3], q[5..]));
      if q[3] != 0 ==> Hardened(U32(q, 7)) && Hardened(U32(q, 11)) {
        PreparableIff(c, a, q);
      }
    }
  }

  lemma PreparableIff(c: Crypto, a: Api, q: seq<byte>)
    requires Steady(a) && |q| == 15 && (q[3] != 0 ==> Hardened(U32(q, 7)) && Hardened(U32(q, 11)))
    ensures (exists e, bs :: MessageAccepted(c, Announced(a, q[3], q[5..]), e, bs)) <==> SomethingPreparable(c, a, q)
  {
    hide Preparable, MessageAccepted, Announced, U16, U32, TableWellFormed;
    RequestFields(q);
    forall e, bs
      ensures MessageAccepted(c, Announced(a, q[3], q[5..]), e, bs) <==> Preparable(c, a, q, e, bs)
    {
      PreparableIsAccepted(c, a, q, e, bs);
    }
  }

  lemma RequestFields(q: seq<byte>)
    requires |q| == 15
    ensures U16(q, 5) == U16(q[5..], 0) && U32(q, 7) == U32(q[5..], 2) && U32(q, 11) == U32(q[5..], 6)
  {
    assert q[5..][0..2] == q[5..7] && q[5..][2..6] == q[7..11] && q[5..][6..10] == q[11..15];
  }

  /** The same for a blind message: a hash, a count and hardened entries. */
  predicate BlindPreparable(d: buffer) {
    var n := U16(d, 32);
    1 <= n <= 128 && 34 + 8 * n < |d|
    && forall i :: 0 <= i < n ==> Hardened(U32(d, 34 + 8 * i)) && Hardened(U32(d, 34 + 8 * i + 4))
  }

  lemma BlindAnswered(c: Crypto, d: Device, ev: Event)
    requires Steady(d.api) && CommandOf(ev, 0x91) && !ev.locked
    ensures Sound(d.api)
    ensures var a, q := d.api, ev.bytes;
            After(c, d, ev).1 == Response([],
              if a.dataType != EMPTY || a.appMode == 2 then 0x6900
              else if !Hardened(a.path[2]) then 0x6388
              else if !BlindPreparable(a.buffer) then 0x6a80
              else 0x9000)
    ensures After(c, d, ev).1 == Response([], 0x9000) ==>
      var e := After(c, d, ev).0.api.essence;
      e.blindsigning && e.inputsCount == U16(d.api.buffer, 32) && e.hash == d.api.buffer[..32]
  {
    hide Steady, Dispatch, Sound, After, Fresh, U16, U32;
    SteadySound(d.api);
    Answered(c, d, ev, INS_PREPARE_BLINDSIGNING);
    CommandRuns(c, d, ev, INS_PREPARE_BLINDSIGNING);
    DispatchOf(c, d.api, Command(INS_PREPARE_BLINDSIGNING, ev.bytes[2], ev.bytes[3], ev.bytes[5..]), false,
               d.blindEnabled);
    BlindIff(d.api.buffer);
  }

  lemma BlindIff(d: buffer)
    ensures BlindLayout(d, U16(d, 32)) <==> BlindPreparable(d)
  {
    hide U16, U32;
    if BlindPreparable(d) {
      forall i | 0 <= i < U16(d, 32)
        ensures EntryOk(d, 34 + 8 * i)
      {
      }
    }
    if BlindLayout(d, U16(d, 32)) {
      forall i | 0 <= i < U16(d, 32)
        ensures Hardened(U32(d, 34 + 8 * i)) && Hardened(U32(d, 34 + 8 * i + 4))
      {
        assert EntryOk(d, 34 + 8 * i);
      }
    }
  }

  // -------------------------------------------------------------- the addresses

  ghost predicate Derivable(c: Crypto, q: path) { exists x :: IsAddress(c, q, x) }

  ghost predicate HasAddress(c: Crypto, a: Api, index: u32, change: u32, i: nat)
    requires index + i < 0x1_0000_0000
  {
    Derivable(c, Below(a, change, index + i))
  }

  /** All addresses asked for can be derived. */
  ghost predicate AllHaveAddress(c: Crypto, a: Api, index: u32, change: u32, count: u32)
    requires index + count < 0x1_0000_0000
  {
    forall i :: 0 <= i < count ==> HasAddress(c, a, index, change, i)
  }

  lemma DerivedIffAddress(c: Crypto, a: Api, index: u32, change: u32, count: u32)
    requires Grounded(a) && index + count < 0x1_0000_0000
    ensures AllDerived(c, a.path, Entry(index, change), count) <==> AllHaveAddress(c, a, index, change, count)
  {
    hide Grounded, AddressOf, IsAddress, HasAddress, Below, WithEntry;
    var b := Entry(index, change);
    forall i | 0 <= i < count
      ensures AddressOf(c, BatchPath(a.path, b, i)).Some? <==> HasAddress(c, a, index, change, i)
    {
      BelowIs(a, Entry(index + i, change));
      AddressIff(c, a, index, change, i);
    }
  }

  lemma AddressIff(c: Crypto, a: Api, index: u32, change: u32, i: nat)
    requires index + i < 0x1_0000_0000
    ensures AddressOf(c, Below(a, change, index + i)).Some? <==> HasAddress(c, a, index, change, i)
  {
    hide IsAddress, AddressOf, Below;
    var q := Below(a, change, index + i);
    if AddressOf(c, q).Some? {
      AddressOfIs(c, q, AddressOf(c, q).value);
    }
    forall x | IsAddress(c, q, x)
      ensures AddressOf(c, q).Some?
    {
      AddressOfIs(c, q, x);
    }
  }

  /** When addresses are generated, when they wait for the user, and with which code the
      request is refused. */
  lemma GenerateAnswered(c: Crypto, d: Device, ev: Event)
    requires Steady(d.api) && CommandOf(ev, 0xa1) && !ev.locked
    ensures Sound(d.api)
    ensures var a, q := d.api, ev.bytes;
            After(c, d, ev).1 ==
              if a.flowLocked then Response([], 0x6900)
              else if !Hardened(a.path[2]) then Response([], 0x6388)
              else if a.dataType != EMPTY then Response([], 0x6900)
              else if |q| != 17 then Response([], 0x6700)
              else
                var index, change, count := U32(q, 5), U32(q, 9), U32(q, 13);
                if 33 * count > |a.buffer| || (q[2] != 0 && count != 1) || !Hardened(index)
                   || change !in {0x8000_0000, 0x8000_0001} || index + count >= 0x1_0000_0000
                then Response([], 0x6a80)
                else if !AllHaveAddress(c, a, index, change, count) then Response([], 0x69a0)
                else if q[2] == 0 then Response([], 0x9000)
                else Silence
  {
    hide Steady, Dispatch, Sound, After, Fresh, U32, AllDerived, AllHaveAddress, Filled;
    SteadySound(d.api);
    SteadyGrounded(d.api);
    Answered(c, d, ev, INS_GENERATE_ADDRESS);
    DispatchOf(c, d.api, Command(INS_GENERATE_ADDRESS, ev.bytes[2], ev.bytes[3], ev.bytes[5..]), false, d.blindEnabled);
    var a, q := d.api, ev.bytes;
    if |q| == 17 {
      BatchFields(q);
      if U32(q, 5) + U32(q, 13) < 0x1_0000_0000 {
        DerivedIffAddress(c, a, U32(q, 5), U32(q, 9), U32(q, 13));
      }
    }
  }

  lemma SteadyGrounded(a: Api)
    requires Steady(a)
    ensures Grounded(a)
  {}

  lemma BatchFields(q: seq<byte>)
    requires |q| == 17
    ensures U32(q, 5) == U32(q[5..], 0) && U32(q, 9) == U32(q[5..], 4) && U32(q, 13) == U32(q[5..], 8)
  {
    assert q[5..][0..4] == q[5..9] && q[5..][4..8] == q[9..13] && q[5..][8..12] == q[13..17];
  }

  // ---------------------------------------------------------------- the confirm

  /** In a run, confirm is refused unless a message is validated and no flow is open;
      otherwise its flow starts now, with an accept step unless the message is blind and
      the setting is off. */
  lemma ConfirmAnswered(c: Crypto, d: Device, ev: Event)
    requires Inv(c, d) && CommandOf(ev, 0xa3) && !ev.locked
    ensures Sound(d.api)
    ensures var (d', r) := After(c, d, ev);
            var e := d.api.essence;
            if d.api.dataType == VALIDATED_ESSENCE && !d.api.flowLocked then
              r == Silence && d'.api.flowLocked && d'.epoch == d.epoch
              && d'.flow == Flow(if e.blindsigning then ConfirmBlind else ConfirmTransaction, d.timer,
                                 e.blindsigning ==> d.blindEnabled, d.epoch)
            else r == Response([], 0x6900)
  {
    hide ApiInv, FlowInv, Steady, Dispatch, Sound, After, Fresh, GuardFires, Agrees;
    SoundOfInv(c, d);
    InvSteady(c, d.api);
    Answered(c, d, ev, INS_USER_CONFIRM_ESSENCE);
    CommandRuns(c, d, ev, INS_USER_CONFIRM_ESSENCE);
    DispatchOf(c, d.api, Command(INS_USER_CONFIRM_ESSENCE, ev.bytes[2], ev.bytes[3], ev.bytes[5..]), false,
               d.blindEnabled);
    if d.api.dataType == VALIDATED_ESSENCE {
      InvAgrees(c, d);
      AgreesIsSafe(c, d.api);
    }
  }

  // ----------------------------------------------------------------- the blocks

  /** Blocks are read only while addresses are readable. */
  lemma ReadAnswered(c: Crypto, d: Device, ev: Event)
    requires Steady(d.api) && CommandOf(ev, 0x82) && !ev.locked
    ensures Sound(d.api)
    ensures var a, k := d.api, ev.bytes[2];
            After(c, d, ev).1 ==
              if a.dataType != GENERATED_ADDRESSES && a.dataType != SIGNATURES then Response([], 0x6900)
              else if 251 * k >= |a.buffer| then Response([], 0x6b00)
              else Response(a.buffer[251 * k..251 * k + 251], 0x9000)
  {
    hide Steady, Dispatch, Sound, After, Fresh;
    SteadySound(d.api);
    Answered(c, d, ev, INS_READ_DATA_BLOCK);
    DispatchOf(c, d.api, Command(INS_READ_DATA_BLOCK, ev.bytes[2], ev.bytes[3], ev.bytes[5..]), false, d.blindEnabled);
  }

  lemma WriteAnswered(c: Crypto, d: Device, ev: Event)
    requires Steady(d.api) && CommandOf(ev, 0x81) && !ev.locked
    ensures Sound(d.api)
    ensures var a, k := d.api, ev.bytes[2];
            After(c, d, ev).1 == Response([],
              if a.dataType != EMPTY then 0x6900
              else if |ev.bytes| != 256 then 0x6700
              else if 251 * k >= |a.buffer| then 0x6b00
              else 0x9000)
    ensures var a, k, a' := d.api, ev.bytes[2], After(c, d, ev).0.api;
            After(c, d, ev).1 == Response([], 0x9000) ==>
              251 * k + 251 <= |a.buffer|
              && a'.buffer == a.buffer[..251 * k] + ev.bytes[5..] + a.buffer[251 * k + 251..]
  {
    hide Steady, Dispatch, Sound, After, Fresh;
    SteadySound(d.api);
    Answered(c, d, ev, INS_WRITE_DATA_BLOCK);
    CommandRuns(c, d, ev, INS_WRITE_DATA_BLOCK);
    DispatchOf(c, d.api, Command(INS_WRITE_DATA_BLOCK, ev.bytes[2], ev.bytes[3], ev.bytes[5..]), false, d.blindEnabled);
  }
}
