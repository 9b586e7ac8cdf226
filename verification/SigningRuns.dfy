/** Whole runs, seen from the signatures that leave the device: what must have happened
    before, what they sign, and that every accepted message can be signed. */
module SigningRuns {
  import opened Bytes
  import opened Config
  import opened Essence
  import opened ApiState
  import opened Signing
  import opened ApiSpec
  import opened Machine
  import opened MachineInvariant
  import opened MachineRuns
  import opened InternalTransfer

  // ------------------------------------------------------------- signing safety

  /** `ev` is a sign command that `d` answers with a signature. */
  ghost predicate Signs(c: Crypto, d: Device, ev: Event) {
    Sound(d.api) && CommandOf(ev, INS_SIGN_SINGLE) && After(c, d, ev).1.Response? && After(c, d, ev).1.sw == SW_OK
  }

  /** What a confirmed message answers to a request for input `p`. */
  function AnswerFor(c: Crypto, a: Api, p: byte): Response
    requires TableInBuffer(a)
  {
    if p >= a.essence.inputsCount then Response([], SW_INCORRECT_P1P2)
    else match UnlockFor(c, a, p)
      case Some(u) => Response(SerializeUnlock(u), SW_OK)
      case None => Response([], SW_UNKNOWN)
  }

  /** What a sign command is answered in every state that any events can lead to. A
      confirmed context without a message is stopped by the guard. */
  lemma SignAnsweredAnyhow(c: Crypto, d: Device, ev: Event)
    requires Steady(d.api) && CommandOf(ev, INS_SIGN_SINGLE)
    ensures Sound(d.api) && (d.api.dataType == USER_CONFIRMED_ESSENCE && !GuardFires(d.api) ==> TableInBuffer(d.api))
    ensures After(c, d, ev).1 ==
      if ev.locked then Response([], SW_DEVICE_IS_LOCKED)
      else if d.api.dataType != USER_CONFIRMED_ESSENCE then Response([], SW_COMMAND_NOT_ALLOWED)
      else if GuardFires(d.api) then Response([], SW_UNKNOWN)
      else AnswerFor(c, d.api, ev.bytes[2])
    ensures d.api.essence.inputsCount == 0 ==> GuardFires(d.api)
  {
    hide Steady, After, Dispatch, UnlockFor, TableWellFormed, PathAfter, SerializeUnlock, Fresh, PrepareSigning,
      GenerateAddress, PrepareBlindsigning, SetAccount, WriteDataBlock, UserConfirmEssence, ReadDataBlock;
    SteadySound(d.api);
    CommandRuns(c, d, ev, INS_SIGN_SINGLE);
    DispatchOf(c, d.api, Command(INS_SIGN_SINGLE, ev.bytes[2], ev.bytes[3], ev.bytes[5..]), ev.locked,
                    d.blindEnabled);
  }

  /** A sign command is answered by the confirmed message, or refused. */
  lemma SignAnswered(c: Crypto, d: Device, ev: Event)
    requires Inv(c, d) && Sound(d.api) && CommandOf(ev, INS_SIGN_SINGLE)
    ensures d.api.dataType == USER_CONFIRMED_ESSENCE ==> TableInBuffer(d.api)
    ensures After(c, d, ev).1 ==
      if ev.locked then Response([], SW_DEVICE_IS_LOCKED)
      else if d.api.dataType != USER_CONFIRMED_ESSENCE then Response([], SW_COMMAND_NOT_ALLOWED)
      else AnswerFor(c, d.api, ev.bytes[2])
  {
    hide Sound, After, AnswerFor, TableWellFormed, GuardFires, FlowInv, Steady;
    InvSteady(c, d.api);
    SignAnsweredAnyhow(c, d, ev);
    if d.api.dataType == USER_CONFIRMED_ESSENCE {
      InvAgrees(c, d);
      AgreesIsSafe(c, d.api);
    }
  }

  lemma ConfirmedTable(c: Crypto, d: Device)
    requires Inv(c, d) && d.api.dataType == USER_CONFIRMED_ESSENCE
    ensures TableInBuffer(d.api)
  {
    hide Inv, TableWellFormed, GuardFires;
    InvAgrees(c, d);
    AgreesIsSafe(c, d.api);
  }

  lemma SignNeedsConfirmed(c: Crypto, d: Device, ev: Event)
    requires Inv(c, d) && Signs(c, d, ev)
    ensures !ev.locked && d.api.dataType == USER_CONFIRMED_ESSENCE && TableInBuffer(d.api)
    ensures ev.bytes[2] < d.api.essence.inputsCount && UnlockFor(c, d.api, ev.bytes[2]).Some?
    ensures After(c, d, ev).1.data == SerializeUnlock(UnlockFor(c, d.api, ev.bytes[2]).value)
  {
    hide Inv, After, UnlockFor, TableWellFormed, SerializeUnlock;
    if d.api.dataType == USER_CONFIRMED_ESSENCE {
      ConfirmedTable(c, d);
    }
    SignAnswered(c, d, ev);
  }

  /** The stored hash is that of the message in the buffer. */
  ghost predicate HashOfMessage(c: Crypto, a: Api) {
    if a.essence.blindsigning then a.essence.hash == a.buffer[..32]
    else exists e, bs :: StartsWith(a.buffer, e, bs) && a.essence.length == |Serialize(e)|
                         && c.blake2b(Serialize(e)) == Some(a.essence.hash)
  }

  lemma AgreesHash(c: Crypto, a: Api)
    requires Agrees(c, a)
    ensures HashOfMessage(c, a)
  {
    hide BlindLayout, RemainderVerified, StaysInWallet, StartsWith, Serialize;
    if !a.essence.blindsigning {
      var l :| AgreesAt(c, a, l);
      hide HasLayout;
      LayoutBounds(a.buffer, l);
      LayoutStartsWith(a.buffer, l);
      assert StartsWith(a.buffer, EssenceAt(a.buffer, l), EntriesAt(a.buffer, l.essenceLength, l.inputs));
      assert |Serialize(EssenceAt(a.buffer, l))| == l.essenceLength;
    }
  }

  /** What the unlock `u` of input `p` stands for: a signature of the stored hash with
      the key of the input's own hardened path, or an earlier input with that path. */
  predicate Vouches(c: Crypto, a: Api, p: nat, u: Unlock)
    requires TableInBuffer(a) && p < a.essence.inputsCount
  {
    match u
    case SignatureUnlock(key, sig) =>
      var q := WithEntry(RootPath(a), Table(a)[p]);
      AllHardened(q) && c.sign(q, a.essence.hash) == Some(sig) && c.publicKey(q) == Some(key)
    case ReferenceUnlock(r) => !a.essence.blindsigning && r < p && Table(a)[r] == Table(a)[p]
  }

  lemma UnlockVouches(c: Crypto, a: Api, p: byte)
    requires Steady(a) && TableInBuffer(a) && p < a.essence.inputsCount && UnlockFor(c, a, p).Some?
    ensures Vouches(c, a, p, UnlockFor(c, a, p).value)
  {
    hide Table, Earlier;
    var e := Table(a)[p];
    assert EntryWellFormed(e);
    assert a.path[0] == a.path[..3][0] && a.path[1] == a.path[..3][1] && a.path[2] == a.path[..3][2];
    assert WithEntry(a.path, e) == WithEntry(RootPath(a), e);
  }

  /** The eight bytes that the client sent as the BIP32 entry of input `p`. */
  function EntryBytes(a: Api, p: nat): seq<byte>
    requires TableInBuffer(a) && p < a.essence.inputsCount
  {
    a.buffer[a.essence.entries.value + 8 * p..a.essence.entries.value + 8 * p + 8]
  }

  predicate SameEntry(a: Api, j: nat, p: nat)
    requires TableInBuffer(a) && p < a.essence.inputsCount
  {
    j < p && EntryBytes(a, j) == EntryBytes(a, p)
  }

  /** `r` is the answer for input `p`, byte by byte: 1 and the first earlier input with
      the same eight bytes; or two zeros, the public key of the path that the eight bytes
      name, index before change, and the signature of the stored hash with this path. */
  ghost predicate AnswerBytes(c: Crypto, a: Api, p: nat, r: seq<byte>)
    requires TableInBuffer(a) && p < a.essence.inputsCount
  {
    if !a.essence.blindsigning && exists j: nat :: SameEntry(a, j, p) then
      |r| == 3 && r[0] == 1 && SameEntry(a, r[1], p) && r[2] == 0
      && forall j: nat :: SameEntry(a, j, p) ==> r[1] <= j
    else
      var o := a.essence.entries.value + 8 * p;
      var q := Below(a, U32(a.buffer, o + 4), U32(a.buffer, o));
      |r| == 98 && r[0] == 0 && r[1] == 0 && AllHardened(q)
      && c.publicKey(q) == Some(r[2..34]) && c.sign(q, a.essence.hash) == Some(r[34..98])
  }

  lemma SameEntryIs(a: Api, j: nat, p: nat)
    requires TableInBuffer(a) && j < p < a.essence.inputsCount
    ensures SameEntry(a, j, p) <==> Table(a)[j] == Table(a)[p]
  {
    hide EntryAt;
    var t := a.essence.entries.value;
    assert Table(a)[j] == EntryAt(a.buffer, t + 8 * j) && Table(a)[p] == EntryAt(a.buffer, t + 8 * p);
    SameBytesSameEntry(a.buffer, t + 8 * j, t + 8 * p);
  }

  lemma UnlockAnswers(c: Crypto, a: Api, p: byte)
    requires Steady(a) && TableInBuffer(a) && p < a.essence.inputsCount && UnlockFor(c, a, p).Some?
    ensures AnswerBytes(c, a, p, SerializeUnlock(UnlockFor(c, a, p).value))
  {
    hide Steady, Table, SameEntry, SerializeUnlock, Earlier, SignatureFor, U32;
    forall j: nat | j < p
      ensures SameEntry(a, j, p) <==> Table(a)[j] == Table(a)[p]
    {
      SameEntryIs(a, j, p);
    }
    OnlyBefore(a, p);
    var e := Earlier(Table(a), p, 0);
    if !a.essence.blindsigning && e.Some? {
      ReferenceBytes(e.value);
    } else {
      SignatureAnswers(c, a, p);
    }
  }

  lemma OnlyBefore(a: Api, p: nat)
    requires TableInBuffer(a) && p < a.essence.inputsCount
    ensures forall j: nat :: SameEntry(a, j, p) ==> j < p
  {}

  lemma SignatureAnswers(c: Crypto, a: Api, p: byte)
    requires Steady(a) && TableInBuffer(a) && p < a.essence.inputsCount
    requires SignatureFor(c, WithEntry(a.path, Table(a)[p]), a.essence.hash).Some?
    ensures var r := SerializeUnlock(SignatureFor(c, WithEntry(a.path, Table(a)[p]), a.essence.hash).value);
            var o := a.essence.entries.value + 8 * p;
            var q := Below(a, U32(a.buffer, o + 4), U32(a.buffer, o));
            |r| == 98 && r[0] == 0 && r[1] == 0 && AllHardened(q)
            && c.publicKey(q) == Some(r[2..34]) && c.sign(q, a.essence.hash) == Some(r[34..98])
  {
    hide U32;
    var e, o := Table(a)[p], a.essence.entries.value + 8 * p;
    assert EntryWellFormed(e);
    assert e == EntryAt(a.buffer, o);
    BelowIs(a, e);
    var u := SignatureFor(c, WithEntry(a.path, e), a.essence.hash).value;
    var r := SerializeUnlock(u);
    assert r[2..34] == u.publicKey && r[34..98] == u.signature;
  }

  /** Whatever host and user do: what leaves the device is an unlock made with the key of
      the input's own hardened path below the selected account, over the stored hash. */
  lemma EverySignatureVouches(c: Crypto, ds: seq<Device>, evs: seq<Event>, n: nat) returns (u: Unlock)
    requires FreeRun(c, ds, evs) && n < |evs| && Signs(c, ds[n], evs[n])
    ensures ds[n].api.dataType == USER_CONFIRMED_ESSENCE && !GuardFires(ds[n].api)
    ensures TableInBuffer(ds[n].api) && evs[n].bytes[2] < ds[n].api.essence.inputsCount
    ensures After(c, ds[n], evs[n]).1.data == SerializeUnlock(u)
    ensures Vouches(c, ds[n].api, evs[n].bytes[2], u)
    ensures AnswerBytes(c, ds[n].api, evs[n].bytes[2], After(c, ds[n], evs[n]).1.data)
  {
    hide FreeRun, Steady, Sound, After, GuardFires, TableInBuffer, Vouches, AnswerBytes, UnlockFor, SerializeUnlock;
    FreeRunLengths(c, ds, evs);
    FreeRunSteady(c, ds, evs, n);
    SignAnsweredAnyhow(c, ds[n], evs[n]);
    u := UnlockFor(c, ds[n].api, evs[n].bytes[2]).value;
    UnlockVouches(c, ds[n].api, evs[n].bytes[2]);
    UnlockAnswers(c, ds[n].api, evs[n].bytes[2]);
  }

  /** The table lies behind the essence, or behind the hash and the count. */
  predicate TableInPlace(a: Api) {
    a.essence.entries == Some(if a.essence.blindsigning then 34 else a.essence.length as nat)
  }

  lemma AgreesPlace(c: Crypto, a: Api)
    requires Agrees(c, a)
    ensures TableInPlace(a)
  {
    hide BlindLayout, RemainderVerified, StaysInWallet, HasLayout;
  }

  /** Every signature that leaves the device was authorized: since the last
      initialization there were, in this order, a successful prepare, a confirm that
      started a flow and the user's accept in that flow; buffer and hash are those of
      the prepare. What leaves is the unlock `u`, made with the hash of the message in
      the buffer, or with the submitted one in blind mode, and then blind signing was
      enabled when the flow started. */
  lemma SigningSafety(c: Crypto, ds: seq<Device>, evs: seq<Event>, n: nat)
    returns (i: nat, j: nat, k: nat, u: Unlock)
    requires Run(c, ds, evs) && n < |evs| && Signs(c, ds[n], evs[n])
    ensures Authorized(ds, evs, i, j, k, n)
    ensures forall m :: i < m <= n ==> ds[m].epoch == ds[i].epoch && ds[m].api.buffer == ds[i].api.buffer
                                       && ds[m].api.essence.hash == ds[n].api.essence.hash
    ensures HashOfMessage(c, ds[n].api)
    ensures ds[n].api.essence.blindsigning ==> ds[j].blindEnabled
    ensures After(c, ds[n], evs[n]).1.data == SerializeUnlock(u)
    ensures TableInBuffer(ds[n].api) && evs[n].bytes[2] < ds[n].api.essence.inputsCount
    ensures Vouches(c, ds[n].api, evs[n].bytes[2], u)
    ensures TableInPlace(ds[n].api) && AnswerBytes(c, ds[n].api, evs[n].bytes[2], After(c, ds[n], evs[n]).1.data)
  {
    hide Inv, Sound, After, Fair, Run, HashOfMessage, Agrees, Vouches, UnlockFor, SerializeUnlock, TableInBuffer,
      Steady, AnswerBytes, TableInPlace;
    RunLengths(c, ds, evs);
    RunInv(c, ds, evs, n);
    SignNeedsConfirmed(c, ds[n], evs[n]);
    i, j, k := ConfirmedWasAuthorized(c, ds, evs, n);
    u := UnlockFor(c, ds[n].api, evs[n].bytes[2]).value;
    RunSteady(c, ds, evs, n);
    UnlockVouches(c, ds[n].api, evs[n].bytes[2]);
    UnlockAnswers(c, ds[n].api, evs[n].bytes[2]);
    InvAgrees(c, ds[n]);
    AgreesPlace(c, ds[n].api);
    AgreesHash(c, ds[n].api);
    assert SameMessage(ds[i+1], ds[n]) && SameMessage(ds[j], ds[n]);
    assert ds[j+1].flow == ds[k].flow;
  }

  // ------------------------------------------------- all answers of one period

  /** A step keeps a confirmed message, or begins a new period. */
  lemma ConfirmedStep(c: Crypto, d: Device, ev: Event)
    requires Inv(c, d) && Sound(d.api) && Fair(d, ev) && d.api.dataType == USER_CONFIRMED_ESSENCE
    ensures var d' := After(c, d, ev).0;
            d'.epoch > d.epoch || (d'.api.dataType == USER_CONFIRMED_ESSENCE && SameMessage(d, d'))
  {
    hide ApiInv, TableWellFormed, TableInBuffer, Fresh, Dispatch, ClearData;
    match ev
    case Apdu(bytes, locked) =>
      if WellFramed(bytes) {
        CommandKeepsInv(c, d.api, Command(bytes[1], bytes[2], bytes[3], bytes[5..]), locked, d.blindEnabled);
      }
    case _ =>
  }

  /** Once confirmed, a message stays confirmed and unchanged for the whole period. */
  lemma {:induction false} ConfirmedStays(c: Crypto, ds: seq<Device>, evs: seq<Event>, m: nat, n: nat)
    requires Run(c, ds, evs) && m <= n <= |evs| && ds[m].epoch == ds[n].epoch
    requires ds[m].api.dataType == USER_CONFIRMED_ESSENCE
    ensures ds[n].api.dataType == USER_CONFIRMED_ESSENCE && SameMessage(ds[m], ds[n])
  {
    hide Run, Inv, Sound, After, Fair;
    RunLengths(c, ds, evs);
    if m == n {
    } else {
      EpochGrows(c, ds, evs, m, n - 1);
      EpochGrows(c, ds, evs, n - 1, n);
      ConfirmedStays(c, ds, evs, m, n - 1);
      RunStep(c, ds, evs, n - 1);
      ConfirmedStep(c, ds[n-1], evs[n-1]);
    }
  }

  /** An unlock depends on the message alone, not on where earlier commands left the
      shared path. */
  lemma UnlockOfMessage(c: Crypto, a: Api, b: Api, p: nat)
    requires a.buffer == b.buffer && a.essence == b.essence && a.path[..3] == b.path[..3]
    requires TableInBuffer(a) && p < a.essence.inputsCount
    ensures TableInBuffer(b) && UnlockFor(c, a, p) == UnlockFor(c, b, p)
  {
    hide Earlier, SignatureFor;
    var e := Table(a)[p];
    assert a.path[0] == a.path[..3][0] && a.path[1] == a.path[..3][1] && a.path[2] == a.path[..3][2];
    assert b.path[0] == b.path[..3][0] && b.path[1] == b.path[..3][1] && b.path[2] == b.path[..3][2];
    assert WithEntry(a.path, e) == WithEntry(b.path, e);
  }

  lemma AnswerOfMessage(c: Crypto, a: Api, b: Api, p: byte)
    requires a.buffer == b.buffer && a.essence == b.essence && a.path[..3] == b.path[..3] && TableInBuffer(a)
    ensures TableInBuffer(b) && AnswerFor(c, a, p) == AnswerFor(c, b, p)
  {
    hide UnlockFor, SerializeUnlock;
    if p < a.essence.inputsCount {
      UnlockOfMessage(c, a, b, p);
    }
  }

  /** From the moment a message is confirmed until the next initialization, every sign
      command is answered by that message, whatever was signed or asked in between; only
      a locked device refuses it. */
  lemma AnsweredByMessage(c: Crypto, ds: seq<Device>, evs: seq<Event>, m: nat, n: nat)
    requires Run(c, ds, evs) && m <= n < |evs| && ds[m].epoch == ds[n].epoch
    requires ds[m].api.dataType == USER_CONFIRMED_ESSENCE && CommandOf(evs[n], INS_SIGN_SINGLE)
    ensures Sound(ds[n].api) && TableInBuffer(ds[m].api)
    ensures After(c, ds[n], evs[n]).1 ==
      if evs[n].locked then Response([], SW_DEVICE_IS_LOCKED) else AnswerFor(c, ds[m].api, evs[n].bytes[2])
  {
    hide Run, Inv, After, Fair, AnswerFor, TableInBuffer, TableWellFormed;
    RunLengths(c, ds, evs);
    RunInv(c, ds, evs, m);
    RunInv(c, ds, evs, n);
    ConfirmedStays(c, ds, evs, m, n);
    ConfirmedTable(c, ds[m]);
    SignAnswered(c, ds[n], evs[n]);
    AnswerOfMessage(c, ds[m].api, ds[n].api, evs[n].bytes[2]);
  }

  /** Signing is repeatable and does not depend on order: a signature given once is
      given again, in the same period, whatever happened in between. */
  lemma SignRepeatable(c: Crypto, ds: seq<Device>, evs: seq<Event>, m: nat, n: nat)
    requires Run(c, ds, evs) && m <= n < |evs| && ds[m].epoch == ds[n].epoch && Signs(c, ds[m], evs[m])
    requires CommandOf(evs[n], INS_SIGN_SINGLE) && !evs[n].locked && evs[n].bytes[2] == evs[m].bytes[2]
    ensures Sound(ds[n].api) && After(c, ds[n], evs[n]).1 == After(c, ds[m], evs[m]).1
  {
    hide Run, Inv, Sound, After, Fair, AnswerFor, TableInBuffer;
    RunLengths(c, ds, evs);
    RunInv(c, ds, evs, m);
    SignNeedsConfirmed(c, ds[m], evs[m]);
    AnsweredByMessage(c, ds, evs, m, m);
    AnsweredByMessage(c, ds, evs, m, n);
  }

  /** The events `at` of one period answered all inputs, each with a signature. */
  ghost predicate AllSigned(c: Crypto, ds: seq<Device>, evs: seq<Event>, at: seq<nat>)
    requires |ds| == |evs| + 1
  {
    |at| > 0 && (forall p :: 0 <= p < |at| ==> at[p] < |evs|)
    && |at| == ds[at[0]].api.essence.inputsCount
    && forall p :: 0 <= p < |at| ==>
      Signs(c, ds[at[p]], evs[at[p]]) && evs[at[p]].bytes[2] == p && ds[at[p]].epoch == ds[at[0]].epoch
  }

  /** The replies collected from sign commands, given in any order and with anything in
      between, are the serialized unlocks of one list, and that list obeys the rules of
      TIP-0020; in blind mode it holds signatures only. */
  lemma CollectedUnlocks(c: Crypto, ds: seq<Device>, evs: seq<Event>, at: seq<nat>) returns (us: seq<Unlock>)
    requires Run(c, ds, evs) && AllSigned(c, ds, evs, at)
    ensures |us| == |at| && TableInBuffer(ds[at[0]].api)
    ensures forall p :: 0 <= p < |at| ==> After(c, ds[at[p]], evs[at[p]]).1.data == SerializeUnlock(us[p])
    ensures forall p :: 0 <= p < |at| ==> AnswerBytes(c, ds[at[0]].api, p, After(c, ds[at[p]], evs[at[p]]).1.data)
    ensures var a := ds[at[0]].api;
            if a.essence.blindsigning then forall p :: 0 <= p < |us| ==> us[p].SignatureUnlock?
            else UnlockRules(Table(a), us)
  {
    hide Run, Inv, Sound, After, Fair, UnlockFor, SerializeUnlock, TableInBuffer, Table, UnlockRules, AnswerBytes,
      Steady;
    RunLengths(c, ds, evs);
    var a := ds[at[0]].api;
    forall p | 0 <= p < |at|
      ensures TableInBuffer(a) && p < a.essence.inputsCount && UnlockFor(c, a, p).Some?
      ensures After(c, ds[at[p]], evs[at[p]]).1.data == SerializeUnlock(UnlockFor(c, a, p).value)
      ensures AnswerBytes(c, a, p, After(c, ds[at[p]], evs[at[p]]).1.data)
    {
      CollectedUnlock(c, ds, evs, at[0], at[p]);
      RunSteady(c, ds, evs, at[0]);
      UnlockAnswers(c, a, evs[at[p]].bytes[2]);
    }
    us := seq(|at|, p requires 0 <= p < |at| => UnlockFor(c, a, p).value);
    CountBounded(c, ds, evs, at[0]);
    if a.essence.blindsigning {
      BlindUnlocksAreSignatures(c, a, us);
    } else {
      UnlockListWellFormed(c, a, us);
    }
  }

  lemma CollectedUnlock(c: Crypto, ds: seq<Device>, evs: seq<Event>, m: nat, n: nat)
    requires Run(c, ds, evs) && m < |evs| && n < |evs| && ds[m].epoch == ds[n].epoch
    requires Signs(c, ds[m], evs[m]) && Signs(c, ds[n], evs[n])
    ensures var a, p := ds[m].api, evs[n].bytes[2];
            TableInBuffer(a) && p < a.essence.inputsCount && UnlockFor(c, a, p).Some?
            && After(c, ds[n], evs[n]).1.data == SerializeUnlock(UnlockFor(c, a, p).value)
  {
    hide Run, Inv, Sound, After, Fair, UnlockFor, SerializeUnlock, TableInBuffer;
    RunLengths(c, ds, evs);
    RunInv(c, ds, evs, m);
    RunInv(c, ds, evs, n);
    SignNeedsConfirmed(c, ds[m], evs[m]);
    SignNeedsConfirmed(c, ds[n], evs[n]);
    if m <= n {
      ConfirmedStays(c, ds, evs, m, n);
    } else {
      ConfirmedStays(c, ds, evs, n, m);
    }
    UnlockOfMessage(c, ds[n].api, ds[m].api, evs[n].bytes[2]);
  }

  lemma CountBounded(c: Crypto, ds: seq<Device>, evs: seq<Event>, n: nat)
    requires Run(c, ds, evs) && n < |evs| && Signs(c, ds[n], evs[n])
    ensures ds[n].api.essence.inputsCount <= INPUTS_MAX_COUNT
  {
    hide Run, Inv, Sound, After, Fair, Agrees;
    RunLengths(c, ds, evs);
    RunInv(c, ds, evs, n);
    SignNeedsConfirmed(c, ds[n], evs[n]);
    InvAgrees(c, ds[n]);
    AgreesIsSafe(c, ds[n].api);
  }

  // --------------------------------------------------------------- completeness

  predicate IsPrepare(ev: Event) {
    CommandOf(ev, INS_PREPARE_SIGNING) || CommandOf(ev, INS_PREPARE_BLINDSIGNING)
  }

  ghost predicate AnswersOk(c: Crypto, d: Device, ev: Event) {
    Sound(d.api) && After(c, d, ev).1 == Response([], SW_OK)
  }

  lemma PrepareSucceeds(c: Crypto, d: Device, ev: Event)
    requires Inv(c, d) && IsPrepare(ev) && AnswersOk(c, d, ev)
    ensures PrepareStep(d, ev, After(c, d, ev).0)
  {
    hide ApiInv, FlowInv, TableWellFormed, TableInBuffer, Fresh, Dispatch, Steady, RemainderAsRequested;
    InvSteady(c, d.api);
    if CommandOf(ev, INS_PREPARE_SIGNING) {
      PreparedBy(c, d, ev);
    }
    var cmd := Command(ev.bytes[1], ev.bytes[2], ev.bytes[3], ev.bytes[5..]);
    CommandKeepsInv(c, d.api, cmd, ev.locked, d.blindEnabled);
    CommandCodes(c, d.api, cmd, ev.locked, d.blindEnabled);
  }

  /** A validated message without a flow can always be confirmed; the flow offers
      accept unless the message is blind and the setting is off. */
  lemma ConfirmSucceeds(c: Crypto, d: Device, ev: Event)
    requires Inv(c, d) && Sound(d.api) && d.api.dataType == VALIDATED_ESSENCE && !d.api.flowLocked
    requires CommandOf(ev, INS_USER_CONFIRM_ESSENCE) && !ev.locked
    ensures ConfirmStep(d, ev, After(c, d, ev).0)
    ensures After(c, d, ev).0.flow.acceptOffered == (d.api.essence.blindsigning ==> d.blindEnabled)
  {
    hide Inv, After, Dispatch, TableWellFormed, TableInBuffer, Fresh, GuardFires, PrepareSigning, GenerateAddress,
      PrepareBlindsigning, SetAccount, WriteDataBlock, SignSingle, ReadDataBlock;
    CommandRuns(c, d, ev, INS_USER_CONFIRM_ESSENCE);
    DispatchOf(c, d.api, Command(INS_USER_CONFIRM_ESSENCE, ev.bytes[2], ev.bytes[3], ev.bytes[5..]), ev.locked,
                    d.blindEnabled);
    InvAgrees(c, d);
    AgreesIsSafe(c, d.api);
  }

  lemma AcceptSucceeds(d: Device)
    requires FlowInv(d) && d.api.dataType == VALIDATED_ESSENCE && d.api.flowLocked && d.flow.Flow?
    ensures HandleAccept(d).0.epoch == d.epoch && HandleAccept(d).0.api.buffer == d.api.buffer
    ensures if d.flow.acceptOffered then HandleAccept(d).0.api.dataType == USER_CONFIRMED_ESSENCE
            else HandleAccept(d).0 == d
  {}

  /** A message under review whose flow has no accept step. */
  predicate Closed(d: Device) {
    d.api.dataType == VALIDATED_ESSENCE && d.api.flowLocked && d.flow.Flow? && !d.flow.acceptOffered
  }

  lemma ClosedStep(c: Crypto, d: Device, ev: Event)
    requires Inv(c, d) && Sound(d.api) && Fair(d, ev) && Closed(d)
    ensures After(c, d, ev).0.epoch > d.epoch || Closed(After(c, d, ev).0)
  {
    hide ApiInv, TableWellFormed, TableInBuffer, Fresh, Dispatch, ClearData;
    match ev
    case Apdu(bytes, locked) =>
      if WellFramed(bytes) {
        CommandKeepsInv(c, d.api, Command(bytes[1], bytes[2], bytes[3], bytes[5..]), locked, d.blindEnabled);
      }
    case _ =>
  }

  lemma {:induction false} ClosedStays(c: Crypto, ds: seq<Device>, evs: seq<Event>, m: nat, n: nat)
    requires Run(c, ds, evs) && m <= n <= |evs| && ds[m].epoch == ds[n].epoch && Closed(ds[m])
    ensures Closed(ds[n])
  {
    hide Run, Inv, Sound, After, Fair, Closed;
    RunLengths(c, ds, evs);
    if m == n {
    } else {
      EpochGrows(c, ds, evs, m, n - 1);
      EpochGrows(c, ds, evs, n - 1, n);
      ClosedStays(c, ds, evs, m, n - 1);
      RunStep(c, ds, evs, n - 1);
      ClosedStep(c, ds[n-1], evs[n-1]);
    }
  }

  /** Prepare, confirm and accept in a row: confirmed, unless the message is blind and
      the setting was off when the flow started. */
  lemma ReachesConfirmed(c: Crypto, ds: seq<Device>, evs: seq<Event>, m: nat)
    requires Run(c, ds, evs) && m + 3 <= |evs|
    requires IsPrepare(evs[m]) && AnswersOk(c, ds[m], evs[m])
    requires CommandOf(evs[m+1], INS_USER_CONFIRM_ESSENCE) && !evs[m+1].locked && evs[m+2] == Accept
    ensures ds[m+3].api.dataType ==
      if CommandOf(evs[m], INS_PREPARE_BLINDSIGNING) && !ds[m+1].blindEnabled then VALIDATED_ESSENCE
      else USER_CONFIRMED_ESSENCE
    ensures CommandOf(evs[m], INS_PREPARE_BLINDSIGNING) && !ds[m+1].blindEnabled ==> Closed(ds[m+3])
    ensures ds[m+3].epoch == ds[m].epoch && ds[m+3].api.buffer == ds[m].api.buffer
  {
    hide Run, ApiInv, FlowInv, Sound, Fair, HandleApdu;
    RunLengths(c, ds, evs);
    RunStep(c, ds, evs, m);
    RunStep(c, ds, evs, m + 1);
    RunStep(c, ds, evs, m + 2);
    PrepareSucceeds(c, ds[m], evs[m]);
    ConfirmSucceeds(c, ds[m+1], evs[m+1]);
    AcceptSucceeds(ds[m+2]);
  }

  /** The unlocked sign commands from `m` on have all been answered with an unlock. */
  ghost predicate SignedSoFar(c: Crypto, a: Api, evs: seq<Event>, m: nat, k: nat)
    requires TableInBuffer(a) && m <= k <= |evs|
  {
    forall j :: m <= j < k ==>
      CommandOf(evs[j], INS_SIGN_SINGLE) && !evs[j].locked && AnswerFor(c, a, evs[j].bytes[2]).sw == SW_OK
  }

  lemma SignKeepsEpoch(c: Crypto, d: Device, ev: Event)
    requires Inv(c, d) && CommandOf(ev, INS_SIGN_SINGLE) && Sound(d.api) && After(c, d, ev).1.Response?
    requires After(c, d, ev).1.sw == SW_OK
    ensures After(c, d, ev).0.epoch == d.epoch
  {
    hide ApiInv, FlowInv, TableWellFormed, TableInBuffer, Fresh, Dispatch;
    CommandCodes(c, d.api, Command(ev.bytes[1], ev.bytes[2], ev.bytes[3], ev.bytes[5..]), ev.locked, d.blindEnabled);
  }

  lemma {:induction false} SigningGoesOn(c: Crypto, ds: seq<Device>, evs: seq<Event>, m: nat, n: nat)
    requires Run(c, ds, evs) && m <= n <= |evs| && ds[m].api.dataType == USER_CONFIRMED_ESSENCE
    requires TableInBuffer(ds[m].api) && SignedSoFar(c, ds[m].api, evs, m, n)
    ensures ds[n].epoch == ds[m].epoch
  {
    hide Run, Inv, Sound, After, Fair, AnswerFor, TableInBuffer;
    RunLengths(c, ds, evs);
    if m == n {
    } else {
      SigningGoesOn(c, ds, evs, m, n - 1);
      RunStep(c, ds, evs, n - 1);
      AnsweredByMessage(c, ds, evs, m, n - 1);
      AnswerIsResponse(c, ds[m].api, evs[n-1].bytes[2]);
      SignKeepsEpoch(c, ds[n-1], evs[n-1]);
    }
  }

  lemma AnswerIsResponse(c: Crypto, a: Api, p: byte)
    requires TableInBuffer(a)
    ensures AnswerFor(c, a, p).Response?
  {}

  /** Whatever the device prepares can be signed, every input and in any order: after
      prepare, confirm and accept the sign commands are answered one after the other by
      the message, until a derivation fails or an index is out of range. If the setting
      was off when the flow of a blind message started, nothing is signed any more in
      this period, whatever the user does. */
  lemma AcceptedCanBeSigned(c: Crypto, ds: seq<Device>, evs: seq<Event>, m: nat, n: nat)
    requires Run(c, ds, evs) && m + 3 <= n < |evs|
    requires IsPrepare(evs[m]) && AnswersOk(c, ds[m], evs[m])
    requires CommandOf(evs[m+1], INS_USER_CONFIRM_ESSENCE) && !evs[m+1].locked && evs[m+2] == Accept
    requires CommandOf(evs[n], INS_SIGN_SINGLE) && !evs[n].locked
    ensures Sound(ds[n].api) && ds[m+3].api.buffer == ds[m].api.buffer
    ensures if CommandOf(evs[m], INS_PREPARE_BLINDSIGNING) && !ds[m+1].blindEnabled
            then ds[n].epoch == ds[m].epoch ==> !Signs(c, ds[n], evs[n])
            else TableInBuffer(ds[m+3].api)
                 && (SignedSoFar(c, ds[m+3].api, evs, m + 3, n) ==>
                       After(c, ds[n], evs[n]).1 == AnswerFor(c, ds[m+3].api, evs[n].bytes[2]))
  {
    hide Run, Inv, Sound, After, Fair, AnswerFor, TableInBuffer, IsPrepare, AnswersOk, TableWellFormed;
    RunLengths(c, ds, evs);
    RunInv(c, ds, evs, n);
    RunInv(c, ds, evs, m + 3);
    ReachesConfirmed(c, ds, evs, m);
    if ds[m+3].api.dataType == VALIDATED_ESSENCE {
      if ds[n].epoch == ds[m].epoch {
        ClosedStays(c, ds, evs, m + 3, n);
        ClosedNeverSigns(c, ds[n], evs[n]);
      }
    } else {
      ConfirmedTable(c, ds[m+3]);
      if SignedSoFar(c, ds[m+3].api, evs, m + 3, n) {
        SigningGoesOn(c, ds, evs, m + 3, n);
        AnsweredByMessage(c, ds, evs, m + 3, n);
      }
    }
  }

  lemma ClosedNeverSigns(c: Crypto, d: Device, ev: Event)
    requires Inv(c, d) && Closed(d)
    ensures !Signs(c, d, ev)
  {
    hide Inv, Sound, After;
    if Signs(c, d, ev) {
      SignNeedsConfirmed(c, d, ev);
    }
  }
}
