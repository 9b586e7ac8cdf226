/** When a half-duplex host is not enough: a whole run from the start of the device in
    which a screen raises, and the user then accepts what was never reviewed; and the
    test of the amounts that rules this out. */
module RaisedScreen {
  import opened Bytes
  import opened Config
  import opened Essence
  import opened ApiState
  import opened Signing
  import opened ApiSpec
  import opened Format
  import opened Machine
  import opened MachineInvariant
  import opened MachineRuns
  import opened SigningRuns
  import opened HalfDuplex
  import opened Review
  import opened ReviewRuns

  /** The request of a message without remainder. */
  const NO_REMAINDER: seq<byte> := Zeros(10)

  function AmountBlock(v: u64): (b: seq<byte>)
    requires 0 < v && v + 1 < TWO64
    ensures |b| == DATA_BLOCK_SIZE
  {
    AmountBuffer(v)[..DATA_BLOCK_SIZE]
  }

  /** Select an account, write and prepare a message with the amount `v`, confirm. */
  function ReviewEvents(n: u32, v: u64): seq<Event>
    requires 0 < v && v + 1 < TWO64
  {
    [ApduOf(INS_SET_ACCOUNT, APP_MODE_INIT, ToLe(n, 4)),
     ApduOf(INS_WRITE_DATA_BLOCK, 0, AmountBlock(v)),
     ApduOf(INS_PREPARE_SIGNING, 0, NO_REMAINDER),
     ApduOf(INS_USER_CONFIRM_ESSENCE, 0, [])]
  }

  function AmountApi(n: u32, v: u64): Api
    requires 0 < v && v + 1 < TWO64
  {
    Start(n).(buffer := AmountBuffer(v))
  }

  lemma BufferIsBlock(v: u64)
    requires 0 < v && v + 1 < TWO64
    ensures AmountBlock(v) + Zeros(API_BUFFER_SIZE_BYTES)[DATA_BLOCK_SIZE..] == AmountBuffer(v)
  {
    hide Serialize, SerializeEntries;
    AmountMessageSize(v);
    var d := AmountBuffer(v);
    assert forall i :: DATA_BLOCK_SIZE <= i < |d| ==> d[i] == 0;
  }

  lemma DoesPrepareSigning(c: Crypto, d: Device, data: seq<byte>)
    requires Sound(d.api) && |data| < 0x100 && PrepareSigning(c, d.api, 0, data).out == Reply([], SW_OK)
    ensures After(c, d, ApduOf(INS_PREPARE_SIGNING, 0, data))
         == (d.(api := PrepareSigning(c, d.api, 0, data).api), Response([], SW_OK))
  {
    hide Sound, After, PrepareSigning;
    var ev := ApduOf(INS_PREPARE_SIGNING, 0, data);
    CommandRuns(c, d, ev, INS_PREPARE_SIGNING);
    assert ev.bytes[5..] == data;
    DispatchOf(c, d.api, Command(INS_PREPARE_SIGNING, 0, 0, data), false, d.blindEnabled);
  }

  /** The states up to the review. */
  lemma ReachesReview(c: Crypto, n: u32, v: u64) returns (ds: seq<Device>)
    requires Hardened(n) && 0 < v && v + 1 < TWO64 && c.blake2b(Serialize(AmountMessage(v))).Some?
    ensures |ds| == 5 && ds[0] == Boot(false, 0)
    ensures var evs := ReviewEvents(n, v);
            (forall i :: 0 <= i < 4 ==> Sound(ds[i].api) && ds[i+1] == After(c, ds[i], evs[i]).0)
            && (forall i :: 0 <= i < 3 ==> After(c, ds[i], evs[i]).1.Response?)
    ensures Inv(c, ds[4]) && ds[4].epoch == 1 && ds[4].api.dataType == VALIDATED_ESSENCE
    ensures ds[4].flow.Flow? && ds[4].flow.kind == ConfirmTransaction && ds[4].flow.epoch == 1
    ensures ReviewPossible(ds[4].api)
    ensures ScreensAfter(ds[4].api, [])
         == if v < MAX_INT_DEC * MAX_INT_DEC then Format.Written else Formatted.Throw(InvalidParameter)
  {
    hide Inv, Sound, After, Fresh, Serialize, AmountMessage, AmountBuffer, PrepareSigning, ScreensAfter, ToLe;
    var evs := ReviewEvents(n, v);
    var d0 := Boot(false, 0);
    var d1 := Reinitialized(d0, Start(n));
    var d2 := d1.(api := AmountApi(n, v));
    var d3 := d1.(api := PrepareSigning(c, AmountApi(n, v), 0, NO_REMAINDER).api);
    BootInv(c, false, 0);
    InitModeSupported();
    LargeAmountsRaise(c, APP_MODE_INIT, n, v, NO_REMAINDER);
    StepKeepsInv(c, d0, evs[0]);
    DoesSetAccount(c, d0, n);
    StepKeepsInv(c, d1, evs[1]);
    BufferIsBlock(v);
    DoesWrite(c, d1, n, AmountBlock(v));
    StepKeepsInv(c, d2, evs[2]);
    DoesPrepareSigning(c, d2, NO_REMAINDER);
    PrepareSucceeds(c, d2, evs[2]);
    SoundOfInv(c, d3);
    ConfirmSucceeds(c, d3, evs[3]);
    StepKeepsInv(c, d3, evs[3]);
    var d4 := After(c, d3, evs[3]).0;
    ReviewedFlowIsCurrent(c, d4);
    SameScreens(d3.api, d4.api);
    ds := [d0, d1, d2, d3, d4];
  }

  lemma ReviewedFlowIsCurrent(c: Crypto, d: Device)
    requires Inv(c, d) && d.api.dataType == VALIDATED_ESSENCE && d.api.flowLocked
    ensures d.flow.Flow? && d.flow.epoch == d.epoch
  {
    hide ApiInv;
  }

  lemma SameScreens(a: Api, b: Api)
    requires a.buffer == b.buffer && a.essence == b.essence && ReviewPossible(a)
    ensures ReviewPossible(b) && ScreensAfter(a, []) == ScreensAfter(b, [])
  {
    hide OutputAt;
  }

  /** A host that never sends a command before the last one was answered does not make
      signing safe. For every account, every hash, every amount from 10^18 on and all
      cryptography that does not fail there is a run of ten steps from the start, with
      blind signing disabled: the message with this amount is validated, its review
      raises, the host prepares the blind hash `h`, the accept in the old flow confirms
      it, and the device signs it. The accept is the only step that is not fair. */
  lemma RaisedReviewSigns(c: Crypto, n: u32, v: u64, h: hash) returns (ds: seq<Device>, evs: seq<Event>)
    requires Hardened(n) && MAX_INT_DEC * MAX_INT_DEC <= v && v + 1 < TWO64
    requires c.blake2b(Serialize(AmountMessage(v))).Some?
    requires SignatureFor(c, WithEntry(Start(n).path, FIRST_ENTRY), h).Some?
    ensures FreeRun(c, ds, evs) && |ds| == 11 && |evs| == 10 && HostWaits(c, ds, evs)
    ensures forall m :: 0 <= m < 10 ==> (Fair(ds[m], evs[m]) <==> m != 8)
    ensures ReviewPossible(ds[4].api) && ScreensAfter(ds[4].api, []) == Formatted.Throw(InvalidParameter)
    ensures evs[4] == UiException(INVALID_PARAMETER)
    ensures !ds[0].blindEnabled && forall m :: 0 <= m < 10 ==> evs[m] != ToggleBlindsigning
    ensures Signs(c, ds[9], evs[9]) && After(c, ds[9], evs[9]).1.data
         == SerializeUnlock(SignatureFor(c, WithEntry(Start(n).path, FIRST_ENTRY), h).value)
    ensures forall i: nat, j: nat, k: nat :: !Authorized(ds, evs, i, j, k, 9)
  {
    hide Inv, Sound, After, Serialize, AmountMessage, SignatureFor, SerializeUnlock, ScreensAfter, ReviewPossible,
      HostWaits, Authorized, ApduOf, HeedlessStates;
    var front := ReachesReview(c, n, v);
    HeedlessAcceptSigns(c, front[4], n, h);
    var tail := HeedlessStates(front[4], n, h);
    TailShape(front[4], n, h);
    var last := After(c, tail[5], HeedlessEvents(n, h)[5]).0;
    ds, evs := front[..4] + tail + [last], ReviewEvents(n, v) + HeedlessEvents(n, h);
    forall i | 0 <= i < 10
      ensures Follows(c, ds[i], evs[i], ds[i+1])
    {
      if i < 4 {
        assert ds[i] == front[i] && ds[i+1] == front[i+1];
      } else {
        assert ds[i] == tail[i-4] && evs[i] == HeedlessEvents(n, h)[i-4];
      }
    }
    EventShapes(n, v, h);
    AnsweredHostWaits(c, ds, evs);
    forall i: nat, j: nat, k: nat
      ensures !Authorized(ds, evs, i, j, k, 9)
    {
      OneConfirm(ds, evs, i, j, k);
    }
  }

  lemma TailShape(d: Device, n: u32, h: hash)
    ensures var ds := HeedlessStates(d, n, h);
            |ds| == 6 && ds[0] == d && ds[5].epoch == d.epoch + 2
  {}

  lemma EventShapes(n: u32, v: u64, h: hash)
    requires 0 < v && v + 1 < TWO64
    ensures var evs := ReviewEvents(n, v) + HeedlessEvents(n, h);
            |evs| == 10 && evs[8] == Accept && CommandOf(evs[9], INS_SIGN_SINGLE)
            && (forall i :: 0 <= i < 10 && i != 4 && i != 8 ==> evs[i].Apdu?)
            && forall i :: 0 <= i < 10 && CommandOf(evs[i], INS_USER_CONFIRM_ESSENCE) ==> i == 3
  {
    hide AmountBuffer, BlindBlock, ToLe;
  }

  /** A host that gets an answer before each of its commands waits. */
  lemma AnsweredHostWaits(c: Crypto, ds: seq<Device>, evs: seq<Event>)
    requires |ds| == |evs| + 1
    requires forall i :: 0 < i < |evs| && evs[i].Apdu? ==>
      Sound(ds[i-1].api) && After(c, ds[i-1], evs[i-1]).1.Response?
    ensures HostWaits(c, ds, evs)
  {
    hide Sound, After;
  }

  lemma OneConfirm(ds: seq<Device>, evs: seq<Event>, i: nat, j: nat, k: nat)
    requires |ds| == 11 && |evs| == 10 && ds[4].epoch != ds[9].epoch
    requires forall m :: 0 <= m < 10 && CommandOf(evs[m], INS_USER_CONFIRM_ESSENCE) ==> m == 3
    ensures !Authorized(ds, evs, i, j, k, 9)
  {
    hide PrepareStep, AcceptStep;
  }

  // ------------------------------------------------------- amounts that are shown

  predicate UnderReview(d: Device) {
    d.flow.Flow? && d.flow.epoch == d.epoch && d.flow.kind == ConfirmTransaction
  }

  /** While a flow is current, exceptions come only from the screens of a review that has
      a screen that raises. */
  ghost predicate OnlyReviewsRaise(ds: seq<Device>, evs: seq<Event>)
    requires |evs| < |ds|
  {
    forall i :: 0 <= i < |evs| && evs[i].UiException? && !Restarts(evs[i])
                && ds[i].flow.Flow? && ds[i].flow.epoch == ds[i].epoch ==>
      UnderReview(ds[i]) && ReviewPossible(ds[i].api)
      && exists moves :: ScreensAfter(ds[i].api, moves) != Format.Written
  }

  predicate AmountsShown(a: Api)
    requires ReviewPossible(a)
  {
    forall r :: 0 <= r < a.essence.outputsCount
                && IsReviewed(r, a.essence.hasRemainder, a.essence.remainderIndex) ==>
      OutputOf(a, r).amount < MAX_INT_DEC * MAX_INT_DEC
  }

  /** Every message that is put under review has amounts that can be shown. A client can
      see to this before it sends the confirm command. */
  predicate SmallAmounts(ds: seq<Device>) {
    forall i :: 0 <= i < |ds| && UnderReview(ds[i]) && ReviewPossible(ds[i].api) ==> AmountsShown(ds[i].api)
  }

  lemma ReviewIsQuiet(c: Crypto, d: Device, moves: seq<Move>)
    requires Inv(c, d) && UnderReview(d) && ReviewPossible(d.api) && AmountsShown(d.api)
    ensures ScreensAfter(d.api, moves) == Format.Written
  {
    hide ApiInv, StartsWith, OutputOf, ScreensAfter, OutputAddress;
    InvParts(c, d);
    var e := ReviewRaisesIff(c, d.api);
    forall r | 0 <= r < |e.outputs| && IsReviewed(r, d.api.essence.hasRemainder, d.api.essence.remainderIndex)
      ensures e.outputs[r].amount < MAX_INT_DEC * MAX_INT_DEC
    {
      assert OutputOf(d.api, r) == e.outputs[r];
    }
  }

  lemma {:induction false} QuietUpTo(c: Crypto, ds: seq<Device>, evs: seq<Event>, n: nat)
    requires FreeRun(c, ds, evs) && n <= |evs| < |ds| && HostWaits(c, ds, evs)
    requires OnlyReviewsRaise(ds, evs) && SmallAmounts(ds)
    ensures FairUpTo(ds, evs, n)
    ensures forall i :: 0 <= i < n && evs[i].UiException? && !Restarts(evs[i]) ==> ds[i].flow == NoFlow
  {
    hide FreeRun, HostWaits, Raised, Inv, Sound, ReviewPossible, AmountsShown, AwaitsReply;
    if n == 0 {
    } else {
      QuietUpTo(c, ds, evs, n - 1);
      var d, ev := ds[n-1], evs[n-1];
      PendingIsCurrent(c, ds, evs, n - 1);
      if d.flow.Flow? {
        NotRaised(c, ds, evs, n - 1);
        if ev.UiException? && !Restarts(ev) {
          var moves :| ScreensAfter(d.api, moves) != Format.Written;
          FreeRunInv(c, ds, evs, n - 1);
          ReviewIsQuiet(c, d, moves);
          assert false;
        }
      }
    }
  }

  /** If all amounts put under review can be shown, a half-duplex host is enough, whatever
      the user does. */
  lemma SmallAmountsAreEnough(c: Crypto, ds: seq<Device>, evs: seq<Event>)
    requires FreeRun(c, ds, evs) && |evs| < |ds| && HostWaits(c, ds, evs)
    requires OnlyReviewsRaise(ds, evs) && SmallAmounts(ds)
    ensures Run(c, ds, evs)
  {
    hide FreeRun, HostWaits, OnlyReviewsRaise, SmallAmounts;
    QuietUpTo(c, ds, evs, |evs|);
  }
}
