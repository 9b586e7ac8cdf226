/** What the user is shown: the index logic and the screens of
    src/ui/nano/flow_user_confirm_transaction.c, with the lookups of
    src/iota/abstraction.c. */
module Review {
  import opened Arithmetic
  import opened Bytes
  import opened Config
  import opened Essence
  import opened Bech32
  import opened Address
  import opened ApiState
  import opened ApiCtx
  import opened Format
  import opened Machine
  import InternalTransfer
  import opened ParserMeaning

  const SCRATCH_SIZE := 81

  // ------------------------------------------------------------------- the cursor

  /** The output that entry `k` of the review stands for: the remainder is skipped. */
  function ReadIndex(k: nat, hasRemainder: bool, remainder: nat): nat {
    if hasRemainder && k >= remainder then k + 1 else k
  }

  function ReviewedCount(outputs: nat, hasRemainder: bool): int { outputs - if hasRemainder then 1 else 0 }

  predicate IsReviewed(r: nat, hasRemainder: bool, remainder: nat) { !(hasRemainder && r == remainder) }

  /** The outputs that the review entries stand for. */
  function ReviewedOutputs(outputs: nat, hasRemainder: bool, remainder: nat): set<nat> {
    set k: nat | k < ReviewedCount(outputs, hasRemainder) :: ReadIndex(k, hasRemainder, remainder)
  }

  lemma EntryOf(r: nat, outputs: nat, hasRemainder: bool, remainder: nat) returns (k: nat)
    requires r < outputs && IsReviewed(r, hasRemainder, remainder) && (hasRemainder ==> remainder < outputs)
    ensures k < ReviewedCount(outputs, hasRemainder) && ReadIndex(k, hasRemainder, remainder) == r
  {
    k := if hasRemainder && r > remainder then r - 1 else r;
  }

  /** The review entries stand for all outputs but the remainder, each for one and in the
      order of the message. */
  lemma ReadIndexBijection(outputs: nat, hasRemainder: bool, remainder: nat)
    requires hasRemainder ==> remainder < outputs
    ensures ReviewedOutputs(outputs, hasRemainder, remainder)
         == (set r: nat | r < outputs && IsReviewed(r, hasRemainder, remainder))
    ensures forall k: nat, m: nat :: k < m ==>
      ReadIndex(k, hasRemainder, remainder) < ReadIndex(m, hasRemainder, remainder)
  {
    forall r: nat | r < outputs && IsReviewed(r, hasRemainder, remainder)
      ensures r in ReviewedOutputs(outputs, hasRemainder, remainder)
    {
      var k := EntryOf(r, outputs, hasRemainder, remainder);
    }
  }

  /** One entry on, or back, around the ends. */
  function Successor(k: int, n: int): int { if k + 1 >= n then 0 else k + 1 }

  function Predecessor(k: int, n: int): int { if k - 1 < 0 then n - 1 else k - 1 }

  datatype Screen = ReviewScreen | AmountScreen | AcceptReject | ClaimWarning | InternalTransferScreen

  /** Outputs are reviewed unless no coins leave the wallet. */
  predicate ShowsReview(e: Info) { !(e.isInternalTransfer || (e.hasRemainder && e.outputsCount == 1)) }

  /** The part of `flowdata_t` that the review uses. */
  class FlowData {
    const outputsCount: nat
    const hasRemainder: bool
    const remainderIndex: nat
    const num: int
    var current: int
    var readIndex: int
    var screen: Screen

    /** In range, in step with the output shown, and accept next to the last output
        only. */
    ghost predicate Valid()
      reads this
    {
      num == ReviewedCount(outputsCount, hasRemainder) && 0 < num <= 128
      && (hasRemainder ==> remainderIndex < outputsCount)
      && 0 <= current < num && readIndex == ReadIndex(current, hasRemainder, remainderIndex)
      && (screen == AcceptReject ==> current == num - 1) && screen != InternalTransferScreen
    }

    /** `flow_start_user_confirm_transaction` on a validated summary. */
    constructor (e: Info, appMode: byte)
      requires 1 <= e.outputsCount <= 128 && (e.hasRemainder ==> e.remainderIndex < e.outputsCount)
      ensures screen == InternalTransferScreen <==> e.isInternalTransfer || (e.hasRemainder && e.outputsCount == 1)
      ensures screen == InternalTransferScreen <==> !ShowsReview(e)
      ensures screen != InternalTransferScreen ==> Valid() && current == 0
      ensures outputsCount == e.outputsCount && hasRemainder == e.hasRemainder && remainderIndex == e.remainderIndex
    {
      outputsCount, hasRemainder, remainderIndex := e.outputsCount, e.hasRemainder, e.remainderIndex;
      current, readIndex := 0, 0;
      num := e.outputsCount - if e.hasRemainder then 1 else 0;
      screen := InternalTransferScreen;
      new;
      if e.isInternalTransfer || (e.hasRemainder && e.outputsCount == 1) {
        return;
      }
      GetReadIndex();
      screen := if appMode == APP_MODE_SHIMMER_CLAIMING then ClaimWarning else ReviewScreen;
    }

    method GetReadIndex()
      requires 0 <= current
      modifies `readIndex
      ensures readIndex == ReadIndex(current, hasRemainder, remainderIndex)
    {
      readIndex := current;
      if !hasRemainder {
        return;
      }
      if readIndex >= remainderIndex {
        readIndex := readIndex + 1;
      }
    }

    method CbNextDataset()
      requires Valid()
      modifies this
      ensures Valid() && current == Successor(old(current), num) && screen == ReviewScreen
    {
      current := current + 1;
      if current >= num {
        current := 0;
      }
      GetReadIndex();
      screen := ReviewScreen;
    }

    method CbPrevDataset()
      requires Valid()
      modifies this
      ensures Valid() && current == Predecessor(old(current), num)
      ensures screen == if old(current) == 0 then AcceptReject else AmountScreen
    {
      current := current - 1;
      if current < 0 {
        current := num - 1;
      }
      GetReadIndex();
      screen := if current == num - 1 then AcceptReject else AmountScreen;
    }

    method CbSwitch()
      requires Valid()
      modifies this
      ensures Valid() && current == if old(current) == num - 1 then old(current) else old(current) + 1
      ensures screen == if old(current) == num - 1 then AcceptReject else ReviewScreen
    {
      if current == num - 1 {
        screen := AcceptReject;
      } else {
        CbNextDataset();
      }
    }
  }

  datatype Move = Forward | Backward

  /** Where a sequence of next and previous steps leads. */
  function Moved(k: int, n: int, moves: seq<Move>): int {
    if |moves| == 0 then k
    else
      var m := Moved(k, n, moves[..|moves|-1]);
      if moves[|moves|-1] == Forward then Successor(m, n) else Predecessor(m, n)
  }

  function Balance(moves: seq<Move>): int {
    if |moves| == 0 then 0 else Balance(moves[..|moves|-1]) + if moves[|moves|-1] == Forward then 1 else -1
  }

  lemma ModStep(x: int, y: int, n: int)
    requires n > 0
    ensures (x % n + y) % n == (x + y) % n
  {
    var q := x / n;
    assert x + y == (x % n + y) + q * n;
    AddMultiple(x % n + y, q, n);
  }

  lemma AroundTheEnds(x: int, n: int)
    requires 0 <= x < n
    ensures Successor(x, n) == (x + 1) % n && Predecessor(x, n) == (x - 1) % n
  {
    AddMultiple(0, 1, n);
    AddMultiple(-1, 1, n);
    SmallMod(0, n);
    SmallMod(n - 1, n);
    if x + 1 < n {
      SmallMod(x + 1, n);
    }
    if x > 0 {
      SmallMod(x - 1, n);
    }
  }

  /** Any sequence of next and previous steps ends where its balance says. */
  lemma {:induction false} MovedByBalance(k: int, n: int, moves: seq<Move>)
    requires 0 <= k < n
    ensures Moved(k, n, moves) == (k + Balance(moves)) % n
  {
    if |moves| > 0 {
      var m := moves[..|moves|-1];
      var s := if moves[|moves|-1] == Forward then 1 else -1;
      MovedByBalance(k, n, m);
      ModStep(k + Balance(m), s, n);
      AroundTheEnds((k + Balance(m)) % n, n);
    } else {
      assert k % n == k by { AddMultiple(k, 0, n); }
    }
  }

  /** Where `i` next steps lead from `k`. */
  function AfterNexts(k: int, n: int, i: nat): int { Moved(k, n, seq(i, _ => Forward)) }

  lemma {:induction false} BalanceOfNexts(i: nat)
    ensures Balance(seq(i, _ => Forward)) == i
  {
    if i == 0 {
    } else {
      BalanceOfNexts(i - 1);
      assert seq(i, _ => Forward)[..i-1] == seq(i - 1, _ => Forward);
    }
  }

  lemma AfterNextsIs(k: int, n: int, i: nat)
    requires 0 <= k < n && i < n
    ensures AfterNexts(k, n, i) == if k + i < n then k + i else k + i - n
  {
    hide Moved, Balance;
    MovedByBalance(k, n, seq(i, _ => Forward));
    BalanceOfNexts(i);
    if k + i < n {
      SmallMod(k + i, n);
    } else {
      AddMultiple(k + i - n, 1, n);
      SmallMod(k + i - n, n);
    }
  }

  predicate IsEntry(m: int, n: int) { 0 <= m < n }

  /** From any entry, as many next steps as there are entries visit each once. */
  lemma FullRound(k: int, n: int)
    requires 0 <= k < n
    ensures forall i: nat, j: nat :: i < j < n ==> AfterNexts(k, n, i) != AfterNexts(k, n, j)
    ensures (set i: nat | i < n :: AfterNexts(k, n, i)) == (set m | 0 <= m < n && IsEntry(m, n))
  {
    hide AfterNexts;
    forall i: nat | i < n
      ensures AfterNexts(k, n, i) == if k + i < n then k + i else k + i - n
    {
      AfterNextsIs(k, n, i);
    }
    forall m | IsEntry(m, n)
      ensures m in (set i: nat | i < n :: AfterNexts(k, n, i))
    {
      var i := if m >= k then m - k else m - k + n;
      assert AfterNexts(k, n, i) == m;
    }
  }

  // ------------------------------------------------------------------ the screens

  function Hrp(coin: Coin, mode: byte): (hrp: string)
    ensures 0 < |hrp| <= 4 && Printable(hrp)
  {
    match coin
    case CoinIota => if mode >= 0x80 then "atoi" else "iota"
    case CoinShimmer => if mode >= 0x80 then "rms" else "smr"
  }

  predicate OutputsInBuffer(a: Api) {
    a.essence.outputs.Some?
    && a.essence.outputs.value + OUTPUT_SIZE * a.essence.outputsCount <= API_BUFFER_SIZE_BYTES
  }

  function OutputOf(a: Api, k: nat): Output
    requires OutputsInBuffer(a) && k < a.essence.outputsCount
  {
    OutputAt(a.buffer, a.essence.outputs.value + OUTPUT_SIZE * k)
  }

  /** What the amount screen does: it shows the amount, or raises an exception. */
  function AmountOutcome(a: Api, readIndex: nat): Formatted
    requires OutputsInBuffer(a)
  {
    if readIndex >= a.essence.outputsCount || OutputOf(a, readIndex).amount == 0 then Formatted.Throw(Unknown)
    else if OutputOf(a, readIndex).amount >= MAX_INT_DEC * MAX_INT_DEC then Formatted.Throw(InvalidParameter)
    else Written
  }

  /** `cb_amount_preinit`: the exact amount, or an exception from 10^18 on. The index is
      narrowed to eight bits on the way. */
  method ShowAmount(api: Context, readIndex: nat, scratch: array<char>) returns (r: Formatted)
    requires api.Valid() && OutputsInBuffer(api.State()) && scratch.Length == SCRATCH_SIZE
    modifies scratch
    ensures r == AmountOutcome(api.State(), readIndex % 0x100)
    ensures r.Written? ==> HoldsAt(scratch[..], 0, AmountText(OutputOf(api.State(), readIndex % 0x100).amount))
  {
    hide U64, AmountText, HoldsAt;
    var index: byte := readIndex % 0x100;
    if !(index < api.essence.outputsCount) {
      return Formatted.Throw(Unknown);
    }
    var o := api.essence.outputs.value + OUTPUT_SIZE * index;
    var amount := U64(api.buffer[..], o + 1);
    if amount == 0 {
      return Formatted.Throw(Unknown);
    }
    ShortEnough(amount);
    r := FormatValueFullDecimals(scratch, SCRATCH_SIZE, amount);
  }

  lemma ShortEnough(v: nat)
    ensures v < MAX_INT_DEC * MAX_INT_DEC ==> |Dec(v)| <= 18
  {
    Pow10Values();
    if v < MAX_INT_DEC * MAX_INT_DEC {
      DecLength(v, 18);
    }
  }

  /** What the address screen does. */
  function AddressOutcome(a: Api, readIndex: nat): Formatted {
    if readIndex >= a.essence.outputsCount then Formatted.Throw(Unknown) else Written
  }

  /** `cb_address_preinit`: the address of the output with the coin's prefix. */
  method ShowAddress(api: Context, readIndex: nat, scratch: array<char>) returns (r: Formatted)
    requires api.Valid() && OutputsInBuffer(api.State()) && scratch.Length == SCRATCH_SIZE
    modifies scratch
    ensures r == AddressOutcome(api.State(), readIndex % 0x100)
    ensures r.Written? ==>
      HoldsAt(scratch[..], 0, AddressText(Hrp(api.coin, api.appMode),
                                          OutputAddress(api.buffer[..], api.essence.outputs.value, readIndex % 0x100)))
  {
    var index: byte := readIndex % 0x100;
    if !(index < api.essence.outputsCount) {
      return Formatted.Throw(Unknown);
    }
    AddressEncodeBech32(api, OutputAddress(api.buffer[..], api.essence.outputs.value, index), scratch);
    return Written;
  }

  /** `address_encode_bech32` into a scratch buffer: it never fails there. */
  method AddressEncodeBech32(api: Context, addr: address, scratch: array<char>)
    requires scratch.Length == SCRATCH_SIZE
    modifies scratch
    ensures HoldsAt(scratch[..], 0, AddressText(Hrp(api.coin, api.appMode), addr))
  {
    hide AddressText;
    var hrp := Hrp(api.coin, api.appMode);
    var ok := EncodeBech32Hrp(addr, scratch, SCRATCH_SIZE, hrp);
    assert ok;
    assert scratch[..][0..|hrp|+60] == scratch[..|hrp|+60];
  }

  /** The address screen of a new address: the start of the buffer. */
  method ShowNewAddress(api: Context, scratch: array<char>)
    requires api.Valid() && scratch.Length == SCRATCH_SIZE
    modifies scratch
    ensures HoldsAt(scratch[..], 0, AddressText(Hrp(api.coin, api.appMode), api.buffer[..ADDRESS_WITH_TYPE_SIZE_BYTES]))
  {
    hide AddressText, HoldsAt;
    AddressEncodeBech32(api, api.buffer[..ADDRESS_WITH_TYPE_SIZE_BYTES], scratch);
  }

  /** `cb_bip32_preinit`: every path fits the scratch buffer. */
  method ShowPath(api: Context, scratch: array<char>)
    requires api.Valid() && scratch.Length == SCRATCH_SIZE
    modifies scratch
    ensures HoldsAt(scratch[..], 0, Wrapped(api.bip32Path[..]))
  {
    hide Wrapped, HoldsAt;
    WrappedIsPath(api.bip32Path[..]);
    var r := FormatBip32WithLineBreaks(api.bip32Path[..], scratch, SCRATCH_SIZE);
  }

  /** Every address text shown is a proper BIP-173 string of the coin: lower case, at
      most 90 characters, decoding to the coin's prefix and the address. */
  lemma ScreenAddressDecodes(coin: Coin, mode: byte, addr: address)
    ensures var s := AddressText(Hrp(coin, mode), addr);
            NoUppercase(s) && |s| <= ADDRESS_SIZE_BECH32_MAX <= 90
            && DecodeAddress(s) == Some((Hrp(coin, mode), addr))
  {
    hide AddressText, DecodeAddress;
    AddressTextCaseAndLength(Hrp(coin, mode), addr);
    AddressRoundTrip(Hrp(coin, mode), addr);
  }

  /** The text starts with the prefix of the app and network, and the separator. */
  lemma ScreenPrefix(a: Api, addr: address)
    requires Grounded(a)
    ensures var s := AddressText(Hrp(a.coin, a.appMode), addr);
            if APP == IotaApp then s[..5] == if a.appMode >= 128 then "atoi1" else "iota1"
            else s[..4] == if a.appMode >= 128 then "rms1" else "smr1"
  {
    TextStarts(Hrp(a.coin, a.appMode), addr);
  }

  lemma TextStarts(hrp: string, addr: address)
    requires Printable(hrp)
    ensures |AddressText(hrp, addr)| > |hrp| && AddressText(hrp, addr)[..|hrp|+1] == hrp + "1"
  {
    hide Register;
  }

  /** The two texts shown for an output. */
  function Shown(hrp: string, o: Output): (string, string)
    requires Printable(hrp) && |o.pubkeyHash| == 32
  {
    (AmountText(o.amount), AddressText(hrp, TypedAddress(o)))
  }

  /** The texts determine the output. */
  lemma ShownDetermines(hrp: string, o: Output, o': Output)
    requires 0 < |hrp| && Printable(hrp) && |o.pubkeyHash| == 32 && |o'.pubkeyHash| == 32
    requires Shown(hrp, o) == Shown(hrp, o')
    ensures o == o'
  {
    hide AmountText, AddressText;
    AmountRoundTrip(o.amount);
    AmountRoundTrip(o'.amount);
    AddressTextInjective(hrp, TypedAddress(o), hrp, TypedAddress(o'));
    assert TypedAddress(o)[1..] == o.pubkeyHash && TypedAddress(o')[1..] == o'.pubkeyHash;
  }

  /** The same text is never shown for two networks: it determines the coin, whether
      it is a test network, and the address. */
  lemma NetworkDetermined(coin: Coin, mode: byte, addr: address, coin': Coin, mode': byte, addr': address)
    requires AddressText(Hrp(coin, mode), addr) == AddressText(Hrp(coin', mode'), addr')
    ensures coin == coin' && (mode >= 0x80 <==> mode' >= 0x80) && addr == addr'
  {
    hide AddressText;
    AddressTextInjective(Hrp(coin, mode), addr, Hrp(coin', mode'), addr');
    assert "iota"[0] == 'i' && "atoi"[0] == 'a' && "smr"[0] == 's' && "rms"[0] == 'r';
  }

  // -------------------------------------------------------------- the hash screen

  function HexUpper(d: nat): char
    requires d < 16
  {
    "0123456789ABCDEF"[d]
  }

  /** The text shown for a blind hash. */
  function HashText(h: seq<byte>): (s: string)
    ensures |s| == 2 + 2 * |h|
  {
    if |h| == 0 then "0x"
    else HashText(h[..|h|-1]) + [HexUpper(h[|h|-1] / 16), HexUpper(h[|h|-1] % 16)]
  }

  /** `cb_hash_preinit`: characters are unsigned, as on the device. */
  method ShowHash(api: Context, scratch: array<char>)
    requires scratch.Length == SCRATCH_SIZE
    modifies scratch
    ensures HoldsAt(scratch[..], 0, HashText(api.essence.hash))
  {
    hide HexUpper;
    var h := api.essence.hash;
    scratch[0], scratch[1] := '0', 'x';
    assert h[..0] == [];
    for i := 0 to 32
      invariant scratch[..2 + 2 * i] == HashText(h[..i])
    {
      scratch[2 + 2 * i] := HexUpper(h[i] / 16);
      scratch[3 + 2 * i] := HexUpper(h[i] % 16);
      assert h[..i+1][..i] == h[..i];
      assert scratch[..2 + 2 * (i + 1)] == HashText(h[..i]) + [HexUpper(h[i] / 16), HexUpper(h[i] % 16)];
    }
    scratch[66] := 0 as char;
    assert h[..32] == h;
    assert scratch[..][0..66] == scratch[..66];
  }

  lemma HexUpperInjective(d: nat, e: nat)
    requires d < 16 && e < 16
    ensures HexUpper(d) == HexUpper(e) ==> d == e
  {}

  /** The text on the screen determines the hash to be signed. */
  lemma {:induction false} HashTextInjective(h: seq<byte>, h': seq<byte>)
    requires HashText(h) == HashText(h')
    ensures h == h'
  {
    hide HexUpper;
    assert |h| == |h'|;
    if |h| == 0 {
    } else {
      var n := |h| - 1;
      var s, t := HashText(h), HashText(h');
      assert s[..|s|-2] == HashText(h[..n]) && t[..|t|-2] == HashText(h'[..n]);
      assert s[|s|-2] == HexUpper(h[n] / 16) && s[|s|-1] == HexUpper(h[n] % 16);
      assert t[|t|-2] == HexUpper(h'[n] / 16) && t[|t|-1] == HexUpper(h'[n] % 16);
      HashTextInjective(h[..n], h'[..n]);
      HexUpperInjective(h[n] / 16, h'[n] / 16);
      HexUpperInjective(h[n] % 16, h'[n] % 16);
      assert h == h[..n] + [h[n]] && h' == h'[..n] + [h'[n]];
    }
  }

  function HexUpperValue(ch: char): Option<nat> {
    if '0' <= ch <= '9' then Some(ch as int - '0' as int)
    else if 'A' <= ch <= 'F' then Some(ch as int - 'A' as int + 10)
    else None
  }

  lemma HexUpperValueOf(d: nat)
    requires d < 16
    ensures HexUpperValue(HexUpper(d)) == Some(d)
  {}

  /** The text is "0x" and two hex digits for each byte, the high one first. */
  lemma {:induction false} HashTextReads(h: seq<byte>)
    ensures HashText(h)[..2] == "0x"
    ensures forall i :: 0 <= i < |h| ==>
      HexUpperValue(HashText(h)[2 + 2 * i]) == Some(h[i] / 16)
      && HexUpperValue(HashText(h)[3 + 2 * i]) == Some(h[i] % 16)
  {
    hide HexUpper, HexUpperValue;
    if |h| == 0 {
    } else {
      var n := |h| - 1;
      HashTextReads(h[..n]);
      HexUpperValueOf(h[n] / 16);
      HexUpperValueOf(h[n] % 16);
      assert HashText(h)[..2] == HashText(h[..n])[..2];
    }
  }

  // ------------------------------------------------------ what is shown and signed

  /** What is reviewed is what is signed: the outputs read for the screens are the
      outputs of the one essence in the buffer, whose hash is the hash to be signed,
      and each screen address is the typed address of that output. */
  lemma ReviewShowsMessage(c: Crypto, a: Api) returns (e: Essence)
    requires ApiInv(c, a) && !a.essence.blindsigning
    requires a.dataType == VALIDATED_ESSENCE || a.dataType == USER_CONFIRMED_ESSENCE
    ensures exists bs :: StartsWith(a.buffer, e, bs)
    ensures c.blake2b(Serialize(e)) == Some(a.essence.hash)
    ensures OutputsInBuffer(a) && a.essence.outputsCount == |e.outputs|
    ensures forall k :: 0 <= k < |e.outputs| ==>
      OutputOf(a, k) == e.outputs[k] && |e.outputs[k].pubkeyHash| == 32
      && OutputAddress(a.buffer, a.essence.outputs.value, k) == TypedAddress(e.outputs[k])
  {
    hide ApiInv, AgreesAt, HasLayout, StartsWith, Serialize, OutputAt, OutputAddress, TypedAddress;
    var l := AgreedLayout(c, a);
    e := EssenceAt(a.buffer, l);
    LayoutStartsWith(a.buffer, l);
    InternalTransfer.LayoutBounds(a.buffer, l);
    assert StartsWith(a.buffer, e, EntriesAt(a.buffer, l.essenceLength, l.inputs));
    forall k | 0 <= k < |e.outputs|
      ensures OutputOf(a, k) == e.outputs[k] && |e.outputs[k].pubkeyHash| == 32
      ensures OutputAddress(a.buffer, a.essence.outputs.value, k) == TypedAddress(e.outputs[k])
    {
      AddressOfOutput(a.buffer, l, k);
    }
  }

  lemma AgreedLayout(c: Crypto, a: Api) returns (l: Layout)
    requires ApiInv(c, a) && !a.essence.blindsigning
    requires a.dataType == VALIDATED_ESSENCE || a.dataType == USER_CONFIRMED_ESSENCE
    ensures HasLayout(a.buffer, l) && a.essence.outputs == Some(l.outputsAt) && a.essence.outputsCount == l.outputs
    ensures c.blake2b(a.buffer[..l.essenceLength]) == Some(a.essence.hash)
  {
    hide HasLayout, RemainderVerified, StaysInWallet, HoldsAddresses;
    l :| AgreesAt(c, a, l);
  }
}
