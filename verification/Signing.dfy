/** Model of src/iota/signing.c: signature and reference unlocks. */
module Signing {
  import opened Bytes
  import opened Config
  import opened Essence
  import opened ApiState
  import opened ApiCtx

  datatype Unlock =
    | SignatureUnlock(publicKey: hash, signature: signature)
    | ReferenceUnlock(reference: u16)

  const SIGNATURE_UNLOCK_SIZE := 98
  const REFERENCE_UNLOCK_SIZE := 3
  const NO_REFERENCE: byte := 0xff

  function SerializeUnlock(u: Unlock): seq<byte> {
    match u
    case SignatureUnlock(key, sig) => [0, 0] + key + sig
    case ReferenceUnlock(r) => [1] + ToLe(r, 2)
  }

  /** The table of BIP32 entries lies inside the buffer. */
  predicate TableInBuffer(a: Api) {
    a.essence.entries.Some?
    && a.essence.entries.value + ENTRY_SIZE * a.essence.inputsCount <= API_BUFFER_SIZE_BYTES
  }

  function Table(a: Api): (t: seq<Entry>)
    requires TableInBuffer(a)
    ensures |t| == a.essence.inputsCount
  {
    EntriesAt(a.buffer, a.essence.entries.value, a.essence.inputsCount)
  }

  predicate TableWellFormed(a: Api)
    requires TableInBuffer(a)
  {
    forall i :: 0 <= i < |Table(a)| ==> EntryWellFormed(Table(a)[i])
  }

  /** The first position before `p` that holds the same entry. */
  function Earlier<T(==)>(t: seq<T>, p: nat, from: nat): (r: Option<nat>)
    requires from <= p < |t|
    ensures r.Some? ==> from <= r.value < p && t[r.value] == t[p]
    ensures forall k :: from <= k < (if r.Some? then r.value else p) ==> t[k] != t[p]
    decreases p - from
  {
    if from == p then None else if t[from] == t[p] then Some(from) else Earlier(t, p, from + 1)
  }

  function SignatureFor(c: Crypto, p: path, h: hash): Option<Unlock> {
    match (c.sign(p, h), c.publicKey(p))
    case (Some(sig), Some(key)) => Some(SignatureUnlock(key, sig))
    case _ => None
  }

  /** The unlock for input `p`. Of the path only its first three entries matter. */
  function UnlockFor(c: Crypto, a: Api, p: nat): Option<Unlock>
    requires TableInBuffer(a) && p < a.essence.inputsCount
  {
    if !a.essence.blindsigning && Earlier(Table(a), p, 0).Some? then
      Some(ReferenceUnlock(Earlier(Table(a), p, 0).value % 0x100))
    else SignatureFor(c, WithEntry(a.path, Table(a)[p]), a.essence.hash)
  }

  method SignGetReferenceIndex(api: Context, signatureIndex: nat) returns (r: byte)
    requires api.Valid() && TableInBuffer(api.State()) && signatureIndex < api.essence.inputsCount
    ensures var e := Earlier(Table(api.State()), signatureIndex, 0);
            r == if e.Some? then e.value % 0x100 else NO_REFERENCE
  {
    hide U32;
    var entries := api.essence.entries.value;
    ghost var t := Table(api.State());
    if signatureIndex != 0 {
      for i := 0 to signatureIndex
        invariant forall k :: 0 <= k < i ==> t[k] != t[signatureIndex]
      {
        var o, p := entries + ENTRY_SIZE * signatureIndex, entries + ENTRY_SIZE * i;
        SameBytesSameEntry(api.buffer[..], o, p);
        assert t[signatureIndex] == EntryAt(api.buffer[..], o) && t[i] == EntryAt(api.buffer[..], p);
        if api.buffer[o..o+ENTRY_SIZE] == api.buffer[p..p+ENTRY_SIZE] {
          return i % 0x100;
        }
      }
    }
    return NO_REFERENCE;
  }

  lemma SameBytesSameEntry(d: seq<byte>, o: nat, p: nat)
    requires o + ENTRY_SIZE <= |d| && p + ENTRY_SIZE <= |d|
    ensures d[o..o+ENTRY_SIZE] == d[p..p+ENTRY_SIZE] <==> EntryAt(d, o) == EntryAt(d, p)
  {
    hide U32, EntryAt, SerializeEntry;
    SerializeEntryAt(d, o);
    SerializeEntryAt(d, p);
    if d[o..o+ENTRY_SIZE] == d[p..p+ENTRY_SIZE] {
      EntryWritten(d, o, EntryAt(d, p));
    }
  }

  /** `sign_signature_unlock_block`: moves the path to the entry and signs. */
  method SignSignatureUnlockBlock(api: Context, output: array<byte>, entry: Entry) returns (size: nat)
    requires api.Valid() && api.Disciplined() && EntryWellFormed(entry)
    requires forall i :: 0 <= i < 3 ==> Hardened(api.bip32Path[i])
    requires output != api.buffer && (output as object) != (api.bip32Path as object)
    requires output.Length >= SIGNATURE_UNLOCK_SIZE
    modifies api`derivations, api.bip32Path, output
    ensures api.Disciplined()
    ensures api.bip32Path[..] == WithEntry(old(api.bip32Path[..]), entry)
    ensures var u := SignatureFor(api.crypto, WithEntry(old(api.bip32Path[..]), entry), api.essence.hash);
            if u.Some? then size == SIGNATURE_UNLOCK_SIZE && output[..size] == SerializeUnlock(u.value)
            else size == 0
  {
    output[1] := 0;
    output[0] := 0;
    api.bip32Path[BIP32_ADDRESS_INDEX] := entry.index;
    api.bip32Path[BIP32_CHANGE_INDEX] := entry.change;
    ghost var p := WithEntry(old(api.bip32Path[..]), entry);
    assert api.bip32Path[..] == p;
    api.derivations := api.derivations + [p, p];
    ghost var u := SignatureFor(api.crypto, p, api.essence.hash);
    var signed, key := api.crypto.sign(api.bip32Path[..], api.essence.hash), api.crypto.publicKey(api.bip32Path[..]);
    if signed == None {
      return 0;
    }
    forall k | 0 <= k < 64 {
      output[34 + k] := signed.value[k];
    }
    if key == None {
      return 0;
    }
    forall k | 0 <= k < 32 {
      output[2 + k] := key.value[k];
    }
    assert output[..2] == [0, 0] && output[2..34] == key.value && output[34..98] == signed.value;
    assert output[..98] == output[..2] + output[2..34] + output[34..98];
    return SIGNATURE_UNLOCK_SIZE;
  }

  /** `sign` writes exactly `UnlockFor` for this input, or nothing. */
  method Sign(api: Context, output: array<byte>, signatureIndex: nat) returns (size: nat)
    requires api.Valid() && api.Disciplined() && TableInBuffer(api.State()) && TableWellFormed(api.State())
    requires forall i :: 0 <= i < 3 ==> Hardened(api.bip32Path[i])
    requires api.essence.inputsCount <= INPUTS_MAX_COUNT
    requires output != api.buffer && (output as object) != (api.bip32Path as object)
    requires output.Length >= SIGNATURE_UNLOCK_SIZE
    modifies api`derivations, api.bip32Path, output
    ensures api.Disciplined()
    ensures signatureIndex >= api.essence.inputsCount ==> size == 0
    ensures signatureIndex < api.essence.inputsCount ==>
      var u := UnlockFor(api.crypto, old(api.State()), signatureIndex);
      if u.Some? then size == |SerializeUnlock(u.value)| && 0 < size <= output.Length
                      && output[..size] == SerializeUnlock(u.value)
                      && api.State() == old(api.State()).(path := PathAfter(old(api.State()), signatureIndex))
      else size == 0
  {
    hide SignatureFor, U32;
    if !(signatureIndex < api.essence.inputsCount) {
      return 0;
    }
    var inputBip32Index := EntryAt(api.buffer[..], api.essence.entries.value + ENTRY_SIZE * signatureIndex);
    assert inputBip32Index == Table(api.State())[signatureIndex];
    assert EntryWellFormed(inputBip32Index);
    var referenceIndex := NO_REFERENCE;
    if !api.essence.blindsigning {
      referenceIndex := SignGetReferenceIndex(api, signatureIndex);
    }
    if referenceIndex == NO_REFERENCE {
      size := SignSignatureUnlockBlock(api, output, inputBip32Index);
    } else {
      output[1], output[2] := referenceIndex, 0;
      output[0] := 1;
      size := REFERENCE_UNLOCK_SIZE;
      ReferenceBytes(referenceIndex);
      assert output[..3] == [1, referenceIndex, 0];
    }
  }

  lemma ReferenceBytes(r: byte)
    ensures SerializeUnlock(ReferenceUnlock(r)) == [1, r, 0]
  {
    assert ToLe(r, 2) == [r % 0x100] + ToLe(r / 0x100, 1);
  }

  /** The path after signing input `p`. */
  function PathAfter(a: Api, p: nat): path
    requires TableInBuffer(a) && p < a.essence.inputsCount
  {
    if !a.essence.blindsigning && Earlier(Table(a), p, 0).Some? then a.path
    else WithEntry(a.path, Table(a)[p])
  }

  /** The bytes of an unlock tell which one it is. */
  lemma UnlockBytesDistinct(u: Unlock, v: Unlock)
    requires SerializeUnlock(u) == SerializeUnlock(v)
    ensures u == v
  {
    hide ToLe;
    var s, t := SerializeUnlock(u), SerializeUnlock(v);
    if u.SignatureUnlock? && v.SignatureUnlock? {
      assert u.publicKey == s[2..34] && u.signature == s[34..98];
      assert v.publicKey == t[2..34] && v.signature == t[34..98];
    } else if u.ReferenceUnlock? && v.ReferenceUnlock? {
      assert ToLe(u.reference, 2) == s[1..] && ToLe(v.reference, 2) == t[1..];
      Powers();
      LeOfToLe(u.reference, 2);
      LeOfToLe(v.reference, 2);
    }
  }

  // ------------------------------------------------------------ the list of unlocks

  /** `us` is what signing every input returns. */
  predicate UnlockList(c: Crypto, a: Api, us: seq<Unlock>)
    requires TableInBuffer(a)
  {
    |us| == a.essence.inputsCount
    && forall p :: 0 <= p < |us| ==> UnlockFor(c, a, p) == Some(us[p])
  }

  /** The positions that hold a signature. */
  function SignaturePositions(us: seq<Unlock>): set<nat> {
    set p: nat | p < |us| && us[p].SignatureUnlock?
  }

  function EntrySet(t: seq<Entry>): set<Entry> { set x | x in t }

  /** The "Unlocks" rules of TIP-0020: a reference points back to a signature for the
      same entry, no entry is signed twice, and as many signatures as entries. */
  ghost predicate UnlockRules(t: seq<Entry>, us: seq<Unlock>) {
    |us| == |t|
    && (forall p :: 0 <= p < |us| && us[p].ReferenceUnlock? ==>
          us[p].reference < p && us[us[p].reference].SignatureUnlock?
          && t[us[p].reference] == t[p] && us[p].reference != NO_REFERENCE)
    && (forall p, q :: 0 <= p < q < |us| && us[p].SignatureUnlock? && us[q].SignatureUnlock? ==> t[p] != t[q])
    && |SignaturePositions(us)| == |EntrySet(t)|
  }

  /** A reference where there is an earlier entry, and to the first of them. */
  predicate PointsBack(t: seq<Entry>, us: seq<Unlock>, p: nat)
    requires p < |us| == |t|
  {
    var e := Earlier(t, p, 0);
    if e.Some? then us[p].ReferenceUnlock? && us[p].reference == e.value else us[p].SignatureUnlock?
  }

  /** Signing every input of a message obeys the rules. */
  lemma UnlockListWellFormed(c: Crypto, a: Api, us: seq<Unlock>)
    requires TableInBuffer(a) && a.essence.inputsCount <= INPUTS_MAX_COUNT
    requires !a.essence.blindsigning && UnlockList(c, a, us)
    ensures UnlockRules(Table(a), us)
  {
    hide Table, SignatureFor, UnlockFor, Earlier, PointsBack, SignaturePositions, EntrySet;
    var t := Table(a);
    forall p: nat | p < |us|
      ensures PointsBack(t, us, p)
    {
      UnlockPointsBack(c, a, us, p);
    }
    PointersObey(t, us);
    CountFirsts(t, us, |us|);
    assert us[..|us|] == us && t[..|us|] == t;
  }

  lemma UnlockPointsBack(c: Crypto, a: Api, us: seq<Unlock>, p: nat)
    requires TableInBuffer(a) && !a.essence.blindsigning && UnlockList(c, a, us)
    requires p < |us| <= INPUTS_MAX_COUNT
    ensures PointsBack(Table(a), us, p)
  {
    hide Table, SignatureFor, Earlier;
    assert UnlockFor(c, a, p) == Some(us[p]);
    SignatureIsSignature(c, WithEntry(a.path, Table(a)[p]), a.essence.hash);
  }

  lemma PointersObey(t: seq<Entry>, us: seq<Unlock>)
    requires |us| == |t| <= INPUTS_MAX_COUNT
    requires forall p: nat :: p < |us| ==> PointsBack(t, us, p)
    ensures forall p :: 0 <= p < |us| ==> (us[p].ReferenceUnlock? <==> Earlier(t, p, 0).Some?)
    ensures forall p :: 0 <= p < |us| && us[p].ReferenceUnlock? ==>
      us[p].reference < p && us[us[p].reference].SignatureUnlock? && t[us[p].reference] == t[p]
    ensures forall p, q :: 0 <= p < q < |us| && us[p].SignatureUnlock? && us[q].SignatureUnlock? ==> t[p] != t[q]
  {
    hide Earlier;
    forall p: nat | p < |us|
      ensures us[p].ReferenceUnlock? <==> Earlier(t, p, 0).Some?
      ensures us[p].ReferenceUnlock? ==> us[p].reference == Earlier(t, p, 0).value
    {
      assert PointsBack(t, us, p);
    }
    forall p | 0 <= p < |us| && us[p].ReferenceUnlock?
      ensures us[us[p].reference].SignatureUnlock?
    {
      assert t[us[p].reference] == t[p];
    }
  }

  lemma SignatureIsSignature(c: Crypto, p: path, h: hash)
    ensures SignatureFor(c, p, h).Some? ==> SignatureFor(c, p, h).value.SignatureUnlock?
  {}

  lemma {:induction false} CountFirsts(t: seq<Entry>, us: seq<Unlock>, n: nat)
    requires |us| == |t| && n <= |t|
    requires forall p :: 0 <= p < |us| ==> (us[p].ReferenceUnlock? <==> Earlier(t, p, 0).Some?)
    ensures |SignaturePositions(us[..n])| == |EntrySet(t[..n])|
  {
    hide Earlier, SignaturePositions, EntrySet;
    if n == 0 {
      NothingCounted();
    } else {
      CountFirsts(t, us, n - 1);
      assert t[..n] == t[..n-1] + [t[n-1]] && us[..n] == us[..n-1] + [us[n-1]];
      EntrySetGrows(t[..n-1], t[n-1]);
      PositionsGrow(us[..n-1], us[n-1]);
      EarlierIffIn(t, n - 1);
    }
  }

  lemma NothingCounted()
    ensures SignaturePositions([]) == {} && EntrySet([]) == {}
  {}

  lemma EntrySetGrows(t: seq<Entry>, x: Entry)
    ensures |EntrySet(t + [x])| == |EntrySet(t)| + if x in t then 0 else 1
  {
    assert EntrySet(t + [x]) == EntrySet(t) + {x};
    if x in t {
      assert EntrySet(t + [x]) == EntrySet(t);
    }
  }

  lemma PositionsGrow(us: seq<Unlock>, u: Unlock)
    ensures |SignaturePositions(us + [u])| == |SignaturePositions(us)| + if u.SignatureUnlock? then 1 else 0
  {
    var s, s' := SignaturePositions(us), SignaturePositions(us + [u]);
    if u.SignatureUnlock? {
      assert s' == s + {|us|};
    } else {
      assert s' == s;
    }
  }

  lemma EarlierIffIn(t: seq<Entry>, p: nat)
    requires p < |t|
    ensures Earlier(t, p, 0).Some? <==> t[p] in t[..p]
  {
    var r := Earlier(t, p, 0);
    if r.Some? {
      assert t[..p][r.value] == t[p];
    }
  }

  /** In blind mode every unlock is a signature. */
  lemma BlindUnlocksAreSignatures(c: Crypto, a: Api, us: seq<Unlock>)
    requires TableInBuffer(a) && a.essence.blindsigning && UnlockList(c, a, us)
    ensures forall p :: 0 <= p < |us| ==> us[p].SignatureUnlock?
  {
    forall p | 0 <= p < |us|
      ensures us[p].SignatureUnlock?
    {
      assert UnlockFor(c, a, p) == Some(us[p]);
    }
  }
}
