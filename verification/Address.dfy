/** Model of `address_encode_bech32_hrp` in src/iota/address.c, and of the choice of
    the human readable part in src/iota/abstraction.c. */
module Address {
  import opened Bytes
  import opened Base32
  import opened Polymod
  import opened Bech32

  const ADDRESS_WITH_TYPE_SIZE_BYTES := 33
  const ADDRESS_SIZE_BASE32 := 53
  const ADDRESS_HRP_LENGTH_MAX := 4
  const ADDRESS_SIZE_BECH32_MAX := 64

  /** A typed address: the type byte and 32 bytes. */
  type address = a: seq<byte> | |a| == ADDRESS_WITH_TYPE_SIZE_BYTES witness seq(33, _ => 0)

  /** The string shown for an address. */
  function AddressText(hrp: string, addr: address): (s: string)
    requires Printable(hrp)
    ensures |s| == |hrp| + ADDRESS_SIZE_BASE32 + 7
  {
    Text(hrp, Encoding(addr))
  }

  ghost function DecodeAddress(s: string): Option<(string, seq<byte>)> {
    match Decode(s)
    case None => None
    case Some((hrp, vs)) => match Regroup(vs)
      case None => None
      case Some(bs) => Some((hrp, bs))
  }

  /** Decoding an address string gives back its prefix and its 33 bytes. */
  lemma AddressRoundTrip(hrp: string, addr: address)
    requires 0 < |hrp| && Printable(hrp)
    ensures DecodeAddress(AddressText(hrp, addr)) == Some((hrp, addr))
  {
    hide Text, Decode, Regroup, Encoding;
    DecodeText(hrp, Encoding(addr));
    RegroupEncoding(addr);
  }

  lemma AddressTextInjective(hrp: string, addr: address, hrp': string, addr': address)
    requires 0 < |hrp| && Printable(hrp) && 0 < |hrp'| && Printable(hrp')
    requires AddressText(hrp, addr) == AddressText(hrp', addr')
    ensures hrp == hrp' && addr == addr'
  {
    AddressRoundTrip(hrp, addr);
    AddressRoundTrip(hrp', addr');
  }

  /** An address string that was changed inside six consecutive characters no longer
      decodes with its prefix. */
  lemma AddressBurstDetected(hrp: string, addr: address, t: string, i: nat)
    requires 0 < |hrp| && Printable(hrp) && DifferInBurst(AddressText(hrp, addr), t, i)
    ensures t != AddressText(hrp, addr) ==> !(DecodeAddress(t).Some? && DecodeAddress(t).value.0 == hrp)
  {
    hide AddressText, Decode, Regroup;
    AddressRoundTrip(hrp, addr);
    if DecodeAddress(t).Some? && DecodeAddress(t).value.0 == hrp {
      BurstDetected(AddressText(hrp, addr), t, hrp, i);
    }
  }

  predicate NoUppercase(s: string) { forall i :: 0 <= i < |s| ==> !('A' <= s[i] <= 'Z') }

  /** With a lower-case prefix of at most four characters the string also meets the
      rules of BIP-173 that `Decode` leaves out: no upper case, at most 90 characters. */
  lemma AddressTextCaseAndLength(hrp: string, addr: address)
    requires Printable(hrp) && |hrp| <= ADDRESS_HRP_LENGTH_MAX
    ensures NoUppercase(AddressText(hrp, addr)) <==> NoUppercase(hrp)
    ensures |AddressText(hrp, addr)| <= ADDRESS_SIZE_BECH32_MAX <= 90
  {
    hide Encoding, Checksum, Register;
    CharsetLowercase();
    var s, vs := AddressText(hrp, addr), Encoding(addr) + Checksum(Register(hrp, Encoding(addr)));
    assert forall i :: |hrp| < i < |s| ==> s[i] == CHARSET[vs[i - |hrp| - 1]];
    assert forall i :: 0 <= i < |hrp| ==> s[i] == hrp[i];
  }

  lemma CharsetLowercase()
    ensures forall v :: 0 <= v < 32 ==> !('A' <= CHARSET[v] <= 'Z')
  {}

  method EncodeBech32Hrp(addr: address, bech32: array<char>, maxLength: nat, hrp: string)
    returns (ok: bool)
    requires maxLength <= bech32.Length
    modifies bech32
    ensures ok <==> 0 < |hrp| && Printable(hrp) && ADDRESS_SIZE_BECH32_MAX < maxLength
                    && |hrp| + 60 < maxLength && |hrp| + 60 <= LENGTH_MAX
    ensures (0 < |hrp| <= ADDRESS_HRP_LENGTH_MAX && Printable(hrp) && ADDRESS_SIZE_BECH32_MAX < maxLength)
            ==> ok
    ensures ok ==> bech32[..|hrp|+60] == AddressText(hrp, addr) && bech32[|hrp|+60] == 0 as char
  {
    hide Text, Val32, Val256;
    if maxLength < ADDRESS_SIZE_BECH32_MAX + 1 {
      return false;
    }
    var base32 := new byte[ADDRESS_SIZE_BASE32];
    var base32Length;
    ok, base32Length := Base32Encode(base32, ADDRESS_SIZE_BASE32, addr);
    if !ok {
      return false;
    }
    EncodingExact(addr, base32[..base32Length]);
    var n;
    ok, n := Encode(bech32, maxLength, hrp, base32[..base32Length]);
  }
}
