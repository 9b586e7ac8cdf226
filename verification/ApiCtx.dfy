/** The global `api` of src/api.c: one object, a fixed buffer and a fixed BIP32 path
    that the commands overwrite in place. */
module ApiCtx {
  import opened Bytes
  import opened Config
  import opened Address
  import opened ApiState

  class Context {
    const crypto: Crypto
    const bip32Path: array<u32>
    const buffer: array<byte>
    var appMode: byte
    var protocol: Protocol
    var coin: Coin
    var dataType: DataType
    var dataLength: u16
    var essence: Info
    var flowLocked: bool

    /** Every path that key derivation has been asked for. */
    ghost var derivations: seq<path>

    ghost predicate Valid() {
      buffer.Length == API_BUFFER_SIZE_BYTES && bip32Path.Length == BIP32_PATH_LEN
      && (buffer as object) != (bip32Path as object)
    }

    ghost function State(): Api
      requires Valid()
      reads this, buffer, bip32Path
    {
      Api(bip32Path[..], appMode, protocol, coin, buffer[..], dataType, dataLength, essence, flowLocked)
    }

    ghost predicate Disciplined()
      reads this
    {
      forall i :: 0 <= i < |derivations| ==> AllHardened(derivations[i])
    }

    constructor (crypto: Crypto)
      ensures Valid() && fresh(buffer) && fresh(bip32Path) && Disciplined()
    {
      this.crypto := crypto;
      bip32Path := new u32[BIP32_PATH_LEN](_ => 0);
      buffer := new byte[API_BUFFER_SIZE_BYTES](_ => 0);
      appMode, protocol, coin := 0, NoProtocol, CoinIota;
      dataType, dataLength, essence, flowLocked := EMPTY, 0, NO_ESSENCE, false;
      derivations := [];
    }
  }

  /** `address_generate` for the path in `p`, writing 33 bytes at `o`. */
  method AddressGenerate(api: Context, p: array<u32>, addr: array<byte>, o: nat) returns (ok: bool)
    requires api.Valid() && api.Disciplined()
    requires p.Length == BIP32_PATH_LEN && o + ADDRESS_WITH_TYPE_SIZE_BYTES <= addr.Length
    requires AllHardened(p[..])
    modifies api`derivations, addr
    ensures api.Disciplined()
    ensures ok <==> AddressOf(api.crypto, old(p[..])).Some?
    ensures addr[..o] == old(addr[..o]) && addr[o+33..] == old(addr[o+33..])
    ensures ok ==> addr[o..o+33] == AddressOf(api.crypto, old(p[..])).value
  {
    api.derivations := api.derivations + [p[..]];
    match api.crypto.publicKey(p[..])
    case None => return false;
    case Some(key) =>
      addr[o] := 0;
      match api.crypto.blake2b(key)
      case None => return false;
      case Some(h) =>
        forall k | 0 <= k < 32 {
          addr[o + 1 + k] := h[k];
        }
        assert addr[o..o+33] == [0] + h;
        return true;
  }
}
