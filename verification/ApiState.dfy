/** The API context of src/api.h as a value, the cryptography it calls, and the
    results that the commands work out from it. */
module ApiState {
  import opened Bytes
  import opened Config
  import opened Essence
  import opened Address

  // --------------------------------------------------------------- cryptography

  type hash = h: seq<byte> | |h| == 32 witness seq(32, _ => 0)
  type signature = s: seq<byte> | |s| == 64 witness seq(64, _ => 0)

  /** Key derivation, signing and hashing: any functions that may fail. */
  datatype Crypto = Crypto(
    publicKey: path -> Option<hash>,
    sign: (path, hash) -> Option<signature>,
    blake2b: seq<byte> -> Option<hash>)

  /** `address_generate`: type byte 0 and the hash of the public key. */
  function AddressOf(c: Crypto, p: path): Option<address> {
    match c.publicKey(p)
    case None => None
    case Some(key) => match c.blake2b(key)
      case None => None
      case Some(h) => Some([0] + h)
  }

  /** `x` is the typed address of path `q`: the type byte 0 and the hash of its public
      key. */
  ghost predicate IsAddress(c: Crypto, q: path, x: seq<byte>) {
    |x| == 33 && x[0] == 0 && exists key :: c.publicKey(q) == Some(key) && c.blake2b(key) == Some(x[1..33])
  }

  lemma AddressOfIs(c: Crypto, q: path, x: seq<byte>)
    ensures AddressOf(c, q) == Some(x) <==> IsAddress(c, q, x)
  {
    if AddressOf(c, q) == Some(x) {
      assert x[1..33] == c.blake2b(c.publicKey(q).value).value;
    }
    if IsAddress(c, q, x) {
      assert [0] + x[1..33] == x;
    }
  }

  // ---------------------------------------------------------------------- state

  datatype DataType =
    | EMPTY | GENERATED_ADDRESSES | VALIDATED_ESSENCE | USER_CONFIRMED_ESSENCE | SIGNATURES | LOCKED

  datatype Protocol = NoProtocol | Stardust
  datatype Coin = CoinIota | CoinShimmer

  /** `ESSENCE`; pointers into the buffer are offsets. */
  datatype Info = Info(
    inputsCount: u16, length: u16, inputs: Option<nat>, outputsCount: u16, outputs: Option<nat>,
    entries: Option<nat>, blindsigning: bool, remainderIndex: u16, remainder: Entry,
    hasRemainder: bool, isInternalTransfer: bool, hash: hash)

  /** `API_CTX` */
  datatype Api = Api(
    path: path, appMode: byte, protocol: Protocol, coin: Coin, buffer: buffer,
    dataType: DataType, dataLength: u16, essence: Info, flowLocked: bool)

  function Zeros(n: nat): (s: seq<byte>)
    ensures |s| == n
  {
    seq(n, _ => 0)
  }

  const NO_ESSENCE := Info(0, 0, None, 0, None, None, false, 0, Entry(0, 0), false, false, Zeros(32))

  /** All bytes of the context zero. */
  const WIPED := Api([0, 0, 0, 0, 0], 0, NoProtocol, CoinIota,
                     Zeros(API_BUFFER_SIZE_BYTES), EMPTY, 0, NO_ESSENCE, false)

  predicate ModeSupported(mode: byte) {
    if APP == IotaApp then mode % 0x80 == APP_MODE_IOTA_STARDUST
    else mode % 0x80 == APP_MODE_SHIMMER_CLAIMING || mode % 0x80 == APP_MODE_SHIMMER
  }

  function CoinIndex(mode: byte): u32 {
    if mode >= 0x80 then BIP32_COIN_TESTNET
    else if mode == APP_MODE_SHIMMER then BIP32_COIN_SHIMMER else BIP32_COIN_IOTA
  }

  function CoinOf(): Coin { if APP == IotaApp then CoinIota else CoinShimmer }

  /** The context after `api_initialize(mode, account)`. */
  function Fresh(mode: byte, account: u32): Api {
    Api([BIP32_PURPOSE, CoinIndex(mode), account, 0, 0], mode, Stardust, CoinOf(),
        Zeros(API_BUFFER_SIZE_BYTES), EMPTY, 0, NO_ESSENCE, false)
  }

  function WithEntry(p: path, b: Entry): path {
    p[BIP32_CHANGE_INDEX := b.change][BIP32_ADDRESS_INDEX := b.index]
  }

  /** The path of an address of the context's account. */
  function Below(a: Api, change: u32, index: u32): path { [0x8000_002c, a.path[1], a.path[2], change, index] }

  predicate AccountSelected(a: Api) { Hardened(a.path[BIP32_ACCOUNT_INDEX]) }

  // -------------------------------------------------------------------- results

  /** The typed address of output `k`: its type byte and its key hash. */
  function OutputAddress(d: buffer, outputsAt: nat, k: nat): address
    requires outputsAt + OUTPUT_SIZE * (k + 1) <= |d|
  {
    d[outputsAt + OUTPUT_SIZE * k + 12..outputsAt + OUTPUT_SIZE * k + 45]
  }

  /** Entry `i` derives `out`, and none before it does or fails to derive. */
  predicate FirstOwner(c: Crypto, p: path, entries: seq<Entry>, out: address, i: nat) {
    i < |entries| && AddressOf(c, WithEntry(p, entries[i])) == Some(out)
    && forall k :: 0 <= k < i ==>
      AddressOf(c, WithEntry(p, entries[k])).Some? && AddressOf(c, WithEntry(p, entries[k])) != Some(out)
  }

  ghost predicate Owned(c: Crypto, p: path, entries: seq<Entry>, out: address) {
    exists i :: FirstOwner(c, p, entries, out, i)
  }

  /** `check_for_internal_transfer` */
  ghost predicate StaysInWallet(c: Crypto, a: Api, l: Layout)
    requires HasLayout(a.buffer, l)
  {
    l.outputs == 1 && !a.essence.hasRemainder && a.appMode != APP_MODE_SHIMMER_CLAIMING
    && Owned(c, a.path, EntriesAt(a.buffer, l.essenceLength, l.inputs), OutputAddress(a.buffer, l.outputsAt, 0))
  }

  /** The stated remainder output carries the address of the stated path. */
  predicate RemainderVerified(c: Crypto, a: Api, l: Layout)
    requires HasLayout(a.buffer, l)
  {
    a.essence.remainderIndex < l.outputs && EntryWellFormed(a.essence.remainder)
    && AddressOf(c, WithEntry(a.path, a.essence.remainder))
       == Some(OutputAddress(a.buffer, l.outputsAt, a.essence.remainderIndex))
  }

  /** `essence_parse_and_validate_stardust` accepts. */
  ghost predicate EssenceAccepted(c: Crypto, a: Api, l: Layout) {
    HasLayout(a.buffer, l) && (a.essence.hasRemainder ==> RemainderVerified(c, a, l))
    && c.blake2b(a.buffer[..l.essenceLength]).Some?
  }

  /** ... and leaves this context. */
  ghost function EssenceParsed(c: Crypto, a: Api, l: Layout): Api
    requires EssenceAccepted(c, a, l)
  {
    a.(path := if a.essence.hasRemainder then WithEntry(a.path, a.essence.remainder) else a.path,
       dataLength := l.dataLength,
       essence := a.essence.(
         inputsCount := l.inputs, length := l.essenceLength, inputs := Some(l.inputsAt),
         outputsCount := l.outputs, outputs := Some(l.outputsAt), entries := Some(l.essenceLength),
         isInternalTransfer := a.essence.isInternalTransfer || StaysInWallet(c, a, l),
         hash := c.blake2b(a.buffer[..l.essenceLength]).value))
  }

  /** The blind message: a hash, a count and that many BIP32 entries. */
  predicate BlindLayout(d: buffer, n: nat) {
    U16(d, 32) == n && INPUTS_MIN_COUNT <= n <= INPUTS_MAX_COUNT && EntriesSection(d, 34, n)
  }

  function BlindParsed(a: Api, n: nat): Api
    requires BlindLayout(a.buffer, n)
  {
    a.(dataLength := 34 + ENTRY_SIZE * n,
       essence := a.essence.(inputsCount := n, length := 32, entries := Some(34), hash := a.buffer[..32]))
  }
}
