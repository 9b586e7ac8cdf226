/** Build constants: src/iota/constants.h, src/iota_io.h and the enumerations of
    src/api.h. The device and the coin app are left open. */
module Config {
  import opened Bytes

  datatype Target = NanoS | NanoX | NanoSPlus
  datatype App = IotaApp | ShimmerApp

  const TARGET: Target
  const APP: App

  const DATA_BLOCK_COUNT: byte := if TARGET == NanoS then 6 else 32
  const DATA_BLOCK_SIZE: nat := 251
  const API_BUFFER_SIZE_BYTES: nat := DATA_BLOCK_COUNT * DATA_BLOCK_SIZE

  const INPUTS_MIN_COUNT := 1
  const INPUTS_MAX_COUNT := 128
  const OUTPUTS_MIN_COUNT := 1
  const OUTPUTS_MAX_COUNT := 128

  const BIP32_PATH_LEN := 5
  const BIP32_COIN_INDEX := 1
  const BIP32_ACCOUNT_INDEX := 2
  const BIP32_CHANGE_INDEX := 3
  const BIP32_ADDRESS_INDEX := 4

  const BIP32_PURPOSE: u32 := 0x8000_002c
  const BIP32_COIN_IOTA: u32 := 0x8000_107a
  const BIP32_COIN_SHIMMER: u32 := 0x8000_107b
  const BIP32_COIN_TESTNET: u32 := 0x8000_0001

  const APP_MODE_IOTA_STARDUST: byte := 1
  const APP_MODE_SHIMMER_CLAIMING: byte := 2
  const APP_MODE_SHIMMER: byte := 3
  const APP_MODE_INIT: byte := if APP == IotaApp then APP_MODE_IOTA_STARDUST else APP_MODE_SHIMMER

  const API_GENERATE_ADDRESSES_MAX_COUNT: nat := API_BUFFER_SIZE_BYTES / 33

  const SW_OK: u16 := 0x9000
  const SW_INCORRECT_LENGTH: u16 := 0x6700
  const SW_COMMAND_INVALID_DATA: u16 := 0x6a80
  const SW_INCORRECT_P1P2: u16 := 0x6b00
  const SW_INCORRECT_LENGTH_P3: u16 := 0x6c00
  const SW_INS_NOT_SUPPORTED: u16 := 0x6d00
  const SW_CLA_NOT_SUPPORTED: u16 := 0x6e00
  const SW_ACCOUNT_NOT_VALID: u16 := 0x6388
  const SW_COMMAND_NOT_ALLOWED: u16 := 0x6900
  const SW_DEVICE_IS_LOCKED: u16 := 0x6982
  const SW_DENIED_BY_USER: u16 := 0x6985
  const SW_COMMAND_TIMEOUT: u16 := 0x6401
  const SW_UNKNOWN: u16 := 0x69a0

  /** The buffer as a value. */
  type buffer = d: seq<byte> | |d| == API_BUFFER_SIZE_BYTES
    witness seq(API_BUFFER_SIZE_BYTES, _ => 0)

  type path = p: seq<u32> | |p| == BIP32_PATH_LEN witness [0, 0, 0, 0, 0]

  predicate AllHardened(p: path) { forall i :: 0 <= i < BIP32_PATH_LEN ==> Hardened(p[i]) }
}
