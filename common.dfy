/** Machine types, result wrappers and the constants shared by the server's two source files. */
module Common {

  /** An octet, as held in the server's `u8` buffers. */
  type byte = x: int | 0 <= x < 0x100

  /** An unsigned 32-bit integer (`u32`, the Win32 `DWORD`). */
  type u32 = x: int | 0 <= x < 0x1_0000_0000

  const U32_MODULUS: int := 0x1_0000_0000

  /** Reduces a non-negative integer to `u32`, as unchecked (release-build) `u32` arithmetic does. */
  function WrapU32(x: nat): (r: u32)
    ensures x < U32_MODULUS ==> r == x
  {
    x % U32_MODULUS
  }

  /** Adding to an already wrapped value wraps the same as adding to the exact value. */
  lemma WrapAdd(x: nat, y: nat)
    ensures WrapU32(WrapU32(x) + y) == WrapU32(x + y)
  {
    var q := x / U32_MODULUS;
    assert x == q * U32_MODULUS + WrapU32(x);
    assert x + y == q * U32_MODULUS + (WrapU32(x) + y);
  }

  datatype Option<T> = None | Some(value: T)

  datatype Result<T, E> = Ok(value: T) | Err(error: E)

  /** An all-zero byte sequence of the given length (a freshly zeroed buffer). */
  function Zeros(n: nat): (z: seq<byte>)
    ensures |z| == n
  {
    seq(n, _ => 0)
  }

  /** HRESULT codes, written as their unsigned 32-bit bit patterns. */
  type HResult = u32

  /** `E_FAIL`, the code of every error the server raises itself. */
  const E_FAIL: HResult := 0x8000_4005

  /** `ERROR_IO_PENDING` (997) converted to an HRESULT: the "operation still in progress" status. */
  const ERROR_IO_PENDING_HRESULT: HResult := 0x8007_03E5

  /** `CHANNEL_CHUNK_LENGTH` of the Windows SDK: the largest payload of one channel chunk. */
  const CHANNEL_CHUNK_LENGTH: nat := 1600

  /** `PDU_HEADER_LENGTH`: size of the `CHANNEL_PDU_HEADER` that starts every chunk. */
  const PDU_HEADER_LENGTH: nat := 8

  /** `PACKET_MAX_LENGTH`: size of the buffer one fragment is read into. */
  const PACKET_MAX_LENGTH: nat := CHANNEL_CHUNK_LENGTH + PDU_HEADER_LENGTH
}
