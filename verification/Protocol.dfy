/** Constants and small types shared by the QUIC components. */
module Protocol {

  newtype byte = x: int | 0 <= x < 256

  datatype Option<+T> = None | Some(value: T)

  // internal/protocol: offsets are 62-bit; -1 stands for "no offset"
  const MAX_BYTE_COUNT: int := 0x3FFF_FFFF_FFFF_FFFF
  const INVALID_BYTE_COUNT: int := -1
  const MAX_SORTER_GAPS: nat := 1000
  const MIN_STREAM_FRAME_BUFFER_SIZE: nat := 128
  const MAX_PACKET_BUFFER_SIZE: nat := 1452

  function Min(a: int, b: int): int { if a < b then a else b }

  function Max(a: int, b: int): int { if a > b then a else b }
}
