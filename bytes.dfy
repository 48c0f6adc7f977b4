/** Basic value types shared by the model: bytes, Bluetooth device addresses and Option. */
module Bytes {

  /** An unsigned 8-bit value (Rust `u8`). */
  type byte = x: int | 0 <= x < 256

  /** Number of bytes in a Bluetooth device address (`bda: [u8; 6]`). */
  const AddressLen := 6

  /** A Bluetooth device address as the stack hands it to the callbacks. */
  type Address = s: seq<byte> | |s| == AddressLen witness [0, 0, 0, 0, 0, 0]

  datatype Option<+T> = None | Some(value: T)
}
