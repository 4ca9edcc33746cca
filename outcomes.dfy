/** What the binding hands back to its JavaScript caller besides data: an absent value or an error. */
module Outcomes {

  datatype Option<T> = None | Some(value: T)

  /** The errors the binding creates, one per distinct message text. */
  datatype Error =
    | OpenFailed        // Open: "Failed to open I2C device"
    | SetAddressFailed  // setAddress, raised as a TypeError: "Failed to set address"
    | ReadFailed        // Read: "Cannot read from device"
    | ReadByteFailed    // ReadByte: "Cannot read device"
    | BlockReadFailed   // ReadBlock, a short block read: "Error reading length of bytes"
    | WriteFailed       // Write, WriteByte, WriteBlock, WriteWord: "Cannot write to device"
}
