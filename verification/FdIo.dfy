/** What the operating system may answer to one read or one gathering write on a non-blocking fd. */
module FdIo {
  import opened Bytes

  /** What one adb_read returned. */
  datatype ReadOutcome = Data(bytes: seq<Byte>) | EndOfFile | ReadFailed

  /** What one adb_writev of a whole buffer returned; `Wrote(0)` is the return value 0. */
  datatype WriteOutcome = Wrote(count: nat) | WouldBlock | WriteFailed
}
