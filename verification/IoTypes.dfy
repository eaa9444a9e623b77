/** Values shared by the whole model: bytes, errors, submission and completion queue entries. */
module IoTypes {

  newtype byte = b: int | 0 <= b < 0x100

  /** io_uring user data: the values of a u64. */
  type Id = nat

  const U32: nat := 0x1_0000_0000
  const U64: nat := 0x1_0000_0000_0000_0000
  const I64_MAX: nat := 0x7FFF_FFFF_FFFF_FFFF

  /** The offset u64::MAX stands for "the current position of the descriptor". */
  const CURRENT: nat := U64 - 1

  datatype Option<+T> = None | Some(value: T)

  datatype IoError =
    | Os(errno: int)      // a negative completion result, negated
    | EnterFailed         // io_uring_enter returned an error
    | QueueFull           // "SQ queue full"
    | RingUnavailable     // the ring could not be created, or its lock is poisoned
    | Closed              // "I/O operation on closed file."
    | BadWhence
    | Failed              // any other system call error

  datatype Result<+T> = Ok(value: T) | Err(error: IoError)

  datatype Op =
    | Read(fd: int, offset: nat, size: nat)
    | Write(fd: int, bytes: seq<byte>)
    | Splice(fdIn: int, fdOut: int, size: nat)

  /** A submission queue entry: an operation under its user data. */
  datatype Entry = Entry(id: Id, op: Op)

  /** A completion queue entry carries only the user data and the result. */
  datatype Cqe = Cqe(id: Id, res: int)

  /** One operation as the kernel carried it out: what ran, its result, and the bytes read or moved. */
  datatype Done = Done(entry: Entry, res: int, data: seq<byte>)

  function Min(a: nat, b: nat): nat {
    if a <= b then a else b
  }
}
