/** Values shared by the whole model: options, selector interests, descriptors and table slots. */
module Common {

  datatype Option<+T> = None | Some(value: T)

  /** The interest mask of a descriptor: a set of powers of two. */
  type Interest = bv8

  const OP_NOOP: Interest := 0
  const OP_READ: Interest := 1
  const OP_WRITE: Interest := 4

  predicate WantsRead(i: Interest) {
    i & OP_READ != 0
  }

  predicate WantsWrite(i: Interest) {
    i & OP_WRITE != 0
  }

  /** How many operations an interest mask asks for. */
  function Wanted(i: Interest): nat {
    (if WantsRead(i) then 1 else 0) + (if WantsWrite(i) then 1 else 0)
  }

  /** The number of descriptors select(2) can watch. */
  const ITEMS_MAX_SIZE: nat := 1024

  predicate InvalidFd(fd: int) {
    fd < 0 || fd >= ITEMS_MAX_SIZE
  }

  datatype Status = Success | NoMem | MaxFd | IArgs | FdInUse | Io

  /** The three handler structures that main.c and socks_nio.h define, and the cleared pointer. */
  datatype HandlerId = NullHandler | ListenHandler | AdminHandler | SocksHandler

  /** What the selector remembers about a used descriptor. */
  datatype Slot<+D> = Slot(handler: HandlerId, interest: Interest, data: Option<D>)
}
