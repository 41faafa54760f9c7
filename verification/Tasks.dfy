/** What every part of the kernel agrees on about a task. */
module Tasks {
  datatype TaskState = Free | Ready | Running | Blocked | Zombie

  const INVALID_TID: int := -1
}
