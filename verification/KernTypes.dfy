/** What the memory manager's parts agree on. */
module KernTypes {
  datatype KernReturn = Success | NotFound | NoSpace | ResourceShortage | InvalidArgument

  const PAGE_SIZE: nat := 4096
}
