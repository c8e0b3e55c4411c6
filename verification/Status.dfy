/** The return codes both trees share. */
module Status {
  const OK: int := 1
  const SYSERR: int := -1
}
