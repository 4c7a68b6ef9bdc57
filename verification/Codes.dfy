/** The driver's error codes. */
module Codes {
  const ERR_NONE: int := 0
  const ERR_BROKEN: int := -2
  const ERR_PARAM: int := -4
  const ERR_PATH: int := -5
  const ERR_EOF: int := -6
  const ERR_DENIED: int := -7
  const ERR_FULL: int := -8
}
