/** System-wide error codes the two servers return, and the central repository's
    "no single key" value (persistentstorage/centralrepository/include/centralrepository.h:50). */
module Errors {
  const KErrNone := 0
  const KErrNotFound := -1
  const KErrCancel := -3
  const KErrNoMemory := -4
  const KErrNotSupported := -5
  const KErrArgument := -6
  const KErrAlreadyExists := -11
  const KErrServerBusy := -16
  const KErrCorrupt := -20
  const KErrLocked := -22
  const KErrEof := -25
  const KErrAbort := -39

  const KUnspecifiedKey := 0xFFFF_FFFF

  datatype Option<+T> = None | Some(value: T)
}
