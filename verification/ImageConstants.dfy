/**
  The sizes of the container format.  Where one of them is a divisor or a factor
  the functions write it out as a literal, which keeps their arithmetic linear
  for the verifier.
 */
module ImageConstants {

  const HEADER_SIZE: nat := 44
  const ENTRY_SIZE: nat := 20
  const ALIGNMENT: nat := 16
  const MAX_ENTRIES: nat := 128 // also the largest module id that can be requested
}
