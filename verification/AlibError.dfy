/** The error codes of includes/alib_error.h that occur here. */
module AlibErrors {
  const ALIB_BAD_INDEX := -17
  const ALIB_INTERNAL_MAX_REACHED := -16
  const ALIB_OBJ_CORRUPTION := -9
  const ALIB_UNKNOWN_ERR := -5
  const ALIB_MEM_ERR := -2
  const ALIB_BAD_ARG := -1
  const ALIB_OK := 0
}
