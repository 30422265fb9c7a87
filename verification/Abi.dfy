/** The error cases every connector ABI constructor reports. */
module Abi {
  datatype AbiError =
    | InvalidId
    | InvalidValue
    | EmptyCollection
    | LimitExceeded
    | SizeOverflow

  /** Texts crossing the boundary, by themselves or inside typed values. */
  const MAXIMUM_SAFE_STRING_BYTES: nat := 262144
}
