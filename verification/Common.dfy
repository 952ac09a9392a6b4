/** Option and Result, shared by every module, and the archive's error cases. */
module Common {

  datatype Option<+T> = None | Some(value: T)

  datatype Result<+T, +E> = Ok(value: T) | Err(error: E)

  /** The archive errors the modelled operations can return (payloads dropped). */
  datatype ArchiveError =
    | InvalidPrevSideHash
    | NoAncestor
    | NoHeader
    | NoHeight
    | NoMainBlockHash
    | NoMainBlockInfo
    | NoMainHeaderInfo

  const U64_MAX: nat := 0xFFFF_FFFF_FFFF_FFFF

  ghost predicate Distinct<T>(s: seq<T>) {
    forall i, j | 0 <= i < j < |s| :: s[i] != s[j]
  }
}
