/** Outcome types shared by the reader, the carver and the diff engine. */
module Wrappers {

  datatype Option<+T> = None | Some(value: T)

  /** The error kinds of `winreg_core::error::HiveError` that the modelled code returns.
      `EndlessIndex` has no counterpart there: it stands for an `ri` list that contains itself,
      on which the source never returns. */
  datatype HiveError =
    | TruncatedHive
    | InvalidSignature
    | ChecksumMismatch(expected: nat, computed: nat)
    | UnsupportedVersion(minor: nat)
    | InvalidHbin(fileOffset: nat)
    | NullOffset
    | CellOverflow(offset: nat)
    | UnallocatedCell(offset: nat)
    | InvalidCellSignature(offset: nat)
    | SlicePanic(offset: nat)
    | EndlessIndex

  datatype Result<+T> = Ok(value: T) | Err(error: HiveError) {
    predicate IsFailure() { Err? }

    function PropagateFailure<U>(): (r: Result<U>)
      requires Err?
    {
      Err(error)
    }

    function Extract(): T
      requires Ok?
    {
      value
    }

    function GetOr(default: T): T {
      if Ok? then value else default
    }
  }
}
