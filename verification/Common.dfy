/** Types shared by every part of the model. */
module Common {

  newtype byte = x: int | 0 <= x < 256

  type Bytes = seq<byte>

  const SLASH: byte := 47

  datatype Option<+T> = None | Some(value: T)

  datatype Result<+T, +E> = Ok(value: T) | Err(error: E)

  /** A catalog ref: `None` is "no such ref", which differs from an empty value. */
  type RefValue = Option<Bytes>

  /** `CasOutcome`: the swap was applied, or the value the store saw instead. */
  datatype CasOutcome = Updated | Conflict(actual: RefValue)
}
