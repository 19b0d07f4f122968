/** Small helper types shared by every module of the model. */
module Common {

  /** A Java or C# reference that may be null. */
  datatype Option<+T> = None | Some(value: T)

  /** The result of an operation that may throw: `Err` carries the exception. */
  datatype Result<+T, +E> = Ok(value: T) | Err(error: E)

  /** A position or velocity vector (`helperclasses.datastructures.Vec3`), compared only by equality. */
  type Vec3(==)

  /** Java `int`. */
  newtype int32 = x: int | -0x8000_0000 <= x < 0x8000_0000

  /** `s.StartsWith(p)` with ordinal comparison. */
  predicate StartsWith(s: string, p: string)
  {
    |p| <= |s| && s[..|p|] == p
  }
}
