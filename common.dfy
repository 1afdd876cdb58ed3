/** Small value types shared by every module of the model. */
module Common {

  /** An optional value: the C code's "NULL" / "absent" results. */
  datatype Option<+T> = None | Some(value: T)

  function Min(a: int, b: int): int { if a <= b then a else b }
}
