/** Small definitions shared by the models. */
module Common {

  datatype Option<+T> = None | Some(value: T)

  type Byte = b: nat | b < 256

  function Min(x: nat, y: nat): nat { if x < y then x else y }
}
