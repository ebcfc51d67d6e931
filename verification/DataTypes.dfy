/** The data type numbers of the access layer, and optional values. */
module DataTypes {

  datatype Option<+T> = None | Some(value: T)

  const CHAR_DATA := 50
  const INTEGER_DATA := 51
  const DOUBLE_DATA := 52
  const COMPLEX_DATA := 53

  /** Bytes of one value. */
  function ItemSize(typ: int): (n: nat) {
    if typ == CHAR_DATA then 1 else if typ == INTEGER_DATA then 4
    else if typ == DOUBLE_DATA then 8 else if typ == COMPLEX_DATA then 16 else 0
  }
}
