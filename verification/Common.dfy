/** Types that several modules share. */
module Common {

  type Byte = b: int | 0 <= b < 256

  /** The number in two bytes, the higher first. */
  ghost function Word16(m: seq<Byte>, p: nat): nat
    requires p + 1 < |m|
  {
    var high: int := m[p];
    256 * high + m[p + 1]
  }

  datatype Option<+T> = None | Some(value: T)
}
