/** Machine integers, byte strings and the option and result types every other module uses. */
module Base {
  const TWO_64: nat := 0x1_0000_0000_0000_0000
  const TWO_63: nat := 0x8000_0000_0000_0000

  newtype byte = x: int | 0 <= x < 0x100
  type Bytes = seq<byte>
  type uint64 = x: int | 0 <= x < TWO_64

  /** Go's `uint64` addition, which wraps around. */
  function AddU64(x: int, y: int): uint64 {
    (x + y) % TWO_64
  }

  /** Go's `uint64` subtraction, which wraps around. */
  function SubU64(x: int, y: int): uint64 {
    (x - y) % TWO_64
  }

  datatype Option<+T> = None | Some(value: T)

  datatype Result<+T, +E> = Ok(value: T) | Err(error: E)

  lemma FirstIn<T>(s: seq<T>)
    ensures s == [] || s[0] in s
  {
  }
}
