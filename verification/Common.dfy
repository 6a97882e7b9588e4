/** What several components share. */
module Common {
  datatype Option<T> = None | Some(value: T)

  /** The size of the 32-bit number space. */
  const WORD: nat := 0x1_0000_0000

  /** A sum of two 32-bit numbers as the 32-bit type holds it. */
  function Wrap(a: nat): nat
    requires a < 2 * WORD
  {
    if a < WORD then a else a - WORD
  }

  function Least(a: nat, b: nat): nat {
    if a < b then a else b
  }
}
