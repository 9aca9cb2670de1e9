/** What more than one module needs and none owns. */
module Basics {
  datatype Option<T> = None | Some(value: T)

  function Larger(a: nat, b: nat): nat {
    if a > b then a else b
  }
}
