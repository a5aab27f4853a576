/** Small definitions shared by the subset-sum search and the money format. */
module Basics {

  datatype Option<T> = None | Some(value: T)

  function Abs(x: int): nat { if x < 0 then -x else x }
}
