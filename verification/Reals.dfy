/** Elementary real functions. Products that the solver need not expand are written with `Product`. */
module Reals {
  function Min(a: real, b: real): real {
    if b < a then b else a
  }

  function Max(a: real, b: real): real {
    if a < b then b else a
  }

  function Abs(a: real): real {
    if a < 0.0 then -a else a
  }

  function Product(a: real, b: real): real {
    a * b
  }
}
