/** The one gate every NAND cell, helix and array in the repository is built from. */
module Gates {

  /** `nand(a, b)`, i.e. `not (a and b)`: false exactly when both inputs are true, which by
      De Morgan is "at least one input is false". */
  function Nand(a: bool, b: bool): (r: bool)
    ensures !r <==> a && b
    ensures r <==> !a || !b
  {
    !(a && b)
  }
}
