/**
 * The numeric routines the core calls but does not define: Python's float() and int()
 * on trimmed text, numpy's arange, and numpy's isclose. They are parameters of the model,
 * so every property proved here holds whatever these routines do.
 */
module Numerics {
  import opened Wrappers

  datatype NumericOps = NumericOps(
    toFloat: string -> Option<real>,                 // float(text); None where Python raises ValueError
    toInt: string -> Option<int>,                    // int(text); None where Python raises ValueError
    arange: (real, real, real) -> Option<seq<real>>, // np.arange(start, stop, step); None where numpy raises
    close: (real, real) -> bool                      // np.isclose(a, b) with numpy's default tolerances
  )
}
