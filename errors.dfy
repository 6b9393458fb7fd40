/** The exceptions the reader, the grouping and the assembler raise, one constructor per cause. */
module Errors {

  datatype Error =
    | StructError                  // struct.unpack: the header line is not 100 bytes
    | NumberFormat(field: string)  // float()/int() rejected a trimmed header field
    | ZeroDivision                 // number_of_points == 1 makes the grid step divide by zero
    | ArangeFailure                // np.arange itself refused its arguments
    | GridSizeMismatch(size: nat, expected: int)
    | PayloadNumberFormat          // float() rejected a payload token
    | IncompleteRecord             // end of input inside a payload
    | NoRecords                    // grids[0] or dataset[0][0] on an empty collection
    | EmptyInterpolationGrid       // np.interp with an empty sample grid
    | ShapeMismatch                // the records do not fill the pressure x temperature grid
    | BlankMoleculeName            // split()[0] of a blank molecule name
}
