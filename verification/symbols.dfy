/**
 Fresh symbols of the constraint generators.

 A generator never reuses a name: every symbol it introduces carries the value
 of the session's counter at the time it was made, and the counter only grows.
 The kind and the hint only make the symbol's name readable.
 */
module Symbols {

  /** The role a fresh symbol is created for. */
  datatype Kind =
    | BooleanFlag     // result flags of the Boolean predicates
    | UnivIndex       // bound variables of universal constraints
    | ExistIndex      // witnesses and start positions
    | ResultValue     // integer results (code points, counts, offsets)
    | StringValue     // strings built by a generator
    | WitnessFamily   // the per-start-position witness of a not-contains constraint

  /** A symbol: its identity is the counter value `id` it was created with. */
  datatype Sym = Sym(kind: Kind, hint: string, id: nat)
}
