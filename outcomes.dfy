/** Error results for the places where the annealing engine raises. */
module Outcomes {

  /** The exceptions the model keeps, by their Python names. */
  datatype Error =
    | IndexError          // `p[-1]` on an empty list
    | UnboundLocalError   // `current_energy` read before any loop pass assigned it

  datatype Result<+T> = Ok(value: T) | Err(error: Error)

  datatype Option<+T> = None | Some(value: T)
}
