/** The ways an operation of the library can end. */
module Outcomes {

  datatype Option<T> = None | Some(value: T)

  /** The Ruby exceptions the modelled code raises. */
  datatype Error =
    | ArgumentError   // "Invalid date: (y, m, d)" from Date.new
    | NameError       // alias_method or remove_instance_variable on something absent

  datatype Result<T> = Ok(value: T) | Err(error: Error)
}
