/** The optional value used wherever a foreign call of the program may raise
    instead of returning: `None` stands for "an exception was raised". */
module Wrappers {

  datatype Option<+T> = None | Some(value: T)

}
