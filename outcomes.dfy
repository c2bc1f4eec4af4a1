/** How a call of the tree ends: it returns a value, throws one of the source's exceptions,
    or never returns (the descent loop that makes no progress). */
module Outcomes {

  datatype Exception = ArgumentException | NotImplementedException

  datatype Outcome<+R> = Return(value: R) | Throw(exception: Exception) | Hang
}
