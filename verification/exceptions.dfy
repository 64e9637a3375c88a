/** The exceptions the modelled code can raise. */
module Exceptions {

  datatype Exception =
    | ArgumentNull(param: string)  // ArgumentNullException, naming the parameter
    | Argument(param: string)      // ArgumentException, naming the parameter
    | DuplicateKey                 // ArgumentException from KeyedCollection.Add on a key already present
    | InvalidOperation             // Stack<T>.Pop on an empty stack
    | DivideByZero                 // integer division by zero
    | Overflow                     // Convert.ToInt32 on a number outside the 32-bit range
    | Format                       // Convert.ToInt32 on text that is not a number
    | KeyNotFound                  // Dictionary lookup of a token type that has no operator
}
