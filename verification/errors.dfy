/** The exceptions the comparison can raise, as values: each operation that may raise
    returns a `Result` carrying one of these. */
module Errors {

  /** One raised exception, named after its cause. */
  datatype Error =
    | UnsupportedFormat              // input_type is not csv, dict_list or tuple_list
    | EmptyInput                     // the list of rows is empty
    | KeyNotFound                    // a primary-key field is not among the header fields
    | MissingKeyField(field: string) // KeyError: a later row lacks a primary-key field
    | IndexOutOfRange                // IndexError while reading the tuple list
    | WrongShape                     // the input is not of the declared format
    | RightFieldMissing              // KeyError: a right row lacks a field of the left row
    | UnboundLabel                   // UnboundLocalError on the report labels
}
