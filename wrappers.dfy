/** Option and Result values, and the ways the codec can fail. */
module Wrappers {

  datatype Option<+T> = None | Some(value: T)

  /** Each error stands for the exception the Python code raises at that point,
      for trees shallow enough to stay within Python's recursion limit. */
  datatype Error =
    | EmptyInput        // `nodes[0]` on an empty node list: compressing zero symbols
    | TruncatedHeader   // `data[0]` on an exhausted bit list: mode bit or tree cut short
    | EmptyPaddingField // `int("", 2)`: no bits left for the padding count

  datatype Result<+T> = Ok(value: T) | Err(error: Error)
}
