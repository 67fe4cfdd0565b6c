/** Nullable values: a Spark column that may hold SQL NULL, or a Python
    function that may return None. */
module Options {

  datatype Option<+T> = None | Some(value: T)
}
