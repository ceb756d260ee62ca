/** The two failure-carrying shapes the blog's service code returns: Python's
    `Optional[...]` and "a value or a raised exception". */
module Results {

  datatype Option<+T> = None | Some(value: T)

  datatype Result<+T, +E> = Ok(value: T) | Err(error: E)
}
