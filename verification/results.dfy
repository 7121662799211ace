/** Optional values and outcomes that carry either a value or an error
    message, for the places where the program uses `null`/`undefined` or a
    rejected promise. */
module Results {

  datatype Option<+T> = None | Some(value: T)

  datatype Result<+T> = Ok(value: T) | Err(message: string)
}
