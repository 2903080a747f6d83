/** Optional values and error-carrying results shared by the cache and rate-limiter models.
    `None` stands for JavaScript's `null` / `undefined`; `Err` stands for a thrown `Error`. */
module Results {

  datatype Option<+T> = None | Some(value: T)

  datatype Result<+T, +E> = Ok(value: T) | Err(error: E)
}
