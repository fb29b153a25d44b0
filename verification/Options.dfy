/** Optional values and errors, for the source's llvm::Optional and llvm::Expected. */
module Options {
  datatype Option<+T> = None | Some(value: T)

  datatype Result<+T, +E> = Ok(value: T) | Err(error: E)
}
