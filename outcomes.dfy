/** Optional values and the one runtime error the segmenter can raise. */
module Outcomes {

  datatype Option<T> = None | Some(value: T)

  /**
   * A value, or Ruby's NameError from `const_defined?` when the name built
   * from the language code is not a valid constant name.
   */
  datatype Result<T> = Ok(value: T) | WrongConstantName(name: string)
}
