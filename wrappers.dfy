/** The optional value used throughout the model for Java's null and for
    operations that can fail (a parse that throws, a stream that ends). */
module Wrappers {

  datatype Option<+T> = None | Some(value: T)
}
