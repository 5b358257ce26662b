/** The outcome of a codec call: a value, or the message of the ValueError the
    source raises. */
module Results {
  datatype Result<T> = Ok(value: T) | Err(message: string)

  /** The text of the error raised when the image reader returns nothing. */
  const NotFound: string := "Image not found. Check the path."

  /** The text of the error raised when the frame exceeds the sample count. */
  const TooLong: string := "Message is too long to fit in the image."
}
