/**
 * Values shared by every part of the model: optional values, fallible
 * results carrying an error chain, and the opaque numbers the tree library
 * produces.
 */
module Base {

  datatype Option<+T> = None | Some(value: T)

  /** `anyhow::Result`: a value, or an error chain. Usable with `:-`. */
  datatype Result<+T> = Ok(value: T) | Err(error: Error) {
    predicate IsFailure() { Err? }

    function PropagateFailure<U>(): Result<U>
      requires Err?
    {
      Err(error)
    }

    function Extract(): T
      requires Ok?
    {
      value
    }
  }

  /**
   * An `anyhow::Error`. `Foreign` is an error raised by the tree library or
   * by the operating system; `Message` is an error built from a message
   * alone (`Option::context`); `Context` wraps an underlying error with a
   * message (`Result::context`).
   */
  datatype Error =
    | Foreign(message: string)
    | Message(text: string)
    | Context(text: string, cause: Error)

  /** What `{}` prints for an `anyhow::Error`: its outermost message only. */
  function Display(e: Error): string
  {
    match e
    case Foreign(m) => m
    case Message(t) => t
    case Context(t, _) => t
  }

  /** `option.context(msg)`: a missing value becomes an error carrying `msg`. */
  function OptionContext<T>(o: Option<T>, msg: string): Result<T>
  {
    match o
    case Some(v) => Ok(v)
    case None => Err(Message(msg))
  }

  /**
   * A floating-point number computed by the tree library, carried as the
   * text its `Display` implementation prints. No arithmetic is modelled;
   * the text is never empty and never contains a comma.
   */
  type Num = s: string | s != [] && ',' !in s witness "0"
}
