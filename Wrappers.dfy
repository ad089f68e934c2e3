/** Small value types shared by every module: C# `null` as Option, and the
    exceptions the repositories can throw, as an explicit outcome. */
module Wrappers {

  /** A nullable reference: `None` stands for C#'s `null`. */
  datatype Option<+T> = None | Some(value: T)

  /** The exceptions the modelled code can raise. */
  datatype Exception =
    | ArgumentNullException    // ActorRepository.Put on an empty list
    | NullReferenceException   // a member access through a null reference

  /** How a `void` method ended: normally, or by throwing. */
  datatype Outcome = Completed | Threw(exception: Exception)
}
