/** The optional value used for the generator's "message or nothing" results. */
module Wrappers {

  /** `None` stands for JavaScript's `null` ("input accepted"); `Some(m)` carries
      the message a validator hands back to the input box. */
  datatype Option<+T> = None | Some(value: T)
}
