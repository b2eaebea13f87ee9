/** The optional value used throughout the model: `None` stands for an absent value
    (and, for numbers parsed from text, for JavaScript's `NaN`). */
module Wrappers {
  datatype Option<+T> = None | Some(value: T)
}
