/** The optional value used where a Python lookup can miss (`dict.get`, `re.match`). */
module Wrappers {
  datatype Option<+T> = None | Some(value: T)
}
