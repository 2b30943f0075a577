/** The optional-value type used where the dashboards return Python's None. */
module Wrappers {

  datatype Option<+T> = None | Some(value: T)
}
