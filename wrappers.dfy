/** Optional values: a spreadsheet cell that pandas reads as NaN, a settings cell that is empty. */
module Wrappers {

  datatype Option<+T> = None | Some(value: T)

}
