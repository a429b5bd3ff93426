/** Optional values: a gene's missing `"uniprot"` annotation, a failed lookup. */
module Wrappers {

  datatype Option<+T> = None | Some(value: T)
}
