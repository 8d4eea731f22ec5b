/** Optional values: nullable columns, absent rows and refused requests. */
module Options {

  datatype Option<+T> = None | Some(value: T)

}
