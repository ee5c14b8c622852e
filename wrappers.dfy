/** Optional values: a raster sample is `Some(v)` where the pixel holds data and
    `None` where it is masked ("no data"). */
module Wrappers {

  datatype Option<+T> = None | Some(value: T)
}
