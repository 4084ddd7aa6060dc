/** Optional values, standing for the Java `null` that the modelled code returns
    or receives when there is nothing to report. */
module Wrappers {

  datatype Option<+T> = None | Some(value: T)
}
