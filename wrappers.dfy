/** Optional values: a missing document, a call that threw, a search that found nothing. */
module Wrappers {

  datatype Option<+T> = None | Some(value: T) {

    /** The value as a sequence of zero or one elements. */
    function ToSeq(): seq<T> {
      match this
      case Some(v) => [v]
      case None => []
    }
  }
}
