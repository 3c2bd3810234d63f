/** Optional values and raised exceptions: the model's stand-ins for Python's `None` and `raise`. */
module Wrappers {

  datatype Option<+T> = None | Some(value: T)

  /** The Python exceptions the modelled code can raise. */
  datatype PyError = ValueError | KeyError | IndexError

  /** What a Python call does: return a value or raise. */
  datatype Outcome<+T> = Returns(value: T) | Raises(error: PyError)
}
