/**
 * The editor's default error policy. A failing check reports a key naming
 * the check and a message; the policy either lets the caller go on with
 * `undefined` or throws an error carrying the message.
 */
module OnErrors {
  import opened Wrappers

  /**
   * What a failing check reports. The `data` object of a report plays no
   * part in the default policy and is not modelled.
   */
  datatype ErrorContext = ErrorContext(key: string, message: string)

  /** `onError`: the key `node` goes on with `undefined`; every other key throws. */
  function OnError(context: ErrorContext): (r: Outcome)
    ensures r.Done? <==> context.key == "node"
    ensures r.Failed? ==> r.message == context.message
  {
    if context.key == "node" then Done else Failed(context.message)
  }

  /**
   * A query that reports an error: its answer is `undefined` when the
   * policy goes on, and the thrown error otherwise.
   */
  function Report<T>(key: string, message: string): (r: Result<Option<T>>)
    ensures r == Ok(None) <==> key == "node"
    ensures r.Thrown? <==> key != "node"
    ensures r.Thrown? ==> r.message == message
  {
    match OnError(ErrorContext(key, message))
    case Done => Ok(None)
    case Failed(m) => Thrown(m)
  }
}
