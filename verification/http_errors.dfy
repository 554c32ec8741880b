/** The errors the handler throws and catches (`HttpError`, `api/store.js`), and
    how its catch turns any thrown error into a status code and a message. */
module HttpErrors {
  import opened Wrappers

  /** A thrown error as the catch sees it. `statusCode` is `None` when the error
      has no such property; `message` and `stack` are `""` when absent or empty,
      both of which JavaScript treats as false; `text` is what `String(err)`
      renders. */
  datatype Error = Error(statusCode: Option<int>, message: string, stack: string, text: string)

  /** `new HttpError(statusCode, message)`: an `Error` carrying a status code.
      Only the first line of its stack trace is modelled. */
  function HttpError(statusCode: int, message: string): (e: Error)
    ensures e.statusCode == Some(statusCode) && e.message == message
    ensures message != "" ==> e.text != "" && e.stack != ""
  {
    Error(Some(statusCode), message, "Error: " + message, "Error: " + message)
  }

  /** `err.statusCode || 500`: a missing or zero status code becomes 500. */
  function StatusOf(err: Error): (code: int)
    ensures code != 0
    ensures code == 500 <==> err.statusCode.None? || err.statusCode.value in {0, 500}
    ensures code != 500 ==> err.statusCode == Some(code)
  {
    match err.statusCode
    case Some(c) => if c != 0 then c else 500
    case None => 500
  }

  /** `err.message || err.stack || String(err)`: the first non-empty of the
      three, falling back to the rendering. */
  function MessageOf(err: Error): (m: string)
    ensures m in [err.message, err.stack, err.text]
    ensures err.message != "" ==> m == err.message
    ensures err.message == "" && err.stack != "" ==> m == err.stack
    ensures m == "" ==> err.message == "" && err.stack == "" && err.text == ""
  {
    if err.message != "" then err.message
    else if err.stack != "" then err.stack
    else err.text
  }
}
