/** The terminal error-handling middleware (middleware/errorHandler.js). */
module ErrorHandler {
  import opened Optional
  import opened Response

  /**
   * What the handler reads of a thrown error: `statusCode` and `message`
   * may be missing; `stack` is the trace every Error object carries.
   */
  datatype Thrown = Thrown(statusCode: Option<int>, message: Option<string>, stack: string)

  const DevelopmentEnv := "development"
  const DefaultMessage := "Internal Server Error"

  /**
   * The response for an uncaught error: the error's own status and message
   * when they are truthy, else 500 and "Internal Server Error"; the stack is
   * included only when NODE_ENV is "development".
   */
  function HandleError(err: Thrown, nodeEnv: Option<string>): (e: Envelope)
    ensures !e.success && e.data == None
    ensures e.status == if err.statusCode != None && err.statusCode.value != 0
                        then err.statusCode.value else 500
    ensures e.message == if err.message != None && err.message.value != ""
                         then err.message.value else DefaultMessage
    ensures e.stack != None <==> nodeEnv == Some(DevelopmentEnv)
    ensures e.stack != None ==> e.stack.value == err.stack
  {
    var status := if err.statusCode != None && err.statusCode.value != 0 then err.statusCode.value else 500;
    var message := if err.message != None && err.message.value != "" then err.message.value else DefaultMessage;
    Envelope(status, false, message,
      None, if nodeEnv == Some(DevelopmentEnv) then Some(err.stack) else None)
  }
}
