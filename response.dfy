/** The JSON envelope every endpoint answers with (utils/response.js). */
module Response {
  import opened Optional
  import opened Json

  /**
   * An HTTP status with the body `{success, message, data?, stack?}`; an
   * absent optional field is a key the body does not have.
   */
  datatype Envelope = Envelope(
    status: int,
    success: bool,
    message: string,
    data: Option<Value>,
    stack: Option<string>)

  const DefaultSuccessStatus := 200
  const DefaultErrorStatus := 400

  /**
   * `success(res, message, data, statusCode)`: a successful envelope; `data`
   * is attached only when it is truthy, and the status defaults to 200 when
   * the argument is left out.
   */
  function Success(message: string, data: Value, statusCode: Option<int>): (e: Envelope)
    ensures e.success && e.message == message && e.stack == None
    ensures statusCode == None ==> e.status == 200
    ensures statusCode != None ==> e.status == statusCode.value
    ensures e.data != None <==> Truthy(data)
    ensures e.data != None ==> e.data.value == data
  {
    Envelope(statusCode.GetOr(DefaultSuccessStatus), true, message,
      if Truthy(data) then Some(data) else None, None)
  }

  /**
   * `error(res, message, statusCode)`: a failed envelope without data; the
   * status defaults to 400 when the argument is left out.
   */
  function Error(message: string, statusCode: Option<int>): (e: Envelope)
    ensures !e.success && e.message == message && e.data == None && e.stack == None
    ensures statusCode == None ==> e.status == 400
    ensures statusCode != None ==> e.status == statusCode.value
  {
    Envelope(statusCode.GetOr(DefaultErrorStatus), false, message, None, None)
  }
}
