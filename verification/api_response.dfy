/** The uniform response envelope `ApiResponse<T>(message, httpStatus, data)`. */
module Envelope {
  import opened Common

  datatype ApiResponse<T> = ApiResponse(message: string, httpStatus: int, data: Option<T>)

  const OK: int := 200

  /** success(message, data). */
  function Success<T>(message: string, data: T): (r: ApiResponse<T>)
    ensures r.httpStatus == OK && r.message == message && r.data == Some(data)
  {
    ApiResponse(message, OK, Some(data))
  }

  /** success(message): no payload. */
  function SuccessEmpty<T>(message: string): (r: ApiResponse<T>)
    ensures r.httpStatus == OK && r.message == message && r.data.None?
  {
    ApiResponse(message, OK, None)
  }

  /** error(message, status): no payload, the given status. */
  function Error<T>(message: string, status: int): (r: ApiResponse<T>)
    ensures r.httpStatus == status && r.message == message && r.data.None?
  {
    ApiResponse(message, status, None)
  }
}
