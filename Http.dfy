/** What an ASP.NET Core action returns, reduced to the status, and the
    payload of a 200 or a 201. The payloads of 400 and 404 (the id, the
    id list or the model state) are not kept. */
module Http {

  /** `Ok(value)` (200), `Created(location, value)` (201), `BadRequest`
      (400), `NotFound` (404), and the 500 that `ExceptionHandlerMiddleware`
      makes of an exception escaping the action. */
  datatype ActionResult<T> =
    | Ok(value: T)
    | Created(location: string, value: T)
    | BadRequest
    | NotFound
    | InternalServerError
}
