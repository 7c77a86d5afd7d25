/** Values shared by every part of the client model: bytes, optional values,
    results, and the errors the client's operations throw. */
module Common {

  /** One octet of an HTTP body (Swift's `UInt8`, the element of `Data`). */
  newtype byte = b: int | 0 <= b < 256

  datatype Option<+T> = None | Some(value: T)

  datatype Result<+R, +E> = Success(value: R) | Failure(error: E)

  /** The payload the generated client hands back with a status code it has
      no case for; its rendering into the error message is not modelled. */
  datatype UndocumentedPayload = UndocumentedPayload(body: seq<byte>)

  /** An error raised by the live byte source of a streamed response. */
  datatype SourceError = SourceError(description: string)

  /** The errors the modelled paths throw, one case for each kind. The source
      throws plain strings or `URLError`s; sites that throw the same message
      share a case. */
  datatype ClientError =
    | BadServerResponse                      // URLError(.badServerResponse) before streaming
    | InvalidStatusCode(code: int)           // "Invalid Status Code <code>", -1 when no HTTP response
    | InvalidFormat                          // transcription body is not UTF-8
    | NoResponse                             // "No Response": no first choice with content
    | Undocumented(statusCode: int, payload: UndocumentedPayload)  // "OpenAIClientError - statuscode: ..."
}
