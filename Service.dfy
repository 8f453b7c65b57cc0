/**
 * What the facades see of the remote services: HTTP status codes, the faults
 * the vendor SDK raises, and the exceptions the facades themselves throw.
 */
module Service {
  import opened Wrappers

  /** `HttpStatusCode.OK`. */
  const HttpOk: nat := 200

  /** A failure raised by the vendor SDK while talking to a service. */
  datatype RemoteFault =
    | AmazonS3Exception(errorCode: Option<string>, message: string)
    | MessageRejectedException(message: string)
    | OtherServiceException(message: string)

  /** What a facade operation throws instead of returning. */
  datatype Exception =
    | InvalidOperationException(message: string)   // raised locally, before any remote call
    | GeneralException(message: string)            // `new Exception(message)` built by the facade
    | Remote(fault: RemoteFault)                   // an SDK fault passed on unchanged

  /** How a service answers one call: a value (a status code, a list), or a fault. */
  datatype ServiceReply<T> = Answered(value: T) | Raised(fault: RemoteFault)
}
