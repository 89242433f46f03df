/** What a controller hands back to the web layer besides a view name. */
module Web {
  import opened Wrappers

  /** A flash attribute set on a redirect: errorMessage or successMessage. */
  datatype Flash = ErrorFlash(message: string) | SuccessFlash(message: string)

  /** An HTTP status and an optional body (a ResponseEntity). */
  datatype Response<T> = Response(status: int, body: Option<T>)
}
