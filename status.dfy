/**
 * The failures the broker reports to a remote caller. rsbinder's `Status` is
 * built in two ways in the broker: from a bare `StatusCode` (`StatusCode::X.into()`)
 * and through `Status::new_service_specific_error(code, Some(message))`.
 */
module Status {

  /** The rsbinder status codes the broker raises directly. */
  datatype StatusCode = ServiceSpecific(n: int) | PermissionDenied

  datatype Error =
    | Code(status: StatusCode)
    | ServiceSpecificError(code: int, message: string)

  /** Cloning the descriptor or reading its metadata failed. */
  const Unidentified: Error := Code(ServiceSpecific(0))

  /** The anchor's file has none of its write permission bits set. */
  const Denied: Error := Code(PermissionDenied)

  /** `register` found the key already occupied. */
  const RegisterFailed: Error := ServiceSpecificError(1, "couldn't register object")

  /** `exchange` found the key vacant. */
  const NotFound: Error := ServiceSpecificError(0, "couldn't find object")
}
