/** Shared vocabulary: optional values, the error kinds the services raise,
    and the clock units every operation is given explicitly. */
module Common {

  datatype Option<+T> = None | Some(value: T)

  /** Every HTTP exception the modelled services raise, by message kind. */
  datatype Failure =
    | WrongCredentials      // 401 authenticate_wrong_user
    | EmailNotConfirmed     // 401 authentificate_email_not_confirmed
    | UsernameTaken         // 409 user_exists
    | EmailTaken            // 409 mail_exists
    | InvalidToken          // 401 invalid_token (signature, format or expiry)
    | TokenRevoked          // 401 revoked_token
    | CouldNotValidate      // 401 validate_credentials
    | InvalidRefreshToken   // 401 invalid_refresh_token
    | InsufficientRole      // 403 role_access_info
    | VerificationError     // 400 "Verification error"
    | ServerError           // 500: an exception nobody catches

  datatype Result<+T> = Ok(value: T) | Err(error: Failure)

  /** The HTTP status the framework answers with for each failure. */
  function Status(f: Failure): nat {
    match f
    case UsernameTaken | EmailTaken => 409
    case InsufficientRole => 403
    case VerificationError => 400
    case ServerError => 500
    case _ => 401
  }

  /** Instants are microseconds since the epoch, the resolution of the
      source's `datetime`. */
  type Instant = int

  const Second: int := 1_000_000
  const Minute: int := 60 * Second
  const Day: int := 86_400 * Second
}
