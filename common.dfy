/** The optional value used for SQL rows that may be missing and for JSON fields that may be null. */
module Options {
  datatype Option<T> = None | Some(value: T)
}

/** The JSON responses the three handlers send, as (status, body) pairs. */
module Wire {
  import opened Options

  /** The public projection of a user row: never the password hash. */
  datatype PublicUser = PublicUser(id: int, username: string, email: string)

  /** A stored date, as the document store keeps it (milliseconds since the epoch). */
  datatype Date = Date(epochMillis: int)

  /** The three optional fields of a profile document; None is a stored `null`. */
  datatype Profile = Profile(age: Option<int>, dob: Option<Date>, contact: Option<string>)

  /** An error thrown by a store, as far as a response can show it. */
  datatype StoreError = StoreError(message: string, code: Option<string>)

  datatype Body =
    | Message(message: string)
    | ErrorReport(message: string, error: string, code: Option<string>)
    | Session(token: string, user: PublicUser)
    | Account(user: PublicUser, profile: Option<Profile>)
    | ProfileFields(fields: Profile)

  datatype Response = Response(status: int, body: Body)

  const UsernameTaken := "Username already exists"
  const EmailTaken := "Email already exists"
  const RegistrationFailed := "Server error during registration"
  const InvalidCredentials := "Invalid credentials"
  const LoginFailed := "Server error during login"
  const UserNotFound := "User not found"
  const FetchFailed := "Failed to fetch profile"
  const UpdateFailed := "Failed to update profile"
}
