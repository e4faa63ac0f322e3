/** The records the service stores and exchanges, and the ways a request can fail. */
module Models {
  import opened Wrappers
  import opened KotlinInt

  /** A row of the Users table; `masterPassword` holds the bcrypt hash. Times are epoch milliseconds. */
  datatype User = User(id: int, username: string, masterPassword: string, createdAt: int)

  /** A row of the PasswordEntries table; `password` holds the ciphertext, never the plaintext. */
  datatype PasswordEntry = PasswordEntry(
    id: int,
    userId: int,
    resourceName: string,
    username: string,
    password: string,
    notes: Option<string>,
    createdAt: int,
    updatedAt: int)

  /** A row of the UserSettings table. */
  datatype UserSettings = UserSettings(id: int, userId: int, autoLogoutMinutes: Int32, updatedAt: int)

  datatype LoginRequest = LoginRequest(username: string, password: string)

  datatype RegisterRequest = RegisterRequest(username: string, masterPassword: string)

  /** Body of a create or update; `masterPassword` is received but never used. */
  datatype PasswordEntryRequest = PasswordEntryRequest(
    resourceName: string,
    username: string,
    password: string,
    masterPassword: string,
    notes: Option<string>)

  datatype SettingsUpdateRequest = SettingsUpdateRequest(autoLogoutMinutes: Int32)

  datatype ChangeMasterPasswordRequest = ChangeMasterPasswordRequest(oldMasterPassword: string, newMasterPassword: string)

  /**
   * Why a request fails: a bad path id, unknown or unowned row, rejected
   * credentials, a taken username, or a value the schema does not accept.
   */
  datatype Error = BadRequest | NotFound | Unauthorized | Conflict | ConstraintViolation
}
