/**
 * The three tables' column limits, keys and references, stated as
 * predicates over their rows. Rows are kept in id order; ids come from a
 * counter that only grows, as a serial column's do.
 */
module Schema {
  import opened Models

  const USERNAME_LENGTH := 50
  const MASTER_PASSWORD_LENGTH := 255
  const RESOURCE_NAME_LENGTH := 255
  const ENTRY_USERNAME_LENGTH := 255
  const ENCRYPTED_PASSWORD_LENGTH := 1000
  const DEFAULT_AUTO_LOGOUT_MINUTES := 15

  function UserIds(users: seq<User>): set<int> {
    set u | u in users :: u.id
  }

  function SettingsOwners(settings: seq<UserSettings>): set<int> {
    set s | s in settings :: s.userId
  }

  /** The varchar limits of a password entry's resource name, username and ciphertext. */
  predicate EntryFits(resourceName: string, username: string, password: string) {
    && |resourceName| <= RESOURCE_NAME_LENGTH
    && |username| <= ENTRY_USERNAME_LENGTH
    && |password| <= ENCRYPTED_PASSWORD_LENGTH
  }

  /** Users: serial ids, unique usernames of at most 50 characters, hashes of at most 255. */
  ghost predicate UsersTable(users: seq<User>, nextId: int) {
    && (forall i, j :: 0 <= i < j < |users| ==> users[i].id < users[j].id)
    && (forall i, j :: 0 <= i < j < |users| ==> users[i].username != users[j].username)
    && (forall u :: u in users ==>
          u.id < nextId && |u.username| <= USERNAME_LENGTH && |u.masterPassword| <= MASTER_PASSWORD_LENGTH)
  }

  ghost predicate EntryIdsIncreasing(entries: seq<PasswordEntry>) {
    forall i, j :: 0 <= i < j < |entries| ==> entries[i].id < entries[j].id
  }

  /** PasswordEntries: serial ids, every owner an existing user, every value within its column. */
  ghost predicate EntriesTable(entries: seq<PasswordEntry>, nextId: int, userIds: set<int>) {
    && EntryIdsIncreasing(entries)
    && (forall e :: e in entries ==>
          e.id < nextId && e.userId in userIds && EntryFits(e.resourceName, e.username, e.password))
  }

  /** UserSettings: serial ids, at most one row per user, and exactly the existing users have one. */
  ghost predicate SettingsTable(settings: seq<UserSettings>, nextId: int, userIds: set<int>) {
    && (forall i, j :: 0 <= i < j < |settings| ==> settings[i].id < settings[j].id)
    && (forall i, j :: 0 <= i < j < |settings| ==> settings[i].userId != settings[j].userId)
    && (forall s :: s in settings ==> s.id < nextId)
    && SettingsOwners(settings) == userIds
  }
}
