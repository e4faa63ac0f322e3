/**
 * The route handlers of the service, as methods of one in-memory vault
 * holding the Users, PasswordEntries and UserSettings tables. Every
 * /passwords, /settings and /change-master-password handler receives the
 * `userId` that the authentication gate (`Jwt.Authenticate`) extracted from
 * the caller's token; every instant the handler reads from the clock, and
 * the random bcrypt salt, are parameters.
 */
module Application {
  import opened Wrappers
  import opened KotlinInt
  import opened Models
  import opened Schema
  import opened Queries
  import opened Security
  import opened Jwt

  /** What create and update store: the request's password encrypted under itself; `masterPassword` is ignored. */
  function StoredValues(sec: Primitives, request: PasswordEntryRequest): EntryValues {
    EntryValues(request.resourceName, request.username, sec.encrypt(request.password, request.password), request.notes)
  }

  /** Two users with the same username are the same row. */
  lemma UsernameIdentifiesUser(users: seq<User>, nextId: int, u: User, v: User)
    requires UsersTable(users, nextId)
    requires u in users && v in users && u.username == v.username
    ensures u == v
  {
    var i :| 0 <= i < |users| && users[i] == u;
    var j :| 0 <= j < |users| && users[j] == v;
  }

  /** An update whose new values fit the columns keeps the entries table well formed. */
  lemma UpdateKeepsEntriesTable(
    rows: seq<PasswordEntry>, nextId: int, owners: set<int>, id: int, userId: int, v: EntryValues, updatedAt: int)
    requires EntriesTable(rows, nextId, owners)
    requires EntryFits(v.resourceName, v.username, v.password)
    ensures EntriesTable(UpdateEntry(rows, id, userId, v, updatedAt), nextId, owners)
  {
    var r := UpdateEntry(rows, id, userId, v, updatedAt);
    forall e | e in r
      ensures e.id < nextId && e.userId in owners && EntryFits(e.resourceName, e.username, e.password)
    {
      var i :| 0 <= i < |r| && r[i] == e;
      assert rows[i] in rows;
    }
  }

  /** Removing rows keeps the entries table well formed. */
  lemma DeleteKeepsEntriesTable(rows: seq<PasswordEntry>, nextId: int, owners: set<int>, id: int, userId: int)
    requires EntriesTable(rows, nextId, owners)
    ensures EntriesTable(DeleteEntry(rows, id, userId), nextId, owners)
  {
    DeleteKeepsIdsIncreasing(rows, id, userId);
  }

  /** Adding a user with a fresh id and unused name, and its settings row, keeps all three tables well formed. */
  lemma RegisterKeepsTables(
    users: seq<User>, entries: seq<PasswordEntry>, settings: seq<UserSettings>,
    nextUserId: int, nextEntryId: int, nextSettingsId: int, user: User, row: UserSettings)
    requires UsersTable(users, nextUserId)
    requires EntriesTable(entries, nextEntryId, UserIds(users))
    requires SettingsTable(settings, nextSettingsId, UserIds(users))
    requires user.id == nextUserId && row.id == nextSettingsId && row.userId == user.id
    requires forall u :: u in users ==> u.username != user.username
    requires |user.username| <= USERNAME_LENGTH && |user.masterPassword| <= MASTER_PASSWORD_LENGTH
    ensures UsersTable(users + [user], nextUserId + 1)
    ensures UserIds(users + [user]) == UserIds(users) + {user.id}
    ensures EntriesTable(entries, nextEntryId, UserIds(users + [user]))
    ensures SettingsTable(settings + [row], nextSettingsId + 1, UserIds(users + [user]))
  {
    assert UserIds(users + [user]) == UserIds(users) + {user.id};
    assert SettingsOwners(settings + [row]) == SettingsOwners(settings) + {user.id};
    forall s | s in settings ensures s.userId != user.id {
      assert s.userId in UserIds(users);
    }
  }

  /** Adding an entry with a fresh id, an existing owner and values that fit keeps the entries table well formed. */
  lemma CreateKeepsEntriesTable(entries: seq<PasswordEntry>, nextId: int, owners: set<int>, e: PasswordEntry)
    requires EntriesTable(entries, nextId, owners)
    requires e.id == nextId && e.userId in owners && EntryFits(e.resourceName, e.username, e.password)
    ensures EntriesTable(entries + [e], nextId + 1, owners)
  {
  }

  /** Replacing a hash by one that fits its column keeps the users table well formed, with the same ids. */
  lemma SetMasterPasswordKeepsUsersTable(users: seq<User>, nextId: int, id: int, hash: string)
    requires UsersTable(users, nextId)
    requires |hash| <= MASTER_PASSWORD_LENGTH
    ensures UsersTable(SetMasterPassword(users, id, hash), nextId)
    ensures UserIds(SetMasterPassword(users, id, hash)) == UserIds(users)
  {
    var updated := SetMasterPassword(users, id, hash);
    forall x | x in UserIds(users) ensures x in UserIds(updated) {
      var i :| 0 <= i < |users| && users[i].id == x;
      assert updated[i].id == x;
    }
    forall u | u in updated ensures u.id < nextId && |u.username| <= USERNAME_LENGTH && |u.masterPassword| <= MASTER_PASSWORD_LENGTH {
      var i :| 0 <= i < |updated| && updated[i] == u;
      assert users[i] in users;
    }
  }

  /** Changing auto-logout minutes keeps the settings table well formed. */
  lemma SetAutoLogoutKeepsSettingsTable(
    settings: seq<UserSettings>, nextId: int, owners: set<int>, userId: int, minutes: Int32, updatedAt: int)
    requires SettingsTable(settings, nextId, owners)
    ensures SettingsTable(SetAutoLogout(settings, userId, minutes, updatedAt), nextId, owners)
  {
    var updated := SetAutoLogout(settings, userId, minutes, updatedAt);
    forall x | x in SettingsOwners(settings) ensures x in SettingsOwners(updated) {
      var i :| 0 <= i < |settings| && settings[i].userId == x;
      assert updated[i].userId == x;
    }
    forall s | s in updated ensures s.id < nextId {
      var i :| 0 <= i < |updated| && updated[i] == s;
      assert settings[i] in settings;
    }
  }

  class Vault {
    const sec: Primitives
    const jwt: JwtConfig
    const sign: Signer

    var users: seq<User>
    var entries: seq<PasswordEntry>
    var settings: seq<UserSettings>
    var nextUserId: int
    var nextEntryId: int
    var nextSettingsId: int

    /** The schema's constraints, and the facts about the cryptographic primitives. */
    ghost predicate Valid()
      reads this
    {
      && Axioms(sec)
      && UsersTable(users, nextUserId)
      && EntriesTable(entries, nextEntryId, UserIds(users))
      && SettingsTable(settings, nextSettingsId, UserIds(users))
    }

    constructor (sec: Primitives, jwt: JwtConfig, sign: Signer)
      requires Axioms(sec)
      ensures Valid()
      ensures this.sec == sec && this.jwt == jwt && this.sign == sign
      ensures users == [] && entries == [] && settings == []
      ensures nextUserId == 1 && nextEntryId == 1 && nextSettingsId == 1
    {
      this.sec, this.jwt, this.sign := sec, jwt, sign;
      users, entries, settings := [], [], [];
      nextUserId, nextEntryId, nextSettingsId := 1, 1, 1;
    }

    /**
     * POST /register: a taken username is a conflict; otherwise one user row
     * holding the bcrypt hash and one settings row of 15 minutes are added.
     */
    method Register(request: RegisterRequest, salt: string, createdAt: int, settingsUpdatedAt: int)
      returns (r: Result<int, Error>)
      requires Valid()
      modifies this
      ensures Valid()
      ensures var taken := exists u :: u in old(users) && u.username == request.username;
        && (taken ==> r == Err(Conflict))
        && (!taken && |request.username| > USERNAME_LENGTH ==> r == Err(ConstraintViolation))
        && (r.Ok? <==> !taken && |request.username| <= USERNAME_LENGTH)
      ensures r.Err? ==> unchanged(this)
      ensures r.Ok? ==>
        && r.value == old(nextUserId) && r.value !in UserIds(old(users))
        && nextUserId == old(nextUserId) + 1 && nextSettingsId == old(nextSettingsId) + 1
        && users == old(users) + [User(r.value, request.username, sec.hash(request.masterPassword, salt), createdAt)]
        && settings == old(settings)
             + [UserSettings(old(nextSettingsId), r.value, DEFAULT_AUTO_LOGOUT_MINUTES, settingsUpdatedAt)]
        && sec.verify(request.masterPassword, users[|users| - 1].masterPassword)
      ensures entries == old(entries) && nextEntryId == old(nextEntryId)
    {
      if FindUserByName(users, request.username).Some? {
        return Err(Conflict);
      }
      var hashed := sec.hash(request.masterPassword, salt);
      if |request.username| > USERNAME_LENGTH {
        return Err(ConstraintViolation);
      }
      var userId := nextUserId;
      var user := User(userId, request.username, hashed, createdAt);
      InsertUser(user, UserSettings(nextSettingsId, userId, DEFAULT_AUTO_LOGOUT_MINUTES, settingsUpdatedAt));
      r := Ok(userId);
    }

    /** The two inserts of a registration: the user row, then its settings row, each under the next serial id. */
    method InsertUser(user: User, row: UserSettings)
      requires Valid()
      requires user.id == nextUserId && row.id == nextSettingsId && row.userId == user.id
      requires forall u :: u in users ==> u.username != user.username
      requires |user.username| <= USERNAME_LENGTH && |user.masterPassword| <= MASTER_PASSWORD_LENGTH
      modifies this
      ensures Valid()
      ensures users == old(users) + [user] && settings == old(settings) + [row]
      ensures nextUserId == old(nextUserId) + 1 && nextSettingsId == old(nextSettingsId) + 1
      ensures entries == old(entries) && nextEntryId == old(nextEntryId)
    {
      RegisterKeepsTables(users, entries, settings, nextUserId, nextEntryId, nextSettingsId, user, row);
      users := users + [user];
      nextUserId := nextUserId + 1;
      settings := settings + [row];
      nextSettingsId := nextSettingsId + 1;
    }

    /**
     * POST /login: a token for the user with that username, only when the
     * password checks against the stored hash; an unknown user and a wrong
     * password give the same Unauthorized.
     */
    method Login(request: LoginRequest, nowMillis: int) returns (r: Result<Token, Error>)
      requires Valid()
      ensures r.Ok? <==> exists u :: u in users && u.username == request.username
                                   && sec.verify(request.password, u.masterPassword)
      ensures r.Ok? ==> exists u :: u in users && u.username == request.username
                                  && r.value == GenerateToken(u.id, jwt, nowMillis, sign)
      ensures r.Err? ==> r.error == Unauthorized
    {
      var user := FindUserByName(users, request.username);
      if user.None? || !sec.verify(request.password, user.value.masterPassword) {
        forall u | u in users && u.username == request.username
          ensures !sec.verify(request.password, u.masterPassword)
        {
          UsernameIdentifiesUser(users, nextUserId, u, user.value);
        }
        return Err(Unauthorized);
      }
      r := Ok(GenerateToken(user.value.id, jwt, nowMillis, sign));
    }

    /** GET /passwords: exactly the caller's entries, ciphertext as stored. */
    method ListPasswords(userId: int) returns (r: seq<PasswordEntry>)
      ensures forall e :: e in r <==> e in entries && e.userId == userId
      ensures r == SelectByOwner(entries, userId)
    {
      r := SelectByOwner(entries, userId);
    }

    /**
     * GET /passwords/{id}: the row whose id and owner both match, else
     * NotFound, whether the id is missing or belongs to someone else.
     */
    method GetPassword(userId: int, idParam: string) returns (r: Result<PasswordEntry, Error>)
      ensures ParseInt(idParam).None? ==> r == Err(BadRequest)
      ensures ParseInt(idParam).Some? ==>
        var id := ParseInt(idParam).value;
        && (r.Ok? <==> exists e :: e in entries && IsRow(e, id, userId))
        && (r.Ok? ==> r.value in entries && IsRow(r.value, id, userId))
        && (r.Err? ==> r.error == NotFound)
    {
      var id := ParseInt(idParam);
      if id.None? {
        return Err(BadRequest);
      }
      var entry := FindEntry(entries, id.value, userId);
      if entry.None? {
        return Err(NotFound);
      }
      r := Ok(entry.value);
    }

    /**
     * POST /passwords: one new row owned by the caller, holding the password
     * encrypted under itself and the two clock readings; rows already there
     * are untouched.
     */
    method CreatePassword(userId: int, request: PasswordEntryRequest, createdAt: int, updatedAt: int)
      returns (r: Result<int, Error>)
      requires Valid()
      modifies this
      ensures Valid()
      ensures var v := StoredValues(sec, request);
        r.Ok? <==> userId in UserIds(users) && EntryFits(v.resourceName, v.username, v.password)
      ensures r.Err? ==> r.error == ConstraintViolation && unchanged(this)
      ensures r.Ok? ==>
        && r.value == old(nextEntryId) && nextEntryId == old(nextEntryId) + 1
        && entries == old(entries) + [PasswordEntry(r.value, userId, request.resourceName, request.username,
                                        sec.encrypt(request.password, request.password), request.notes,
                                        createdAt, updatedAt)]
      ensures users == old(users) && settings == old(settings)
      ensures nextUserId == old(nextUserId) && nextSettingsId == old(nextSettingsId)
    {
      var v := StoredValues(sec, request);
      if !EntryFits(v.resourceName, v.username, v.password) || FindUserById(users, userId).None? {
        return Err(ConstraintViolation);
      }
      var id := nextEntryId;
      var entry := PasswordEntry(id, userId, v.resourceName, v.username, v.password, v.notes, createdAt, updatedAt);
      CreateKeepsEntriesTable(entries, nextEntryId, UserIds(users), entry);
      entries := entries + [entry];
      nextEntryId := nextEntryId + 1;
      r := Ok(id);
    }

    /**
     * PUT /passwords/{id}: rewrites the caller's row with that id; when no row
     * matches, NotFound and nothing changes.
     */
    method UpdatePassword(userId: int, idParam: string, request: PasswordEntryRequest, updatedAt: int)
      returns (r: Result<(), Error>)
      requires Valid()
      modifies this
      ensures Valid()
      ensures users == old(users) && settings == old(settings)
      ensures nextUserId == old(nextUserId) && nextEntryId == old(nextEntryId) && nextSettingsId == old(nextSettingsId)
      ensures ParseInt(idParam).None? ==> r == Err(BadRequest) && entries == old(entries)
      ensures ParseInt(idParam).Some? ==>
        var id, v := ParseInt(idParam).value, StoredValues(sec, request);
        var fits := EntryFits(v.resourceName, v.username, v.password);
        && (!fits ==> r == Err(ConstraintViolation))
        && (fits && CountEntry(old(entries), id, userId) == 0 ==> r == Err(NotFound))
        && (r.Ok? <==> fits && CountEntry(old(entries), id, userId) == 1)
        && entries == if r.Ok? then UpdateEntry(old(entries), id, userId, v, updatedAt) else old(entries)
    {
      var id := ParseInt(idParam);
      if id.None? {
        return Err(BadRequest);
      }
      var v := StoredValues(sec, request);
      if !EntryFits(v.resourceName, v.username, v.password) {
        return Err(ConstraintViolation);
      }
      var updated := CountEntry(entries, id.value, userId);
      AtMostOneRow(entries, id.value, userId);
      UpdateKeepsEntriesTable(entries, nextEntryId, UserIds(users), id.value, userId, v, updatedAt);
      if updated == 0 {
        NoMatchUpdateUnchanged(entries, id.value, userId, v, updatedAt);
      }
      entries := UpdateEntry(entries, id.value, userId, v, updatedAt);
      if updated == 0 {
        return Err(NotFound);
      }
      r := Ok(());
    }

    /**
     * DELETE /passwords/{id}: removes the caller's row with that id; when no
     * row matches, NotFound and nothing changes.
     */
    method DeletePassword(userId: int, idParam: string) returns (r: Result<(), Error>)
      requires Valid()
      modifies this
      ensures Valid()
      ensures users == old(users) && settings == old(settings)
      ensures nextUserId == old(nextUserId) && nextEntryId == old(nextEntryId) && nextSettingsId == old(nextSettingsId)
      ensures ParseInt(idParam).None? ==> r == Err(BadRequest) && entries == old(entries)
      ensures ParseInt(idParam).Some? ==>
        var id := ParseInt(idParam).value;
        && (r.Ok? <==> CountEntry(old(entries), id, userId) == 1)
        && (r.Err? ==> r.error == NotFound)
        && entries == DeleteEntry(old(entries), id, userId)
        && (r.Err? ==> entries == old(entries))
        && |entries| == |old(entries)| - (if r.Ok? then 1 else 0)
    {
      var id := ParseInt(idParam);
      if id.None? {
        return Err(BadRequest);
      }
      var deleted := CountEntry(entries, id.value, userId);
      AtMostOneRow(entries, id.value, userId);
      DeleteKeepsEntriesTable(entries, nextEntryId, UserIds(users), id.value, userId);
      if deleted == 0 {
        NoMatchDeleteUnchanged(entries, id.value, userId);
      }
      entries := DeleteEntry(entries, id.value, userId);
      if deleted == 0 {
        return Err(NotFound);
      }
      r := Ok(());
    }

    /**
     * PUT /change-master-password: the caller's hash becomes the hash of the
     * new password only when the old one checks; stored entries are not
     * re-encrypted.
     */
    method ChangeMasterPassword(userId: int, request: ChangeMasterPasswordRequest, salt: string)
      returns (r: Result<(), Error>)
      requires Valid()
      modifies this
      ensures Valid()
      ensures entries == old(entries) && settings == old(settings)
      ensures nextUserId == old(nextUserId) && nextEntryId == old(nextEntryId) && nextSettingsId == old(nextSettingsId)
      ensures userId !in UserIds(old(users)) ==> r == Err(NotFound)
      ensures userId in UserIds(old(users)) ==>
        var u := FindUserById(old(users), userId).value;
        && (r.Ok? <==> sec.verify(request.oldMasterPassword, u.masterPassword))
        && (r.Err? ==> r.error == Unauthorized)
      ensures r.Err? ==> users == old(users)
      ensures r.Ok? ==>
        && users == SetMasterPassword(old(users), userId, sec.hash(request.newMasterPassword, salt))
        && forall u :: u in users && u.id == userId ==> sec.verify(request.newMasterPassword, u.masterPassword)
    {
      var user := FindUserById(users, userId);
      if user.None? {
        return Err(NotFound);
      }
      if !sec.verify(request.oldMasterPassword, user.value.masterPassword) {
        return Err(Unauthorized);
      }
      var hashed := sec.hash(request.newMasterPassword, salt);
      SetMasterPasswordKeepsUsersTable(users, nextUserId, userId, hashed);
      users := SetMasterPassword(users, userId, hashed);
      r := Ok(());
    }

    /** GET /settings: the caller's settings row; every registered user has one. */
    method GetSettings(userId: int) returns (r: Result<UserSettings, Error>)
      requires Valid()
      ensures r.Ok? <==> userId in UserIds(users)
      ensures r.Ok? ==> r.value in settings && r.value.userId == userId
      ensures r.Err? ==> r.error == NotFound
    {
      var row := FindSettings(settings, userId);
      if row.None? {
        return Err(NotFound);
      }
      r := Ok(row.value);
    }

    /** PUT /settings: sets the caller's auto-logout minutes, whatever the value and whether or not a row matched. */
    method UpdateSettings(userId: int, request: SettingsUpdateRequest, updatedAt: int)
      returns (r: Result<(), Error>)
      requires Valid()
      modifies this
      ensures Valid()
      ensures r == Ok(())
      ensures settings == SetAutoLogout(old(settings), userId, request.autoLogoutMinutes, updatedAt)
      ensures users == old(users) && entries == old(entries)
      ensures nextUserId == old(nextUserId) && nextEntryId == old(nextEntryId) && nextSettingsId == old(nextSettingsId)
    {
      SetAutoLogoutKeepsSettingsTable(settings, nextSettingsId, UserIds(users), userId, request.autoLogoutMinutes, updatedAt);
      settings := SetAutoLogout(settings, userId, request.autoLogoutMinutes, updatedAt);
      r := Ok(());
    }
  }
}
