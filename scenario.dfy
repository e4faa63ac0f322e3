/**
 * A run through the service from a fresh vault: alice registers, logs in
 * and stores a credential; bob registers and logs in, and can neither list
 * nor fetch alice's entry.
 */
module Scenario {
  import opened Wrappers
  import opened KotlinInt
  import opened Models
  import opened Schema
  import opened Security
  import opened Jwt
  import opened Queries
  import opened Application

  /** Alice registers on a fresh vault and logs in with the password she registered with. */
  method AliceRegisters(sec: Primitives, jwt: JwtConfig, sign: Signer)
    returns (vault: Vault, aliceLogin: Result<Token, Error>)
    requires Axioms(sec)
    ensures fresh(vault) && vault.Valid() && vault.sec == sec && vault.jwt == jwt && vault.sign == sign
    ensures vault.users == [User(1, "alice", sec.hash("masterpw", "salt-a"), 1000)]
    ensures vault.entries == [] && vault.nextUserId == 2 && vault.nextEntryId == 1
    ensures aliceLogin.Ok? && aliceLogin.value.claims.userId == 1
  {
    vault := new Vault(sec, jwt, sign);
    var alice := vault.Register(RegisterRequest("alice", "masterpw"), "salt-a", 1000, 1000);
    var aliceRow := User(1, "alice", sec.hash("masterpw", "salt-a"), 1000);
    assert vault.users == [aliceRow];
    aliceLogin := vault.Login(LoginRequest("alice", "masterpw"), 2000);
    assert aliceRow in vault.users && sec.verify("masterpw", aliceRow.masterPassword);
  }

  /**
   * Then alice stores one credential and reads it back by the id she was
   * given. The ciphertext of her secret must fit its 1000-character column.
   */
  method AliceStoresACredential(sec: Primitives, jwt: JwtConfig, sign: Signer)
    returns (vault: Vault, created: Result<int, Error>, aliceGet: Result<PasswordEntry, Error>)
    requires Axioms(sec)
    requires |sec.encrypt("s3cr3t", "s3cr3t")| <= ENCRYPTED_PASSWORD_LENGTH
    ensures fresh(vault) && vault.Valid() && vault.sec == sec && vault.jwt == jwt && vault.sign == sign
    ensures vault.users == [User(1, "alice", sec.hash("masterpw", "salt-a"), 1000)]
    ensures vault.nextUserId == 2
    ensures forall e :: e in vault.entries ==> e.userId == 1
    ensures created == Ok(1)
    ensures aliceGet.Ok?
    ensures && aliceGet.value.id == 1 && aliceGet.value.userId == 1
            && aliceGet.value.resourceName == "example.com" && aliceGet.value.username == "alice"
            && aliceGet.value.password == sec.encrypt("s3cr3t", "s3cr3t")
  {
    var aliceLogin;
    vault, aliceLogin := AliceRegisters(sec, jwt, sign);
    assert FindUserById(vault.users, 1).Some?;
    created := vault.CreatePassword(1, PasswordEntryRequest("example.com", "alice", "s3cr3t", "masterpw", None), 3000, 3000);
    ParseShowInt(1);
    assert vault.entries[0] in vault.entries && IsRow(vault.entries[0], 1, 1);
    aliceGet := vault.GetPassword(1, ShowInt(1));
  }

  /**
   * Bob registers on a vault holding only alice and is given id 2; he logs
   * in with his password, and a second later the authentication gate
   * accepts his token as user 2. The entries stay as they were.
   */
  method BobJoins(vault: Vault, aliceRow: User) returns (bob: Result<int, Error>, bobId: Option<int>)
    requires vault.Valid() && vault.users == [aliceRow] && aliceRow.username == "alice" && vault.nextUserId == 2
    requires vault.jwt.lifetimeMinutes.None?
    modifies vault
    ensures vault.Valid() && vault.entries == old(vault.entries)
    ensures bob == Ok(2)
    ensures bobId == Some(2)
  {
    assert !(exists u :: u in vault.users && u.username == "bob") by {
      assert "bob"[0] != "alice"[0];
    }
    bob := vault.Register(RegisterRequest("bob", "bobpw"), "salt-b", 4000, 4000);
    var bobRow := User(2, "bob", vault.sec.hash("bobpw", "salt-b"), 4000);
    assert vault.users == [aliceRow, bobRow];
    var bobLogin := vault.Login(LoginRequest("bob", "bobpw"), 5000);
    assert bobRow in vault.users && vault.sec.verify("bobpw", bobRow.masterPassword);
    assert forall u :: u in vault.users && u.username == "bob" ==> u == bobRow by {
      assert "bob"[0] != "alice"[0];
    }
    assert bobLogin == Ok(GenerateToken(2, vault.jwt, 5000, vault.sign));
    IssuedTokenAuthenticates(2, vault.jwt, 5000, 6000, vault.sign);
    bobId := Authenticate(vault.jwt, vault.sign, bobLogin.value, 6000);
  }

  /**
   * Then bob joins: his listing is empty, and alice's entry id gives him
   * NotFound.
   */
  method AliceAndBob(sec: Primitives, jwt: JwtConfig, sign: Signer)
    returns (bob: Result<int, Error>, bobId: Option<int>, bobList: seq<PasswordEntry>,
             bobGet: Result<PasswordEntry, Error>)
    requires Axioms(sec)
    requires |sec.encrypt("s3cr3t", "s3cr3t")| <= ENCRYPTED_PASSWORD_LENGTH
    requires jwt.lifetimeMinutes.None?
    ensures bob == Ok(2)
    ensures bobId == Some(2)
    ensures bobList == []
    ensures bobGet == Err(NotFound)
  {
    var vault, created, _ := AliceStoresACredential(sec, jwt, sign);
    bob, bobId := BobJoins(vault, vault.users[0]);
    assert forall e :: e in vault.entries ==> !IsRow(e, 1, 2);
    bobList := vault.ListPasswords(bobId.value);
    SelectEmptyIff(vault.entries, 2);
    ParseShowInt(1);
    bobGet := vault.GetPassword(bobId.value, ShowInt(created.value));
  }
}
