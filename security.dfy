/**
 * The cryptographic primitives the service calls, as uninterpreted
 * functions: bcrypt hashing and checking of the master password, and the
 * PBKDF2-derived AES/ECB encryption of stored secrets. Nothing about them
 * is assumed except the facts collected in `Axioms`.
 */
module Security {

  /**
   * `hash(password, salt)` is `BCrypt.hashpw` with a salt from `BCrypt.gensalt()`
   * (the random salt is a parameter here); `verify(password, hash)` is
   * `BCrypt.checkpw`; `encrypt(plaintext, masterKey)` is `encryptPassword`:
   * AES/ECB under a PBKDF2 key derived with one fixed salt, Base64-encoded.
   * Because the salt is fixed and ECB takes no IV, `encrypt` is a
   * deterministic function of its two arguments.
   */
  datatype Primitives = Primitives(
    hash: (string, string) -> string,
    verify: (string, string) -> bool,
    encrypt: (string, string) -> string)

  /** Length of every bcrypt hash string ("$2a$10$" followed by 53 characters). */
  const BCRYPT_HASH_LENGTH := 60

  /** The only facts about the primitives that the model relies on. */
  ghost predicate Axioms(p: Primitives) {
    && (forall pw, salt :: p.verify(pw, p.hash(pw, salt)))
    && (forall pw, salt :: |p.hash(pw, salt)| == BCRYPT_HASH_LENGTH)
  }
}
