/**
 * The symmetric cipher of encrypted_file.py (`EncryptedMessage`), a thin
 * wrapper over Fernet. The cipher is modelled symbolically: a token records
 * the key it was sealed under, the random part Fernet adds (IV and
 * timestamp) and the plaintext, and only the same key opens it. Nothing
 * about AES or HMAC is modelled.
 */
module Cipher {
  import opened Wrappers

  /** Why Fernet refused: the key is not a Fernet key, or the token does not open. */
  datatype CipherError = KeyRejected | InvalidToken

  /**
   * What the `pwd` column can hold: a token produced by `encrypt`, or any
   * other text (a row written by some other program).
   */
  datatype Token =
    | Sealed(key: string, nonce: nat, plain: string)
    | Malformed(text: string)

  /** The characters of the URL-safe base64 alphabet. */
  predicate IsBase64UrlChar(c: char)
  {
    ('A' <= c <= 'Z') || ('a' <= c <= 'z') || ('0' <= c <= '9') || c == '-' || c == '_'
  }

  /**
   * The characters that may end the 43rd position of a 32-byte key: its low
   * two bits are padding and must be zero, so each spelling names one key.
   */
  const LastKeyChars: string := "AEIMQUYcgkosw048"

  /**
   * A Fernet key in canonical form: 32 bytes in URL-safe base64, that is 43
   * alphabet characters, the last of them carrying no padding bits, and one
   * `=`, as `generate_secret_key` returns: padding comes only at the end.
   */
  predicate WellFormedKey(key: string): (ok: bool)
    ensures ok ==> |key| == 44 && forall i :: 0 <= i < 43 ==> key[i] != '='
  {
    && |key| == 44 && key[43] == '='
    && (forall i :: 0 <= i < 43 ==> IsBase64UrlChar(key[i]))
    && key[42] in LastKeyChars
  }

  /**
   * `EncryptedMessage(key).encrypt(text)`: Fernet(key) raises on a key that is
   * not a Fernet key; otherwise the token carries a freshly drawn random part,
   * so two encryptions of the same text need not agree.
   */
  method Encrypt(key: string, plain: string) returns (r: Result<Token, CipherError>)
    ensures r.Err? <==> !WellFormedKey(key)
    ensures r.Err? ==> r.error == KeyRejected
    ensures r.Ok? ==> r.value.Sealed? && Decrypt(key, r.value) == Ok(plain)
  {
    if !WellFormedKey(key) {
      return Err(KeyRejected);
    }
    var nonce: nat :| true;
    r := Ok(Sealed(key, nonce, plain));
  }

  /**
   * `EncryptedMessage(key).decrypt(token)`: the key is checked first, then the
   * token opens only under the key that sealed it.
   */
  function Decrypt(key: string, token: Token): (r: Result<string, CipherError>)
    ensures !WellFormedKey(key) ==> r == Err(KeyRejected)
    ensures r.Ok? ==> token.Sealed? && token.key == key
  {
    if !WellFormedKey(key) then Err(KeyRejected)
    else match token
      case Sealed(k, _, p) => if k == key then Ok(p) else Err(InvalidToken)
      case Malformed(_) => Err(InvalidToken)
  }

  /** Round trip: whatever random part was drawn, the sealing key opens the token. */
  lemma DecryptSealed(key: string, nonce: nat, plain: string)
    requires WellFormedKey(key)
    ensures Decrypt(key, Sealed(key, nonce, plain)) == Ok(plain)
  {
  }

  /** A token sealed under one key fails under every other key, never yielding wrong text. */
  lemma WrongKeyFails(k1: string, k2: string, nonce: nat, plain: string)
    requires WellFormedKey(k2) && k1 != k2
    ensures Decrypt(k2, Sealed(k1, nonce, plain)) == Err(InvalidToken)
  {
  }
}
