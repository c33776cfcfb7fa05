/** What every backend shares: the options callers pass and the failures the
    operations report (exceptions in the Kotlin code). */
module VaultContract {
  import opened Results

  /** Accepted by `put` and `get` and ignored by both backends modelled here. */
  datatype VaultOptions = VaultOptions(requireBiometric: bool, passphrase: Option<string>, ttlMillis: Option<int>)

  const DEFAULT_OPTIONS: VaultOptions := VaultOptions(false, None, None)

  datatype VaultError =
    | Truncated             // the vault file is too short to hold an IV
    | AuthenticationFailed  // the AES-GCM tag did not verify
    | KeyStoreCorrupt       // the key container cannot be opened with its password
    | KeyMissing            // the key container holds no secret key under the alias
    | BadEncoding           // a stored Base64 string does not decode
}
