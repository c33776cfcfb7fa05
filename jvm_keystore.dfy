/** The master key of the JVM vault: one AES-256 key kept under the alias
    "VaultKey" in a PKCS#12 container "vault.keystore", protected by a fixed
    password. The container is read once, when the vault is built, and
    created with a freshly generated key when it does not exist. */
module JvmKeyStore {
  import opened Results
  import opened Crypto
  import opened VaultContract

  const KEY_ALIAS: string := "VaultKey"
  const PASSWORD: string := "changeit"

  /** The container as the vault sees it: the password it is protected with
      and its secret-key entries, or bytes that are no PKCS#12 store. */
  datatype KeyStoreImage = Pkcs12(password: string, secretKeys: map<string, Key>) | Unreadable

  /** The keystore initialiser: load the container with the fixed password
      when the file exists, otherwise create one holding `generated`. The
      result is the loaded store, which is also what the file holds
      afterwards. */
  function LoadOrCreate(file: Option<KeyStoreImage>, generated: Key): (r: Result<KeyStoreImage, VaultError>)
    ensures r.Ok? ==> r.value.Pkcs12? && r.value.password == PASSWORD
    ensures file.Some? ==> (r.Ok? <==> file.value.Pkcs12? && file.value.password == PASSWORD)
    ensures file.Some? && r.Ok? ==> r.value == file.value
    ensures file.Some? && r.Err? ==> r.error == KeyStoreCorrupt
    ensures file.None? ==> r.Ok? && SecretKey(r.value) == Ok(generated)
  {
    match file
    case None => Ok(Pkcs12(PASSWORD, map[KEY_ALIAS := generated]))
    case Some(Unreadable) => Err(KeyStoreCorrupt)
    case Some(Pkcs12(password, keys)) =>
      if password == PASSWORD then Ok(Pkcs12(password, keys)) else Err(KeyStoreCorrupt)
  }

  /** `getSecretKey`: the entry under the alias; a store without one makes
      every encryption and decryption fail. */
  function SecretKey(store: KeyStoreImage): (r: Result<Key, VaultError>)
    ensures r.Ok? <==> store.Pkcs12? && KEY_ALIAS in store.secretKeys
    ensures r.Ok? ==> r.value == store.secretKeys[KEY_ALIAS]
  {
    if store.Pkcs12? && KEY_ALIAS in store.secretKeys then Ok(store.secretKeys[KEY_ALIAS]) else Err(KeyMissing)
  }

  /** Key stability: a vault built later from the container written by an
      earlier one (a restart) loads the same store, hence the same key,
      whatever key generation would have produced. */
  lemma KeyIsStable(file: Option<KeyStoreImage>, generated: Key, later: Key)
    requires LoadOrCreate(file, generated).Ok?
    ensures LoadOrCreate(Some(LoadOrCreate(file, generated).value), later) == LoadOrCreate(file, generated)
    ensures SecretKey(LoadOrCreate(Some(LoadOrCreate(file, generated).value), later).value)
         == SecretKey(LoadOrCreate(file, generated).value)
  {
  }
}
