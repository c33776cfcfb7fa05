/** The JVM backend: every secret lives in one file, "vault.data", holding
    the 12-byte IV followed by the AES-GCM encryption of the serialised map.
    Every operation reads and decrypts the whole file; `put` and `delete`
    then write the whole file again under a fresh IV. */
module JvmVault {
  import opened Results
  import opened Crypto
  import opened VaultContract
  import opened JvmKeyStore
  import SecretMap

  // ---------------------------------------------------------------------
  // The file format
  // ---------------------------------------------------------------------

  /** `iv + encrypted`: what `encrypt` returns and the file holds. */
  function Envelope(iv: Iv, sealed: seq<byte>): (data: seq<byte>)
    ensures |data| == IV_LENGTH + |sealed|
    ensures SplitEnvelope(data) == Some((iv, sealed))
  {
    assert (iv + sealed)[..IV_LENGTH] == iv && (iv + sealed)[IV_LENGTH..] == sealed;
    iv + sealed
  }

  /** `decrypt`'s slicing: the first 12 bytes are the IV, the rest the
      ciphertext and tag; a shorter file makes the slice throw. */
  function SplitEnvelope(data: seq<byte>): (r: Option<(Iv, seq<byte>)>)
    ensures r.None? <==> |data| < IV_LENGTH
    ensures r.Some? ==> r.value.0 + r.value.1 == data
  {
    if |data| < IV_LENGTH then None else Some((data[..IV_LENGTH], data[IV_LENGTH..]))
  }

  /** `encrypt`: seal under the stored key and prefix the IV. */
  function Encrypt(aead: Aead, store: KeyStoreImage, iv: Iv, plain: seq<byte>): (r: Result<seq<byte>, VaultError>)
    ensures r.Ok? <==> SecretKey(store).Ok?
    ensures r.Ok? && AeadSound(aead) ==> |r.value| == IV_LENGTH + |plain| + TAG_LENGTH
  {
    match SecretKey(store)
    case Err(e) => Err(e)
    case Ok(key) => Ok(Envelope(iv, aead.seal(key, iv, plain)))
  }

  /** `decrypt`: split the envelope and open it under the stored key. Only a
      ciphertext whose tag verifies yields plaintext. */
  function Decrypt(aead: Aead, store: KeyStoreImage, data: seq<byte>): (r: Result<seq<byte>, VaultError>)
    ensures |data| < IV_LENGTH ==> r == Err(Truncated)
    ensures r.Ok? ==>
      && SecretKey(store).Ok?
      && aead.open(SecretKey(store).value, data[..IV_LENGTH], data[IV_LENGTH..]) == Some(r.value)
  {
    match SplitEnvelope(data)
    case None => Err(Truncated)
    case Some((iv, sealed)) =>
      match SecretKey(store)
      case Err(e) => Err(e)
      case Ok(key) =>
        match aead.open(key, iv, sealed)
        case None => Err(AuthenticationFailed)
        case Some(plain) => Ok(plain)
  }

  /** `readVault` on given file contents: no file is the empty map, anything
      else must decrypt and is then parsed. */
  function Contents(aead: Aead, text: TextCodec, store: KeyStoreImage, file: Option<seq<byte>>)
    : (r: Result<seq<SecretMap.Entry>, VaultError>)
    ensures file.None? ==> r == Ok([])
    ensures file.Some? ==> (r.Ok? <==> Decrypt(aead, store, file.value).Ok?)
    ensures r.Ok? ==> SecretMap.Distinct(r.value) && SecretMap.AllStorable(r.value)
  {
    match file
    case None => Ok([])
    case Some(data) =>
      match Decrypt(aead, store, data)
      case Err(e) => Err(e)
      case Ok(plain) => Ok(SecretMap.Parse(text.decode(plain)))
  }

  /** `saveVault`'s output: the serialised map, encoded and encrypted. It
      fails exactly when the key store holds no key, and the file is then the
      IV, the encoded text and the tag. */
  function Sealed(aead: Aead, text: TextCodec, store: KeyStoreImage, iv: Iv, entries: seq<SecretMap.Entry>)
    : (r: Result<seq<byte>, VaultError>)
    ensures r.Ok? <==> SecretKey(store).Ok?
    ensures r.Ok? && AeadSound(aead) ==>
      |r.value| == IV_LENGTH + |text.encode(SecretMap.Serialise(entries))| + TAG_LENGTH
  {
    Encrypt(aead, store, iv, text.encode(SecretMap.Serialise(entries)))
  }

  // ---------------------------------------------------------------------
  // Laws of the file format
  // ---------------------------------------------------------------------

  /** Decryption undoes encryption: it recovers the IV and ciphertext by
      splitting at byte 12, and the tag verifies. */
  lemma DecryptEncrypt(aead: Aead, store: KeyStoreImage, iv: Iv, plain: seq<byte>)
    requires AeadSound(aead)
    requires SecretKey(store).Ok?
    ensures Decrypt(aead, store, Encrypt(aead, store, iv, plain).value) == Ok(plain)
  {
    var key := SecretKey(store).value;
    assert SplitEnvelope(Envelope(iv, aead.seal(key, iv, plain))) == Some((iv, aead.seal(key, iv, plain)));
  }

  /** A file too short to hold the IV and a tag never decrypts, so it is
      never read as a map, in particular not as the empty one. */
  lemma ShortFileIsRejected(aead: Aead, text: TextCodec, store: KeyStoreImage, data: seq<byte>)
    requires AeadSound(aead)
    requires |data| < IV_LENGTH + TAG_LENGTH
    ensures Contents(aead, text, store, Some(data)).Err?
  {
    if |data| >= IV_LENGTH && SecretKey(store).Ok? {
      assert |data[IV_LENGTH..]| < TAG_LENGTH;
    }
  }

  /** A file written by `saveVault` reads back as the map that was saved. */
  lemma ContentsOfSealed(aead: Aead, text: TextCodec, store: KeyStoreImage, iv: Iv, entries: seq<SecretMap.Entry>)
    requires AeadSound(aead) && TextSound(text)
    requires SecretKey(store).Ok?
    requires SecretMap.Distinct(entries) && SecretMap.AllStorable(entries)
    ensures Sealed(aead, text, store, iv, entries).Ok?
    ensures Contents(aead, text, store, Some(Sealed(aead, text, store, iv, entries).value)) == Ok(entries)
  {
    var plain := text.encode(SecretMap.Serialise(entries));
    DecryptEncrypt(aead, store, iv, plain);
    SecretMap.ParseSerialise(entries);
  }

  // ---------------------------------------------------------------------
  // The vault
  // ---------------------------------------------------------------------

  class JvmSecureVault {
    const aead: Aead
    const text: TextCodec
    /** The key store loaded when the vault was built. */
    const keystore: KeyStoreImage
    /** "vault.keystore" */
    var keystoreFile: Option<KeyStoreImage>
    /** "vault.data"; `None` when the file does not exist. */
    var vaultFile: Option<seq<byte>>

    /** The primitives obey their laws and the key file holds the loaded store. */
    ghost predicate Valid()
      reads this
    {
      AeadSound(aead) && TextSound(text) && keystoreFile == Some(keystore)
    }

    /** What `readVault` returns in the current state. */
    ghost function Stored(): Result<seq<SecretMap.Entry>, VaultError>
      reads this
    {
      Contents(aead, text, keystore, vaultFile)
    }

    /** The secrets the vault holds, when its file can be read. */
    ghost function Secrets(): map<string, string>
      reads this
      requires Stored().Ok?
    {
      SecretMap.AsMap(Stored().value)
    }

    constructor Load(aead: Aead, text: TextCodec, keystore: KeyStoreImage, vaultFile: Option<seq<byte>>)
      ensures this.aead == aead && this.text == text && this.keystore == keystore
      ensures keystoreFile == Some(keystore) && this.vaultFile == vaultFile
    {
      this.aead := aead;
      this.text := text;
      this.keystore := keystore;
      this.keystoreFile := Some(keystore);
      this.vaultFile := vaultFile;
    }

    /** `JvmSecureVault()`: the keystore initialiser runs first and a failure
        there means no vault is built. */
    static method Open(aead: Aead, text: TextCodec, keystoreFile: Option<KeyStoreImage>,
                       vaultFile: Option<seq<byte>>, generated: Key)
      returns (r: Result<JvmSecureVault, VaultError>)
      requires AeadSound(aead) && TextSound(text)
      ensures LoadOrCreate(keystoreFile, generated).Err? ==> r == Err(LoadOrCreate(keystoreFile, generated).error)
      ensures LoadOrCreate(keystoreFile, generated).Ok? ==>
        && r.Ok? && fresh(r.value) && r.value.Valid()
        && r.value.keystore == LoadOrCreate(keystoreFile, generated).value
        && r.value.vaultFile == vaultFile
    {
      var loaded := LoadOrCreate(keystoreFile, generated);
      if loaded.Err? {
        return Err(loaded.error);
      }
      var vault := new JvmSecureVault.Load(aead, text, loaded.value, vaultFile);
      return Ok(vault);
    }

    /** `readVault` on the current file. */
    method ReadVault() returns (r: Result<seq<SecretMap.Entry>, VaultError>)
      ensures r == Stored()
    {
      r := Contents(aead, text, keystore, vaultFile);
    }

    method SaveVault(entries: seq<SecretMap.Entry>, iv: Iv) returns (r: Outcome<VaultError>)
      modifies this`vaultFile
      ensures Sealed(aead, text, keystore, iv, entries).Err? ==>
        r == Fail(Sealed(aead, text, keystore, iv, entries).error) && vaultFile == old(vaultFile)
      ensures Sealed(aead, text, keystore, iv, entries).Ok? ==>
        r == Pass && vaultFile == Some(Sealed(aead, text, keystore, iv, entries).value)
    {
      var plain := text.encode(SecretMap.Serialise(entries));
      var encrypted := Encrypt(aead, keystore, iv, plain);
      if encrypted.Err? {
        return Fail(encrypted.error);
      }
      vaultFile := Some(encrypted.value);
      return Pass;
    }

    /** `put`: read, set the name, write the whole file under the IV `iv`. */
    method Put(name: string, value: string, options: VaultOptions, iv: Iv) returns (r: Outcome<VaultError>)
      requires Valid()
      modifies this`vaultFile
      ensures Valid()
      ensures old(Stored()).Err? ==> r == Fail(old(Stored()).error) && vaultFile == old(vaultFile)
      ensures old(Stored()).Ok? && SecretKey(keystore).Err? ==> r == Fail(KeyMissing) && vaultFile == old(vaultFile)
      ensures old(Stored()).Ok? && SecretKey(keystore).Ok? ==>
        r == Pass && vaultFile == Some(Sealed(aead, text, keystore, iv, SecretMap.Put(old(Stored()).value, name, value)).value)
      ensures r.Pass? && SecretMap.Storable(SecretMap.Entry(name, value)) ==>
        && Stored() == Ok(SecretMap.Put(old(Stored()).value, name, value))
        && Secrets() == old(Secrets())[name := value]
    {
      var read := ReadVault();
      if read.Err? {
        return Fail(read.error);
      }
      var entries := read.value;
      entries := SecretMap.Put(entries, name, value);
      r := SaveVault(entries, iv);
      if r.Pass? && SecretMap.Storable(SecretMap.Entry(name, value)) {
        SecretMap.PutDistinct(read.value, name, value);
        SecretMap.PutStorable(read.value, name, value);
        SecretMap.PutIsUpdate(read.value, name, value);
        ContentsOfSealed(aead, text, keystore, iv, entries);
      }
    }

    /** `get`: the value stored under the name, `None` when there is none;
        a file that does not decrypt is an error, never "absent". */
    method Get(name: string, options: VaultOptions) returns (r: Result<Option<string>, VaultError>)
      ensures vaultFile.None? ==> r == Ok(None)
      ensures Stored().Err? ==> r == Err(Stored().error)
      ensures Stored().Ok? ==> r.Ok? && (r.value.Some? <==> name in Secrets())
      ensures Stored().Ok? && name in Secrets() ==> r == Ok(Some(Secrets()[name]))
    {
      var read := ReadVault();
      if read.Err? {
        return Err(read.error);
      }
      SecretMap.FindIsLookup(read.value, name);
      return Ok(SecretMap.Find(read.value, name));
    }

    /** `delete`: read, drop the name, write the whole file under the IV
        `iv` (also when the name was absent, and also when no file existed). */
    method Delete(name: string, iv: Iv) returns (r: Outcome<VaultError>)
      requires Valid()
      modifies this`vaultFile
      ensures Valid()
      ensures old(Stored()).Err? ==> r == Fail(old(Stored()).error) && vaultFile == old(vaultFile)
      ensures old(Stored()).Ok? && SecretKey(keystore).Err? ==> r == Fail(KeyMissing) && vaultFile == old(vaultFile)
      ensures old(Stored()).Ok? && SecretKey(keystore).Ok? ==>
        r == Pass && vaultFile == Some(Sealed(aead, text, keystore, iv, SecretMap.Remove(old(Stored()).value, name)).value)
      ensures r.Pass? ==>
        && Stored() == Ok(SecretMap.Remove(old(Stored()).value, name))
        && Secrets() == old(Secrets()) - {name}
      ensures r.Pass? && name !in old(Secrets()) ==> Stored() == old(Stored())
    {
      var read := ReadVault();
      if read.Err? {
        return Fail(read.error);
      }
      var entries := read.value;
      entries := SecretMap.Remove(entries, name);
      r := SaveVault(entries, iv);
      if r.Pass? {
        SecretMap.RemoveKeepsShape(read.value, name);
        SecretMap.RemoveIsDelete(read.value, name);
        ContentsOfSealed(aead, text, keystore, iv, entries);
        if name !in SecretMap.AsMap(read.value) {
          SecretMap.RemoveAbsent(read.value, name);
        }
      }
    }

    /** `exists`: whether the name is stored; a file that does not decrypt
        is an error. */
    method Exists(name: string) returns (r: Result<bool, VaultError>)
      ensures vaultFile.None? ==> r == Ok(false)
      ensures Stored().Err? ==> r == Err(Stored().error)
      ensures Stored().Ok? ==> r == Ok(name in Secrets())
    {
      var read := ReadVault();
      if read.Err? {
        return Err(read.error);
      }
      return Ok(name in SecretMap.Names(read.value));
    }
  }

  /** On any readable vault, a put of a storable secret is read back by the
      next get, and only that name changes. */
  method PutGetScenario(vault: JvmSecureVault, name: string, value: string, iv: Iv)
    returns (got: Result<Option<string>, VaultError>)
    requires vault.Valid() && vault.Stored().Ok? && SecretKey(vault.keystore).Ok?
    requires SecretMap.Storable(SecretMap.Entry(name, value))
    modifies vault
    ensures got == Ok(Some(value))
    ensures vault.Valid() && vault.Stored().Ok? && vault.Secrets() == old(vault.Secrets())[name := value]
  {
    var put := vault.Put(name, value, DEFAULT_OPTIONS, iv);
    got := vault.Get(name, DEFAULT_OPTIONS);
  }

  /** The behaviour a caller sees on a fresh vault: nothing exists, a put is
      read back, and a second put of the same name overwrites the first. */
  method FreshVaultScenario(vault: JvmSecureVault, iv1: Iv, iv2: Iv)
    returns (before: Result<bool, VaultError>, first: Result<Option<string>, VaultError>,
             second: Result<Option<string>, VaultError>)
    requires vault.Valid() && vault.vaultFile.None? && SecretKey(vault.keystore).Ok?
    modifies vault
    ensures before == Ok(false)
    ensures first == Ok(Some("1")) && second == Ok(Some("2"))
    ensures vault.Valid() && vault.Stored().Ok? && vault.Secrets() == map["a" := "2"]
  {
    assert vault.Stored() == Ok([]);
    before := vault.Exists("a");
    first := PutGetScenario(vault, "a", "1", iv1);
    second := PutGetScenario(vault, "a", "2", iv2);
    assert vault.Secrets() == map[]["a" := "1"]["a" := "2"];
  }

  /** After a delete the name no longer exists, and deleting it again still
      succeeds and leaves the other secrets alone. */
  method DeleteTwiceScenario(vault: JvmSecureVault, name: string, iv1: Iv, iv2: Iv)
    returns (after: Result<bool, VaultError>, again: Outcome<VaultError>)
    requires vault.Valid() && vault.Stored().Ok? && SecretKey(vault.keystore).Ok?
    modifies vault
    ensures after == Ok(false) && again == Pass
    ensures vault.Stored().Ok? && vault.Secrets() == old(vault.Secrets()) - {name}
  {
    var deleted := vault.Delete(name, iv1);
    after := vault.Exists(name);
    again := vault.Delete(name, iv2);
  }
}
