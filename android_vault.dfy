/** The Android backend: each secret is two entries of the private
    preferences file "secure_vault_prefs": "vault_" + name holds the Base64
    ciphertext and "vault_iv_" + name the Base64 IV. The AES-GCM key lives in
    the Android key store under "SecureVaultKey" and is created on first use. */
module AndroidVault {
  import opened Results
  import opened Crypto
  import opened VaultContract

  const VALUE_PREFIX: string := "vault_"
  const IV_PREFIX: string := "vault_iv_"

  /** The preference key holding a name's ciphertext; the name can be read
      back from it. */
  function ValueSlot(name: string): (slot: string)
    ensures |slot| == |VALUE_PREFIX| + |name| && slot[|VALUE_PREFIX|..] == name
  {
    VALUE_PREFIX + name
  }

  /** The preference key holding a name's IV; it is also the ciphertext slot
      of "iv_" + name. */
  function IvSlot(name: string): (slot: string)
    ensures |slot| == |IV_PREFIX| + |name| && slot[|IV_PREFIX|..] == name
    ensures slot == ValueSlot("iv_" + name)
  {
    assert VALUE_PREFIX + ("iv_" + name) == IV_PREFIX + name;
    IV_PREFIX + name
  }

  /** `getOrCreateSecretKey`: the stored key, or the generated one when the
      key store has none yet. */
  function ChosenKey(stored: Option<Key>, generated: Key): Key
  {
    if stored.Some? then stored.value else generated
  }

  /** What `put` stores for a value: the Base64 ciphertext and Base64 IV.
      With sound primitives, `get` turns the pair back into the value. */
  function Conceal(aead: Aead, text: TextCodec, base64: Base64Codec, key: Key, iv: Iv, value: string)
    : (stored: (string, string))
    ensures Base64Sound(base64) ==> base64.decode(stored.1) == Some(iv)
    ensures AeadSound(aead) && TextSound(text) && Base64Sound(base64) ==>
      Reveal(aead, text, base64, key, stored.0, stored.1) == Ok(value)
  {
    var sealed := aead.seal(key, iv, text.encode(value));
    assert AeadSound(aead) && TextSound(text) && Base64Sound(base64) ==>
      Reveal(aead, text, base64, key, base64.encode(sealed), base64.encode(iv)) == Ok(value) by {
      if AeadSound(aead) && TextSound(text) && Base64Sound(base64) {
        assert base64.decode(base64.encode(sealed)) == Some(sealed);
        assert base64.decode(base64.encode(iv)) == Some(iv);
        assert aead.open(key, iv, sealed) == Some(text.encode(value));
      }
    }
    (base64.encode(sealed), base64.encode(iv))
  }

  /** What `get` makes of the two stored strings: decode both, open, decode
      the text. */
  function Reveal(aead: Aead, text: TextCodec, base64: Base64Codec, key: Key,
                  encodedCiphertext: string, encodedIv: string): (r: Result<string, VaultError>)
    ensures base64.decode(encodedCiphertext).None? || base64.decode(encodedIv).None? ==> r == Err(BadEncoding)
    ensures r.Ok? ==>
      && base64.decode(encodedCiphertext).Some? && base64.decode(encodedIv).Some?
      && aead.open(key, base64.decode(encodedIv).value, base64.decode(encodedCiphertext).value).Some?
      && r.value == text.decode(aead.open(key, base64.decode(encodedIv).value, base64.decode(encodedCiphertext).value).value)
  {
    match (base64.decode(encodedCiphertext), base64.decode(encodedIv))
    case (Some(ciphertext), Some(iv)) =>
      (match aead.open(key, iv, ciphertext)
       case None => Err(AuthenticationFailed)
       case Some(plain) => Ok(text.decode(plain)))
    case _ => Err(BadEncoding)
  }

  /** The preferences after `put`'s edit: both slots of the name hold the
      new strings and every other entry is as it was. */
  function Written(prefs: map<string, string>, name: string, encodedCiphertext: string, encodedIv: string)
    : (written: map<string, string>)
    ensures ValueSlot(name) in written && written[ValueSlot(name)] == encodedCiphertext
    ensures IvSlot(name) in written && written[IvSlot(name)] == encodedIv
    ensures forall slot :: slot != ValueSlot(name) && slot != IvSlot(name) ==>
      (slot in written <==> slot in prefs) && (slot in prefs ==> written[slot] == prefs[slot])
  {
    assert |ValueSlot(name)| != |IvSlot(name)|;
    prefs[ValueSlot(name) := encodedCiphertext][IvSlot(name) := encodedIv]
  }

  /** The preferences after `delete`'s edit: both slots of the name are gone
      and every other entry is as it was. */
  function Erased(prefs: map<string, string>, name: string): (erased: map<string, string>)
    ensures ValueSlot(name) !in erased && IvSlot(name) !in erased
    ensures forall slot :: slot != ValueSlot(name) && slot != IvSlot(name) ==>
      (slot in erased <==> slot in prefs) && (slot in prefs ==> erased[slot] == prefs[slot])
  {
    prefs - {ValueSlot(name), IvSlot(name)}
  }

  // ---------------------------------------------------------------------
  // Laws of the key naming and of one stored secret
  // ---------------------------------------------------------------------

  /** A name's two slots are different entries, and different names have
      different slots of the same kind. */
  lemma SlotsAreSeparate(a: string, b: string)
    ensures ValueSlot(a) != IvSlot(a)
    ensures ValueSlot(a) == ValueSlot(b) <==> a == b
    ensures IvSlot(a) == IvSlot(b) <==> a == b
  {
    if ValueSlot(a) == ValueSlot(b) {
      assert a == ValueSlot(a)[|VALUE_PREFIX|..] && b == ValueSlot(b)[|VALUE_PREFIX|..];
    }
    if IvSlot(a) == IvSlot(b) {
      assert a == IvSlot(a)[|IV_PREFIX|..] && b == IvSlot(b)[|IV_PREFIX|..];
    }
  }

  /** The naming overlap: the ciphertext slot of `a` is the IV slot of `b`
      exactly when `a` is "iv_" followed by `b`. */
  lemma SlotOverlap(a: string, b: string)
    ensures ValueSlot(a) == IvSlot(b) <==> a == "iv_" + b
  {
    if ValueSlot(a) == IvSlot(b) {
      calc {
        a;
        ValueSlot(a)[|VALUE_PREFIX|..];
        IvSlot(b)[|VALUE_PREFIX|..];
        "iv_" + b;
      }
    }
    if a == "iv_" + b {
      assert VALUE_PREFIX + ("iv_" + b) == (VALUE_PREFIX + "iv_") + b;
    }
  }

  /** A second `put` of the same name replaces the first one entirely. */
  lemma WrittenTwice(prefs: map<string, string>, name: string, c1: string, i1: string, c2: string, i2: string)
    ensures Written(Written(prefs, name, c1, i1), name, c2, i2) == Written(prefs, name, c2, i2)
  {
  }

  /** `delete` is idempotent, and a no-op when neither slot is present. */
  lemma ErasedIdempotent(prefs: map<string, string>, name: string)
    ensures Erased(Erased(prefs, name), name) == Erased(prefs, name)
    ensures ValueSlot(name) !in prefs && IvSlot(name) !in prefs ==> Erased(prefs, name) == prefs
  {
  }

  /** After `put(k, …)` the name "iv_" + k reports as existing: its
      ciphertext slot is k's IV slot. */
  lemma PutMakesPhantomName(prefs: map<string, string>, k: string, encodedCiphertext: string, encodedIv: string)
    ensures ValueSlot("iv_" + k) in Written(prefs, k, encodedCiphertext, encodedIv)
    ensures Written(prefs, k, encodedCiphertext, encodedIv)[ValueSlot("iv_" + k)] == encodedIv
  {
    SlotOverlap("iv_" + k, k);
  }

  /** `put("iv_" + k, …)` overwrites the IV that `get(k)` reads with a
      ciphertext. */
  lemma PutOverwritesNeighbourIv(prefs: map<string, string>, k: string, encodedCiphertext: string, encodedIv: string)
    ensures Written(prefs, "iv_" + k, encodedCiphertext, encodedIv)[IvSlot(k)] == encodedCiphertext
  {
    SlotOverlap("iv_" + k, k);
    SlotsAreSeparate("iv_" + k, k);
  }

  /** `delete("iv_" + k)` removes the IV of k, after which `get(k)` finds no
      secret. */
  lemma DeleteDropsNeighbourIv(prefs: map<string, string>, k: string)
    ensures IvSlot(k) !in Erased(prefs, "iv_" + k)
  {
    SlotOverlap("iv_" + k, k);
  }

  // ---------------------------------------------------------------------
  // The vault
  // ---------------------------------------------------------------------

  class AndroidSecureVault {
    const aead: Aead
    const text: TextCodec
    const base64: Base64Codec
    /** The Android key store entry "SecureVaultKey", once created. */
    var keyStore: Option<Key>
    /** The shared preferences "secure_vault_prefs". */
    var prefs: map<string, string>

    ghost predicate Valid()
      reads this
    {
      AeadSound(aead) && TextSound(text) && Base64Sound(base64)
    }

    constructor (aead: Aead, text: TextCodec, base64: Base64Codec, keyStore: Option<Key>, prefs: map<string, string>)
      ensures this.aead == aead && this.text == text && this.base64 == base64
      ensures this.keyStore == keyStore && this.prefs == prefs
    {
      this.aead := aead;
      this.text := text;
      this.base64 := base64;
      this.keyStore := keyStore;
      this.prefs := prefs;
    }

    /** `getOrCreateSecretKey`: `generated` is the key a first call creates. */
    method GetOrCreateSecretKey(generated: Key) returns (key: Key)
      modifies this`keyStore
      ensures key == ChosenKey(old(keyStore), generated) && keyStore == Some(key)
      ensures old(keyStore).Some? ==> keyStore == old(keyStore)
    {
      if keyStore.None? {
        keyStore := Some(generated);
      }
      key := keyStore.value;
    }

    /** `put`: encrypt under a fresh IV `iv` and write both slots in one edit. */
    method Put(name: string, value: string, options: VaultOptions, iv: Iv, generated: Key)
      modifies this`keyStore, this`prefs
      ensures keyStore == Some(ChosenKey(old(keyStore), generated))
      ensures prefs == Written(old(prefs), name,
                               Conceal(aead, text, base64, keyStore.value, iv, value).0,
                               Conceal(aead, text, base64, keyStore.value, iv, value).1)
      ensures Valid() ==>
        && ValueSlot(name) in prefs && IvSlot(name) in prefs
        && Reveal(aead, text, base64, keyStore.value, prefs[ValueSlot(name)], prefs[IvSlot(name)]) == Ok(value)
    {
      var key := GetOrCreateSecretKey(generated);
      var ciphertext := aead.seal(key, iv, text.encode(value));
      prefs := Written(prefs, name, base64.encode(ciphertext), base64.encode(iv));
    }

    /** `get`: no secret unless both slots are present; otherwise decode,
        obtain the key (creating one if there is none) and decrypt. */
    method Get(name: string, options: VaultOptions, generated: Key) returns (r: Result<Option<string>, VaultError>)
      modifies this`keyStore
      ensures ValueSlot(name) !in prefs || IvSlot(name) !in prefs ==> r == Ok(None) && keyStore == old(keyStore)
      ensures ValueSlot(name) in prefs && IvSlot(name) in prefs ==>
        var revealed := Reveal(aead, text, base64, ChosenKey(old(keyStore), generated),
                               prefs[ValueSlot(name)], prefs[IvSlot(name)]);
        && (revealed.Ok? ==> r == Ok(Some(revealed.value)))
        && (revealed.Err? ==> r == Err(revealed.error))
      ensures keyStore ==
        if ValueSlot(name) in prefs && IvSlot(name) in prefs
           && base64.decode(prefs[ValueSlot(name)]).Some? && base64.decode(prefs[IvSlot(name)]).Some?
        then Some(ChosenKey(old(keyStore), generated))
        else old(keyStore)
      ensures old(keyStore).Some? ==> keyStore == old(keyStore)
    {
      if ValueSlot(name) !in prefs || IvSlot(name) !in prefs {
        return Ok(None);
      }
      var encodedCiphertext := prefs[ValueSlot(name)];
      var encodedIv := prefs[IvSlot(name)];
      var ciphertext := base64.decode(encodedCiphertext);
      var iv := base64.decode(encodedIv);
      if ciphertext.None? || iv.None? {
        return Err(BadEncoding);
      }
      var key := GetOrCreateSecretKey(generated);
      var plain := aead.open(key, iv.value, ciphertext.value);
      if plain.None? {
        return Err(AuthenticationFailed);
      }
      return Ok(Some(text.decode(plain.value)));
    }

    /** `delete`: remove both slots in one edit. */
    method Delete(name: string)
      modifies this`prefs
      ensures prefs == Erased(old(prefs), name)
      ensures ValueSlot(name) !in prefs && IvSlot(name) !in prefs
    {
      prefs := Erased(prefs, name);
    }

    /** `exists`: only the ciphertext slot is consulted. */
    method Exists(name: string) returns (b: bool)
      ensures b <==> ValueSlot(name) in prefs
    {
      b := ValueSlot(name) in prefs;
    }
  }
}
