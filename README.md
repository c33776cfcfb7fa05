# SecureVault-KMP vault backends in Dafny

SecureVault-KMP gives Kotlin Multiplatform apps one interface, `SecureVault`,
for storing string secrets under string names. It has four operations:
`put`, `get`, `delete` and `exists`. This project models the two backends
that contain their own logic.

* **The JVM file vault** (`JvmSecureVault`). All secrets live in one file,
  `vault.data`. The file holds a 12-byte IV followed by the AES-GCM
  encryption, with a 128-bit tag, of the serialised map. The map is
  serialised as `name=value` records joined by newlines. The AES-256 key sits
  under the alias `VaultKey` in a PKCS#12 container, `vault.keystore`, which
  is protected by the fixed password `changeit`. The container is created
  with a freshly generated key the first time a vault is built. Every
  operation reads and decrypts the whole file. `put` and `delete` then write
  the whole file again under a new IV.
* **The Android preferences vault** (`AndroidSecureVault`). Each secret is
  two preference entries. `"vault_" + name` holds the Base64 ciphertext and
  `"vault_iv_" + name` holds the Base64 IV. The key lives in the Android key
  store and is created on first use.

Modules:

* `Results`: `Option`, `Result` and `Outcome`. They stand for Kotlin's null
  results and thrown exceptions.
* `VaultContract`: the inert `VaultOptions` and the `VaultError` kinds.
* `Crypto`: `byte`, `Key` (32 bytes), `Iv` (12 bytes), the tag length, and
  the primitives the vaults call. These are AES-GCM (`Aead`), UTF-8
  (`TextCodec`) and Base64 (`Base64Codec`). Each primitive is a value handed
  to a vault when it is built. The predicates `AeadSound`, `TextSound` and
  `Base64Sound` state the laws the real libraries obey on the values the
  model can represent:
  * opening what was sealed gives back the plaintext;
  * a sealed message is 16 bytes longer than its plaintext;
  * a ciphertext shorter than the tag never opens;
  * decoding undoes encoding.
* `SecretMap`: the JVM vault's in-memory map and its text form. Kotlin's
  `LinkedHashMap` keeps names in first-insertion order, and that order is
  the order of the records. So the map is a sequence of `Entry` values with
  distinct names, and `AsMap` gives the plain map it stands for.
* `JvmKeyStore`: loading or creating the key container, and `getSecretKey`.
* `JvmVault`: the envelope, `encrypt` and `decrypt`, `readVault` as the
  function `Contents`, and the class `JvmSecureVault`. The class has fields
  for both files and methods for the four operations.
* `AndroidVault`: the key naming, one secret's encoding, and the class
  `AndroidSecureVault`. Its preferences are a `map<string, string>` field and
  its key-store entry is an `Option<Key>` field.

Randomness is an input. The IV of each `put` or `delete` and the key that
key generation would produce are method parameters.

The model follows the code as written:

* No operation takes a lock.
* `delete` rewrites the file even when the name is absent. It also creates
  the file when none existed.
* Writing the file is one step, with nothing said about atomicity.
* Names and values are not checked for the separators. What happens when
  they contain them is shown by `NameWithSeparatorIsMisread` and
  `ValueWithNewlineIsMisread`.

The Android naming scheme has an overlap that the model proves:
`"vault_iv_" + k` is `"vault_" + ("iv_" + k)`. As a result:

* after `put(k, …)`, the name `"iv_" + k` reports as existing;
* `put("iv_" + k, …)` overwrites the IV that `get(k)` reads;
* `delete("iv_" + k)` makes `get(k)` find nothing.

## Model

| member | source | states |
|---|---|---|
| `SecretMap.AsMap` | shared/src/jvmMain/kotlin/com/pmj/securevault/SecureVault.jvm.kt:62 | the map view of a LinkedHashMap has exactly the names of its entries |
| `SecretMap.Find` | shared/src/jvmMain/kotlin/com/pmj/securevault/SecureVault.jvm.kt:43 | `map[key]` finds a value exactly when the name is present |
| `SecretMap.FindIsLookup` | shared/src/jvmMain/kotlin/com/pmj/securevault/SecureVault.jvm.kt:43 | on a map without duplicate names, `map[key]` returns the map view's value, or null when the name is absent |
| `SecretMap.Put` | shared/src/jvmMain/kotlin/com/pmj/securevault/SecureVault.jvm.kt:38 | `map[key] = value` keeps an existing name in its position and appends a new name at the end |
| `SecretMap.PutIsUpdate` | shared/src/jvmMain/kotlin/com/pmj/securevault/SecureVault.jvm.kt:38 | `map[key] = value` sets that name to the value, and every other name keeps its value |
| `SecretMap.PutDistinct` | shared/src/jvmMain/kotlin/com/pmj/securevault/SecureVault.jvm.kt:38 | `map[key] = value` never creates a duplicate name |
| `SecretMap.PutStorable` | shared/src/jvmMain/kotlin/com/pmj/securevault/SecureVault.jvm.kt:38 | putting an entry free of separators keeps every entry free of separators |
| `SecretMap.Remove` | shared/src/jvmMain/kotlin/com/pmj/securevault/SecureVault.jvm.kt:48 | `map.remove(key)` leaves the name absent, and every other name stays present exactly when it was |
| `SecretMap.RemoveIsDelete` | shared/src/jvmMain/kotlin/com/pmj/securevault/SecureVault.jvm.kt:48 | after `map.remove(key)` the map view is the old map without that name |
| `SecretMap.RemoveKeepsShape` | shared/src/jvmMain/kotlin/com/pmj/securevault/SecureVault.jvm.kt:48 | removal keeps names distinct and entries free of separators |
| `SecretMap.RemoveAbsent` | shared/src/jvmMain/kotlin/com/pmj/securevault/SecureVault.jvm.kt:48 | removing an absent name changes nothing, not even the order |
| `SecretMap.Associate` | shared/src/jvmMain/kotlin/com/pmj/securevault/SecureVault.jvm.kt:62 | `associate` gives a map without duplicate names, and entries free of separators stay so |
| `SecretMap.AsMapAt` | shared/src/jvmMain/kotlin/com/pmj/securevault/SecureVault.jvm.kt:62 | among records with the same name, the last one gives the value |
| `SecretMap.AsMapSnoc` | shared/src/jvmMain/kotlin/com/pmj/securevault/SecureVault.jvm.kt:62 | adding one more pair at the end overrides that name in the map view |
| `SecretMap.AssociateIsLastWins` | shared/src/jvmMain/kotlin/com/pmj/securevault/SecureVault.jvm.kt:62 | the map view of what `associate` builds is the map in which the last pair for each name wins |
| `SecretMap.AssociateDistinct` | shared/src/jvmMain/kotlin/com/pmj/securevault/SecureVault.jvm.kt:62 | pairs with distinct names are associated unchanged and in their own order |
| `SecretMap.JoinWith` | shared/src/jvmMain/kotlin/com/pmj/securevault/SecureVault.jvm.kt:66 | `joinToString` text starts with the first piece, followed by the separator when more pieces follow |
| `SecretMap.SplitOn` | shared/src/jvmMain/kotlin/com/pmj/securevault/SecureVault.jvm.kt:60 | `split("\n")` gives at least one piece, no piece holds the separator, and joining the pieces gives back the text |
| `SecretMap.SplitPrefix` | shared/src/jvmMain/kotlin/com/pmj/securevault/SecureVault.jvm.kt:60 | text before the first separator becomes the start of the first piece |
| `SecretMap.SplitJoin` | shared/src/jvmMain/kotlin/com/pmj/securevault/SecureVault.jvm.kt:60 | splitting undoes `joinToString` when no piece holds the separator |
| `SecretMap.SplitRecord` | shared/src/jvmMain/kotlin/com/pmj/securevault/SecureVault.jvm.kt:61 | `split("=", limit = 2)` with the size check fails exactly when there is no `=`, and otherwise cuts at the first `=` |
| `SecretMap.Pairs` | shared/src/jvmMain/kotlin/com/pmj/securevault/SecureVault.jvm.kt:61 | every entry `mapNotNull` keeps was cut at the first `=` of its record, so no name holds an `=` |
| `SecretMap.Record` | shared/src/jvmMain/kotlin/com/pmj/securevault/SecureVault.jvm.kt:66 | every written record holds an `=`, so the reader never skips it |
| `SecretMap.Records` | shared/src/jvmMain/kotlin/com/pmj/securevault/SecureVault.jvm.kt:66 | one record per entry, in the map's order |
| `SecretMap.Serialise` | shared/src/jvmMain/kotlin/com/pmj/securevault/SecureVault.jvm.kt:66 | the text `saveVault` writes is empty exactly for the empty map |
| `SecretMap.Parse` | shared/src/jvmMain/kotlin/com/pmj/securevault/SecureVault.jvm.kt:60-62 | whatever the text, `readVault` builds a map without duplicate names whose entries are free of separators |
| `SecretMap.SplitRecordOfRecord` | shared/src/jvmMain/kotlin/com/pmj/securevault/SecureVault.jvm.kt:61 | a `name=value` record with no `=` in the name splits back into that name and value, whatever `=` the value holds |
| `SecretMap.PairsAppend` | shared/src/jvmMain/kotlin/com/pmj/securevault/SecureVault.jvm.kt:61 | `mapNotNull` over two runs of records is the concatenation of the two results |
| `SecretMap.PairsOfRecords` | shared/src/jvmMain/kotlin/com/pmj/securevault/SecureVault.jvm.kt:61 | the records written for entries are parsed back into exactly those entries |
| `SecretMap.PairsStorable` | shared/src/jvmMain/kotlin/com/pmj/securevault/SecureVault.jvm.kt:61 | every entry parsed from newline-free lines is free of separators |
| `SecretMap.PairsSkipLine` | shared/src/jvmMain/kotlin/com/pmj/securevault/SecureVault.jvm.kt:61 | a record without `=` yields no entry |
| `SecretMap.PairsOfLines` | shared/src/jvmMain/kotlin/com/pmj/securevault/SecureVault.jvm.kt:60-61 | the records of joined lines are those lines, and the empty text holds no record |
| `SecretMap.ParseSerialise` | shared/src/jvmMain/kotlin/com/pmj/securevault/SecureVault.jvm.kt:60-66 | round trip: a map with distinct names, no newline or `=` in names and no newline in values parses back to itself in the same order; the empty map becomes `""`, which parses back to the empty map |
| `SecretMap.ParseSkipsLineWithoutSeparator` | shared/src/jvmMain/kotlin/com/pmj/securevault/SecureVault.jvm.kt:60-62 | lenient parsing: a line without `=` anywhere among the records is dropped |
| `SecretMap.NameWithSeparatorIsMisread` | shared/src/jvmMain/kotlin/com/pmj/securevault/SecureVault.jvm.kt:60-66 | with no escaping, a secret named `a=b` (with `=`-free `a`) holding `v` is read back as `a` holding `b=v` |
| `SecretMap.ValueWithNewlineIsMisread` | shared/src/jvmMain/kotlin/com/pmj/securevault/SecureVault.jvm.kt:60-66 | with no escaping, a value `v1` + newline + `n2=v2` is read back as two secrets, `v1` under the name and `v2` under `n2` |
| `JvmKeyStore.LoadOrCreate` | shared/src/jvmMain/kotlin/com/pmj/securevault/SecureVault.jvm.kt:18-29 | a missing container is created holding the generated key; an existing one loads unchanged when its password is `changeit`; anything else fails as a corrupt key store |
| `JvmKeyStore.SecretKey` | shared/src/jvmMain/kotlin/com/pmj/securevault/SecureVault.jvm.kt:31-34 | the key is found exactly when the store holds an entry under `VaultKey` |
| `JvmKeyStore.KeyIsStable` | shared/src/jvmMain/kotlin/com/pmj/securevault/SecureVault.jvm.kt:18-29 | a vault built again from the container an earlier one wrote gets the same store, and so the same key |
| `JvmVault.Envelope` | shared/src/jvmMain/kotlin/com/pmj/securevault/SecureVault.jvm.kt:77 | `iv + encrypted` is 12 bytes longer than the ciphertext, and splitting it at byte 12 gives back the IV and the ciphertext |
| `JvmVault.SplitEnvelope` | shared/src/jvmMain/kotlin/com/pmj/securevault/SecureVault.jvm.kt:81-82 | slicing fails exactly on inputs shorter than 12 bytes, and otherwise the two slices concatenate to the input |
| `JvmVault.Encrypt` | shared/src/jvmMain/kotlin/com/pmj/securevault/SecureVault.jvm.kt:71-78 | encryption succeeds exactly when the key is present, and then yields IV, plaintext length and tag length bytes |
| `JvmVault.Sealed` | shared/src/jvmMain/kotlin/com/pmj/securevault/SecureVault.jvm.kt:65-67 | `saveVault`'s file content exists exactly when the key is present, and is the IV, the encoded text and the tag |
| `JvmVault.Decrypt` | shared/src/jvmMain/kotlin/com/pmj/securevault/SecureVault.jvm.kt:80-87 | an input shorter than 12 bytes is rejected; plaintext is returned only when the tag verifies under the stored key |
| `JvmVault.DecryptEncrypt` | shared/src/jvmMain/kotlin/com/pmj/securevault/SecureVault.jvm.kt:71-87 | decryption recovers the IV and ciphertext that encryption concatenated, and so the plaintext |
| `JvmVault.Contents` | shared/src/jvmMain/kotlin/com/pmj/securevault/SecureVault.jvm.kt:56-63 | no file reads as the empty map; an existing file gives a map exactly when it decrypts, and the map has distinct, separator-free entries |
| `JvmVault.ShortFileIsRejected` | shared/src/jvmMain/kotlin/com/pmj/securevault/SecureVault.jvm.kt:80-86 | a file shorter than IV plus tag is an error, never the empty map |
| `JvmVault.ContentsOfSealed` | shared/src/jvmMain/kotlin/com/pmj/securevault/SecureVault.jvm.kt:56-69 | a file written by `saveVault` for a well-formed map reads back as that map |
| `JvmVault.JvmSecureVault.Open` | shared/src/jvmMain/kotlin/com/pmj/securevault/SecureVault.jvm.kt:12-29 | a keystore failure builds no vault; otherwise the vault holds the loaded store and the given vault file |
| `JvmVault.JvmSecureVault.ReadVault` | shared/src/jvmMain/kotlin/com/pmj/securevault/SecureVault.jvm.kt:56-63 | returns what the current file holds |
| `JvmVault.JvmSecureVault.SaveVault` | shared/src/jvmMain/kotlin/com/pmj/securevault/SecureVault.jvm.kt:65-69 | replaces the file with the sealed map, or leaves it alone when encryption fails |
| `JvmVault.JvmSecureVault.Put` | shared/src/jvmMain/kotlin/com/pmj/securevault/SecureVault.jvm.kt:36-40 | a read failure or a missing key leaves the file alone; otherwise the file becomes the sealed updated map, and it reads back with the name set to the value and every other name unchanged |
| `JvmVault.JvmSecureVault.Get` | shared/src/jvmMain/kotlin/com/pmj/securevault/SecureVault.jvm.kt:42-44 | with no file the result is null; an unreadable file is an error; otherwise the result is the stored value, or null when the name is absent |
| `JvmVault.JvmSecureVault.Delete` | shared/src/jvmMain/kotlin/com/pmj/securevault/SecureVault.jvm.kt:46-50 | the file becomes the sealed map without the name, and every other name is unchanged; deleting an absent name leaves the stored map unchanged |
| `JvmVault.JvmSecureVault.Exists` | shared/src/jvmMain/kotlin/com/pmj/securevault/SecureVault.jvm.kt:52-54 | with no file the result is false; an unreadable file is an error; otherwise the result is whether the name is stored |
| `JvmVault.FreshVaultScenario` | shared/src/jvmMain/kotlin/com/pmj/securevault/SecureVault.jvm.kt:36-54 | on a fresh vault: nothing exists, a put is read back, and a second put of the same name overwrites the first |
| `JvmVault.PutGetScenario` | shared/src/jvmMain/kotlin/com/pmj/securevault/SecureVault.jvm.kt:36-44 | on any readable vault, a put of a storable secret is read back by the next get, and only that name changes |
| `JvmVault.DeleteTwiceScenario` | shared/src/jvmMain/kotlin/com/pmj/securevault/SecureVault.jvm.kt:46-54 | after a delete the name does not exist, and deleting it again succeeds; the other secrets stay |
| `AndroidVault.ValueSlot` | shared/src/androidMain/kotlin/com/pmj/securevault/SecureVault.android.kt:51 | the ciphertext slot is `vault_` followed by the name, which can be read back from it |
| `AndroidVault.IvSlot` | shared/src/androidMain/kotlin/com/pmj/securevault/SecureVault.android.kt:52 | the IV slot is `vault_iv_` followed by the name, and it is also the ciphertext slot of `"iv_" + name` |
| `AndroidVault.Conceal` | shared/src/androidMain/kotlin/com/pmj/securevault/SecureVault.android.kt:45-52 | what `put` stores decodes back into the IV and, through `get`'s decoding, into the value |
| `AndroidVault.Written` | shared/src/androidMain/kotlin/com/pmj/securevault/SecureVault.android.kt:50-53 | `put`'s edit sets both slots of the name to the new strings and leaves every other entry as it was |
| `AndroidVault.Erased` | shared/src/androidMain/kotlin/com/pmj/securevault/SecureVault.android.kt:71-74 | `delete`'s edit removes both slots of the name and leaves every other entry as it was |
| `AndroidVault.SlotsAreSeparate` | shared/src/androidMain/kotlin/com/pmj/securevault/SecureVault.android.kt:51-52 | one name's two slots differ, and each kind of slot determines the name |
| `AndroidVault.SlotOverlap` | shared/src/androidMain/kotlin/com/pmj/securevault/SecureVault.android.kt:51-52 | the ciphertext slot of `a` is the IV slot of `b` exactly when `a` is `"iv_" + b` |
| `AndroidVault.Reveal` | shared/src/androidMain/kotlin/com/pmj/securevault/SecureVault.android.kt:60-67 | a string that is not Base64 is an error; a value is returned only when the tag verifies, and it is the decoded plaintext |
| `AndroidVault.WrittenTwice` | shared/src/androidMain/kotlin/com/pmj/securevault/SecureVault.android.kt:50-53 | a second `put` of a name replaces the first |
| `AndroidVault.ErasedIdempotent` | shared/src/androidMain/kotlin/com/pmj/securevault/SecureVault.android.kt:71-74 | `delete` is idempotent, and it is a no-op when both slots are absent |
| `AndroidVault.PutMakesPhantomName` | shared/src/androidMain/kotlin/com/pmj/securevault/SecureVault.android.kt:51-52 | after `put(k, …)` the ciphertext slot of `"iv_" + k` exists and holds k's IV |
| `AndroidVault.PutOverwritesNeighbourIv` | shared/src/androidMain/kotlin/com/pmj/securevault/SecureVault.android.kt:51-52 | `put("iv_" + k, …)` stores its ciphertext in the IV slot that `get(k)` reads |
| `AndroidVault.DeleteDropsNeighbourIv` | shared/src/androidMain/kotlin/com/pmj/securevault/SecureVault.android.kt:72-73 | `delete("iv_" + k)` removes the IV slot of k |
| `AndroidVault.AndroidSecureVault.GetOrCreateSecretKey` | shared/src/androidMain/kotlin/com/pmj/securevault/SecureVault.android.kt:25-42 | returns the stored key, or stores and returns the generated key when there is none; once created, the key never changes |
| `AndroidVault.AndroidSecureVault.Put` | shared/src/androidMain/kotlin/com/pmj/securevault/SecureVault.android.kt:44-54 | writes exactly the two slots of the name and nothing else; the stored pair decodes back to the value |
| `AndroidVault.AndroidSecureVault.Get` | shared/src/androidMain/kotlin/com/pmj/securevault/SecureVault.android.kt:56-68 | null when either slot is missing, without touching the key store; a Base64 failure is an error that also leaves the key store alone; otherwise the key is fetched or created and the result is the decoded value or the authentication error; an existing key never changes |
| `AndroidVault.AndroidSecureVault.Delete` | shared/src/androidMain/kotlin/com/pmj/securevault/SecureVault.android.kt:70-75 | removes exactly the two slots of the name |
| `AndroidVault.AndroidSecureVault.Exists` | shared/src/androidMain/kotlin/com/pmj/securevault/SecureVault.android.kt:77-79 | true exactly when the ciphertext slot is present, whatever the IV slot |

## Left out

- AES-GCM, UTF-8 and Base64 are not implemented. They are parameters that
  obey stated laws (round trip, tag length, short ciphertexts fail). Nothing
  is proved about the cipher itself: not confidentiality, not that a flipped
  bit is detected, and not that two encryptions differ.
- `SecureRandom`, `KeyGenerator` and the IV the Android cipher picks are not
  modelled. Their outputs are method parameters. So the model says nothing
  about nonce reuse, and a failing random source is not modelled.
- PKCS#12 is modelled only as its password and its secret-key entries:
  - the container's byte format is not modelled;
  - a per-entry password is not modelled;
  - a non-secret entry under the alias, which the Kotlin code would reject by
    its cast, is not modelled.
- `File.exists`, `readBytes` and `writeBytes` always succeed here. I/O
  errors are not modelled, and neither is a crash part-way through a write.
- `SharedPreferences.edit().apply()` takes effect at once in the model.
  Asynchronous persistence is not modelled.
- Android key generation parameters (`KeyGenParameterSpec`) are not
  modelled. Any restriction the Android key store puts on IVs at decryption
  is folded into `open`.
- Coroutines and concurrent callers are not modelled. Each operation is one
  atomic step, so the lost update between concurrent `put`/`delete` calls
  is not represented.
- Strings are sequences of Unicode scalar values, while a Kotlin `String`
  is made of UTF-16 units. A value holding an unpaired surrogate cannot be
  represented. Such a value does not survive UTF-8 encoding in the Kotlin
  code, because the encoder replaces the surrogate.
- `VaultOptions` is accepted and ignored, as in both backends.
- `VaultProvider` is not part of this model.
- The iOS Keychain backend is not part of this model.
- The Compose UI and the desktop entry point are not part of this model.
- JvmVault.JvmSecureVault.Put: the law that a `put` is read back holds only
  for names without a newline or `=` and values without a newline. Other
  inputs are written as the Kotlin code writes them, and
  `SecretMap.NameWithSeparatorIsMisread` and
  `SecretMap.ValueWithNewlineIsMisread` show what is then read back.
