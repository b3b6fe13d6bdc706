# PortForwardingGUI core in Dafny

A model of the two non-GUI parts of PortForwardingGUI, a desktop tool that
manages SSH local-port-forwarding tunnels and keeps them in a password-encrypted
session file.

- **Tunnel entity** (`src/SSHTunnel.py`), in `sshtunnel.dfy`, module `SshTunnel`.
  A tunnel has nine configuration fields and an optional handle on an SSH
  forwarder. The constructor falls back to `host_ip` when `server_ip` is falsy.
  `start`, `stop` and `is_active` form a small state machine over the handle.
  `to_dict` produces the nine-key record. The function `IsActive` is
  `is_active` (src/SSHTunnel.py:86-89): false without a handle, otherwise the
  handle's own liveness flag. The contracts of the other operations state their
  effect through it.
- **Session store** (`save_tunnels` and `load_tunnels`), in `session.dfy`, module
  `Session`. Saving maps the tunnels to a JSON array of `to_dict` records and
  encrypts it. Loading decrypts, parses and calls `SSHTunnel(**d)` for each
  record. `FromKeywords` models that keyword call, with its defaults and errors.
- **Password envelope** (`src/encryption.py`), in `encryption.dfy`, module
  `Encryption`, with `pkcs7.dfy` and `base64.dfy`. The format is
  `base64(salt[16] || iv[16] || AES-CBC(PKCS#7(message)))`.
  - Padding follows section 6.3 of RFC 5652 with a 16-byte block.
  - Base64 follows section 4 of RFC 4648.
  - Key derivation is PBKDF2-HMAC-SHA256 (section 5.2 of RFC 8018), with
    100000 iterations and a 32-byte key.
  - The block mode is AES-CBC (section 6.2 of NIST SP 800-38A).

The following are concrete: padding, Base64, and the blob layout with Python's
clamping slices.

The following are parameters:
- PBKDF2 and AES-CBC are the function fields of a `CipherSuite`. The ghost
  predicate `LawfulSuite` states the only facts used about them:
  - the key has the requested length;
  - CBC preserves length on whole blocks;
  - CBC decryption inverts encryption under the same key and IV.
- JSON text (with UTF-8) is a `Json.Codec`. `LawfulCodec` states that loading
  what was dumped gives the same value back.
- The salt and IV from `os.urandom(16)` are arguments.
- Whether the forwarder's constructor succeeds, whether its start succeeds,
  and whether its stop raises are boolean arguments.
- Key derivation is deterministic because it is a function.

Behaviour of the code worth knowing:
- `stop` does not catch an exception from the forwarder's stop. The handle is
  then not cleared, and the error propagates (`Stop` with `teardownRaises`).
- When the forwarder's constructor raises in `start`, nothing is assigned and
  the tunnel keeps no handle (`BuildFailed`). When the forwarder's own start
  raises, the newly built, inactive handle is kept (`ConnectionFailed`). In
  both cases the library's exception propagates unwrapped.
- `server_ip` can be empty after construction, exactly when `host_ip` is empty
  and `server_ip` is falsy (`ServerIpEmptyOnlyWithHostIp`).
- Ports are not range-checked by the tunnel entity.
- There is no explicit check that the blob is at least 32 bytes long. A shorter
  blob yields an IV shorter than 16 bytes, which the cipher library rejects
  (`InvalidIvSize`).
- A ciphertext that is not whole blocks is rejected by the decryptor
  (`IncompleteBlock`).

## Model

| member | source | states |
|---|---|---|
| `SshTunnel.NewTunnel` | src/SSHTunnel.py:15-54 | every field is stored as given, except that a None or empty `server_ip` becomes `host_ip`; a new tunnel has no handle and is inactive |
| `SshTunnel.ServerIpEmptyOnlyWithHostIp` | src/SSHTunnel.py:53 | the constructed `server_ip` is empty if and only if `host_ip` is empty and the `server_ip` argument is falsy |
| `SshTunnel.IsActive` | src/SSHTunnel.py:86-89 | a tunnel without a handle is inactive; with a handle it is active exactly when the handle reports itself active |
| `SshTunnel.Start` | src/SSHTunnel.py:56-75 | an existing handle is reused and a missing one is built from (server_ip, server_port), (host_ip, host_port), (local_ip, local_port), user and password; when that construction raises, the tunnel is left unchanged without a handle; an active tunnel is left untouched; afterwards the tunnel is active iff it was already active or it has a handle and the forwarder's start succeeded, and an error is raised otherwise; the configuration never changes |
| `SshTunnel.Stop` | src/SSHTunnel.py:77-84 | unless an active forwarder's stop raises, the handle is cleared and the tunnel is inactive; an inactive tunnel always clears and never raises; the configuration never changes |
| `SshTunnel.StartIdempotent` | src/SSHTunnel.py:60-73 | starting a tunnel that a start left active returns the same tunnel and raises nothing |
| `SshTunnel.StopIdempotent` | src/SSHTunnel.py:81-89 | a second stop after a successful stop is a no-op that cannot raise |
| `SshTunnel.StartAfterStopBuildsFreshHandle` | src/SSHTunnel.py:60-83 | after a stop, start behaves as on a new tunnel: when the construction succeeds, its forwarder is built from the configuration |
| `SshTunnel.Lifecycle` | src/SSHTunnel.py:54-89 | new: inactive; after a successful start: active; after stop: inactive; a second stop does not raise |
| `SshTunnel.ToDict` | src/SSHTunnel.py:99-110 | the record has exactly the keys name, local_ip, local_port, host_ip, host_port, server_port, user, password and server_ip; each key holds its own field, the three ports as numbers and the rest as strings |
| `Session.FromKeywords` | src/SSHTunnel.py:15-53 | `SSHTunnel(**d)` succeeds iff every key is a constructor parameter, every required one is present and the values are well typed; an unknown key is reported first; each keyword fills the field of the same name, and an absent name, local_ip or server_port takes "", "127.0.0.1" or 22; a missing, null or empty server_ip gives host_ip; a non-empty one is kept |
| `Session.FromKeywordsToDict` | src/SSHTunnel.py:99-110 | rebuilding a tunnel from its own `to_dict` record succeeds and keeps every field, except that an empty server_ip becomes host_ip |
| `Session.FromRecords` | src/SSHTunnel.py:149 | a successful comprehension gives one tunnel per array element, in order, each the one `SSHTunnel(**d)` builds from that element and without a handle; so one element that is not a mapping or does not rebuild fails the whole load |
| `Session.FromJson` | src/SSHTunnel.py:148-149 | an array gives exactly what the comprehension `FromRecords` gives over its elements; an empty object or empty string gives no tunnels; a non-empty object or string fails because its keys or characters are not mappings; null, a boolean or a number cannot be iterated; every loaded tunnel is inactive |
| `Session.Records` | src/SSHTunnel.py:126 | an array holding, at each position, the `to_dict` record of the tunnel at that position |
| `Session.SaveTunnels` | src/SSHTunnel.py:113-129 | the saved text is the Base64 of the given salt, the given IV and the ciphertext of the JSON encoding of the records; under lawful primitives, decrypting it with the same password gives that JSON encoding back |
| `Session.FreshValuesGiveDistinctSessions` | src/SSHTunnel.py:126-128 | saving the same tunnels twice with a different salt or IV writes different files |
| `Session.LoadTunnels` | src/SSHTunnel.py:132-149 | a decryption failure propagates unchanged; a plaintext that is not JSON fails; otherwise the result is the comprehension over the parsed value; every loaded tunnel has no handle and is inactive |
| `Session.FromRecordsEach` | src/SSHTunnel.py:149 | when every record rebuilds, the comprehension succeeds with those tunnels in the same order |
| `Session.FromRecordsOfRecords` | src/SSHTunnel.py:126-149 | the records of a tunnel list rebuild, in order, to the same configurations with an empty server_ip replaced by host_ip and no handle |
| `Session.LoadSaved` | src/SSHTunnel.py:126-148 | loading saved text undoes the encryption and the JSON encoding exactly |
| `Session.SaveLoadRoundTrip` | src/SSHTunnel.py:113-149 | loading what was saved with the same password gives the same number of tunnels in the same order, all inactive, with every field equal except that an empty server_ip comes back as host_ip |
| `Session.SaveLoadExact` | src/SSHTunnel.py:113-149 | when no server_ip is empty, the loaded list is the saved list with every handle dropped |
| `Session.ReloadIsStable` | src/SSHTunnel.py:126-149 | saving and loading the loaded list again, with any salt and IV, gives the same list |
| `Pkcs7.PadLength` | src/encryption.py:51-52 | the pad length k lies in 1..16 and brings the length to a multiple of 16 |
| `Pkcs7.Pad` | src/encryption.py:50-52 | the padded message is the message followed by pad bytes whose value is the number of bytes added; its length is a positive multiple of 16 exceeding the message length by 1 to 16 |
| `Pkcs7.Unpad` | src/encryption.py:98-100 | unpadding succeeds iff the input is whole blocks whose last byte k is 1..16 and whose last k bytes all equal k; a result pads back to the input |
| `Pkcs7.PadOfStripped` | src/encryption.py:99-100 | padding what unpadding keeps reproduces the padded input |
| `Pkcs7.UnpadPad` | src/encryption.py:52 | unpadding inverts padding |
| `Base64.Encode` | src/encryption.py:64 | the text is 4·⌈n/3⌉ characters long, all from the alphabet or `=` |
| `Base64.Decode` | src/encryption.py:82 | an accepted text has a length that is a multiple of 4 and yields between 3·(len/4) − 2 and 3·(len/4) bytes, at least one when the text is non-empty |
| `Base64.DecodeEncode` | src/encryption.py:64 | decoding inverts encoding on every byte string |
| `Base64.EncodeInjective` | src/encryption.py:64 | distinct byte strings encode to distinct texts |
| `Base64.Rfc4648Groups` | src/encryption.py:64 | the single, double and triple byte groups of "foobar" encode as section 10 of RFC 4648 lists them |
| `Base64.Rfc4648Vectors` | src/encryption.py:64 | the encoder reproduces the test vectors of section 10 of RFC 4648, from "" to "Zm9vYmFy" |
| `Base64.Rfc4648DecodeVector` | src/encryption.py:82 | the decoder reads "Zm9vYmFy" back as "foobar" |
| `Encryption.DeriveKey` | src/encryption.py:10-29 | under lawful primitives, the key has the requested length, 32 bytes by default |
| `Encryption.Split` | src/encryption.py:86-88 | the slices `[:16]`, `[16:32]` and `[32:]` concatenate back to the blob; they are 16 and 16 bytes long for a blob of at least 32 bytes; for a shorter blob the IV is short and the ciphertext is empty |
| `Encryption.SplitJoin` | src/encryption.py:86-88 | splitting salt ++ iv ++ ciphertext with 16-byte salt and IV recovers the three parts exactly |
| `Encryption.Seal` | src/encryption.py:46-61 | the envelope keeps the given salt and IV; under lawful primitives, the ciphertext is as long as the padded message |
| `Encryption.SealLayout` | src/encryption.py:46-64 | the blob that the text decodes to begins with the salt, then the IV; it is 32 + the padded length bytes long, a multiple of 16 after the first 32 and at least 48 |
| `Encryption.Encrypt` | src/encryption.py:32-64 | the text decodes from Base64 to salt ++ iv ++ ciphertext |
| `Encryption.Decrypt` | src/encryption.py:67-102 | invalid Base64 fails; a blob under 32 bytes fails on the IV size; a ciphertext that is not whole blocks fails as incomplete; otherwise decryption succeeds exactly when the CBC output is validly padded, fails on the padding when it is not, and a result pads back to that output; under lawful primitives, a success means the blob is 32 + 16n bytes with n ≥ 1 and the message is 1 to 16 bytes shorter than the ciphertext |
| `Encryption.DecryptEncrypt` | src/encryption.py:32-102 | decrypting with the same password gives the message back |
| `Encryption.FreshValuesGiveDistinctTexts` | src/encryption.py:46-48 | encryptions with a different salt or a different IV give different texts |

## Left out

- The Qt windows and dialogs, the argument parsing and logging setup, the
  logging calls, and `__str__` are left out. They are presentation code.
- Reading and writing the session file is left out: save returns the text and
  load takes it.
- JSON lexing and printing are left out, and so are UTF-8 encoding and
  decoding, including the `decode()` at the end of `decrypt`. They form the
  abstract codec. Only the password and the encrypted message, where the
  source calls `.encode()` and `.decode()`, are byte sequences; the tunnel
  fields and the Base64 text are strings of characters.
- The internals of PBKDF2-HMAC-SHA256 and AES are left out. Only the laws of
  `LawfulSuite` are assumed.
- Wrong passwords are not modelled. There is no MAC, so no property can be
  stated about decrypting with a different password: the result may be a
  padding error, a JSON error or a wrong tunnel list.
- Random salt and IV generation is left out. They are arguments.
- Network behaviour of the forwarder is left out. Its success or failure is a
  boolean argument, and liveness changing on its own (a dropped connection) is
  not an operation of the model.
- Concurrency is left out. All operations are sequential.
- Port ranges are left out. The 1..65535 limit exists only in the GUI spin
  boxes.
- `Session.FromKeywords`: the model rejects a JSON value of the wrong type for
  a field (`IllTypedValue`), whereas Python stores whatever value it is given.
  In particular a JSON boolean in a port field is rejected, although Python
  would store `True` or `False`, which are integers. `Json.Value` has no
  floating-point constructor, so a JSON float cannot be represented at all.
- `Base64.Decode`: the model is the strict decoder of RFC 4648. Python's
  default `b64decode` also skips characters outside the alphabet and tolerates
  some padding irregularities. Those lenient inputs are not modelled.
- `SshTunnel.Stop`: when the forwarder's stop raises, the model leaves the
  handle exactly as it was. The forwarder's own state after a failed teardown
  is not modelled.
