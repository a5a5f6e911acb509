# filepond-plugin-zip, modelled in Dafny

The FilePond zip plugin compresses each file a FilePond widget is about to
hand on into a zip archive. It keeps the archives in a module-level cache
keyed by the SHA-256 digest of the file's bytes, so identical content is
compressed only once per session. This project models the plugin's own logic
in `src/js/index.js`:

- `hex.dfy`, module `Hex`: the digest-to-hex rendering inside
  `generateFileIdentifier` (`byte.toString(16).padStart(2, '0')`, joined).
  It models `toString(16)` (`Radix16`) and `padStart` (`PadStart`), and
  renders each byte as the two-digit pair `ByteToHex`; `map` is `Pairs` and
  `join('')` is `Join`. A lemma proves that `PadStart(Radix16(b), 2)` is
  `ByteToHex(b)`, and another (`ToHexAsWritten`) that the rendering equals
  the map-pad-join chain spelled out call by call. It adds a
  decoder (`FromHex`) as the encoder's partner. This is the base16 encoding
  of section 8 of RFC 4648, with the lowercase alphabet.
- `zip_plugin.dfy`, module `ZipPlugin`: the `SHOULD_PREPARE_OUTPUT` gate,
  the content identifier, and the `PREPARE_OUTPUT` filter. The filter is a
  method of class `Plugin`, whose field `zipped` is the cache. The host
  item is class `Item`; the filter writes the `fileSize` metadata there.
- `wrappers.dfy`, module `Wrappers`: `Option` and `Result`.

External code is a function-valued constant of `Plugin`, set
when the plugin is built:

- `sha256`: `crypto.subtle.digest('SHA-256', …)`, returning 32 bytes.
- `archive`: JSZip. Given the entry name and bytes, it returns the archive
  bytes or a `ZipError`.
- `isFile`: the host's `utils.isFile`.

A ghost counter `compressions` counts archiver runs. With it the contracts
can say when compression does not happen. A ghost map `origin` records each
cached entry's source. `Plugin.Valid()` requires every entry to be exactly
what compressing its source stores under its identifier.

The code keeps its order: the identifier is computed and the cache checked
(index.js:36-39) before the `isFile` test (index.js:41). So a non-file whose
bytes were zipped before also gets the cached artifact. A cache hit on a file
with the same bytes but a different name returns the artifact named after
the first file.

Three facts about the code:

- The option's declared default is `true` (index.js:121).
- Nothing in the code makes the artifact's size positive, so the model does
  not claim it.
- A cache hit does not write `fileSize` again (index.js:37-39).

## Model

| member | source | states |
|---|---|---|
| Hex.Radix16 | src/js/index.js:11 | `toString(16)` writes at least one digit, all lowercase hexadecimal, and starts with `0` only for zero (no leading zeros) |
| Hex.PadStart | src/js/index.js:11 | `padStart` yields `width` characters when the string is shorter (otherwise the string itself), ends with the original and is zero-filled in front |
| Hex.ByteToHexIsPaddedRadix | src/js/index.js:11 | the pair written for a byte, its high-nibble digit then its low-nibble digit, is exactly `byte.toString(16).padStart(2, '0')` |
| Hex.ByteToHex | src/js/index.js:11 | the string written for one byte has two lowercase hexadecimal characters, and starts with the padding `0` exactly when the byte is below 16 |
| Hex.Digit | src/js/index.js:11 | the digit `toString(16)` writes for a value below 16 is a lowercase hexadecimal digit |
| Hex.Pairs | src/js/index.js:11 | every element of `hashArray.map(...)` is a two-character string |
| Hex.Join | src/js/index.js:11 | `join('')` begins with the first part, and over two-character parts it is exactly twice as long as the parts list |
| Hex.JoinPairsAt | src/js/index.js:11 | `join('')` of two-character parts is twice as long as the parts list and puts part i at characters 2i and 2i+1 |
| Hex.ToHexPair | src/js/index.js:10-11 | characters 2i and 2i+1 of the rendering are the pair of byte i |
| Hex.ToHex | src/js/index.js:10-11 | the rendering is exactly twice as long as the byte sequence |
| Hex.ToHexAsWritten | src/js/index.js:10-11 | the rendering equals `hashArray.map(byte => byte.toString(16).padStart(2, '0')).join('')`, with `Radix16`, `PadStart` and `Join` applied per byte as the source writes them |
| Hex.ToHexAt | src/js/index.js:10-11 | characters 2i and 2i+1 are the two digits of byte i, and read as a base-16 number they give byte i back |
| Hex.ToHexIsLowerHex | src/js/index.js:11 | every character of the rendering is in `0-9a-f` |
| Hex.DigitValue | src/js/index.js:11 | a character has a digit value exactly when it is a lowercase hexadecimal digit, and that value renders back to it |
| Hex.PairValue | src/js/index.js:11 | two characters decode to a byte exactly when both are lowercase digits, and that byte renders back to the pair |
| Hex.FromHex | src/js/index.js:10-11 | a decoded string is twice as long as the bytes decoded from it |
| Hex.FromHexToHex | src/js/index.js:10-11 | decoding the rendering of any byte sequence gives that sequence back |
| Hex.ToHexFromHex | src/js/index.js:10-11 | whatever the decoder accepts is the rendering of the bytes it returns |
| Hex.FromHexExactlyRenderings | src/js/index.js:10-11 | the decoder accepts a string with result `bytes` if and only if the string is the rendering of `bytes` |
| Hex.ToHexInjective | src/js/index.js:10-11 | two byte sequences render to the same string if and only if they are equal |
| ZipPlugin.FileIdentifier | src/js/index.js:5-14 | the identifier is 64 lowercase hexadecimal characters |
| ZipPlugin.FileIdentifierInjective | src/js/index.js:5-14 | two contents share an identifier if and only if their digests are equal |
| ZipPlugin.Blob.Size | src/js/index.js:60 | the `size` of a file is zero exactly when it holds no bytes |
| ZipPlugin.Artifact | src/js/index.js:59 | the artifact `new File([content], name + '.zip', { type: 'application/zip' })` has type `application/zip`, holds exactly the archive bytes (so its size is their count), and its name is the source name followed by `.zip` |
| ZipPlugin.ShouldPrepareOutput | src/js/index.js:20-30 | the gate is `allowFileZip && type != "application/zip"`: false when zipping is off and false for zip archives |
| ZipPlugin.Item.SetMetadata | src/js/index.js:60 | the item's metadata gains the key with the value; other keys keep their values |
| ZipPlugin.Plugin.constructor | src/js/index.js:3 | the cache starts empty and satisfies the cache invariant |
| ZipPlugin.Plugin.CacheShape | src/js/index.js:36-39 | every cache key is a 64-character lowercase hexadecimal identifier, and every cached artifact has type `application/zip` and a name ending in `.zip` |
| ZipPlugin.Plugin.PrepareOutput | src/js/index.js:32-67 | keeps the cache invariant. Hit: resolves with the stored artifact; cache, metadata and compression count unchanged. Non-file miss: resolves with the item; nothing changes. File miss: exactly one compression. Success: one new entry at the identifier, named `name + ".zip"` with type `application/zip`; `fileSize` set to its size; returns it. Failure: rejects with the archiver's error; cache and metadata unchanged |
| ZipPlugin.PrepareSameContentTwice | src/js/index.js:36-39 | once a call resolves with an artifact, a second call with the same bytes resolves with that same artifact, and at most one compression ran over both calls |
| ZipPlugin.RetryAfterFailure | src/js/index.js:50-65 | after a rejected compression no entry exists for the identifier, so the next call with the same file runs the archiver again; with the archiver a fixed function, that call rejects with the same error and the cache stays as it was |

## Left out

- SHA-256 and `file.arrayBuffer()` (index.js:6-7): a platform call. `sha256` is an arbitrary deterministic function to 32 bytes. A read error of the byte source, or a digest failure, is not modelled. In the source such an error is thrown inside the async executor of `new Promise` (index.js:35-36), so the filter's promise is never settled rather than rejected; an exception from `zip.file` (index.js:48), which sits outside the `try`, leaves the promise unsettled in the same way.
- JSZip construction and DEFLATE level-9 serialisation (index.js:45-58): a third-party library. `archive` is an arbitrary deterministic function that returns bytes or fails. The real library writes the current date into the archive, so two real compressions of one file can differ in bytes. The model does not capture that.
- RetryAfterFailure: archiver failures are permanent in the model, because `archive` is a fixed function of entry name and bytes. Its conjuncts that the retry fails again and leaves no entry hold only for that reason. The source writes nothing to the cache on failure, so a real retry after a transient failure may succeed; the part of the contract that does not depend on determinism is that the archiver runs again.
- Sensitivity of the identifier to any change of content: this rests on SHA-256 collision resistance, which an abstract digest cannot express. The model proves only that identifiers are equal exactly when digests are (`FileIdentifierInjective`).
- The host's `isFile` test: a host utility, so it is the `isFile` parameter.
- Reference identity of `File` objects: artifacts are values. "The same artifact" means an equal value here, not the same object.
- Promises and `async`: calls are modelled as sequential. The race where two concurrent calls for the same content both miss the cache is not modelled.
- The truthiness test `if (zipped[fileId])` is modelled as key membership. A stored `File` is always truthy, and a 64-character hexadecimal key never names an inherited property of a plain object.
- The `CREATE_VIEW` writers (index.js:69-117): DOM queries and text edits through host utilities (`text`, `toNaturalFileSize`) that are not shown.
- `console.error` (index.js:63), the `FilePond:pluginloaded` event (index.js:126-130), and option registration (index.js:119-123): host plumbing.
- rollup.config.js: build configuration with no logic.
