# Repository persistence layer of a package registry, in Dafny

This project models the two data-access components of the cnpmcore registry
backend:

- **`UserRepository`** persists users, auth tokens and WebAuthn credentials.
  All three kinds are saved with one upsert rule. An entity without an
  internal id is inserted under a fresh key. An entity with an id updates the
  row with that id. If that row has gone, the save is a silent no-op.
  Lookups are exact-match `findOne` queries by a domain field (name, user id,
  token key, user id plus browser type). `findUserAndTokenByTokenKey` chains
  two lookups. `listTokens` is a `find`. Removals delete by the domain
  identifier (`tokenId`, `wancId`).
- **`DistRepository`** stores the artifacts of package versions (manifest,
  abbreviated manifest, readme) in a blob store addressed by path. It reads
  them back in three tiers: raw bytes, then a UTF-8 string where absent
  content becomes `""`, then parsed JSON where the empty string gives no
  value. It writes and removes blobs. It assembles a version manifest by
  setting the readme text under the manifest's `readme` key.

The model is a functional state machine. A relational bucket is a `Table`: a
sequence of rows in storage order plus an auto-increment counter. The user
store is three tables. The blob store is a `map<string, Bytes>`. Every
operation is a pure function that returns the new state and/or its result.

Modules and files:

| file | module | models |
|---|---|---|
| `wrappers.dfy` | `Wrappers` | `Option`, `Result` |
| `seqs.dfy` | `Seqs` | first-match search and order-preserving filter |
| `tables.dfy` | `Tables` | the generic upsert, `findOne`, `find`, `remove` over one bucket |
| `user_repository.dfy` | `UserRepository` | `app/repository/UserRepository.ts` |
| `json.dfy` | `Json` | parsed JSON values and property assignment (`obj.readme = …`) |
| `dist_repository.dfy` | `DistRepository` | `app/repository/DistRepository.ts` |

Parameters standing for code outside the model:

- `Decoders.utf8` stands for `Buffer.toString('utf8')`. `Decoders.parse` stands
  for `JSON.parse`, with `None` meaning a syntax error.
- The `stored` argument of `SaveDist` gives the bytes the NFS adapter keeps
  when `saveDist` hands a string to `uploadFile`. The model does not assume
  that those bytes encode the string itself.
- `Versions` is `PackageRepository.findPackageVersion`, given as a map from
  (package id, version) to the version's three descriptors.

Design points:

- Row ids are positive. Auto-increment keys start at 1, so the truthiness
  test `if (user.id)` in cnpmcore's `UserRepository` is exactly "an id is
  present".
- `saveUser`, `saveToken` and `saveCredential` return `void`. The model's
  saves also return a `SaveOutcome` tag (`Inserted(id)`, `Updated(id)`,
  `SkippedMissing`). The tag is an observation of what the save did, not a
  value the code hands back.
- `removeToken` and `removeCredential` only log the removed-row count. The
  model returns it as an observation.
- Lookups return the stored `Row`. Entity/model conversion is taken to be
  field-preserving, so the row and the decoded entity carry the same data.
- `findPackageVersionManifest` sets `readme` at line 23. Class bodies run in
  strict mode, so this throws a TypeError when the parsed manifest is
  `undefined` (no content or empty content), `null` or a primitive. The model
  reports this as `Failure(ManifestNotAnObject)`. For an array, JavaScript
  attaches a non-index property that the JSON form does not show. The model
  therefore returns the array unchanged.
- Which blobs the manifest lookups read is stated as non-interference. Two
  blob stores that agree at a version's own paths give the same result, and
  for an unknown version no blob matters at all.

## Model

| member | source | states |
|---|---|---|
| Tables.Save | app/repository/UserRepository.ts:24-33 | An id-less entity is inserted as exactly one new row under a key unused by any row, with the existing rows kept as a prefix. An entity whose id matches a row rewrites only the rows with that id, and the row count and counter stay the same. An entity whose id matches no row leaves the table unchanged and reports SkippedMissing rather than an error. Distinct, below-counter keys are preserved. |
| Tables.InsertsGetDistinctIds | app/repository/UserRepository.ts:29-31 | Two saves of id-less entities are two inserts with two distinct keys, and both rows are then stored. |
| Tables.SaveExistingIdempotent | app/repository/UserRepository.ts:25-28 | Saving an already-identified entity a second time changes nothing further. |
| Tables.FindOne | app/repository/UserRepository.ts:36-38 | `findOne` returns None iff no row's fields satisfy the filter. Otherwise it returns a stored row whose fields satisfy it. |
| Tables.FindAll | app/repository/UserRepository.ts:82-83 | `find` returns exactly the matching rows, each as many times as it is stored, as a subsequence of the table, so in storage order. |
| Tables.RemoveAll | app/repository/UserRepository.ts:76 | `remove` keeps exactly the non-matching rows, with their multiplicities and in their order. The count equals the number of matching rows. When no row matches, the table is unchanged and the count is 0, and a count of 0 happens only then. The counter and valid keys are preserved. |
| Tables.FilterKeepsValid | app/repository/UserRepository.ts:76 | Deleting rows keeps keys distinct and below the counter. |
| Seqs.FilterMultiplicity | app/repository/UserRepository.ts:82-83 | The row filter keeps each matching row exactly as often as it is stored and drops every other row. |
| Seqs.FilterIsSubsequence | app/repository/UserRepository.ts:82 | The row filter only deletes rows and never reorders those it keeps. |
| Seqs.FilterAppend | app/repository/UserRepository.ts:82 | The row filter keeps storage order: filtering a concatenation concatenates the filtered parts. |
| UserRepository.SaveUser | app/repository/UserRepository.ts:24-33 | The users table is upserted. The token and credential tables are unchanged. Store validity is preserved. |
| UserRepository.SaveToken | app/repository/UserRepository.ts:64-73 | The tokens table is upserted. The user and credential tables are unchanged. Store validity is preserved. |
| UserRepository.SaveCredential | app/repository/UserRepository.ts:86-95 | The credentials table is upserted. The user and token tables are unchanged. Store validity is preserved. |
| UserRepository.FindUserByName | app/repository/UserRepository.ts:35-39 | None iff no user row has that name. Otherwise a stored user row with that name. |
| UserRepository.FindUserByUserId | app/repository/UserRepository.ts:41-45 | None iff no user row has that userId. Otherwise a stored user row with that userId. |
| UserRepository.FindTokenByTokenKey | app/repository/UserRepository.ts:58-62 | None iff no token row has that key. Otherwise a stored token row with that key. |
| UserRepository.FindUserAndTokenByTokenKey | app/repository/UserRepository.ts:47-56 | None iff the token lookup fails or the token's owner lookup fails. Otherwise a stored token with the key and a stored user whose userId is the token's userId. |
| UserRepository.ListTokens | app/repository/UserRepository.ts:81-84 | Exactly the token rows with that userId, with their multiplicities, as a subsequence of the tokens table (storage order). |
| UserRepository.ListTokensAfterInsert | app/repository/UserRepository.ts:64-84 | Inserting a token appends it to the end of its owner's listing and leaves every other user's listing unchanged. |
| UserRepository.FindCredentialByUserIdAndBrowserType | app/repository/UserRepository.ts:97-104 | None iff no credential matches both userId and browserType exactly. Otherwise a stored credential matching both. |
| UserRepository.NullBrowserTypeMatchesOnlyNull | app/repository/UserRepository.ts:97-104 | A null browser type finds only credentials whose browserType is null. It reports none exactly when every credential of that user has a browser type. |
| UserRepository.RemoveToken | app/repository/UserRepository.ts:75-79 | Every token with that tokenId is removed, and all others are kept in their order. If no token has that tokenId, the store is unchanged, the count is 0 and there is no error. A count of 0 happens only then. The count is the number of rows removed. The other tables are unchanged and validity is preserved. |
| UserRepository.RemoveCredential | app/repository/UserRepository.ts:106-109 | Every credential with that wancId is removed, and all others are kept in their order. If no credential has that wancId, the store is unchanged, the count is 0 and there is no error. A count of 0 happens only then. The count is the number of rows removed. The other tables are unchanged and validity is preserved. |
| UserRepository.InsertedUserIsFoundByName | app/repository/UserRepository.ts:24-39 | After a new user is inserted, `findUserByName` on that name finds a user. |
| UserRepository.AliceScenario | app/repository/UserRepository.ts:24-62 | Saving alice and then her token makes each one findable by name and by key, and the composed lookup returns the pair. An unknown key finds nothing. |
| Json.SetMember | app/repository/DistRepository.ts:23 | After `obj[k] = v`, `k` reads `v` and every other key reads as before. An existing key keeps its position and a new key is appended. Unique keys stay unique. |
| Json.SetProperty | app/repository/DistRepository.ts:23 | Property assignment succeeds exactly on objects and arrays. An array's JSON image is unchanged. An object gets the property set and all others kept. |
| DistRepository.ReadDistBytes | app/repository/DistRepository.ts:48-50 | None exactly when nothing is stored at the path. Otherwise the stored bytes. |
| DistRepository.ReadDistBytesToString | app/repository/DistRepository.ts:42-46 | Absent content reads as `""`. Present content is its UTF-8 decoding. |
| DistRepository.ReadDistBytesToJson | app/repository/DistRepository.ts:35-40 | No value iff the decoded string is empty. A parse failure of non-empty text is a MalformedJson error carrying that text. Otherwise the parsed value. |
| DistRepository.SaveDist | app/repository/DistRepository.ts:52-57 | The path now holds the bytes, or the adapter's stored form of the string. Every other path keeps its content. |
| DistRepository.DestroyDist | app/repository/DistRepository.ts:59-61 | The path is gone and every other path keeps its content. |
| DistRepository.FindPackageVersionManifest | app/repository/DistRepository.ts:16-26 | An unknown version gives no value. For a known version, a malformed manifest's parse error propagates. The result is ManifestNotAnObject exactly when the parsed manifest is absent, `null` or a primitive, because strict-mode assignment of `readme` throws. An array manifest comes back unchanged. Any success carries a value. |
| DistRepository.FindPackageAbbreviatedManifest | app/repository/DistRepository.ts:28-33 | An unknown version gives no value. For a known version: no value iff the abbreviated text is empty (absent included), a MalformedJson error iff non-empty text fails to parse, and otherwise the parsed value. |
| DistRepository.VersionManifestReadsOnlyItsBlobs | app/repository/DistRepository.ts:16-26 | Stores that agree at a known version's manifest and readme paths give the same manifest. For an unknown version, no blob affects the result. |
| DistRepository.AbbreviatedManifestReadsOnlyItsBlob | app/repository/DistRepository.ts:28-33 | Stores that agree at a known version's abbreviated path give the same result. For an unknown version, no blob affects the result. |
| DistRepository.AbsentContentReadsAsNothing | app/repository/DistRepository.ts:35-50 | A path with no content gives None bytes, an empty string and no JSON value. |
| DistRepository.EmptyContentLooksAbsent | app/repository/DistRepository.ts:42-46 | Content that decodes to `""` looks the same as no content in the string and JSON tiers. Only the bytes tier tells them apart. |
| DistRepository.SaveThenReadBytes | app/repository/DistRepository.ts:48-57 | Bytes written with `saveDist` are read back unchanged. |
| DistRepository.SaveUploadThenReadString | app/repository/DistRepository.ts:42-57 | A string handed to `uploadFile` reads back as that string only under the explicit hypothesis that decoding undoes the adapter's stored form. The backend need not satisfy this, for example when the string names a file. |
| DistRepository.SaveLeavesOtherPaths | app/repository/DistRepository.ts:35-57 | A write leaves all three read tiers of every other path unchanged. |
| DistRepository.DestroyThenAbsent | app/repository/DistRepository.ts:35-61 | After `destroyDist` the path reads as absent in every tier and other paths are unchanged. Destroying again changes nothing. |
| DistRepository.ManifestCarriesReadme | app/repository/DistRepository.ts:16-26 | For a known version whose manifest is an object, the result is that object with `readme` set to the readme string, which may be `""`. An existing `readme` is overwritten in place and every other member is kept. |
| DistRepository.MissingManifestFails | app/repository/DistRepository.ts:19-23 | For a known version whose manifest content is absent or empty, setting `readme` fails: the result is ManifestNotAnObject, never a manifest. |

## Left out

- `downloadDist` (DistRepository.ts:63-65): whether it returns a URL or a stream is decided by the NFS adapter, which is not part of this model.
- Backend failures: the blob store and the tables are total in-memory values, so I/O errors from the NFS adapter or the ORM are not modelled. The TypeScript code only lets them propagate.
- Logging (`this.logger.info`) and the dependency-injection decorators: these are wiring only.
- `ModelConvertor` is not part of this model. Entities carry only the fields the lookups use (User: userId and name; Token: tokenId, tokenKey and userId; credential: wancId, userId and browserType). Conversion is taken to be field-preserving. Timestamps and the other columns are not modelled.
- Database unique indexes and failed inserts: inserts always succeed. When several rows match, `findOne` returns the first in storage order, whereas the database may pick any matching row.
- The auto-increment counter is modelled as never reusing a key. The database's exact key sequence is not modelled.
- UTF-8 decoding, `JSON.parse` and what `uploadFile` stores for a string are function parameters. No round trip through them is claimed except under the explicit hypothesis of `SaveUploadThenReadString`.
- `Decoders.parse` is unconstrained, so it may return an object with duplicate keys. `JSON.parse` never does, because the last duplicate wins. `Json.Get` and `Json.SetMember` act on the first occurrence, and `DistRepository.ManifestCarriesReadme` describes the result through `Get`. Uniqueness is kept by `SetMember` but not assumed of the parser.
- JSON numbers are kept as their literal text. Floating point is not modelled.
- The `Promise.all` in `findPackageVersionManifest` is modelled sequentially. Both reads are pure, so order does not matter.
