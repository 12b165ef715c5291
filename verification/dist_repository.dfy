/** The distribution content store: artifacts addressed by a descriptor's
    path in a blob store, read back in three tiers (bytes, UTF-8 text, JSON),
    written, removed, and combined into a package version's manifest. The
    blob store is a map from path to bytes; UTF-8 decoding and the JSON
    parser are supplied as functions, as is the version lookup. */
module DistRepository {
  import opened Wrappers
  import opened Json

  type Byte = b: int | 0 <= b < 256
  type Bytes = seq<Byte>

  /** The backend's contents: path to stored bytes. */
  type Blobs = map<string, Bytes>

  /** A distribution descriptor; only its path addresses storage. */
  datatype Dist = Dist(path: string)

  /** What `saveDist` accepts: bytes, or a string that is handed unchanged to
      the backend's `uploadFile`. What the backend then keeps at the path is
      its own affair; the `stored` argument of `SaveDist` says which bytes. */
  datatype Payload = Binary(bytes: Bytes) | Upload(file: string)

  /** UTF-8 decoding and `JSON.parse` (None for a syntax error). */
  datatype Decoders = Decoders(utf8: Bytes -> string, parse: string -> Option<Json>)

  datatype PackageVersion = PackageVersion(manifestDist: Dist, readmeDist: Dist, abbreviatedDist: Dist)

  /** The version lookup: (package id, version) to the version's descriptors. */
  type Versions = map<(string, string), PackageVersion>

  datatype Error =
    | MalformedJson(text: string)   // JSON.parse rejected non-empty stored text
    | ManifestNotAnObject           // `readme` could not be set on the manifest

  /** Two blob stores hold the same content (or none) at path `p`. */
  predicate AgreeAt(b1: Blobs, b2: Blobs, p: string) {
    (p in b1 <==> p in b2) && (p in b1 ==> b1[p] == b2[p])
  }

  // ---- the three read tiers ----

  function ReadDistBytes(blobs: Blobs, dist: Dist): (r: Option<Bytes>)
    ensures r.None? <==> dist.path !in blobs
    ensures r.Some? ==> r.value == blobs[dist.path]
  {
    if dist.path in blobs then Some(blobs[dist.path]) else None
  }

  /** Absent content reads as the empty string; present bytes are decoded. */
  function ReadDistBytesToString(blobs: Blobs, dec: Decoders, dist: Dist): (r: string)
    ensures dist.path !in blobs ==> r == ""
    ensures dist.path in blobs ==> r == dec.utf8(blobs[dist.path])
  {
    match ReadDistBytes(blobs, dist)
    case None => ""
    case Some(bytes) => dec.utf8(bytes)
  }

  /** No value for an empty string (absent content included); otherwise the
      parse, whose failure is an error. */
  function ReadDistBytesToJson(blobs: Blobs, dec: Decoders, dist: Dist): (r: Result<Option<Json>, Error>)
    ensures var text := ReadDistBytesToString(blobs, dec, dist);
      && (r == Success(None) <==> text == "")
      && (r.Failure? <==> text != "" && dec.parse(text).None?)
      && (r.Failure? ==> r.error == MalformedJson(text))
      && (r.Success? && r.value.Some? ==> dec.parse(text) == r.value)
  {
    var text := ReadDistBytesToString(blobs, dec, dist);
    if text == "" then Success(None)
    else
      match dec.parse(text)
      case None => Failure(MalformedJson(text))
      case Some(value) => Success(Some(value))
  }

  // ---- writes ----

  /** Overwrite the content at the descriptor's path. */
  function SaveDist(blobs: Blobs, stored: string -> Bytes, dist: Dist, payload: Payload): (r: Blobs)
    ensures r.Keys == blobs.Keys + {dist.path}
    ensures r[dist.path] == if payload.Binary? then payload.bytes else stored(payload.file)
    ensures forall p :: p in blobs && p != dist.path ==> r[p] == blobs[p]
  {
    match payload
    case Upload(file) => blobs[dist.path := stored(file)]
    case Binary(bytes) => blobs[dist.path := bytes]
  }

  /** Remove the content at the descriptor's path; a missing path is fine. */
  function DestroyDist(blobs: Blobs, dist: Dist): (r: Blobs)
    ensures r.Keys == blobs.Keys - {dist.path}
    ensures forall p :: p in r ==> r[p] == blobs[p]
  {
    blobs - {dist.path}
  }

  // ---- per-version manifests ----

  /** The version's manifest with the readme text set under `readme`. The two
      blobs are read independently (cnpmcore's `DistRepository` reads them
      concurrently with `Promise.all`). */
  function FindPackageVersionManifest(versions: Versions, blobs: Blobs, dec: Decoders,
                                      packageId: string, version: string): (r: Result<Option<Json>, Error>)
    ensures (packageId, version) !in versions ==> r == Success(None)
    ensures (packageId, version) in versions ==>
      var manifest := ReadDistBytesToJson(blobs, dec, versions[(packageId, version)].manifestDist);
      && (r.Success? ==> r.value.Some?)
      && (manifest.Failure? ==> r == manifest)
      // strict-mode assignment throws on undefined, null and primitives
      && (manifest.Success? ==>
            (r == Failure(ManifestNotAnObject) <==>
               !(manifest.value.Some? && (manifest.value.value.JObject? || manifest.value.value.JArray?))))
      // an array takes the property invisibly: its JSON image is unchanged
      && (manifest.Success? && manifest.value.Some? && manifest.value.value.JArray? ==> r == manifest)
  {
    if (packageId, version) !in versions then Success(None)
    else
      var pv := versions[(packageId, version)];
      var manifest := ReadDistBytesToJson(blobs, dec, pv.manifestDist);
      var readme := ReadDistBytesToString(blobs, dec, pv.readmeDist);
      match manifest
      case Failure(e) => Failure(e)
      case Success(value) =>
        match SetProperty(value, "readme", JString(readme))
        case Failure(_) => Failure(ManifestNotAnObject)
        case Success(merged) => Success(Some(merged))
  }

  /** The version's abbreviated manifest, without any merge. */
  function FindPackageAbbreviatedManifest(versions: Versions, blobs: Blobs, dec: Decoders,
                                          packageId: string, version: string): (r: Result<Option<Json>, Error>)
    ensures (packageId, version) !in versions ==> r == Success(None)
    ensures (packageId, version) in versions ==>
      var text := ReadDistBytesToString(blobs, dec, versions[(packageId, version)].abbreviatedDist);
      && (r == Success(None) <==> text == "")
      && (r.Failure? <==> text != "" && dec.parse(text).None?)
      && (r.Failure? ==> r.error == MalformedJson(text))
      && (r.Success? && r.value.Some? ==> dec.parse(text) == r.value)
  {
    if (packageId, version) !in versions then Success(None)
    else ReadDistBytesToJson(blobs, dec, versions[(packageId, version)].abbreviatedDist)
  }

  // ---- properties relating several operations ----

  /** All three tiers of a path with no content: no bytes, the empty string,
      no JSON value. */
  lemma AbsentContentReadsAsNothing(blobs: Blobs, dec: Decoders, dist: Dist)
    requires dist.path !in blobs
    ensures ReadDistBytes(blobs, dist) == None
    ensures ReadDistBytesToString(blobs, dec, dist) == ""
    ensures ReadDistBytesToJson(blobs, dec, dist) == Success(None)
  {
  }

  /** Stored content that decodes to the empty string is indistinguishable
      from no content at all in the string and JSON tiers. */
  lemma EmptyContentLooksAbsent(blobs: Blobs, dec: Decoders, dist: Dist)
    requires dist.path in blobs && dec.utf8(blobs[dist.path]) == ""
    ensures ReadDistBytesToString(blobs, dec, dist) == ReadDistBytesToString(DestroyDist(blobs, dist), dec, dist)
    ensures ReadDistBytesToJson(blobs, dec, dist) == ReadDistBytesToJson(DestroyDist(blobs, dist), dec, dist)
    ensures ReadDistBytes(blobs, dist) != ReadDistBytes(DestroyDist(blobs, dist), dist)
  {
  }

  /** Bytes written are the bytes read back. */
  lemma SaveThenReadBytes(blobs: Blobs, stored: string -> Bytes, dist: Dist, bytes: Bytes)
    ensures ReadDistBytes(SaveDist(blobs, stored, dist, Binary(bytes)), dist) == Some(bytes)
  {
  }

  /** A string handed to `uploadFile` reads back as that same string only
      under the stated hypothesis on the backend, which nothing here
      guarantees: if the string names a file to upload, the backend stores the
      file's contents and the hypothesis fails. */
  lemma SaveUploadThenReadString(blobs: Blobs, stored: string -> Bytes, dec: Decoders, dist: Dist, file: string)
    requires dec.utf8(stored(file)) == file
    ensures ReadDistBytesToString(SaveDist(blobs, stored, dist, Upload(file)), dec, dist) == file
  {
  }

  /** A write to one path leaves every tier of every other path as it was. */
  lemma SaveLeavesOtherPaths(blobs: Blobs, stored: string -> Bytes, dec: Decoders,
                             dist: Dist, payload: Payload, other: Dist)
    requires other.path != dist.path
    ensures var blobs' := SaveDist(blobs, stored, dist, payload);
      && ReadDistBytes(blobs', other) == ReadDistBytes(blobs, other)
      && ReadDistBytesToString(blobs', dec, other) == ReadDistBytesToString(blobs, dec, other)
      && ReadDistBytesToJson(blobs', dec, other) == ReadDistBytesToJson(blobs, dec, other)
  {
  }

  /** After a removal the path reads as absent in every tier; other paths
      read as before; removing twice is removing once. */
  lemma DestroyThenAbsent(blobs: Blobs, dec: Decoders, dist: Dist, other: Dist)
    requires other.path != dist.path
    ensures var blobs' := DestroyDist(blobs, dist);
      && ReadDistBytes(blobs', dist) == None
      && ReadDistBytesToString(blobs', dec, dist) == ""
      && ReadDistBytesToJson(blobs', dec, dist) == Success(None)
      && ReadDistBytes(blobs', other) == ReadDistBytes(blobs, other)
      && DestroyDist(blobs', dist) == blobs'
  {
  }

  /** For an existing version whose manifest parses to an object, the result is
      that object with `readme` set to the readme text (possibly empty):
      an existing `readme` member is overwritten in place, a missing one is
      appended, every other member is kept. */
  lemma ManifestCarriesReadme(versions: Versions, blobs: Blobs, dec: Decoders,
                              packageId: string, version: string, members: seq<Member>)
    requires (packageId, version) in versions
    requires ReadDistBytesToJson(blobs, dec, versions[(packageId, version)].manifestDist) == Success(Some(JObject(members)))
    ensures var readme := ReadDistBytesToString(blobs, dec, versions[(packageId, version)].readmeDist);
      var r := FindPackageVersionManifest(versions, blobs, dec, packageId, version);
      && r.Success? && r.value.Some? && r.value.value.JObject?
      && Get(r.value.value.members, "readme") == Some(JString(readme))
      && (forall k :: k != "readme" ==> Get(r.value.value.members, k) == Get(members, k))
      && Keys(r.value.value.members) ==
           if Get(members, "readme").Some? then Keys(members) else Keys(members) + ["readme"]
  {
  }

  /** An existing version whose manifest blob is missing or empty has nothing
      to set `readme` on: the lookup fails rather than returning a manifest. */
  lemma MissingManifestFails(versions: Versions, blobs: Blobs, dec: Decoders, packageId: string, version: string)
    requires (packageId, version) in versions
    requires ReadDistBytesToString(blobs, dec, versions[(packageId, version)].manifestDist) == ""
    ensures FindPackageVersionManifest(versions, blobs, dec, packageId, version) == Failure(ManifestNotAnObject)
  {
  }

  /** A version manifest depends only on the manifest and readme blobs of that
      version: stores that agree at those two paths give the same answer, and
      for an unknown version no blob matters at all. */
  lemma VersionManifestReadsOnlyItsBlobs(versions: Versions, b1: Blobs, b2: Blobs, dec: Decoders,
                                         packageId: string, version: string)
    requires (packageId, version) in versions ==>
      && AgreeAt(b1, b2, versions[(packageId, version)].manifestDist.path)
      && AgreeAt(b1, b2, versions[(packageId, version)].readmeDist.path)
    ensures FindPackageVersionManifest(versions, b1, dec, packageId, version)
         == FindPackageVersionManifest(versions, b2, dec, packageId, version)
  {
  }

  /** An abbreviated manifest depends only on the abbreviated blob of that
      version, and on no blob for an unknown version. */
  lemma AbbreviatedManifestReadsOnlyItsBlob(versions: Versions, b1: Blobs, b2: Blobs, dec: Decoders,
                                            packageId: string, version: string)
    requires (packageId, version) in versions ==>
      AgreeAt(b1, b2, versions[(packageId, version)].abbreviatedDist.path)
    ensures FindPackageAbbreviatedManifest(versions, b1, dec, packageId, version)
         == FindPackageAbbreviatedManifest(versions, b2, dec, packageId, version)
  {
  }
}
