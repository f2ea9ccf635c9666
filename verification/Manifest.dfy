/**
  The bundle documents: the manifest, authenticated by its hash, and the signed pointer that names it.
  */
module Manifest {
  import opened Common
  import opened Json
  import opened Sorting

  datatype ChunkRef = ChunkRef(hash: Digest, size: int)

  datatype FileEntry = FileEntry(
    path: string, fileType: Option<string>, size: int, fileSha256: Digest, chunks: seq<ChunkRef>)

  // `metadata` lists its members in key order, each value a scalar.
  datatype IndexManifest = IndexManifest(
    schemaVersion: int, bundleId: string, version: string, files: seq<FileEntry>, metadata: seq<Member>)

  datatype VersionPointer = VersionPointer(
    manifestHash: Digest, version: string,
    bundleId: Option<string>, channel: Option<string>, sequence: Option<nat>,
    keyId: Option<string>, expiresAt: Option<nat>, signature: string)

  // ------------------------------------------------------------------------ documents with gaps

  // One field of a document; None leaves it out.
  datatype Field = Field(key: string, value: Option<Json>)

  /** The members of the fields that are set, in order. */
  function SetFields(fields: seq<Field>): seq<Member> {
    if fields == [] then []
    else (if fields[0].value.Some? then [Member(fields[0].key, fields[0].value.value)] else []) + SetFields(fields[1..])
  }

  ghost predicate SameKeys(a: seq<Field>, b: seq<Field>) {
    |a| == |b| && forall i :: 0 <= i < |a| ==> a[i].key == b[i].key
  }

  ghost predicate DistinctKeys(a: seq<Field>) {
    forall i, j :: 0 <= i < j < |a| ==> a[i].key != a[j].key
  }

  lemma {:induction false} SetKeysAreKeys(a: seq<Field>, key: string)
    requires forall i :: 0 <= i < |a| ==> a[i].key != key
    ensures forall i :: 0 <= i < |SetFields(a)| ==> SetFields(a)[i].key != key
  {
    if a != [] {
      SetKeysAreKeys(a[1..], key);
    }
  }

  /** The members determine every field, set or not. */
  lemma {:induction false} SetFieldsInjective(a: seq<Field>, b: seq<Field>)
    requires SameKeys(a, b) && DistinctKeys(a) && SetFields(a) == SetFields(b)
    ensures a == b
  {
    if a != [] {
      SetKeysAreKeys(a[1..], a[0].key);
      SetKeysAreKeys(b[1..], a[0].key);
      assert a[0].value.None? ==> SetFields(a) == SetFields(a[1..]);
      assert b[0].value.None? ==> SetFields(b) == SetFields(b[1..]);
      assert a[0].value.Some? ==> SetFields(a)[0].key == a[0].key && SetFields(a)[1..] == SetFields(a[1..]);
      assert b[0].value.Some? ==> SetFields(b)[0].key == a[0].key && SetFields(b)[1..] == SetFields(b[1..]);
      SetFieldsInjective(a[1..], b[1..]);
      assert a == [a[0]] + a[1..] && b == [b[0]] + b[1..];
    }
  }

  /** A member is there exactly when its field is set to that value. */
  lemma {:induction false} SetFieldsMembers(fields: seq<Field>, key: string, value: Json)
    ensures Member(key, value) in SetFields(fields) <==> Field(key, Some(value)) in fields
  {
    if fields != [] {
      SetFieldsMembers(fields[1..], key, value);
      var first := if fields[0].value.Some? then [Member(fields[0].key, fields[0].value.value)] else [];
      assert SetFields(fields) == first + SetFields(fields[1..]);
      assert fields == [fields[0]] + fields[1..];
    }
  }

  function StringOf(value: Option<string>): Option<Json> {
    match value
    case None => None
    case Some(s) => Some(JString(s))
  }

  function NumberOf(value: Option<nat>): Option<Json> {
    match value
    case None => None
    case Some(n) => Some(JInt(n))
  }

  function OrNull(value: Option<Json>): Option<Json> {
    match value
    case None => Some(JNull)
    case Some(_) => value
  }

  // -------------------------------------------------------------------------- the signed preimage

  /** Every signed field in key order. */
  function SignedFields(p: VersionPointer): seq<Field> {
    [Field("bundle_id", StringOf(p.bundleId)), Field("channel", StringOf(p.channel)),
     Field("expires_at", NumberOf(p.expiresAt)), Field("key_id", StringOf(p.keyId)),
     Field("manifest_hash", Some(JString(p.manifestHash))), Field("sequence", NumberOf(p.sequence)),
     Field("version", Some(JString(p.version)))]
  }

  /** `pointer_signing_bytes`. */
  function SigningBytes(p: VersionPointer): Bytes {
    CanonicalBytes(JObject(SetFields(SignedFields(p))))
  }

  /** What is signed, key by key: the hash and the version always, the others when they are set. */
  lemma SignedKeyByKey(p: VersionPointer, key: string, value: Json)
    ensures Member(key, value) in SetFields(SignedFields(p)) <==>
              || (key == "manifest_hash" && value == JString(p.manifestHash))
              || (key == "version" && value == JString(p.version))
              || (key == "bundle_id" && p.bundleId.Some? && value == JString(p.bundleId.value))
              || (key == "channel" && p.channel.Some? && value == JString(p.channel.value))
              || (key == "sequence" && p.sequence.Some? && value == JInt(p.sequence.value))
              || (key == "key_id" && p.keyId.Some? && value == JString(p.keyId.value))
              || (key == "expires_at" && p.expiresAt.Some? && value == JInt(p.expiresAt.value))
  {
    SetFieldsMembers(SignedFields(p), key, value);
    hide SetFields;
  }

  lemma SignedKeysDistinct(p: VersionPointer)
    ensures DistinctKeys(SignedFields(p))
  {
    var f := SignedFields(p);
    assert f[0].key[0] == 'b' && f[1].key[0] == 'c' && f[2].key[0] == 'e' && f[3].key[0] == 'k';
    assert f[4].key[0] == 'm' && f[5].key[0] == 's' && f[6].key[0] == 'v';
  }

  /** Equal preimages mean every signed field is equal, in its value and in whether it is set. */
  lemma SigningBytesInjective(p: VersionPointer, q: VersionPointer)
    requires SigningBytes(p) == SigningBytes(q)
    ensures p.(signature := "") == q.(signature := "")
  {
    hide SetFields, CanonicalBytes;
    CanonicalBytesInjective(JObject(SetFields(SignedFields(p))), JObject(SetFields(SignedFields(q))));
    SignedKeysDistinct(p);
    SetFieldsInjective(SignedFields(p), SignedFields(q));
    var f, g := SignedFields(p), SignedFields(q);
    assert forall i :: 0 <= i < 7 ==> f[i] == g[i];
    assert f[0] == g[0] && f[1] == g[1] && f[2] == g[2] && f[3] == g[3] && f[4] == g[4] && f[5] == g[5] && f[6] == g[6];
  }

  ghost predicate KeysAscend(members: seq<Member>) {
    forall i :: 0 < i < |members| ==> Precedes(members[i - 1].key, members[i].key)
  }

  /** Whatever is unset, the members come out sorted by key: sorting them again changes nothing. */
  lemma SigningMembersAscend(p: VersionPointer)
    ensures KeysAscend(SetFields(SignedFields(p)))
  {
    SetFieldsAscend(SignedFields(p));
  }

  ghost predicate LeadsAscend(f: seq<Field>) {
    && (forall i :: 0 <= i < |f| ==> f[i].key != "")
    && (forall i, j :: 0 <= i < j < |f| ==> f[i].key[0] < f[j].key[0])
  }

  lemma {:induction false} SetKeysAbove(f: seq<Field>, c: char)
    requires forall i :: 0 <= i < |f| ==> f[i].key != "" && c < f[i].key[0]
    ensures forall i :: 0 <= i < |SetFields(f)| ==> SetFields(f)[i].key != "" && c < SetFields(f)[i].key[0]
  {
    if f != [] {
      SetKeysAbove(f[1..], c);
    }
  }

  lemma {:induction false} SetFieldsAscend(f: seq<Field>)
    requires LeadsAscend(f)
    ensures KeysAscend(SetFields(f))
  {
    if f != [] {
      SetKeysAbove(f[1..], f[0].key[0]);
      SetFieldsAscend(f[1..]);
      var rest, all := SetFields(f[1..]), SetFields(f);
      forall i | 0 < i < |all| ensures Precedes(all[i - 1].key, all[i].key) {
        if f[0].value.Some? {
          assert all[i] == rest[i - 1];
          assert i > 1 ==> all[i - 1] == rest[i - 2];
        } else {
          assert all == rest;
        }
      }
    }
  }

  lemma TwoMembersText(first: Member, second: Member)
    ensures Print(JObject([first, second])) == "{" + MemberText(first, "," + MemberText(second, "}"))
  {
    var members := [first, second];
    assert members[1..] == [second] && [second][1..] == [];
    assert Members([], "") == "}";
    assert Members([second], "") == "," + MemberText(second, "}");
  }

  lemma LegacyMembers(p: VersionPointer)
    requires p.bundleId.None? && p.channel.None? && p.sequence.None? && p.keyId.None? && p.expiresAt.None?
    ensures SetFields(SignedFields(p)) ==
            [Member("manifest_hash", JString(p.manifestHash)), Member("version", JString(p.version))]
  {
    var f := SignedFields(p);
    assert SetFields(f[7..]) == [];
    assert SetFields(f[6..]) == [Member("version", JString(p.version))] by { assert f[6..][1..] == f[7..]; }
    assert SetFields(f[5..]) == SetFields(f[6..]) by { assert f[5..][1..] == f[6..]; }
    assert SetFields(f[4..]) == [Member("manifest_hash", JString(p.manifestHash))] + SetFields(f[5..]) by {
      assert f[4..][1..] == f[5..];
    }
    assert SetFields(f[3..]) == SetFields(f[4..]) by { assert f[3..][1..] == f[4..]; }
    assert SetFields(f[2..]) == SetFields(f[3..]) by { assert f[2..][1..] == f[3..]; }
    assert SetFields(f[1..]) == SetFields(f[2..]) by { assert f[1..][1..] == f[2..]; }
  }

  /** With no optional field set, the preimage is the two-field form of the first release. */
  lemma LegacyPreimage(p: VersionPointer)
    requires p.bundleId.None? && p.channel.None? && p.sequence.None? && p.keyId.None? && p.expiresAt.None?
    ensures SigningBytes(p) ==
            Utf8("{" + Quoted("manifest_hash", ":" + Quoted(p.manifestHash, "," + Quoted("version", ":" + Quoted(p.version, "}")))))
  {
    LegacyMembers(p);
    hide SetFields, SignedFields, Quoted;
    TwoMembersText(Member("manifest_hash", JString(p.manifestHash)), Member("version", JString(p.version)));
  }

  // ------------------------------------------------------------------------------- the wire form

  /** The serialized pointer: older optional fields are written as null, keyring fields vanish. */
  function WireFields(p: VersionPointer): seq<Field> {
    [Field("manifest_hash", Some(JString(p.manifestHash))), Field("version", Some(JString(p.version))),
     Field("bundle_id", OrNull(StringOf(p.bundleId))), Field("channel", OrNull(StringOf(p.channel))),
     Field("sequence", OrNull(NumberOf(p.sequence))), Field("key_id", StringOf(p.keyId)),
     Field("expires_at", NumberOf(p.expiresAt)), Field("signature", Some(JString(p.signature)))]
  }

  function WireBytes(p: VersionPointer): Bytes {
    CanonicalBytes(JObject(SetFields(WireFields(p))))
  }

  /** What is served, key by key: the first three optional fields may be null, the last two are left out. */
  lemma WireKeyByKey(p: VersionPointer, key: string, value: Json)
    ensures Member(key, value) in SetFields(WireFields(p)) <==>
              || (key == "manifest_hash" && value == JString(p.manifestHash))
              || (key == "version" && value == JString(p.version))
              || (key == "signature" && value == JString(p.signature))
              || (key == "bundle_id" && value == if p.bundleId.Some? then JString(p.bundleId.value) else JNull)
              || (key == "channel" && value == if p.channel.Some? then JString(p.channel.value) else JNull)
              || (key == "sequence" && value == if p.sequence.Some? then JInt(p.sequence.value) else JNull)
              || (key == "key_id" && p.keyId.Some? && value == JString(p.keyId.value))
              || (key == "expires_at" && p.expiresAt.Some? && value == JInt(p.expiresAt.value))
  {
    SetFieldsMembers(WireFields(p), key, value);
    hide SetFields;
  }

  lemma WireKeysDistinct(p: VersionPointer)
    ensures DistinctKeys(WireFields(p))
  {
    var f := WireFields(p);
    assert f[0].key[0] == 'm' && f[1].key[0] == 'v' && f[2].key[0] == 'b' && f[3].key[0] == 'c';
    assert f[4].key[1] == 'e' && f[5].key[0] == 'k' && f[6].key[0] == 'e' && f[7].key[1] == 'i';
    assert f[4].key[0] == 's' && f[7].key[0] == 's';
  }

  /** The serialized pointer determines the pointer, omitted fields included. */
  lemma WireBytesInjective(p: VersionPointer, q: VersionPointer)
    requires WireBytes(p) == WireBytes(q)
    ensures p == q
  {
    hide SetFields, CanonicalBytes;
    CanonicalBytesInjective(JObject(SetFields(WireFields(p))), JObject(SetFields(WireFields(q))));
    WireKeysDistinct(p);
    SetFieldsInjective(WireFields(p), WireFields(q));
    var f, g := WireFields(p), WireFields(q);
    assert f[0] == g[0] && f[1] == g[1] && f[2] == g[2] && f[3] == g[3];
    assert f[4] == g[4] && f[5] == g[5] && f[6] == g[6] && f[7] == g[7];
  }

  // --------------------------------------------------------------------------------- the manifest

  function ChunkRefJson(r: ChunkRef): Json {
    JObject([Member("hash", JString(r.hash)), Member("size", JInt(r.size))])
  }

  function FileEntryJson(e: FileEntry): Json {
    JObject([Member("chunks", JArray(seq(|e.chunks|, i requires 0 <= i < |e.chunks| => ChunkRefJson(e.chunks[i])))),
             Member("file_sha256", JString(e.fileSha256)),
             Member("file_type", if e.fileType.Some? then JString(e.fileType.value) else JNull),
             Member("path", JString(e.path)),
             Member("size", JInt(e.size))])
  }

  function ManifestJson(m: IndexManifest): Json {
    JObject([Member("bundle_id", JString(m.bundleId)),
             Member("files", JArray(seq(|m.files|, i requires 0 <= i < |m.files| => FileEntryJson(m.files[i])))),
             Member("metadata", JObject(m.metadata)),
             Member("schema_version", JInt(m.schemaVersion)),
             Member("version", JString(m.version))])
  }

  /** `canonical_bytes` of a manifest. */
  function ManifestBytes(m: IndexManifest): Bytes {
    CanonicalBytes(ManifestJson(m))
  }

  ghost predicate Holds(document: Json, key: string, value: Json) {
    document.JObject? && Member(key, value) in document.members
  }

  /** The manifest document, key by key down to the chunk references, each object in key order. */
  lemma ManifestKeyByKey(m: IndexManifest, key: string, value: Json)
    ensures Holds(ManifestJson(m), key, value) <==>
              || (key == "schema_version" && value == JInt(m.schemaVersion))
              || (key == "bundle_id" && value == JString(m.bundleId))
              || (key == "version" && value == JString(m.version))
              || (key == "metadata" && value == JObject(m.metadata))
              || (key == "files" && value.JArray? && |value.items| == |m.files| &&
                  forall i :: 0 <= i < |m.files| ==> value.items[i] == FileEntryJson(m.files[i]))
    ensures KeysAscend(ManifestJson(m).members)
  {
    var members := ManifestJson(m).members;
    var items := seq(|m.files|, i requires 0 <= i < |m.files| => FileEntryJson(m.files[i]));
    SameItems(value, items);
    hide FileEntryJson;
    assert members[0].key[0] < members[1].key[0] < members[2].key[0] < members[3].key[0] < members[4].key[0];
  }

  lemma FileEntryKeyByKey(e: FileEntry, key: string, value: Json)
    ensures Holds(FileEntryJson(e), key, value) <==>
              || (key == "path" && value == JString(e.path))
              || (key == "size" && value == JInt(e.size))
              || (key == "file_sha256" && value == JString(e.fileSha256))
              || (key == "file_type" && value == if e.fileType.Some? then JString(e.fileType.value) else JNull)
              || (key == "chunks" && value.JArray? && |value.items| == |e.chunks| &&
                  forall i :: 0 <= i < |e.chunks| ==>
                    value.items[i] == JObject([Member("hash", JString(e.chunks[i].hash)),
                                               Member("size", JInt(e.chunks[i].size))]))
  {
    hide KeysAscend, Precedes;
    var items := seq(|e.chunks|, i requires 0 <= i < |e.chunks| => ChunkRefJson(e.chunks[i]));
    SameItems(value, items);
  }

  lemma SameItems(value: Json, items: seq<Json>)
    ensures value == JArray(items) <==>
              value.JArray? && |value.items| == |items| && forall i :: 0 <= i < |items| ==> value.items[i] == items[i]
  {
  }

  lemma FileKeysAscend(e: FileEntry)
    ensures KeysAscend(FileEntryJson(e).members)
  {
    hide Precedes;
    FileKeysOrdered();
    SharedKeyOrdered();
  }

  lemma FileKeysOrdered()
    ensures Precedes("chunks", "file_sha256") && Precedes("file_type", "path") && Precedes("path", "size")
  {
  }

  lemma SharedKeyOrdered()
    ensures Precedes("file_sha256", "file_type")
  {
    assert Precedes("sha256", "type");
    hide Precedes;
    var shared := "file_";
    PrecedesAfter(shared, "sha256", "type");
    assert shared + "sha256" == "file_sha256" && shared + "type" == "file_type";
  }

  lemma {:induction false} PrecedesAfter(shared: string, a: string, b: string)
    requires Precedes(a, b)
    ensures Precedes(shared + a, shared + b)
  {
    if shared == "" {
      assert shared + a == a && shared + b == b;
    } else {
      PrecedesAfter(shared[1..], a, b);
      assert (shared + a)[1..] == shared[1..] + a && (shared + b)[1..] == shared[1..] + b;
    }
  }

  lemma ChunkRefJsonInjective(a: ChunkRef, b: ChunkRef)
    requires ChunkRefJson(a) == ChunkRefJson(b)
    ensures a == b
  {
    assert ChunkRefJson(a).members[0] == ChunkRefJson(b).members[0];
    assert ChunkRefJson(a).members[1] == ChunkRefJson(b).members[1];
  }

  lemma FileEntryJsonInjective(a: FileEntry, b: FileEntry)
    requires FileEntryJson(a) == FileEntryJson(b)
    ensures a == b
  {
    var x, y := FileEntryJson(a).members, FileEntryJson(b).members;
    assert x[0] == y[0] && x[1] == y[1] && x[2] == y[2] && x[3] == y[3] && x[4] == y[4];
    var xs, ys := x[0].value.items, y[0].value.items;
    forall i | 0 <= i < |a.chunks| ensures a.chunks[i] == b.chunks[i] {
      assert xs[i] == ys[i];
      ChunkRefJsonInjective(a.chunks[i], b.chunks[i]);
    }
  }

  /** Equal canonical bytes mean equal manifests: the hash a pointer signs fixes every file and chunk. */
  lemma ManifestBytesInjective(a: IndexManifest, b: IndexManifest)
    requires ManifestBytes(a) == ManifestBytes(b)
    ensures a == b
  {
    CanonicalBytesInjective(ManifestJson(a), ManifestJson(b));
    var x, y := ManifestJson(a).members, ManifestJson(b).members;
    assert x[0] == y[0] && x[1] == y[1] && x[2] == y[2] && x[3] == y[3] && x[4] == y[4];
    var xs, ys := x[1].value.items, y[1].value.items;
    forall i | 0 <= i < |a.files| ensures a.files[i] == b.files[i] {
      assert xs[i] == ys[i];
      FileEntryJsonInjective(a.files[i], b.files[i]);
    }
  }

  // ------------------------------------------------------------------------------------ freshness

  /** `is_fresh_sequence`. */
  predicate IsFreshSequence(incoming: VersionPointer, active: VersionPointer) {
    active.sequence.None? || (incoming.sequence.Some? && incoming.sequence.value > active.sequence.value)
  }

  /** `is_expired`, at a clock reading in Unix seconds. */
  predicate IsExpired(p: VersionPointer, now: real) {
    p.expiresAt.Some? && now >= p.expiresAt.value as real
  }
}
