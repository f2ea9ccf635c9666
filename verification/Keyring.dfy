/**
  The trust root: a ring of public keys named by id, some revoked; its two edits; and the verifier
  that reads it.  Signatures and key ids are given by functions of which nothing is assumed but shape.
  */
module Keyring {
  import opened Common
  import opened Json
  import opened Sorting

  const MAX_KEYRING_KEYS: nat := 64
  const MAX_REVOKED_KEY_IDS: nat := 1024
  const MAX_TRUST_ROOT_BYTES: nat := 64 * 1024
  const ED25519_PUBLIC_KEY_BYTES: nat := 32
  const KEY_ID_HEX_CHARS: nat := 16

  // Ed25519 and the key-id derivation; two keys may share an id.
  datatype Ed25519 = Ed25519(
    keyIdOf: Bytes -> string, isPublicKey: Bytes -> bool, verifies: (Bytes, Bytes, string) -> bool)
  {
    ghost predicate WellShaped() {
      && (forall key: Bytes :: isPublicKey(key) ==> |key| == ED25519_PUBLIC_KEY_BYTES)
      && (forall key: Bytes :: IsKeyId(keyIdOf(key)))
    }
  }

  predicate IsLowerHex(s: string) {
    forall i :: 0 <= i < |s| ==> '0' <= s[i] <= '9' || 'a' <= s[i] <= 'f'
  }

  /** `validate_key_id`. */
  predicate IsKeyId(s: string) {
    |s| == KEY_ID_HEX_CHARS && IsLowerHex(s)
  }

  datatype KeyringEntry = KeyringEntry(keyId: string, publicKey: Bytes)

  datatype Ring = Ring(keys: seq<KeyringEntry>, revoked: seq<string>) {
    predicate IsRevoked(id: string) {
      id in revoked
    }

    /** The first key held under `id`, revoked or not. */
    function PublicKey(id: string): Option<Bytes> {
      FirstKey(keys, id)
    }

    function ActiveKeys(): seq<KeyringEntry> {
      Kept(keys, revoked, false)
    }

    function RevokedKeys(): seq<KeyringEntry> {
      Kept(keys, revoked, true)
    }
  }

  function FirstKey(keys: seq<KeyringEntry>, id: string): Option<Bytes> {
    if keys == [] then None
    else if keys[0].keyId == id then Some(keys[0].publicKey)
    else FirstKey(keys[1..], id)
  }

  function Kept(keys: seq<KeyringEntry>, revoked: seq<string>, want: bool): seq<KeyringEntry> {
    if keys == [] then []
    else (if (keys[0].keyId in revoked) == want then [keys[0]] else []) + Kept(keys[1..], revoked, want)
  }

  const ID_OF := (e: KeyringEntry) => e.keyId
  const ITSELF := (s: string) => s

  /** What every parsed or built ring satisfies. */
  predicate ValidRing(ed: Ed25519, r: Ring) {
    && 1 <= |r.keys| <= MAX_KEYRING_KEYS
    && |r.revoked| <= MAX_REVOKED_KEY_IDS
    && (forall i :: 0 <= i < |r.keys| ==>
          ed.isPublicKey(r.keys[i].publicKey) && r.keys[i].keyId == ed.keyIdOf(r.keys[i].publicKey) && IsKeyId(r.keys[i].keyId))
    && (forall i :: 0 <= i < |r.revoked| ==> IsKeyId(r.revoked[i]))
    && (forall i, j :: 0 <= i < j < |r.keys| ==> r.keys[i].keyId != r.keys[j].keyId)
    && (forall i, j :: 0 <= i < j < |r.revoked| ==> r.revoked[i] != r.revoked[j])
    && r.ActiveKeys() != []
  }

  datatype KeyringError = WrongLength | Revoked | AlreadyHeld | BadKeyId | InvalidRing | TooLarge | Malformed

  /** Canonical order: keys and revocations sorted by id. */
  function Canonical(r: Ring): Ring {
    Ring(SortBy(r.keys, ID_OF), SortBy(r.revoked, ITSELF))
  }

  /** `_ring`: sort, then validate. */
  function Build(ed: Ed25519, keys: seq<KeyringEntry>, revoked: seq<string>): Result<Ring, KeyringError> {
    var r := Canonical(Ring(keys, revoked));
    if ValidRing(ed, r) then Ok(r) else Err(InvalidRing)
  }

  function AddKey(ed: Ed25519, r: Ring, publicKey: Bytes): Result<Ring, KeyringError> {
    if |publicKey| != ED25519_PUBLIC_KEY_BYTES then Err(WrongLength)
    else
      var id := ed.keyIdOf(publicKey);
      if r.IsRevoked(id) then Err(Revoked)
      else if r.PublicKey(id).Some? then Err(AlreadyHeld)
      else Build(ed, r.keys + [KeyringEntry(id, publicKey)], r.revoked)
  }

  function RevokeKey(ed: Ed25519, r: Ring, id: string): Result<Ring, KeyringError> {
    if !IsKeyId(id) then Err(BadKeyId)
    else if r.IsRevoked(id) then Ok(r)
    else Build(ed, r.keys, r.revoked + [id])
  }

  // ------------------------------------------------------------------------------ reading a ring

  ghost predicate Holds(r: Ring, id: string, key: Bytes) {
    KeyringEntry(id, key) in r.keys
  }

  lemma {:induction false} FirstKeyIsHeld(keys: seq<KeyringEntry>, id: string)
    ensures FirstKey(keys, id).Some? ==> KeyringEntry(id, FirstKey(keys, id).value) in keys
    ensures FirstKey(keys, id).None? <==> forall e :: e in keys ==> e.keyId != id
  {
    if keys != [] {
      FirstKeyIsHeld(keys[1..], id);
      assert keys == [keys[0]] + keys[1..];
      assert keys[0] == KeyringEntry(keys[0].keyId, keys[0].publicKey);
    }
  }

  /** With distinct ids, the key found under an id is the one held under it. */
  lemma FirstKeyIsTheKey(ed: Ed25519, r: Ring, id: string, key: Bytes)
    requires ValidRing(ed, r)
    ensures r.PublicKey(id) == Some(key) <==> Holds(r, id, key)
  {
    FirstKeyIsHeld(r.keys, id);
    if Holds(r, id, key) && r.PublicKey(id).Some? {
      var i :| 0 <= i < |r.keys| && r.keys[i] == KeyringEntry(id, key);
      var j :| 0 <= j < |r.keys| && r.keys[j] == KeyringEntry(id, r.PublicKey(id).value);
      assert i == j;
    }
  }

  lemma {:induction false} KeptMembers(keys: seq<KeyringEntry>, revoked: seq<string>, want: bool)
    ensures forall e :: e in Kept(keys, revoked, want) <==> e in keys && (e.keyId in revoked) == want
  {
    if keys != [] {
      KeptMembers(keys[1..], revoked, want);
      assert keys == [keys[0]] + keys[1..];
    }
  }

  // ---------------------------------------------------------------------------- what edits produce

  /** `b` holds `a`'s keys plus `more`, and its revocations plus `gone`, in canonical order. */
  ghost predicate Extends(a: Ring, b: Ring, more: set<KeyringEntry>, gone: set<string>) {
    && (forall e :: e in b.keys <==> e in a.keys || e in more)
    && (forall id :: id in b.revoked <==> id in a.revoked || id in gone)
  }

  lemma BuildResult(ed: Ed25519, a: Ring, keys: seq<KeyringEntry>, revoked: seq<string>)
    requires ValidRing(ed, a)
    requires keys == a.keys || (exists e :: keys == a.keys + [e])
    requires revoked == a.revoked || (exists id :: revoked == a.revoked + [id])
    ensures Build(ed, keys, revoked).Ok? ==>
              && ValidRing(ed, Build(ed, keys, revoked).value)
              && (forall e :: e in Build(ed, keys, revoked).value.keys <==> e in keys)
              && (forall id :: id in Build(ed, keys, revoked).value.revoked <==> id in revoked)
  {
    SortByKeeps(keys, ID_OF);
    SortByKeeps(revoked, ITSELF);
  }

  lemma AddKeyExtends(ed: Ed25519, r: Ring, key: Bytes)
    requires ValidRing(ed, r) && AddKey(ed, r, key).Ok?
    ensures var b := AddKey(ed, r, key).value;
            && ValidRing(ed, b)
            && Extends(r, b, {KeyringEntry(ed.keyIdOf(key), key)}, {})
            && !r.IsRevoked(ed.keyIdOf(key)) && r.PublicKey(ed.keyIdOf(key)) == None
  {
    BuildResult(ed, r, r.keys + [KeyringEntry(ed.keyIdOf(key), key)], r.revoked);
  }

  lemma RevokeKeyExtends(ed: Ed25519, r: Ring, id: string)
    requires ValidRing(ed, r) && RevokeKey(ed, r, id).Ok?
    ensures var b := RevokeKey(ed, r, id).value;
            ValidRing(ed, b) && Extends(r, b, {}, {id}) && b.IsRevoked(id)
  {
    if !r.IsRevoked(id) {
      BuildResult(ed, r, r.keys, r.revoked + [id]);
    }
  }

  lemma CanonicalOrder(ed: Ed25519, r: Ring)
    requires ValidRing(ed, r)
    ensures Ascending(Canonical(r).keys, ID_OF) && Ascending(Canonical(r).revoked, ITSELF)
    ensures |Canonical(r).keys| == |r.keys| && |Canonical(r).revoked| == |r.revoked|
    ensures Extends(r, Canonical(r), {}, {})
  {
    SortByKeeps(r.keys, ID_OF);
    SortByKeeps(r.revoked, ITSELF);
  }

  lemma OrderIsDistinct(r: Ring)
    requires Ascending(r.keys, ID_OF) && Ascending(r.revoked, ITSELF)
    ensures forall i, j :: 0 <= i < j < |r.keys| ==> r.keys[i].keyId != r.keys[j].keyId
    ensures forall i, j :: 0 <= i < j < |r.revoked| ==> r.revoked[i] != r.revoked[j]
  {
    AscendingIsUnique(r.keys, ID_OF);
    AscendingIsUnique(r.revoked, ITSELF);
    assert forall i, j :: 0 <= i < j < |r.keys| ==> ID_OF(r.keys[i]) != ID_OF(r.keys[j]);
    assert forall i, j :: 0 <= i < j < |r.revoked| ==> ITSELF(r.revoked[i]) != ITSELF(r.revoked[j]);
  }

  lemma CanonicalIsValid(ed: Ed25519, r: Ring)
    requires ValidRing(ed, r)
    ensures ValidRing(ed, Canonical(r)) && Extends(r, Canonical(r), {}, {})
  {
    var c := Canonical(r);
    CanonicalOrder(ed, r);
    OrderIsDistinct(c);
    hide Canonical, Ascending;
    assert forall i :: 0 <= i < |c.keys| ==> c.keys[i] in r.keys;
    assert forall i :: 0 <= i < |c.revoked| ==> c.revoked[i] in r.revoked;
    KeptMembers(r.keys, r.revoked, false);
    KeptMembers(c.keys, c.revoked, false);
    HeadMember(r.ActiveKeys());
    assert r.ActiveKeys()[0] in c.ActiveKeys();
  }

  /** Revoking is refused exactly for a malformed id, a full list, or the last key left unrevoked. */
  lemma RevokeSucceedsExactlyWhen(ed: Ed25519, r: Ring, id: string)
    requires ValidRing(ed, r)
    ensures RevokeKey(ed, r, id).Ok? <==>
            && |id| == 16 && (forall i :: 0 <= i < |id| ==> '0' <= id[i] <= '9' || 'a' <= id[i] <= 'f')
            && (id in r.revoked ||
                (|r.revoked| < 1024 && exists e :: e in r.keys && !r.IsRevoked(e.keyId) && e.keyId != id))
  {
    hide ValidRing, Kept;
    if IsKeyId(id) && !r.IsRevoked(id) {
      if RevokeKey(ed, r, id).Ok? {
        RevokeLeavesAKey(ed, r, id);
        RevokeLeavesRoom(ed, r, id);
      }
      if |r.revoked| < MAX_REVOKED_KEY_IDS && exists e :: e in r.keys && !r.IsRevoked(e.keyId) && e.keyId != id {
        RevokedIsValid(ed, r, id);
        CanonicalIsValid(ed, Ring(r.keys, r.revoked + [id]));
      }
    }
  }

  lemma RevokeLeavesRoom(ed: Ed25519, r: Ring, id: string)
    requires ValidRing(ed, r) && !r.IsRevoked(id) && RevokeKey(ed, r, id).Ok?
    ensures |r.revoked| < MAX_REVOKED_KEY_IDS
  {
    hide Kept, IsLowerHex;
    SortByKeeps(r.revoked + [id], ITSELF);
  }

  lemma RevokedIsValid(ed: Ed25519, r: Ring, id: string)
    requires ValidRing(ed, r) && IsKeyId(id) && !r.IsRevoked(id) && |r.revoked| < MAX_REVOKED_KEY_IDS
    requires exists e :: e in r.keys && !r.IsRevoked(e.keyId) && e.keyId != id
    ensures ValidRing(ed, Ring(r.keys, r.revoked + [id]))
  {
    hide Kept, IsLowerHex;
    var next := Ring(r.keys, r.revoked + [id]);
    KeptMembers(next.keys, next.revoked, false);
    var e :| e in r.keys && !r.IsRevoked(e.keyId) && e.keyId != id;
    assert e in next.ActiveKeys();
  }

  lemma RevokeLeavesAKey(ed: Ed25519, r: Ring, id: string)
    requires ValidRing(ed, r) && RevokeKey(ed, r, id).Ok?
    ensures exists e :: e in r.keys && !r.IsRevoked(e.keyId) && (r.IsRevoked(id) || e.keyId != id)
  {
    RevokeKeyExtends(ed, r, id);
    var b := RevokeKey(ed, r, id).value;
    KeptMembers(b.keys, b.revoked, false);
    hide RevokeKey, Kept;
    HeadMember(b.ActiveKeys());
    assert b.ActiveKeys()[0] in r.keys;
  }

  /** Adding is refused exactly for something not a key, an id held or revoked, or a full ring. */
  lemma AddSucceedsExactlyWhen(ed: Ed25519, r: Ring, key: Bytes)
    requires ed.WellShaped() && ValidRing(ed, r)
    ensures AddKey(ed, r, key).Ok? <==>
            && ed.isPublicKey(key)
            && ed.keyIdOf(key) !in r.revoked
            && (forall e :: e in r.keys ==> e.keyId != ed.keyIdOf(key))
            && |r.keys| < 64
    ensures ed.isPublicKey(key) ==> |key| == 32
  {
    var id := ed.keyIdOf(key);
    FirstKeyIsHeld(r.keys, id);
    if AddKey(ed, r, key).Ok? {
      AddedIsSound(ed, r, key);
    }
    if ed.isPublicKey(key) && !r.IsRevoked(id) && r.PublicKey(id).None? && |r.keys| < MAX_KEYRING_KEYS {
      AddedIsValid(ed, r, key);
    }
  }

  lemma AddedIsSound(ed: Ed25519, r: Ring, key: Bytes)
    requires ValidRing(ed, r) && AddKey(ed, r, key).Ok?
    ensures ed.isPublicKey(key) && |r.keys| < MAX_KEYRING_KEYS
  {
    var entry := KeyringEntry(ed.keyIdOf(key), key);
    AddKeyExtends(ed, r, key);
    SortByKeeps(r.keys + [entry], ID_OF);
    var b := AddKey(ed, r, key).value;
    hide Canonical;
    assert entry in b.keys;
  }

  lemma AddedIsValid(ed: Ed25519, r: Ring, key: Bytes)
    requires ed.WellShaped() && ValidRing(ed, r) && ed.isPublicKey(key) && |r.keys| < MAX_KEYRING_KEYS
    requires !r.IsRevoked(ed.keyIdOf(key)) && r.PublicKey(ed.keyIdOf(key)).None?
    ensures AddKey(ed, r, key).Ok?
  {
    var entry := KeyringEntry(ed.keyIdOf(key), key);
    var next := Ring(r.keys + [entry], r.revoked);
    hide SortBy, FirstKey, Kept;
    FirstKeyIsHeld(r.keys, entry.keyId);
    assert forall i :: 0 <= i < |r.keys| ==> r.keys[i] in r.keys;
    assert next.ActiveKeys() != [] by {
      KeptMembers(next.keys, next.revoked, false);
      assert entry in next.keys;
      assert entry in next.ActiveKeys();
    }
    CanonicalIsValid(ed, next);
  }

  // ----------------------------------------------------------------------------------- verification

  datatype Verdict = Verified | BadSignature | UnknownKey | KeyRevoked

  function Verify(ed: Ed25519, r: Ring, data: Bytes, signature: string): Verdict {
    if exists e :: e in r.ActiveKeys() && ed.verifies(e.publicKey, data, signature) then Verified
    else if exists e :: e in r.RevokedKeys() && ed.verifies(e.publicKey, data, signature) then KeyRevoked
    else BadSignature
  }

  /** `KeyringVerifier.verify_pointer`. */
  function VerifyPointer(ed: Ed25519, r: Ring, data: Bytes, signature: string, keyId: Option<string>): Verdict {
    match keyId
    case None => Verify(ed, r, data, signature)
    case Some(id) =>
      if r.IsRevoked(id) then KeyRevoked
      else match r.PublicKey(id)
        case None => UnknownKey
        case Some(key) => if ed.verifies(key, data, signature) then Verified else BadSignature
  }

  /** `Ed25519Verifier.verify_pointer`: the single pinned key. */
  function VerifySingle(ed: Ed25519, pinned: Bytes, data: Bytes, signature: string, keyId: Option<string>): Verdict {
    if keyId.Some? && keyId.value != ed.keyIdOf(pinned) then UnknownKey
    else if ed.verifies(pinned, data, signature) then Verified
    else BadSignature
  }

  /** A pointer is accepted exactly when a held, unrevoked key - the named one, if any - verifies it. */
  lemma AcceptedExactlyWhen(ed: Ed25519, r: Ring, data: Bytes, signature: string, keyId: Option<string>)
    requires ValidRing(ed, r)
    ensures VerifyPointer(ed, r, data, signature, keyId).Verified? <==>
            exists e :: e in r.keys && !r.IsRevoked(e.keyId) && ed.verifies(e.publicKey, data, signature)
                        && (keyId.Some? ==> e.keyId == keyId.value)
  {
    KeptMembers(r.keys, r.revoked, false);
    if keyId.Some? {
      FirstKeyIsHeld(r.keys, keyId.value);
      if e :| e in r.keys && ed.verifies(e.publicKey, data, signature) && e.keyId == keyId.value {
        assert e == KeyringEntry(e.keyId, e.publicKey);
        FirstKeyIsTheKey(ed, r, e.keyId, e.publicKey);
      }
    }
  }

  /** And what each refusal says: of a pointer that names its key, and of one that leaves all to be tried. */
  lemma RefusedExactlyWhen(ed: Ed25519, r: Ring, data: Bytes, signature: string, keyId: Option<string>)
    requires ValidRing(ed, r)
    ensures VerifyPointer(ed, r, data, signature, keyId).UnknownKey? <==>
              keyId.Some? && keyId.value !in r.revoked && forall e :: e in r.keys ==> e.keyId != keyId.value
    ensures VerifyPointer(ed, r, data, signature, keyId).KeyRevoked? <==>
              if keyId.Some? then keyId.value in r.revoked
              else
                && (forall e :: e in r.keys && e.keyId !in r.revoked ==> !ed.verifies(e.publicKey, data, signature))
                && (exists e :: e in r.keys && e.keyId in r.revoked && ed.verifies(e.publicKey, data, signature))
  {
    KeptMembers(r.keys, r.revoked, false);
    KeptMembers(r.keys, r.revoked, true);
    if keyId.Some? {
      FirstKeyIsHeld(r.keys, keyId.value);
    }
  }

  /** Adding a key only grows what is accepted. */
  lemma AddOnlyGrows(ed: Ed25519, r: Ring, key: Bytes, data: Bytes, signature: string, keyId: Option<string>)
    requires ValidRing(ed, r) && AddKey(ed, r, key).Ok?
    requires VerifyPointer(ed, r, data, signature, keyId).Verified?
    ensures VerifyPointer(ed, AddKey(ed, r, key).value, data, signature, keyId).Verified?
  {
    AddKeyExtends(ed, r, key);
    AcceptedExactlyWhen(ed, r, data, signature, keyId);
    AcceptedExactlyWhen(ed, AddKey(ed, r, key).value, data, signature, keyId);
  }

  /** Revoking only shrinks it, and afterwards nothing the revoked key alone vouches for is accepted. */
  lemma RevokeOnlyShrinks(ed: Ed25519, r: Ring, id: string, data: Bytes, signature: string, keyId: Option<string>)
    requires ValidRing(ed, r) && RevokeKey(ed, r, id).Ok?
    requires VerifyPointer(ed, RevokeKey(ed, r, id).value, data, signature, keyId).Verified?
    ensures VerifyPointer(ed, r, data, signature, keyId).Verified?
    ensures keyId != Some(id)
    ensures exists e :: e in r.keys && e.keyId != id && ed.verifies(e.publicKey, data, signature)
  {
    RevokeKeyExtends(ed, r, id);
    AcceptedExactlyWhen(ed, r, data, signature, keyId);
    AcceptedExactlyWhen(ed, RevokeKey(ed, r, id).value, data, signature, keyId);
  }

  // ------------------------------------------------------------------------------- runs of edits

  datatype Edit = Add(key: Bytes) | Revoke(id: string)

  function Apply(ed: Ed25519, r: Ring, edit: Edit): Result<Ring, KeyringError> {
    match edit
    case Add(key) => AddKey(ed, r, key)
    case Revoke(id) => RevokeKey(ed, r, id)
  }

  /** The ring after a list of edits; a refused edit leaves the ring it was given. */
  function ApplyAll(ed: Ed25519, r: Ring, edits: seq<Edit>): Ring {
    if edits == [] then r
    else
      var before := ApplyAll(ed, r, edits[..|edits| - 1]);
      match Apply(ed, before, edits[|edits| - 1])
      case Ok(after) => after
      case Err(_) => before
  }

  /**
    Over any run of edits the ring stays valid, no key is forgotten and no revocation undone, and
    every pointer accepted at the end verifies under a held key that was revoked at no earlier time.
    */
  lemma {:induction false} EditsKeepRevocations(ed: Ed25519, r: Ring, edits: seq<Edit>, i: nat)
    requires ValidRing(ed, r) && i <= |edits|
    ensures ValidRing(ed, ApplyAll(ed, r, edits))
    ensures forall id :: id in ApplyAll(ed, r, edits[..i]).revoked ==> id in ApplyAll(ed, r, edits).revoked
    ensures forall e :: e in ApplyAll(ed, r, edits[..i]).keys ==> e in ApplyAll(ed, r, edits).keys
  {
    hide AddKey, RevokeKey, ValidRing;
    if edits == [] {
      assert edits[..i] == edits;
    } else {
      var n := |edits| - 1;
      var before := ApplyAll(ed, r, edits[..n]);
      EditsKeepRevocations(ed, r, edits[..n], if i <= n then i else n);
      if Apply(ed, before, edits[n]).Ok? {
        match edits[n]
        case Add(key) => AddKeyExtends(ed, before, key);
        case Revoke(id) => RevokeKeyExtends(ed, before, id);
      }
      if i <= n {
        assert edits[..n][..i] == edits[..i];
      } else {
        assert edits[..i] == edits;
      }
    }
  }

  lemma RevokedStaysRefused(ed: Ed25519, r: Ring, edits: seq<Edit>, i: nat, data: Bytes, signature: string,
        keyId: Option<string>)
    requires ValidRing(ed, r) && i <= |edits|
    requires VerifyPointer(ed, ApplyAll(ed, r, edits), data, signature, keyId).Verified?
    ensures exists e :: e in ApplyAll(ed, r, edits).keys && ed.verifies(e.publicKey, data, signature)
                        && e.keyId !in ApplyAll(ed, r, edits[..i]).revoked
                        && (keyId.Some? ==> e.keyId == keyId.value)
  {
    EditsKeepRevocations(ed, r, edits, i);
    AcceptedExactlyWhen(ed, ApplyAll(ed, r, edits), data, signature, keyId);
  }

  // ------------------------------------------------------------------------------- the ring of one

  /** `keyring_of([key])`. */
  function RingOfOne(ed: Ed25519, key: Bytes): Result<Ring, KeyringError> {
    if |key| != ED25519_PUBLIC_KEY_BYTES then Err(WrongLength)
    else Build(ed, [KeyringEntry(ed.keyIdOf(key), key)], [])
  }

  /** A ring of one answers every pointer exactly as the single pinned key does, refusals included. */
  lemma RingOfOneIsThePin(ed: Ed25519, key: Bytes, data: Bytes, signature: string, keyId: Option<string>)
    requires ed.WellShaped() && ed.isPublicKey(key)
    ensures RingOfOne(ed, key).Ok? && ValidRing(ed, RingOfOne(ed, key).value)
    ensures VerifyPointer(ed, RingOfOne(ed, key).value, data, signature, keyId) ==
            VerifySingle(ed, key, data, signature, keyId)
  {
    var e := KeyringEntry(ed.keyIdOf(key), key);
    assert SortBy([e][1..], ID_OF) == [] && SortBy([e], ID_OF) == [e];
    var r := Ring([e], []);
    assert Canonical(r) == r;
    assert Kept([e][1..], [], false) == [] && r.ActiveKeys() == [e];
    assert Kept([e][1..], [], true) == [] && r.RevokedKeys() == [];
    assert forall x :: x in r.ActiveKeys() <==> x == e;
    if keyId.Some? {
      assert FirstKey([e][1..], keyId.value) == None;
      assert r.PublicKey(keyId.value) == if keyId.value == e.keyId then Some(key) else None;
    }
  }

  // ------------------------------------------------------------------------------- the file form

  function Hex(b: Bytes): (s: string)
    ensures |s| == 2 * |b|
  {
    if b == [] then "" else [HexDigit(b[0] / 16), HexDigit(b[0] % 16)] + Hex(b[1..])
  }

  /** Two digits a byte, the high half first. */
  lemma {:induction false} HexAt(b: Bytes, i: nat)
    requires i < |b|
    ensures Hex(b)[2 * i] == "0123456789abcdef"[b[i] / 16] && Hex(b)[2 * i + 1] == "0123456789abcdef"[b[i] % 16]
  {
    if i > 0 {
      HexAt(b[1..], i - 1);
    }
  }

  const ID_OPEN := "    {\n      \"key_id\": \""
  const KEY_OPEN := "\",\n      \"public_key\": \""
  const KEY_CLOSE := "\"\n    }"

  function KeyText(e: KeyringEntry): string {
    ID_OPEN + e.keyId + KEY_OPEN + Hex(e.publicKey) + KEY_CLOSE
  }

  function KeyLines(keys: seq<KeyringEntry>): string {
    if keys == [] then "" else ",\n" + KeyText(keys[0]) + KeyLines(keys[1..])
  }

  function RevokedLines(ids: seq<string>): string {
    if ids == [] then "" else ",\n    \"" + ids[0] + "\"" + RevokedLines(ids[1..])
  }

  function RevokedText(ids: seq<string>): string {
    if ids == [] then "[]" else "[\n    \"" + ids[0] + "\"" + RevokedLines(ids[1..]) + "\n  ]"
  }

  const KEYS_OPEN := "{\n  \"keys\": [\n"
  const REVOKED_OPEN := "\n  ],\n  \"revoked\": "
  const SCHEMA_TAIL := ",\n  \"schema\": \"edgeproc.keyring/v1\"\n}\n"

  /** The two-space indented JSON document with sorted keys and a final newline. */
  function RingText(r: Ring): string
    requires r.keys != []
  {
    KEYS_OPEN + KeyText(r.keys[0]) + KeyLines(r.keys[1..]) + REVOKED_OPEN + RevokedText(r.revoked) + SCHEMA_TAIL
  }

  /** `keyring_bytes`. */
  function KeyringBytes(ed: Ed25519, r: Ring): Bytes
    requires ValidRing(ed, r)
  {
    SortByKeeps(r.keys, ID_OF);
    Utf8(RingText(Canonical(r)))
  }

  predicate Ascii(s: string) {
    forall i :: 0 <= i < |s| ==> s[i] < '\U{80}'
  }

  lemma {:induction false} AsciiBytes(s: string)
    requires Ascii(s)
    ensures |Utf8(s)| == |s|
  {
    if s != "" {
      AsciiBytes(s[1..]);
    }
  }

  lemma {:induction false} HexIsAscii(b: Bytes)
    ensures Ascii(Hex(b))
  {
    if b != [] {
      HexIsAscii(b[1..]);
    }
  }

  ghost predicate Printable(e: KeyringEntry) {
    IsKeyId(e.keyId) && |e.publicKey| == ED25519_PUBLIC_KEY_BYTES
  }

  lemma KeyTextSize(e: KeyringEntry)
    requires Printable(e)
    ensures Ascii(KeyText(e)) && |KeyText(e)| <= 150
  {
    HexIsAscii(e.publicKey);
  }

  lemma {:induction false} KeyLinesSize(keys: seq<KeyringEntry>)
    requires forall i :: 0 <= i < |keys| ==> Printable(keys[i])
    ensures Ascii(KeyLines(keys)) && |KeyLines(keys)| <= 152 * |keys|
  {
    if keys != [] {
      KeyTextSize(keys[0]);
      KeyLinesSize(keys[1..]);
    }
  }

  lemma {:induction false} RevokedLinesSize(ids: seq<string>)
    requires forall i :: 0 <= i < |ids| ==> IsKeyId(ids[i])
    ensures Ascii(RevokedLines(ids)) && |RevokedLines(ids)| <= 24 * |ids|
  {
    if ids != [] {
      RevokedLinesSize(ids[1..]);
    }
  }

  lemma AsciiJoin(a: string, b: string)
    requires Ascii(a) && Ascii(b)
    ensures Ascii(a + b) && |a + b| == |a| + |b|
  {
  }

  lemma RevokedTextSize(ids: seq<string>)
    requires forall i :: 0 <= i < |ids| ==> IsKeyId(ids[i])
    ensures Ascii(RevokedText(ids)) && |RevokedText(ids)| <= 24 * |ids| + 5
  {
    if ids != [] {
      RevokedLinesSize(ids[1..]);
    }
  }

  lemma RingTextSize(r: Ring)
    requires 1 <= |r.keys| <= MAX_KEYRING_KEYS && |r.revoked| <= MAX_REVOKED_KEY_IDS
    requires forall i :: 0 <= i < |r.keys| ==> Printable(r.keys[i])
    requires forall i :: 0 <= i < |r.revoked| ==> IsKeyId(r.revoked[i])
    ensures Ascii(RingText(r)) && 32 < |RingText(r)| <= 65_536
  {
    KeyTextSize(r.keys[0]);
    KeyLinesSize(r.keys[1..]);
    RevokedTextSize(r.revoked);
    JoinedSize(KeyText(r.keys[0]), KeyLines(r.keys[1..]), RevokedText(r.revoked));
  }

  lemma JoinedSize(first: string, lines: string, gone: string)
    requires Ascii(first) && Ascii(lines) && Ascii(gone)
    ensures var text := KEYS_OPEN + first + lines + REVOKED_OPEN + gone + SCHEMA_TAIL;
            Ascii(text) && |text| == |first| + |lines| + |gone| + 71
  {
    assert Ascii(KEYS_OPEN) && Ascii(REVOKED_OPEN) && Ascii(SCHEMA_TAIL);
    assert |KEYS_OPEN| + |REVOKED_OPEN| + |SCHEMA_TAIL| == 71;
    hide Ascii;
    AsciiJoin(KEYS_OPEN, first);
    AsciiJoin(KEYS_OPEN + first, lines);
    AsciiJoin(KEYS_OPEN + first + lines, REVOKED_OPEN);
    AsciiJoin(KEYS_OPEN + first + lines + REVOKED_OPEN, gone);
    AsciiJoin(KEYS_OPEN + first + lines + REVOKED_OPEN + gone, SCHEMA_TAIL);
  }

  /** `load_trust_root`, with `parse` the JSON reading of a document before validation. */
  function LoadTrustRoot(ed: Ed25519, parse: Bytes -> Option<Ring>, raw: Bytes): Result<Ring, KeyringError> {
    if |raw| > MAX_TRUST_ROOT_BYTES then Err(TooLarge)
    else if |raw| == ED25519_PUBLIC_KEY_BYTES then RingOfOne(ed, raw)
    else match parse(raw)
      case None => Err(Malformed)
      case Some(r) => if ValidRing(ed, r) then Ok(r) else Err(InvalidRing)
  }

  /** Canonical order is a fixed point. */
  lemma CanonicalTwice(ed: Ed25519, r: Ring)
    requires ValidRing(ed, r)
    ensures Canonical(Canonical(r)) == Canonical(r)
  {
    var c := Canonical(r);
    CanonicalOrder(ed, r);
    SortByKeeps(c.keys, ID_OF);
    SortByKeeps(c.revoked, ITSELF);
    AscendingIsUnique(c.keys, ID_OF);
    AscendingIsUnique(c.revoked, ITSELF);
    AscendingDetermined(SortBy(c.keys, ID_OF), c.keys, ID_OF);
    AscendingDetermined(SortBy(c.revoked, ITSELF), c.revoked, ITSELF);
  }

  /** Does `parse` read the text of every valid ring back? */
  ghost predicate ReadsRings(ed: Ed25519, parse: Bytes -> Option<Ring>) {
    forall r: Ring :: ValidRing(ed, r) ==> parse(Utf8(RingText(r))) == Some(r)
  }

  /**
    Whatever parser reads ring texts back, writing a ring and loading the file gives the same ring in
    canonical order: every valid ring fits the size cap, and no ring's file has the length of a raw key.
    */
  lemma WriteThenLoadBy(ed: Ed25519, parse: Bytes -> Option<Ring>, r: Ring)
    requires ed.WellShaped() && ValidRing(ed, r) && ReadsRings(ed, parse)
    ensures LoadTrustRoot(ed, parse, KeyringBytes(ed, r)) == Ok(Canonical(r))
  {
    hide Canonical, RingText;
    var c := Canonical(r);
    CanonicalIsValid(ed, r);
    RingTextSize(c);
    AsciiBytes(RingText(c));
  }

  /** The loaded ring accepts exactly what the written one did. */
  lemma CanonicalAcceptsAlike(ed: Ed25519, r: Ring, data: Bytes, signature: string, keyId: Option<string>)
    requires ValidRing(ed, r)
    ensures VerifyPointer(ed, Canonical(r), data, signature, keyId).Verified? <==>
            VerifyPointer(ed, r, data, signature, keyId).Verified?
  {
    CanonicalIsValid(ed, r);
    hide Canonical, VerifyPointer, ValidRing;
    AcceptedExactlyWhen(ed, Canonical(r), data, signature, keyId);
    AcceptedExactlyWhen(ed, r, data, signature, keyId);
  }

  // ---------------------------------------------------------------- the file determines the ring

  lemma Halves(x: string, s: string, y: string, t: string)
    requires x + s == y + t && (|x| == |y| || |s| == |t|)
    ensures x == y && s == t
  {
    assert |x + s| == |x| + |s| && |y + t| == |y| + |t|;
    assert (x + s)[..|x|] == x && (y + t)[..|y|] == y;
    assert (x + s)[|x|..] == s && (y + t)[|y|..] == t;
  }

  lemma HexDigitInjective(c: nat, d: nat)
    requires c < 16 && d < 16 && HexDigit(c) == HexDigit(d)
    ensures c == d
  {
    var digits := "0123456789abcdef";
    assert forall i, j :: 0 <= i < j < 10 ==> digits[i] < digits[j];
  }

  function ByteHex(b: Byte): string {
    [HexDigit(b / 16), HexDigit(b % 16)]
  }

  lemma ByteHexInjective(a: Byte, b: Byte)
    requires ByteHex(a) == ByteHex(b)
    ensures a == b
  {
    hide HexDigit;
    assert ByteHex(a)[0] == ByteHex(b)[0] && ByteHex(a)[1] == ByteHex(b)[1];
    HexDigitInjective(a / 16, b / 16);
    HexDigitInjective(a % 16, b % 16);
  }

  lemma HexHead(b: Bytes)
    requires b != []
    ensures Hex(b) == ByteHex(b[0]) + Hex(b[1..])
  {
  }

  lemma {:induction false} HexInjective(a: Bytes, b: Bytes)
    requires |a| == |b| && Hex(a) == Hex(b)
    ensures a == b
  {
    if a != [] {
      HexHead(a);
      HexHead(b);
      Halves(ByteHex(a[0]), Hex(a[1..]), ByteHex(b[0]), Hex(b[1..]));
      ByteHexInjective(a[0], b[0]);
      HexInjective(a[1..], b[1..]);
      assert a == [a[0]] + a[1..] && b == [b[0]] + b[1..];
    }
    hide Hex, ByteHex;
  }

  lemma KeyTextInjective(a: KeyringEntry, b: KeyringEntry, s: string, t: string)
    requires Printable(a) && Printable(b) && KeyText(a) + s == KeyText(b) + t
    ensures a == b && s == t
  {
    Halves(KeyText(a), s, KeyText(b), t);
    Halves(ID_OPEN + a.keyId + KEY_OPEN + Hex(a.publicKey), KEY_CLOSE, ID_OPEN + b.keyId + KEY_OPEN + Hex(b.publicKey), KEY_CLOSE);
    Halves(ID_OPEN + a.keyId + KEY_OPEN, Hex(a.publicKey), ID_OPEN + b.keyId + KEY_OPEN, Hex(b.publicKey));
    Halves(ID_OPEN + a.keyId, KEY_OPEN, ID_OPEN + b.keyId, KEY_OPEN);
    Halves(ID_OPEN, a.keyId, ID_OPEN, b.keyId);
    HexInjective(a.publicKey, b.publicKey);
  }

  lemma KeyLinesHead(keys: seq<KeyringEntry>, s: string)
    ensures KeyLines(keys) + s ==
            if keys == [] then s else ",\n" + (KeyText(keys[0]) + (KeyLines(keys[1..]) + s))
  {
    hide KeyText;
  }

  /** The list of keys ends where the text goes on with a line break instead of a comma. */
  lemma {:induction false} KeyLinesDelimit(a: seq<KeyringEntry>, b: seq<KeyringEntry>, s: string, t: string)
    requires forall i :: 0 <= i < |a| ==> Printable(a[i])
    requires forall i :: 0 <= i < |b| ==> Printable(b[i])
    requires s != "" && t != "" && s[0] == t[0] == '\n'
    requires KeyLines(a) + s == KeyLines(b) + t
    ensures a == b && s == t
  {
    hide KeyLines, KeyText, Printable;
    KeyLinesHead(a, s);
    KeyLinesHead(b, t);
    if a != [] && b != [] {
      var x, y := KeyLines(a[1..]) + s, KeyLines(b[1..]) + t;
      Halves(",\n", KeyText(a[0]) + x, ",\n", KeyText(b[0]) + y);
      KeyTextInjective(a[0], b[0], x, y);
      KeyLinesDelimit(a[1..], b[1..], s, t);
      assert a == [a[0]] + a[1..] && b == [b[0]] + b[1..];
    }
  }

  lemma RevokedLinesHead(ids: seq<string>, s: string)
    ensures RevokedLines(ids) + s ==
            if ids == [] then s else ",\n    \"" + (ids[0] + ("\"" + (RevokedLines(ids[1..]) + s)))
  {
  }

  lemma {:induction false} RevokedLinesDelimit(a: seq<string>, b: seq<string>, s: string, t: string)
    requires forall i :: 0 <= i < |a| ==> IsKeyId(a[i])
    requires forall i :: 0 <= i < |b| ==> IsKeyId(b[i])
    requires s != "" && t != "" && s[0] == t[0] == '\n'
    requires RevokedLines(a) + s == RevokedLines(b) + t
    ensures a == b && s == t
  {
    hide RevokedLines, IsLowerHex;
    RevokedLinesHead(a, s);
    RevokedLinesHead(b, t);
    if a != [] && b != [] {
      var x, y := RevokedLines(a[1..]) + s, RevokedLines(b[1..]) + t;
      IdPeel(",\n    \"", a[0], x, b[0], y);
      RevokedLinesDelimit(a[1..], b[1..], s, t);
      assert a == [a[0]] + a[1..] && b == [b[0]] + b[1..];
    }
  }

  lemma IdPeel(open: string, a: string, x: string, b: string, y: string)
    requires |a| == |b| && open + (a + ("\"" + x)) == open + (b + ("\"" + y))
    ensures a == b && x == y
  {
    Halves(open, a + ("\"" + x), open, b + ("\"" + y));
    Halves(a, "\"" + x, b, "\"" + y);
    Halves("\"", x, "\"", y);
  }

  lemma RevokedTextHead(ids: seq<string>)
    ensures RevokedText(ids) ==
            if ids == [] then "[]" else "[\n    \"" + (ids[0] + ("\"" + (RevokedLines(ids[1..]) + "\n  ]")))
  {
  }

  lemma RevokedTextInjective(a: seq<string>, b: seq<string>)
    requires forall i :: 0 <= i < |a| ==> IsKeyId(a[i])
    requires forall i :: 0 <= i < |b| ==> IsKeyId(b[i])
    requires RevokedText(a) == RevokedText(b)
    ensures a == b
  {
    hide RevokedText, RevokedLines, IsLowerHex;
    RevokedTextHead(a);
    RevokedTextHead(b);
    assert a == [] ==> RevokedText(a)[1] == ']';
    assert b == [] ==> RevokedText(b)[1] == ']';
    assert a != [] ==> RevokedText(a)[1] == '\n';
    assert b != [] ==> RevokedText(b)[1] == '\n';
    if a != [] {
      IdPeel("[\n    \"", a[0], RevokedLines(a[1..]) + "\n  ]", b[0], RevokedLines(b[1..]) + "\n  ]");
      RevokedLinesDelimit(a[1..], b[1..], "\n  ]", "\n  ]");
      assert a == [a[0]] + a[1..] && b == [b[0]] + b[1..];
    }
  }

  lemma RingTextHead(r: Ring)
    requires r.keys != []
    ensures RingText(r) ==
            KEYS_OPEN + (KeyText(r.keys[0]) + (KeyLines(r.keys[1..]) + (REVOKED_OPEN + RevokedText(r.revoked) + SCHEMA_TAIL)))
  {
    hide KeyText, KeyLines, RevokedText;
  }

  lemma LineBreakLeads(gone: string)
    ensures REVOKED_OPEN + gone + SCHEMA_TAIL != "" && (REVOKED_OPEN + gone + SCHEMA_TAIL)[0] == '\n'
  {
  }

  lemma RingTailInjective(a: seq<string>, b: seq<string>)
    requires forall i :: 0 <= i < |a| ==> IsKeyId(a[i])
    requires forall i :: 0 <= i < |b| ==> IsKeyId(b[i])
    requires REVOKED_OPEN + RevokedText(a) + SCHEMA_TAIL == REVOKED_OPEN + RevokedText(b) + SCHEMA_TAIL
    ensures a == b
  {
    hide RevokedText, IsLowerHex;
    Halves(REVOKED_OPEN + RevokedText(a), SCHEMA_TAIL, REVOKED_OPEN + RevokedText(b), SCHEMA_TAIL);
    Halves(REVOKED_OPEN, RevokedText(a), REVOKED_OPEN, RevokedText(b));
    RevokedTextInjective(a, b);
  }

  /** Two rings with one text are one ring: the text is a faithful form, and a parser for it can exist. */
  lemma RingTextInjective(ed: Ed25519, a: Ring, b: Ring)
    requires ed.WellShaped() && ValidRing(ed, a) && ValidRing(ed, b) && RingText(a) == RingText(b)
    ensures a == b
  {
    hide ValidRing, RingText, IsLowerHex;
    RingIsPrintable(ed, a);
    RingIsPrintable(ed, b);
    PrintableTextInjective(a, b);
  }

  lemma RingIsPrintable(ed: Ed25519, r: Ring)
    requires ed.WellShaped() && ValidRing(ed, r)
    ensures r.keys != [] && forall i :: 0 <= i < |r.keys| ==> Printable(r.keys[i])
    ensures forall i :: 0 <= i < |r.revoked| ==> IsKeyId(r.revoked[i])
  {
    hide IsLowerHex, Kept;
  }

  lemma PrintableTextInjective(a: Ring, b: Ring)
    requires a.keys != [] && b.keys != [] && RingText(a) == RingText(b)
    requires forall i :: 0 <= i < |a.keys| ==> Printable(a.keys[i])
    requires forall i :: 0 <= i < |b.keys| ==> Printable(b.keys[i])
    requires forall i :: 0 <= i < |a.revoked| ==> IsKeyId(a.revoked[i])
    requires forall i :: 0 <= i < |b.revoked| ==> IsKeyId(b.revoked[i])
    ensures a == b
  {
    hide RingText, KeyText, KeyLines, RevokedText, IsLowerHex, Printable, IsKeyId;
    var s, t := REVOKED_OPEN + RevokedText(a.revoked) + SCHEMA_TAIL, REVOKED_OPEN + RevokedText(b.revoked) + SCHEMA_TAIL;
    var x, y := KeyLines(a.keys[1..]) + s, KeyLines(b.keys[1..]) + t;
    RingTextHead(a);
    RingTextHead(b);
    LineBreakLeads(RevokedText(a.revoked));
    LineBreakLeads(RevokedText(b.revoked));
    Halves(KEYS_OPEN, KeyText(a.keys[0]) + x, KEYS_OPEN, KeyText(b.keys[0]) + y);
    KeyTextInjective(a.keys[0], b.keys[0], x, y);
    KeyLinesDelimit(a.keys[1..], b.keys[1..], s, t);
    RingTailInjective(a.revoked, b.revoked);
    assert a.keys == [a.keys[0]] + a.keys[1..] && b.keys == [b.keys[0]] + b.keys[1..];
  }

  /** The file depends on which keys and revocations a ring holds, not on their order. */
  lemma SameContentsSameFile(ed: Ed25519, a: Ring, b: Ring)
    requires ValidRing(ed, a) && ValidRing(ed, b) && Extends(a, b, {}, {})
    ensures KeyringBytes(ed, a) == KeyringBytes(ed, b)
  {
    SortByKeeps(a.keys, ID_OF);
    SortByKeeps(b.keys, ID_OF);
    SortByKeeps(a.revoked, ITSELF);
    SortByKeeps(b.revoked, ITSELF);
    AscendingDetermined(SortBy(a.keys, ID_OF), SortBy(b.keys, ID_OF), ID_OF);
    AscendingDetermined(SortBy(a.revoked, ITSELF), SortBy(b.revoked, ITSELF), ITSELF);
  }

  /** The file tells exactly which keys and which revocations a ring holds, and nothing of their order. */
  lemma SameFileExactlyWhen(ed: Ed25519, a: Ring, b: Ring)
    requires ed.WellShaped() && ValidRing(ed, a) && ValidRing(ed, b)
    ensures KeyringBytes(ed, a) == KeyringBytes(ed, b) <==> Extends(a, b, {}, {})
  {
    hide RingText, Kept, IsLowerHex, Canonical, Utf8;
    CanonicalIsValid(ed, a);
    CanonicalIsValid(ed, b);
    if KeyringBytes(ed, a) == KeyringBytes(ed, b) {
      Utf8Injective(RingText(Canonical(a)), RingText(Canonical(b)));
      RingTextInjective(ed, Canonical(a), Canonical(b));
    }
    if Extends(a, b, {}, {}) {
      SameContentsSameFile(ed, a, b);
    }
  }

  /** The ring whose text `raw` is, if it is one's. */
  ghost function ParseRing(ed: Ed25519, raw: Bytes): Option<Ring> {
    if exists r: Ring :: ValidRing(ed, r) && raw == Utf8(RingText(r)) then
      var r: Ring :| ValidRing(ed, r) && raw == Utf8(RingText(r));
      Some(r)
    else None
  }

  /** Since the text determines the ring, that is a parser for all of them. */
  lemma ParseRingReads(ed: Ed25519)
    requires ed.WellShaped()
    ensures ReadsRings(ed, raw => ParseRing(ed, raw))
  {
    hide RingText, Utf8, Kept, IsLowerHex;
    forall r: Ring | ValidRing(ed, r) ensures ParseRing(ed, Utf8(RingText(r))) == Some(r) {
      var back := ParseRing(ed, Utf8(RingText(r))).value;
      Utf8Injective(RingText(back), RingText(r));
      RingTextInjective(ed, back, r);
    }
  }

  /** Writing a ring and loading the file gives the same ring in canonical order. */
  lemma WriteThenLoad(ed: Ed25519, r: Ring)
    requires ed.WellShaped() && ValidRing(ed, r)
    ensures LoadTrustRoot(ed, raw => ParseRing(ed, raw), KeyringBytes(ed, r)) == Ok(Canonical(r))
  {
    hide LoadTrustRoot, KeyringBytes, Canonical, RingText, ReadsRings, ParseRing;
    ParseRingReads(ed);
    WriteThenLoadBy(ed, raw => ParseRing(ed, raw), r);
  }
}
