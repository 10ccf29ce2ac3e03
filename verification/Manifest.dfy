/** The manifest of a bundle (Manifest.swift), with cryptography and JSON as parameters. */
module Manifest {
  import opened Words
  import opened BundleHeader

  type Key = seq<byte>
  type Uuid = b: seq<byte> | |b| == 16 witness seq(16, i => 0)

  /** HKDF and AES-GCM, of which only these laws are used. */
  datatype Aead = Aead(
    manifestKey: Key -> Key,
    itemKey: (Key, Uuid) -> Key,
    seal: (Key, seq<byte>, seq<byte>, seq<byte>) -> (seq<byte>, seq<byte>),          // key, nonce, plaintext, aad
    open: (Key, seq<byte>, seq<byte>, seq<byte>, seq<byte>) -> Option<seq<byte>>)    // key, nonce, ciphertext, tag, aad
  {
    ghost predicate Valid() {
      && (forall k, n, p, a {:trigger seal(k, n, p, a)} ::
            var s := seal(k, n, p, a); |s.0| == |p| && |s.1| == TAG_SIZE && open(k, n, s.0, s.1, a) == Some(p))
      && (forall k, n, c, t, a {:trigger open(k, n, c, t, a)} ::
            open(k, n, c, t, a).Some? ==> |open(k, n, c, t, a).value| == |c|)
    }
  }

  /** Seconds since a reference date. */
  type Date = real

  predicate WholeSecond(d: Date) { d == d.Floor as real }

  datatype ItemDescriptor = ItemDescriptor(
    id: Uuid, name: string, mimeType: string, sizeBytes: nat, createdAt: Date, modifiedAt: Date,
    ttlSeconds: Option<nat>, ttlOriginEpoch: Option<Date>, itemNonce: seq<byte>, itemSize: nat)
  {
    /** Its initializer and `validate` make the same checks, in this order. */
    predicate Valid() { |itemNonce| == 12 && ItemSizeAllowed(itemSize) && (ttlSeconds.Some? <==> ttlOriginEpoch.Some?) }

    predicate WholeSeconds() {
      WholeSecond(createdAt) && WholeSecond(modifiedAt) && (ttlOriginEpoch.Some? ==> WholeSecond(ttlOriginEpoch.value))
    }
  }

  datatype Manifest = Manifest(schemaVersion: int, exportedAt: Date, exportLabel: Option<string>,
      items: seq<ItemDescriptor>)
  {
    predicate WholeSeconds() {
      WholeSecond(exportedAt) && forall i :: 0 <= i < |items| ==> items[i].WholeSeconds()
    }
  }

  /** JSON with ISO 8601 dates: lossless on whole seconds, and at least one byte for every item. */
  datatype Json = Json(encode: Manifest -> Option<seq<byte>>, decode: seq<byte> -> Option<Manifest>)
  {
    ghost predicate Valid() {
      && (forall m: Manifest {:trigger encode(m)} :: m.WholeSeconds() && encode(m).Some? ==>
        decode(encode(m).value) == Some(m))
      && (forall m: Manifest {:trigger encode(m)} :: encode(m).Some? ==> |m.items| <= |encode(m).value|)
      && (forall b: seq<byte> {:trigger decode(b)} :: decode(b).Some? ==> |decode(b).value.items| <= |b|)
    }
  }

  // ---- validation ----

  /** The error `ItemDescriptor.validate` throws. */
  function ItemError(d: ItemDescriptor): (e: Option<BundleError>)
    ensures e == None <==>
      && |d.itemNonce| == 12 && 16 <= d.itemSize <= 250 * 1024 * 1024
      && ((d.ttlSeconds.None? && d.ttlOriginEpoch.None?) || (d.ttlSeconds.Some? && d.ttlOriginEpoch.Some?))
  {
    if |d.itemNonce| != 12 then Some(ManifestParseFailed)
    else if !ItemSizeAllowed(d.itemSize) then Some(ParameterOutOfBounds)
    else if d.ttlSeconds.Some? != d.ttlOriginEpoch.Some? then Some(ManifestParseFailed)
    else None
  }

  /** The error of the first item that has one. */
  function FirstItemError(items: seq<ItemDescriptor>): Option<BundleError> {
    if items == [] then None
    else if ItemError(items[0]).Some? then ItemError(items[0])
    else FirstItemError(items[1..])
  }

  predicate DistinctIds(items: seq<ItemDescriptor>) {
    forall i, j :: 0 <= i < j < |items| ==> items[i].id != items[j].id
  }

  function ManifestError(m: Manifest): Option<BundleError> {
    if m.schemaVersion != 1 then Some(ManifestParseFailed)
    else if FirstItemError(m.items).Some? then FirstItemError(m.items)
    else if !DistinctIds(m.items) then Some(ManifestParseFailed)
    else None
  }

  predicate ValidManifest(m: Manifest) {
    m.schemaVersion == 1 && (forall i :: 0 <= i < |m.items| ==> m.items[i].Valid()) && DistinctIds(m.items)
  }

  lemma {:induction false} NoItemError(items: seq<ItemDescriptor>)
    ensures FirstItemError(items) == None <==> forall i :: 0 <= i < |items| ==> items[i].Valid()
  {
    if items != [] {
      NoItemError(items[1..]);
      assert forall i :: 0 <= i < |items| ==> items[i] == if i == 0 then items[0] else items[1..][i - 1];
    }
  }

  lemma ManifestErrorNone(m: Manifest)
    ensures ManifestError(m) == None <==> ValidManifest(m)
  {
    hide FirstItemError;
    NoItemError(m.items);
  }

  /** `validate`: the items one by one, then a growing set of the ids seen. */
  method ValidateManifest(m: Manifest) returns (e: Option<BundleError>)
    ensures e == ManifestError(m)
    ensures e == None <==> ValidManifest(m)
  {
    ManifestErrorNone(m);
    if m.schemaVersion != 1 {
      return Some(ManifestParseFailed);
    }
    e := ValidateItems(m.items);
    if e.Some? {
      return;
    }
    var unique := SeenOnce(m.items);
    if !unique {
      return Some(ManifestParseFailed);
    }
  }

  method ValidateItems(items: seq<ItemDescriptor>) returns (e: Option<BundleError>)
    ensures e == FirstItemError(items)
  {
    var i := 0;
    while i < |items|
      invariant i <= |items| && FirstItemError(items) == FirstItemError(items[i..])
    {
      if ItemError(items[i]).Some? {
        return ItemError(items[i]);
      }
      assert items[i..][1..] == items[i + 1..];
      i := i + 1;
    }
    return None;
  }

  method SeenOnce(items: seq<ItemDescriptor>) returns (unique: bool)
    ensures unique <==> DistinctIds(items)
  {
    var seen: set<Uuid> := {};
    var i := 0;
    while i < |items|
      invariant i <= |items| && DistinctIds(items[..i])
      invariant forall id :: id in seen <==> exists j :: 0 <= j < i && items[j].id == id
    {
      if items[i].id in seen {
        return false;
      }
      seen := seen + {items[i].id};
      i := i + 1;
    }
    assert items[..i] == items;
    return true;
  }

  // ---- encryption ----

  /** `decodeJSON`: decode, then validate. */
  function DecodeManifest(json: Json, b: seq<byte>): Result<Manifest> {
    if json.decode(b).None? then Err(ManifestParseFailed)
    else if ManifestError(json.decode(b).value).Some? then Err(ManifestError(json.decode(b).value).value)
    else Ok(json.decode(b).value)
  }

  /** `Manifest.decrypt`. */
  function DecryptManifest(aead: Aead, json: Json, key: Key, nonce: seq<byte>, c: seq<byte>, tag: seq<byte>,
      aad: seq<byte>): Result<Manifest>
  {
    var p := aead.open(aead.manifestKey(key), nonce, c, tag, aad);
    if p.None? then Err(DecryptionFailed) else DecodeManifest(json, p.value)
  }

  /** `Manifest.decrypt` with `decodeJSON`: open, decode, validate. */
  method Decrypt(aead: Aead, json: Json, key: Key, nonce: seq<byte>, c: seq<byte>, tag: seq<byte>, aad: seq<byte>)
    returns (r: Result<Manifest>)
    ensures r == DecryptManifest(aead, json, key, nonce, c, tag, aad)
  {
    var plaintext := aead.open(aead.manifestKey(key), nonce, c, tag, aad);
    if plaintext.None? {
      return Err(DecryptionFailed);
    }
    var manifest := json.decode(plaintext.value);
    if manifest.None? {
      return Err(ManifestParseFailed);
    }
    var e := ValidateManifest(manifest.value);
    if e.Some? {
      return Err(e.value);
    }
    return Ok(manifest.value);
  }

  /** A decrypted manifest is valid, and has no more items than its ciphertext has bytes. */
  lemma DecryptedManifest(aead: Aead, json: Json, key: Key, nonce: seq<byte>, c: seq<byte>, tag: seq<byte>,
      aad: seq<byte>)
    requires aead.Valid() && json.Valid() && DecryptManifest(aead, json, key, nonce, c, tag, aad).Ok?
    ensures var m := DecryptManifest(aead, json, key, nonce, c, tag, aad).value; ValidManifest(m) && |m.items| <= |c|
  {
    var p := aead.open(aead.manifestKey(key), nonce, c, tag, aad);
    ManifestErrorNone(json.decode(p.value).value);
  }

  // ---- item records ----

  /** The bytes of all records. */
  function TotalSize(items: seq<ItemDescriptor>): nat {
    if items == [] then 0 else TotalSize(items[..|items| - 1]) + items[|items| - 1].itemSize
  }

  /** `ItemRecord.encrypt`: ciphertext and tag; header and id are authenticated. */
  function SealItem(aead: Aead, key: Key, id: Uuid, nonce: seq<byte>, plaintext: seq<byte>,
      headerAAD: seq<byte>): seq<byte> {
    var s := aead.seal(aead.itemKey(key, id), nonce, plaintext, headerAAD + id);
    s.0 + s.1
  }

  /** `ItemRecord.decrypt`. */
  function OpenItem(aead: Aead, key: Key, id: Uuid, nonce: seq<byte>, record: seq<byte>,
      headerAAD: seq<byte>): Result<seq<byte>> {
    if |record| < TAG_SIZE then Err(Truncated(TAG_SIZE, |record|))
    else
      var at := |record| - TAG_SIZE;
      var p := aead.open(aead.itemKey(key, id), nonce, record[..at], record[at..], headerAAD + id);
      if p.None? then Err(DecryptionFailed) else Ok(p.value)
  }

  lemma OpenSealed(aead: Aead, key: Key, id: Uuid, nonce: seq<byte>, plaintext: seq<byte>, headerAAD: seq<byte>)
    requires aead.Valid()
    ensures var record := SealItem(aead, key, id, nonce, plaintext, headerAAD);
      |record| == |plaintext| + TAG_SIZE && OpenItem(aead, key, id, nonce, record, headerAAD) == Ok(plaintext)
  {
    var s := aead.seal(aead.itemKey(key, id), nonce, plaintext, headerAAD + id);
    assert (s.0 + s.1)[..|s.0|] == s.0 && (s.0 + s.1)[|s.0|..] == s.1;
  }
}
