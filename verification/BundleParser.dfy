/** `BundleParser`: opening, unlocking, decrypting and locking, and what holds over every sequence of calls. */
module BundleParser {
  import opened Words
  import opened BundleHeader
  import opened Manifest

  // ---- what one call answers ----

  /** `init`: size, header, room for the manifest. */
  function OpenFile(data: seq<byte>): (r: Result<Header>)
    ensures r.Ok? ==> 96 + r.value.manifestSize <= |data| <= 2 * 1024 * 1024 * 1024
  {
    if !FileSizeAllowed(|data|) then Err(ParameterOutOfBounds)
    else if ParseHeader(data).Err? then ParseHeader(data)
    else if |data| < ManifestEnd(ParseHeader(data).value) then
      Err(Truncated(ManifestEnd(ParseHeader(data).value), |data|))
    else ParseHeader(data)
  }

  function ManifestEnd(h: Header): nat { HEADER_SIZE + h.manifestSize }

  /** An opened file, with the cryptography and the JSON decoder it is read with. */
  datatype File = File(aead: Aead, json: Json, header: Header, data: seq<byte>)
  {
    ghost predicate Valid() { aead.Valid() && json.Valid() && OpenFile(data) == Ok(header) }
  }

  lemma FileFacts(f: File)
    requires f.Valid()
    ensures f.header.Valid() && HEADER_SIZE + 16 <= ManifestEnd(f.header) <= |f.data| <= 0x8000_0000
    ensures f.data[..HEADER_SIZE] == HeaderBytes(f.header)
  {
    SerializeParsed(f.data);
  }

  /** What `unlockWithKey` answers: the manifest, if it opens, is valid and fits the file. */
  function OpenManifest(f: File, key: Key): Result<Manifest>
    requires ManifestEnd(f.header) <= |f.data|
  {
    var bytes := f.data[HEADER_SIZE..ManifestEnd(f.header)];
    if |bytes| < TAG_SIZE then Err(Truncated(TAG_SIZE, |bytes|))
    else
      var at := |bytes| - TAG_SIZE;
      var m := DecryptManifest(f.aead, f.json, key, f.header.manifestNonce, bytes[..at], bytes[at..],
        f.data[..HEADER_SIZE]);
      if m.Err? then m
      else if TotalSize(m.value.items) > |f.data| - ManifestEnd(f.header) then Err(ManifestParseFailed)
      else m
  }

  lemma OpenedManifest(f: File, key: Key)
    requires f.Valid() && ManifestEnd(f.header) <= |f.data| && OpenManifest(f, key).Ok?
    ensures var m := OpenManifest(f, key).value;
      ValidManifest(m) && |m.items| <= 0x10_0000 && ManifestEnd(f.header) + TotalSize(m.items) <= |f.data|
  {
    hide DecryptManifest, ValidManifest, TotalSize, HeaderBytes, OpenFile, Aead.Valid, Json.Valid;
    FileFacts(f);
    var bytes := f.data[HEADER_SIZE..ManifestEnd(f.header)];
    var at := |bytes| - TAG_SIZE;
    DecryptedManifest(f.aead, f.json, key, f.header.manifestNonce, bytes[..at], bytes[at..], f.data[..HEADER_SIZE]);
  }

  /** Where the record of item `i` begins. */
  function RecordStart(h: Header, items: seq<ItemDescriptor>, i: nat): nat
    requires i <= |items|
  {
    ManifestEnd(h) + TotalSize(items[..i])
  }

  /** The first item with this id. */
  function IndexOf(items: seq<ItemDescriptor>, id: Uuid): (r: Option<nat>)
    ensures r.Some? ==> r.value < |items| && items[r.value].id == id
    ensures r.Some? ==> forall j :: 0 <= j < r.value ==> items[j].id != id
    ensures r.None? ==> forall j :: 0 <= j < |items| ==> items[j].id != id
  {
    if items == [] then None
    else if items[0].id == id then Some(0)
    else
      var rest := IndexOf(items[1..], id);
      assert forall j :: 0 < j < |items| ==> items[j] == items[1..][j - 1];
      if rest.None? then None else Some(rest.value + 1)
  }

  /** What `decrypt(item:)` answers in an unlocked file: it goes by the id alone. */
  function DecryptById(f: File, key: Key, m: Manifest, id: Uuid): Result<seq<byte>>
    requires |f.data| >= HEADER_SIZE
  {
    var index := IndexOf(m.items, id);
    if index.None? then Err(ManifestParseFailed)
    else
      var d := m.items[index.value];
      var start := RecordStart(f.header, m.items, index.value);
      if |f.data| < start + d.itemSize then Err(Truncated(start + d.itemSize, |f.data|))
      else OpenItem(f.aead, key, d.id, d.itemNonce, f.data[start..start + d.itemSize], f.data[..HEADER_SIZE])
  }

  // ---- item ranges ----

  lemma {:induction false} TotalOfPrefix(items: seq<ItemDescriptor>, i: nat)
    requires i < |items|
    ensures TotalSize(items[..i + 1]) == TotalSize(items[..i]) + items[i].itemSize <= TotalSize(items)
    decreases |items| - i
  {
    assert items[..i + 1][..i] == items[..i];
    if i + 1 < |items| {
      TotalOfPrefix(items, i + 1);
    } else {
      assert items[..i + 1] == items;
    }
  }

  lemma {:induction false} StartsInOrder(h: Header, items: seq<ItemDescriptor>, i: nat, j: nat)
    requires i < j < |items|
    ensures RecordStart(h, items, i) + items[i].itemSize <= RecordStart(h, items, j)
    decreases j
  {
    hide TotalSize;
    TotalOfPrefix(items, i);
    if i + 1 < j {
      StartsInOrder(h, items, i, j - 1);
      TotalOfPrefix(items, j - 1);
    }
  }

  /** The records of an opened manifest are disjoint ranges of the file behind the manifest, one after the
      other, each at least a tag long; so the guard against truncation in `decrypt(item:)` never fires. */
  lemma RecordRanges(f: File, key: Key, i: nat)
    requires f.Valid() && ManifestEnd(f.header) <= |f.data| && OpenManifest(f, key).Ok?
    requires i < |OpenManifest(f, key).value.items|
    ensures var items := OpenManifest(f, key).value.items;
      && ManifestEnd(f.header) <= RecordStart(f.header, items, i)
      && TAG_SIZE <= items[i].itemSize && RecordStart(f.header, items, i) + items[i].itemSize <= |f.data|
      && forall j :: i < j < |items| ==>
        RecordStart(f.header, items, i) + items[i].itemSize <= RecordStart(f.header, items, j)
  {
    hide TotalSize, OpenManifest;
    OpenedManifest(f, key);
    var items := OpenManifest(f, key).value.items;
    TotalOfPrefix(items, i);
    forall j | i < j < |items|
      ensures RecordStart(f.header, items, i) + items[i].itemSize <= RecordStart(f.header, items, j)
    {
      StartsInOrder(f.header, items, i, j);
    }
  }

  lemma NeverTruncated(f: File, key: Key, id: Uuid)
    requires f.Valid() && ManifestEnd(f.header) <= |f.data| && OpenManifest(f, key).Ok?
    ensures var r := DecryptById(f, key, OpenManifest(f, key).value, id); r.Err? ==> !r.error.Truncated?
  {
    hide OpenManifest, RecordStart;
    var m := OpenManifest(f, key).value;
    var index := IndexOf(m.items, id);
    if index.Some? {
      RecordRanges(f, key, index.value);
    }
  }

  // ---- sessions ----

  datatype Session = Session(masterKey: Option<Key>, manifest: Option<Manifest>)

  datatype Call = Unlock(key: Key) | Read(item: ItemDescriptor) | Lock

  const LOCKED: Session := Session(None, None)

  function Step(f: File, s: Session, c: Call): Session
    requires ManifestEnd(f.header) <= |f.data|
  {
    match c
    case Unlock(key) => if OpenManifest(f, key).Ok? then Session(Some(key), Some(OpenManifest(f, key).value)) else s
    case Read(_) => s
    case Lock => LOCKED
  }

  function After(f: File, calls: seq<Call>): Session
    requires ManifestEnd(f.header) <= |f.data|
  {
    if calls == [] then LOCKED else Step(f, After(f, calls[..|calls| - 1]), calls[|calls| - 1])
  }

  /** Key and manifest are both there or both not, and the manifest is the one that this key opens. */
  predicate Coherent(f: File, s: Session)
    requires ManifestEnd(f.header) <= |f.data|
  {
    && (s.masterKey.Some? <==> s.manifest.Some?)
    && (s.masterKey.Some? ==> OpenManifest(f, s.masterKey.value) == Ok(s.manifest.value))
  }

  /** Over every sequence of calls: the session stays coherent, its manifest is valid with unique ids and
      fits the file, and no item that is asked for is ever found truncated. */
  lemma {:induction false} SessionAlways(f: File, calls: seq<Call>, id: Uuid)
    requires f.Valid() && ManifestEnd(f.header) <= |f.data|
    ensures var s := After(f, calls);
      && Coherent(f, s)
      && (s.manifest.Some? ==>
            && ValidManifest(s.manifest.value)
            && ManifestEnd(f.header) + TotalSize(s.manifest.value.items) <= |f.data|
            && (var r := DecryptById(f, s.masterKey.value, s.manifest.value, id); r.Err? ==> !r.error.Truncated?))
  {
    hide OpenManifest, DecryptById, TotalSize, ValidManifest;
    if calls != [] {
      SessionAlways(f, calls[..|calls| - 1], id);
      var c := calls[|calls| - 1];
      if c.Unlock? && OpenManifest(f, c.key).Ok? {
        OpenedManifest(f, c.key);
        NeverTruncated(f, c.key, id);
      }
    }
  }

  /** A call that settles the session by itself. */
  predicate Settles(f: File, c: Call)
    requires ManifestEnd(f.header) <= |f.data|
  {
    c.Lock? || (c.Unlock? && OpenManifest(f, c.key).Ok?)
  }

  /** Only the last call that locks, or unlocks with a key that fits, counts: failed unlocks and
      decryptions before or after it leave no trace. */
  lemma {:induction false} LastSettlingCall(f: File, calls: seq<Call>, i: nat)
    requires ManifestEnd(f.header) <= |f.data| && i < |calls| && Settles(f, calls[i])
    requires forall j :: i < j < |calls| ==> !Settles(f, calls[j])
    ensures After(f, calls) == Step(f, LOCKED, calls[i])
  {
    hide OpenManifest;
    if i + 1 < |calls| {
      var init := calls[..|calls| - 1];
      LastSettlingCall(f, init, i);
    }
  }

  // ---- the class ----

  class BundleParser {
    const aead: Aead
    const json: Json
    const header: Header
    const data: seq<byte>
    const headerBytes: seq<byte>
    var masterKey: Option<Key>
    var cachedManifest: Option<Manifest>

    function Contents(): File { File(aead, json, header, data) }

    function State(): Session
      reads this
    {
      Session(masterKey, cachedManifest)
    }

    ghost predicate Valid()
      reads this
    {
      && Contents().Valid() && ManifestEnd(header) <= |data| && headerBytes == data[..HEADER_SIZE]
      && Coherent(Contents(), State())
    }

    constructor (aead: Aead, json: Json, data: seq<byte>, header: Header)
      requires aead.Valid() && json.Valid() && OpenFile(data) == Ok(header)
      ensures Valid() && Contents() == File(aead, json, header, data) && State() == LOCKED
    {
      this.aead, this.json, this.header, this.data := aead, json, header, data;
      headerBytes := data[..HEADER_SIZE];
      masterKey, cachedManifest := None, None;
      new;
      FileFacts(Contents());
    }

    /** `init(data:)`. */
    static method Open(aead: Aead, json: Json, data: seq<byte>) returns (r: Result<BundleParser>)
      requires aead.Valid() && json.Valid()
      ensures r.Ok? <==> OpenFile(data).Ok?
      ensures r.Err? ==> r.error == OpenFile(data).error
      ensures r.Ok? ==> fresh(r.value) && r.value.Valid() && r.value.State() == LOCKED
      ensures r.Ok? ==> r.value.Contents() == File(aead, json, OpenFile(data).value, data)
    {
      if !FileSizeAllowed(|data|) {
        return Err(ParameterOutOfBounds);
      }
      var parsed := Parse(data);
      if parsed.Err? {
        return Err(parsed.error);
      }
      var manifestEnd := HEADER_SIZE + parsed.value.manifestSize;
      if |data| < manifestEnd {
        return Err(Truncated(manifestEnd, |data|));
      }
      var parser := new BundleParser(aead, json, data, parsed.value);
      return Ok(parser);
    }

    /** `unlockWithKey`: a failure changes nothing. */
    method UnlockWithKey(key: Key) returns (r: Result<Manifest>)
      requires Valid()
      modifies `masterKey, `cachedManifest
      ensures Valid()
      ensures r == OpenManifest(Contents(), key)
      ensures State() == Step(Contents(), old(State()), Call.Unlock(key))
    {
      hide DecryptManifest, OpenFile;
      var manifestEnd := HEADER_SIZE + header.manifestSize;
      var manifestBytes := data[HEADER_SIZE..manifestEnd];
      if |manifestBytes| < TAG_SIZE {
        return Err(Truncated(TAG_SIZE, |manifestBytes|));
      }
      var tagOffset := |manifestBytes| - TAG_SIZE;
      var ciphertext, tag := manifestBytes[..tagOffset], manifestBytes[tagOffset..];
      r := Decrypt(aead, json, key, header.manifestNonce, ciphertext, tag, headerBytes);
      if r.Err? {
        return;
      }
      DecryptedFits(Contents(), key);
      var totalItemBytes := SumSizes(r.value.items);
      if totalItemBytes > |data| - manifestEnd {
        return Err(ManifestParseFailed);
      }
      masterKey, cachedManifest := Some(key), Some(r.value);
    }

    /** `decrypt(item:)`. Only the id of `item` matters; nonce and size come from the manifest. */
    method DecryptItem(item: ItemDescriptor) returns (r: Result<seq<byte>>)
      requires Valid()
      ensures r == if masterKey.None? then Err(ParameterOutOfBounds)
                   else DecryptById(Contents(), masterKey.value, cachedManifest.value, item.id)
      ensures r.Err? ==> !r.error.Truncated?
    {
      hide OpenManifest, OpenFile, OpenItem, ValidManifest;
      if masterKey.None? || cachedManifest.None? {
        return Err(ParameterOutOfBounds);
      }
      var key, manifest := masterKey.value, cachedManifest.value;
      NeverTruncated(Contents(), key, item.id);
      var index := IndexOf(manifest.items, item.id);
      if index.None? {
        return Err(ManifestParseFailed);
      }
      var descriptor := manifest.items[index.value];
      var offset := AccumulateOffset(header, manifest.items, index.value);
      var recordEnd := offset + descriptor.itemSize;
      if |data| < recordEnd {
        return Err(Truncated(recordEnd, |data|));
      }
      var record := data[offset..recordEnd];
      return OpenItem(aead, key, descriptor.id, descriptor.itemNonce, record, headerBytes);
    }

    /** `lock`. */
    method Lock()
      requires Valid()
      modifies `masterKey, `cachedManifest
      ensures Valid() && State() == Step(Contents(), old(State()), Call.Lock)
    {
      masterKey, cachedManifest := None, None;
    }
  }

  lemma DecryptedFits(f: File, key: Key)
    requires f.Valid() && ManifestEnd(f.header) <= |f.data|
    ensures var bytes := f.data[HEADER_SIZE..ManifestEnd(f.header)];
      var at := |bytes| - TAG_SIZE;
      && at >= 0
      && (var m := DecryptManifest(f.aead, f.json, key, f.header.manifestNonce, bytes[..at], bytes[at..],
        f.data[..HEADER_SIZE]);
          m.Ok? ==> |m.value.items| <= 0x10_0000 && forall i :: 0 <= i < |m.value.items| ==> m.value.items[i].Valid())
  {
    FileFacts(f);
    hide DecryptManifest, OpenFile;
    var bytes := f.data[HEADER_SIZE..ManifestEnd(f.header)];
    var at := |bytes| - TAG_SIZE;
    if DecryptManifest(f.aead, f.json, key, f.header.manifestNonce, bytes[..at], bytes[at..],
      f.data[..HEADER_SIZE]).Ok? {
      DecryptedManifest(f.aead, f.json, key, f.header.manifestNonce, bytes[..at], bytes[at..], f.data[..HEADER_SIZE]);
    }
  }

  /** The sum of the sizes, in 64 bits, which it cannot overflow. */
  method SumSizes(items: seq<ItemDescriptor>) returns (total: u64)
    requires |items| <= 0x10_0000 && forall i :: 0 <= i < |items| ==> items[i].Valid()
    ensures total == TotalSize(items)
  {
    total := 0;
    var i := 0;
    while i < |items|
      invariant i <= |items| && total == TotalSize(items[..i]) <= i * 0xFA0_0000
    {
      assert items[..i + 1][..i] == items[..i];
      total := total + items[i].itemSize;
      i := i + 1;
    }
    assert items[..i] == items;
  }

  method AccumulateOffset(h: Header, items: seq<ItemDescriptor>, index: nat) returns (offset: nat)
    requires index <= |items|
    ensures offset == RecordStart(h, items, index)
  {
    offset := HEADER_SIZE + h.manifestSize;
    var i := 0;
    while i < index
      invariant i <= index && offset == RecordStart(h, items, i)
    {
      assert items[..i + 1][..i] == items[..i];
      offset := offset + items[i].itemSize;
      i := i + 1;
    }
  }
}
