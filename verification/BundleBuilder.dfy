/** `BundleBuilder`: what a successful build writes, and when a build succeeds. */
module BundleBuilder {
  import opened Words
  import opened BundleHeader
  import opened Manifest

  datatype ItemContent = ItemContent(id: Uuid, name: string, mimeType: string, plaintext: seq<byte>,
    createdAt: Date, modifiedAt: Date, ttlSeconds: Option<nat>, ttlOriginEpoch: Option<Date>)

  datatype Parameters = Parameters(timeCost: u32, memoryKiB: u32, parallelism: byte)

  /** Everything a build depends on; `random(i)` is the nonce drawn for item `i`. */
  datatype Job = Job(aead: Aead, json: Json, key: Key, salt: seq<byte>, manifestNonce: seq<byte>,
      random: nat -> seq<byte>, parameters: Parameters, exportLabel: Option<string>, exportedAt: Date,
      items: seq<ItemContent>)
  {
    ghost predicate Valid() { aead.Valid() && json.Valid() && forall i {:trigger random(i)} :: |random(i)| == 12 }
  }

  // ---- step 1 ----

  function Describe(item: ItemContent, nonce: seq<byte>): ItemDescriptor {
    ItemDescriptor(item.id, item.name, item.mimeType, |item.plaintext|, item.createdAt, item.modifiedAt,
                   item.ttlSeconds, item.ttlOriginEpoch, nonce, |item.plaintext| + TAG_SIZE)
  }

  function Descriptors(job: Job, n: nat): (d: seq<ItemDescriptor>)
    requires n <= |job.items|
    ensures |d| == n
  {
    seq(n, i requires 0 <= i < n => Describe(job.items[i], job.random(i)))
  }

  /** The error of the first item that cannot be described. */
  function StagingError(job: Job, i: nat): Option<BundleError>
    requires i <= |job.items|
    decreases |job.items| - i
  {
    if i == |job.items| then None
    else if ItemError(Describe(job.items[i], job.random(i))).Some? then ItemError(Describe(job.items[i], job.random(i)))
    else StagingError(job, i + 1)
  }

  method Stage(job: Job) returns (r: Result<seq<ItemDescriptor>>)
    ensures r == if StagingError(job, 0).Some? then Err(StagingError(job, 0).value)
      else Ok(Descriptors(job, |job.items|))
    ensures r.Ok? ==> forall i :: 0 <= i < |r.value| ==> r.value[i].Valid()
  {
    var descriptors: seq<ItemDescriptor> := [];
    var i := 0;
    while i < |job.items|
      invariant i <= |job.items| && descriptors == Descriptors(job, i)
      invariant StagingError(job, 0) == StagingError(job, i)
      invariant forall j :: 0 <= j < i ==> descriptors[j].Valid()
    {
      var descriptor := Describe(job.items[i], job.random(i));
      if ItemError(descriptor).Some? {
        return Err(ItemError(descriptor).value);
      }
      descriptors := descriptors + [descriptor];
      i := i + 1;
    }
    return Ok(descriptors);
  }

  // ---- steps 2 to 6 ----

  function ManifestOf(job: Job): Manifest {
    Manifest(1, job.exportedAt, job.exportLabel, Descriptors(job, |job.items|))
  }

  /** The header for a manifest of `size` bytes. */
  function HeaderOf(job: Job, size: u32): Header {
    Header(1, 1, job.parameters.timeCost, job.parameters.memoryKiB, job.parameters.parallelism, job.salt,
      job.manifestNonce, size)
  }

  function Record(job: Job, h: Header, i: nat): seq<byte>
    requires h.Valid() && i < |job.items|
  {
    SealItem(job.aead, job.key, job.items[i].id, job.random(i), job.items[i].plaintext, HeaderBytes(h))
  }

  /** The first `n` records, one after the other. */
  function Records(job: Job, h: Header, n: nat): seq<byte>
    requires h.Valid() && n <= |job.items|
  {
    if n == 0 then [] else Records(job, h, n - 1) + Record(job, h, n - 1)
  }

  function SealedManifest(job: Job, h: Header, plaintext: seq<byte>): seq<byte>
    requires h.Valid()
  {
    var s := job.aead.seal(job.aead.manifestKey(job.key), job.manifestNonce, plaintext, HeaderBytes(h));
    s.0 + s.1
  }

  function Image(job: Job, h: Header, plaintext: seq<byte>): seq<byte>
    requires h.Valid()
  {
    HeaderBytes(h) + SealedManifest(job, h, plaintext) + Records(job, h, |job.items|)
  }

  /** What `buildBundle` returns. */
  function Bundle(job: Job): Result<seq<byte>> {
    if StagingError(job, 0).Some? then Err(StagingError(job, 0).value)
    else
      var plaintext := job.json.encode(ManifestOf(job));
      if plaintext.None? then Err(EncodingFailed)
      else if !ManifestSizeAllowed(|plaintext.value| + TAG_SIZE) then Err(ParameterOutOfBounds)
      else
        var h := Make(HeaderOf(job, |plaintext.value| + TAG_SIZE));
        if h.Err? then Err(h.error)
        else if !FileSizeAllowed(|Image(job, h.value, plaintext.value)|) then Err(ParameterOutOfBounds)
        else Ok(Image(job, h.value, plaintext.value))
  }

  lemma RecordSize(job: Job, h: Header, i: nat)
    requires job.Valid() && h.Valid() && i < |job.items|
    ensures |Record(job, h, i)| == |job.items[i].plaintext| + TAG_SIZE
  {
    hide HeaderBytes;
    OpenSealed(job.aead, job.key, job.items[i].id, job.random(i), job.items[i].plaintext, HeaderBytes(h));
  }

  /** Step 5: the records, each of the size its descriptor announces, and their total in 64 bits. */
  method SealItems(job: Job, h: Header, descriptors: seq<ItemDescriptor>) returns (records: seq<seq<byte>>, total: u64)
    requires job.Valid() && h.Valid() && descriptors == Descriptors(job, |job.items|) && |descriptors| <= 0x10_0000
    requires forall i :: 0 <= i < |descriptors| ==> descriptors[i].Valid()
    ensures |records| == |job.items| && forall i :: 0 <= i < |records| ==> records[i] == Record(job, h, i)
    ensures total == |Records(job, h, |job.items|)|
  {
    hide HeaderBytes, Aead.Valid, Json.Valid, Record;
    records, total := [], 0;
    var i := 0;
    while i < |job.items|
      invariant i <= |job.items| && |records| == i && total == |Records(job, h, i)| <= i * 0xFA0_0000
      invariant forall j :: 0 <= j < i ==> records[j] == Record(job, h, j)
    {
      var record := Record(job, h, i);
      RecordSize(job, h, i);
      assert |record| == descriptors[i].itemSize <= 0xFA0_0000;
      records := records + [record];
      total := total + |record|;
      i := i + 1;
    }
  }

  method Concatenate(job: Job, h: Header, records: seq<seq<byte>>, prefix: seq<byte>) returns (output: seq<byte>)
    requires h.Valid() && |records| == |job.items| && forall i :: 0 <= i < |records| ==> records[i] == Record(job, h, i)
    ensures output == prefix + Records(job, h, |job.items|)
  {
    hide Record;
    output := prefix;
    var i := 0;
    while i < |records|
      invariant i <= |records| && output == prefix + Records(job, h, i)
    {
      output := output + records[i];
      i := i + 1;
    }
  }

  /** Steps 4 to 6: encrypt the manifest and the items, check the total size, put everything together. */
  method Assemble(job: Job, h: Header, plaintext: seq<byte>, descriptors: seq<ItemDescriptor>)
    returns (r: Result<seq<byte>>)
    requires job.Valid() && h == HeaderOf(job, h.manifestSize) && h.Valid() && h.manifestSize == |plaintext| + TAG_SIZE
    requires job.json.encode(ManifestOf(job)) == Some(plaintext) && descriptors == Descriptors(job, |job.items|)
    requires forall i :: 0 <= i < |descriptors| ==> descriptors[i].Valid()
    ensures r == if FileSizeAllowed(|Image(job, h, plaintext)|) then Ok(Image(job, h, plaintext))
      else Err(ParameterOutOfBounds)
  {
    ItemsBounded(job, plaintext);
    hide HeaderBytes, Record, Descriptors, HeaderOf, FileSizeAllowed, Json.Valid;
    var headerBytes := Serialize(h);
    var sealedManifest := job.aead.seal(job.aead.manifestKey(job.key), job.manifestNonce, plaintext, headerBytes);
    var records, total := SealItems(job, h, descriptors);
    var totalSize := HEADER_SIZE + h.manifestSize + total;
    assert totalSize == |Image(job, h, plaintext)|;
    if !FileSizeAllowed(totalSize) {
      return Err(ParameterOutOfBounds);
    }
    var output := headerBytes + (sealedManifest.0 + sealedManifest.1);
    output := Concatenate(job, h, records, output);
    return Ok(output);
  }

  lemma ItemsBounded(job: Job, plaintext: seq<byte>)
    requires job.Valid() && job.json.encode(ManifestOf(job)) == Some(plaintext)
    ensures |job.items| <= |plaintext|
  {
    assert |ManifestOf(job).items| == |job.items|;
  }

  class BundleBuilder {
    var items: seq<ItemContent>
    const parameters: Parameters
    const exportLabel: Option<string>
    const exportedAt: Date

    constructor (parameters: Parameters, exportLabel: Option<string>, exportedAt: Date)
      ensures items == []
      ensures this.parameters == parameters && this.exportLabel == exportLabel && this.exportedAt == exportedAt
    {
      this.parameters, this.exportLabel, this.exportedAt := parameters, exportLabel, exportedAt;
      items := [];
    }

    method Add(item: ItemContent)
      modifies this
      ensures items == old(items) + [item]
    {
      items := items + [item];
    }

    function JobFor(aead: Aead, json: Json, key: Key, salt: seq<byte>, manifestNonce: seq<byte>,
        random: nat -> seq<byte>): Job
      reads this
    {
      Job(aead, json, key, salt, manifestNonce, random, parameters, exportLabel, exportedAt, items)
    }

    /** `buildBundle`. */
    method BuildBundle(aead: Aead, json: Json, key: Key, salt: seq<byte>, manifestNonce: seq<byte>,
        random: nat -> seq<byte>)
    returns (r: Result<seq<byte>>)
      requires JobFor(aead, json, key, salt, manifestNonce, random).Valid()
      ensures r == Bundle(JobFor(aead, json, key, salt, manifestNonce, random))
    {
      hide Image, Descriptors, StagingError, FileSizeAllowed, Aead.Valid, Json.Valid;
      var job := JobFor(aead, json, key, salt, manifestNonce, random);
      var staged := Stage(job);
      if staged.Err? {
        return Err(staged.error);
      }
      var manifest := Manifest(1, exportedAt, exportLabel, staged.value);
      var plaintext := json.encode(manifest);
      if plaintext.None? {
        return Err(EncodingFailed);
      }
      var manifestCiphertextSize := |plaintext.value| + TAG_SIZE;
      if !ManifestSizeAllowed(manifestCiphertextSize) {
        return Err(ParameterOutOfBounds);
      }
      var header := Make(HeaderOf(job, manifestCiphertextSize));
      if header.Err? {
        return Err(header.error);
      }
      r := Assemble(job, header.value, plaintext.value, staged.value);
    }
  }
}
