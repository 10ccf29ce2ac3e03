/** What the builder writes, the parser reads. */
module BundleRoundTrip {
  import opened Words
  import opened BundleHeader
  import opened Manifest
  import opened BundleBuilder
  import opened BundleParser

  predicate DistinctContents(job: Job) {
    forall i, j :: 0 <= i < j < |job.items| ==> job.items[i].id != job.items[j].id
  }

  /** Dates without fractions of a second. */
  predicate WholeDates(job: Job) {
    && WholeSecond(job.exportedAt)
    && (forall i :: 0 <= i < |job.items| ==>
          && WholeSecond(job.items[i].createdAt) && WholeSecond(job.items[i].modifiedAt)
          && (job.items[i].ttlOriginEpoch.Some? ==> WholeSecond(job.items[i].ttlOriginEpoch.value)))
  }

  predicate Exportable(job: Job) { DistinctContents(job) && WholeDates(job) }

  /** A manifest entry says of an item what it was handed in with. */
  predicate ShowsItem(d: ItemDescriptor, item: ItemContent, nonce: seq<byte>) {
    && d.id == item.id && d.name == item.name && d.mimeType == item.mimeType && d.sizeBytes == |item.plaintext|
    && d.createdAt == item.createdAt && d.modifiedAt == item.modifiedAt
    && d.ttlSeconds == item.ttlSeconds && d.ttlOriginEpoch == item.ttlOriginEpoch
    && d.itemNonce == nonce && d.itemSize == |item.plaintext| + 16
  }

  /** A manifest shows the label and export date of the builder, and its items one by one. */
  predicate ShowsJob(m: Manifest, job: Job) {
    && m.schemaVersion == 1 && m.exportedAt == job.exportedAt && m.exportLabel == job.exportLabel
    && |m.items| == |job.items|
    && forall i :: 0 <= i < |m.items| ==> ShowsItem(m.items[i], job.items[i], job.random(i))
  }

  /** The manifest that is written does; no other does. */
  lemma ManifestShows(job: Job, m: Manifest)
    ensures ShowsJob(m, job) <==> m == ManifestOf(job)
  {
    if ShowsJob(m, job) {
      assert forall i :: 0 <= i < |m.items| ==> m.items[i] == Describe(job.items[i], job.random(i));
      assert m.items == Descriptors(job, |job.items|);
    }
  }

  /** The parts of a successful build. */
  function BuiltJson(job: Job): seq<byte>
    requires Bundle(job).Ok?
  {
    job.json.encode(ManifestOf(job)).value
  }

  function BuiltHeader(job: Job): (h: Header)
    requires Bundle(job).Ok?
    ensures h.Valid() && h.manifestSize == |BuiltJson(job)| + TAG_SIZE
    ensures Bundle(job).value == Image(job, h, BuiltJson(job)) && FileSizeAllowed(|Image(job, h, BuiltJson(job))|)
  {
    hide Image, FileSizeAllowed;
    HeaderOf(job, |job.json.encode(ManifestOf(job)).value| + TAG_SIZE)
  }

  lemma SealedSizes(job: Job, h: Header, plaintext: seq<byte>)
    requires job.Valid() && h.Valid()
    ensures |SealedManifest(job, h, plaintext)| == |plaintext| + TAG_SIZE
  {
    hide HeaderBytes;
  }

  /** The file opens, and its header is the one that was written. */
  lemma BuiltOpens(job: Job)
    requires job.Valid() && Bundle(job).Ok?
    ensures OpenFile(Bundle(job).value) == Result.Ok(BuiltHeader(job))
    ensures ManifestEnd(BuiltHeader(job)) <= |Bundle(job).value|
  {
    var h, plaintext := BuiltHeader(job), BuiltJson(job);
    hide Bundle, HeaderBytes, ParseHeader, SealedManifest, Records, Image, FileSizeAllowed, Header.Valid;
    SealedSizes(job, h, plaintext);
    var tail := SealedManifest(job, h, plaintext) + Records(job, h, |job.items|);
    HeaderFirst(job, h, plaintext);
    ParseSerialized(h, tail);
  }

  lemma HeaderFirst(job: Job, h: Header, plaintext: seq<byte>)
    requires h.Valid()
    ensures Image(job, h, plaintext)
         == HeaderBytes(h) + (SealedManifest(job, h, plaintext) + Records(job, h, |job.items|))
  {
    hide HeaderBytes, SealedManifest, Records;
  }

  /** The three sections of the image. */
  lemma Sections(job: Job)
    requires job.Valid() && Bundle(job).Ok?
    ensures var b, h := Bundle(job).value, BuiltHeader(job);
      && ManifestEnd(h) <= |b| && b[..HEADER_SIZE] == HeaderBytes(h)
      && b[HEADER_SIZE..ManifestEnd(h)] == SealedManifest(job, h, BuiltJson(job))
      && b[ManifestEnd(h)..] == Records(job, h, |job.items|)
  {
    var h, plaintext := BuiltHeader(job), BuiltJson(job);
    hide Bundle, HeaderBytes, SealedManifest, Records;
    SealedSizes(job, h, plaintext);
  }

  lemma {:induction false} RecordsTotal(job: Job, h: Header, n: nat)
    requires job.Valid() && h.Valid() && n <= |job.items|
    ensures |Records(job, h, n)| == TotalSize(Descriptors(job, n))
  {
    hide Record;
    if n > 0 {
      RecordsTotal(job, h, n - 1);
      RecordSize(job, h, n - 1);
      assert Descriptors(job, n)[..n - 1] == Descriptors(job, n - 1);
    }
  }

  /** Validation finds nothing in a manifest that was built, unless an id is there twice. */
  lemma BuiltManifest(job: Job)
    requires job.Valid() && Bundle(job).Ok? && WholeDates(job)
    ensures ManifestOf(job).WholeSeconds()
    ensures ManifestError(ManifestOf(job)) == if DistinctContents(job) then None else Some(ManifestParseFailed)
    ensures DistinctContents(job) ==> ValidManifest(ManifestOf(job))
  {
    StagedValid(job, 0);
    NoItemError(ManifestOf(job).items);
    SameIds(job);
  }

  lemma SameIds(job: Job)
    ensures DistinctIds(ManifestOf(job).items) <==> DistinctContents(job)
  {
    var items := ManifestOf(job).items;
    assert |items| == |job.items|;
    forall i | 0 <= i < |items|
      ensures items[i].id == job.items[i].id
    {
      assert items[i] == Describe(job.items[i], job.random(i));
    }
    if !DistinctContents(job) {
      var i, j :| 0 <= i < j < |job.items| && job.items[i].id == job.items[j].id;
      assert items[i].id == items[j].id;
    }
  }

  lemma {:induction false} StagedValid(job: Job, i: nat)
    requires i <= |job.items| && StagingError(job, i).None?
    ensures forall j :: i <= j < |job.items| ==> Describe(job.items[j], job.random(j)).Valid()
    decreases |job.items| - i
  {
    if i < |job.items| {
      StagedValid(job, i + 1);
    }
  }

  /** The same key gives the manifest back, if and only if the ids are distinct: the builder takes items
      with the same id, and the parser then refuses the manifest. */
  lemma BuiltUnlocks(job: Job)
    requires job.Valid() && Bundle(job).Ok? && WholeDates(job)
    requires ManifestEnd(BuiltHeader(job)) <= |Bundle(job).value|
    ensures OpenManifest(File(job.aead, job.json, BuiltHeader(job), Bundle(job).value), job.key)
         == if DistinctContents(job) then Result.Ok(ManifestOf(job)) else Result.Err(ManifestParseFailed)
    ensures ShowsJob(ManifestOf(job), job)
  {
    ManifestShows(job, ManifestOf(job));
    hide ShowsJob;
    var h, plaintext := BuiltHeader(job), BuiltJson(job);
    Sections(job);
    BuiltManifest(job);
    RecordsTotal(job, h, |job.items|);
    BuiltParts(job);
    hide Bundle, HeaderBytes, Records, TotalSize, ManifestError, ValidManifest, Descriptors, BuiltHeader;
    var s := job.aead.seal(job.aead.manifestKey(job.key), job.manifestNonce, plaintext, HeaderBytes(h));
    assert (s.0 + s.1)[..|s.0|] == s.0 && (s.0 + s.1)[|s.0|..] == s.1;
  }

  lemma BuiltParts(job: Job)
    requires job.Valid() && Bundle(job).Ok?
    ensures job.json.encode(ManifestOf(job)) == Some(BuiltJson(job))
      && BuiltHeader(job).manifestNonce == job.manifestNonce
  {
  }

  lemma {:induction false} RecordAt(job: Job, h: Header, n: nat, i: nat)
    requires job.Valid() && h.Valid() && i < n <= |job.items|
    ensures var start := TotalSize(Descriptors(job, n)[..i]);
      && start + |Record(job, h, i)| <= |Records(job, h, n)|
      && Records(job, h, n)[start..start + |Record(job, h, i)|] == Record(job, h, i)
  {
    hide Record, TotalSize, Records, Job.Valid, Header.Valid, Descriptors;
    FirstDescriptors(job, n, i);
    RecordsTotal(job, h, i);
    LastRecord(job, h, n);
    if i + 1 < n {
      RecordAt(job, h, n - 1, i);
      FirstDescriptors(job, n - 1, i);
    }
  }

  lemma FirstDescriptors(job: Job, n: nat, i: nat)
    requires i <= n <= |job.items|
    ensures |Descriptors(job, n)| == n && Descriptors(job, n)[..i] == Descriptors(job, i)
  {
  }

  lemma LastRecord(job: Job, h: Header, n: nat)
    requires h.Valid() && 0 < n <= |job.items|
    ensures Records(job, h, n) == Records(job, h, n - 1) + Record(job, h, n - 1)
  {
  }

  lemma {:induction false} IndexOfDistinct(items: seq<ItemDescriptor>, i: nat)
    requires i < |items| && DistinctIds(items)
    ensures IndexOf(items, items[i].id) == Some(i)
  {
  }

  lemma SliceBehind(b: seq<byte>, end: nat, tail: seq<byte>, start: nat, part: seq<byte>)
    requires end <= |b| && b[end..] == tail
    requires start + |part| <= |tail| && tail[start..start + |part|] == part
    ensures end + start + |part| <= |b| && b[end + start..end + start + |part|] == part
  {
  }

  lemma ManifestItems(job: Job, i: nat)
    requires i < |job.items|
    ensures |ManifestOf(job).items| == |job.items| && ManifestOf(job).items == Descriptors(job, |job.items|)
    ensures ManifestOf(job).items[i] == Describe(job.items[i], job.random(i))
  {
  }

  /** The record of item `i` is where the parser looks for it. */
  lemma RecordInPlace(job: Job, i: nat)
    requires job.Valid() && Bundle(job).Ok? && i < |job.items| && ManifestEnd(BuiltHeader(job)) <= |Bundle(job).value|
    ensures var at, size := RecordStart(BuiltHeader(job), ManifestOf(job).items, i), ManifestOf(job).items[i].itemSize;
      at + size <= |Bundle(job).value| && Bundle(job).value[at..at + size] == Record(job, BuiltHeader(job), i)
  {
    hide Bundle, Image, HeaderBytes, Records, TotalSize, BuiltHeader, Record, Descriptors, ManifestOf, FileSizeAllowed,
         SealedManifest, ManifestEnd, Job.Valid, Header.Valid;
    var h := BuiltHeader(job);
    Sections(job);
    RecordAt(job, h, |job.items|, i);
    RecordSize(job, h, i);
    ManifestItems(job, i);
    SliceBehind(Bundle(job).value, ManifestEnd(h), Records(job, h, |job.items|),
      TotalSize(ManifestOf(job).items[..i]), Record(job, h, i));
  }

  /** And decrypting item `i` gives its plaintext. */
  lemma BuiltDecrypts(job: Job, i: nat)
    requires job.Valid() && Bundle(job).Ok? && Exportable(job) && i < |job.items|
    requires ManifestEnd(BuiltHeader(job)) <= |Bundle(job).value|
    ensures DecryptById(File(job.aead, job.json, BuiltHeader(job), Bundle(job).value), job.key, ManifestOf(job),
      job.items[i].id)
         == Result.Ok(job.items[i].plaintext)
  {
    hide Bundle, BuiltHeader, Image, HeaderBytes, Records, SealedManifest, TotalSize, IndexOf, OpenItem, SealItem,
         RecordStart, DistinctIds, DistinctContents, WholeDates, Aead.Valid, Json.Valid, FileSizeAllowed;
    var h := BuiltHeader(job);
    Sections(job);
    BuiltManifest(job);
    IndexOfDistinct(ManifestOf(job).items, i);
    RecordInPlace(job, i);
    OpenSealed(job.aead, job.key, job.items[i].id, job.random(i), job.items[i].plaintext, HeaderBytes(h));
  }

  /** The round trip: whatever a build with distinct ids and whole-second dates returns can be opened; the
      same key unlocks it, even after failed attempts, and gives the same manifest; item by item, the
      plaintexts come back. */
  lemma RoundTrip(job: Job, before: seq<Call>, i: nat)
    requires job.Valid() && Bundle(job).Ok? && Exportable(job) && i < |job.items|
    ensures OpenFile(Bundle(job).value).Ok? && ManifestEnd(OpenFile(Bundle(job).value).value) <= |Bundle(job).value|
    ensures var f := File(job.aead, job.json, OpenFile(Bundle(job).value).value, Bundle(job).value);
      var s := After(f, before + [Call.Unlock(job.key)]);
      && s == Session(Some(job.key), Some(ManifestOf(job))) && ShowsJob(s.manifest.value, job)
      && DecryptById(f, job.key, ManifestOf(job), job.items[i].id) == Result.Ok(job.items[i].plaintext)
  {
    BuiltOpens(job);
    BuiltUnlocks(job);
    BuiltDecrypts(job, i);
    hide Bundle, BuiltHeader, OpenFile, OpenManifest, DecryptById, ManifestOf, ShowsJob;
    var f := File(job.aead, job.json, OpenFile(Bundle(job).value).value, Bundle(job).value);
    var calls := before + [Call.Unlock(job.key)];
    assert calls[..|calls| - 1] == before;
  }

  /** Two empty items with the same id are built into a bundle that opens and does not unlock, whenever the
      manifest and the header are within the limits. */
  lemma DuplicateIdsBuilt(job: Job)
    requires job.Valid() && |job.items| == 2 && job.items[0] == job.items[1] && WholeDates(job)
    requires job.items[0].plaintext == [] && job.items[0].ttlSeconds.None? && job.items[0].ttlOriginEpoch.None?
    requires var json := job.json.encode(ManifestOf(job)); json.Some? && |json.value| <= 0xF_FFF0
    requires HeaderOf(job, |job.json.encode(ManifestOf(job)).value| + TAG_SIZE).Valid()
    ensures Bundle(job).Ok?
    ensures OpenFile(Bundle(job).value) == Result.Ok(BuiltHeader(job))
      && ManifestEnd(BuiltHeader(job)) <= |Bundle(job).value|
    ensures OpenManifest(File(job.aead, job.json, BuiltHeader(job), Bundle(job).value), job.key)
         == Result.Err(ManifestParseFailed)
  {
    var plaintext := job.json.encode(ManifestOf(job)).value;
    var h := HeaderOf(job, |plaintext| + TAG_SIZE);
    NothingToStage(job);
    SmallImage(job, h, plaintext);
    assert Bundle(job) == Result.Ok(Image(job, h, plaintext));
    hide Bundle, BuiltHeader, OpenFile, OpenManifest, Image;
    BuiltOpens(job);
    BuiltUnlocks(job);
    assert !DistinctContents(job);
  }

  lemma NothingToStage(job: Job)
    requires job.Valid() && |job.items| == 2 && job.items[0] == job.items[1]
    requires job.items[0].plaintext == [] && job.items[0].ttlSeconds.None? && job.items[0].ttlOriginEpoch.None?
    ensures StagingError(job, 0) == None
  {
    assert StagingError(job, 2) == None;
    assert StagingError(job, 1) == None;
  }

  lemma SmallImage(job: Job, h: Header, plaintext: seq<byte>)
    requires job.Valid() && h.Valid() && |job.items| == 2 && job.items[0].plaintext == [] == job.items[1].plaintext
    requires |plaintext| <= 0xF_FFF0
    ensures FileSizeAllowed(|Image(job, h, plaintext)|)
  {
    hide HeaderBytes, Record, SealedManifest;
    SealedSizes(job, h, plaintext);
    RecordSize(job, h, 0);
    RecordSize(job, h, 1);
    assert |Records(job, h, 2)| == |Record(job, h, 0)| + |Record(job, h, 1)| by {
      assert Records(job, h, 0) == [];
      assert Records(job, h, 1) == Records(job, h, 0) + Record(job, h, 0);
    }
  }
}
