/** The file a build writes, byte by byte: offsets, numbers, keys, nonces and authenticated data. */
module BundleFile {
  import opened Words
  import opened ByteRefinement
  import opened BundleHeader
  import opened Manifest
  import opened BundleBuilder
  import opened BundleParser
  import opened BundleRoundTrip
  import Reference

  /** The 96 bytes at the head, with a manifest of `size` bytes. */
  predicate HeaderWritten(b: seq<byte>, job: Job, size: nat) {
    && |b| >= 96
    && (forall i :: 0 <= i < 8 ==> b[i] as char == "ULOCKED1"[i])
    && b[8] == 1 && b[9] == 0 && b[10] == 1
    && Reference.Number32(b, 11) == job.parameters.timeCost && Reference.Number32(b, 15) == job.parameters.memoryKiB
    && b[19] == job.parameters.parallelism
    && b[20..36] == job.salt && b[36..48] == job.manifestNonce && Reference.Number32(b, 48) == size
    && forall i :: 52 <= i < 96 ==> b[i] == 0
  }

  /** The records before item `i`: plaintexts and their tags. */
  function RecordsBefore(job: Job, i: nat): nat
    requires i <= |job.items|
  {
    if i == 0 then 0 else RecordsBefore(job, i - 1) + |job.items[i - 1].plaintext| + 16
  }

  /** At `at` are ciphertext and tag of `plaintext`, sealed with this key and nonce. */
  predicate SealedAt(aead: Aead, b: seq<byte>, at: nat, key: Key, nonce: seq<byte>, plaintext: seq<byte>,
                     aad: seq<byte>) {
    var s := aead.seal(key, nonce, plaintext, aad);
    at + |s.0| + |s.1| <= |b| && b[at..at + |s.0|] == s.0 && b[at + |s.0|..at + |s.0| + |s.1|] == s.1
  }

  lemma HeaderBytesWritten(job: Job, h: Header, rest: seq<byte>)
    requires h.Valid() && h == HeaderOf(job, h.manifestSize)
    ensures HeaderWritten(HeaderBytes(h) + rest, job, h.manifestSize)
  {
    HeaderSlices(h);
    LeTwo();
    LeFour(h.timeCost);
    LeFour(h.memoryKiB);
    LeFour(h.manifestSize);
    hide HeaderBytes, Le, Reference.Le32, Reference.Number32;
    var b, s := HeaderBytes(h) + rest, HeaderBytes(h);
    SliceBefore(s, rest, 11, 15);
    SliceBefore(s, rest, 15, 19);
    SliceBefore(s, rest, 48, 52);
    NumberAt(b, 11, h.timeCost);
    NumberAt(b, 15, h.memoryKiB);
    NumberAt(b, 48, h.manifestSize);
    SliceBefore(s, rest, 20, 36);
    SliceBefore(s, rest, 36, 48);
    MagicWritten(s);
    assert s[8] == s[8..10][0] && s[9] == s[8..10][1];
    assert forall i :: 52 <= i < 96 ==> s[i] == s[52..][i - 52];
  }

  lemma MagicWritten(s: seq<byte>)
    requires |s| >= 8 && s[..8] == MAGIC
    ensures forall i :: 0 <= i < 8 ==> s[i] as char == "ULOCKED1"[i]
  {
    assert forall i :: 0 <= i < 8 ==> s[i] == s[..8][i];
  }

  lemma LeTwo()
    ensures Le(1, 2) == [1, 0]
  {
  }

  lemma SliceBefore(s: seq<byte>, rest: seq<byte>, from: nat, to: nat)
    requires from <= to <= |s|
    ensures (s + rest)[from..to] == s[from..to]
  {
  }

  lemma {:induction false} SameTotal(job: Job, i: nat)
    requires i <= |job.items|
    ensures TotalSize(Descriptors(job, i)) == RecordsBefore(job, i)
  {
    if i == 0 {
      assert Descriptors(job, 0) == [];
    } else {
      var d := Descriptors(job, i);
      SameTotal(job, i - 1);
      assert d[..i - 1] == Descriptors(job, i - 1) && d[i - 1] == Describe(job.items[i - 1], job.random(i - 1));
      assert TotalSize(d) == TotalSize(d[..i - 1]) + d[i - 1].itemSize;
    }
  }

  lemma SealedParts(aead: Aead, b: seq<byte>, at: nat, key: Key, nonce: seq<byte>, plaintext: seq<byte>, aad: seq<byte>)
    requires aead.Valid() && at + |plaintext| + 16 <= |b|
    requires b[at..at + |plaintext| + 16]
          == aead.seal(key, nonce, plaintext, aad).0 + aead.seal(key, nonce, plaintext, aad).1
    ensures SealedAt(aead, b, at, key, nonce, plaintext, aad)
  {
    var s := aead.seal(key, nonce, plaintext, aad);
    var n := |plaintext|;
    assert b[at..at + n] == b[at..at + n + 16][..n] == s.0;
    assert b[at + n..at + n + 16] == b[at..at + n + 16][n..] == s.1;
  }

  /** A built file: the header; the JSON of a manifest that shows the job, sealed with the manifest key and
      the header as additional data; and nothing else but the items in their order, each sealed with its own
      key and nonce, with the header and its id as additional data. */
  lemma BuiltFile(job: Job, m: Manifest)
    requires job.Valid() && Bundle(job).Ok? && ShowsJob(m, job)
    ensures job.json.encode(m).Some?
    ensures var b, json := Bundle(job).value, job.json.encode(m).value;
      && |b| == 96 + |json| + 16 + RecordsBefore(job, |job.items|)
      && HeaderWritten(b, job, |json| + 16)
      && SealedAt(job.aead, b, 96, job.aead.manifestKey(job.key), job.manifestNonce, json, b[..96])
  {
    ManifestShows(job, m);
    Sections(job);
    BuiltParts(job);
    RecordsTotal(job, BuiltHeader(job), |job.items|);
    SameTotal(job, |job.items|);
    HeaderKept(job);
    hide Bundle, HeaderBytes, Records, Descriptors, BuiltHeader, Image, ShowsJob, ManifestOf, Job.Valid, Header.Valid,
      HeaderWritten, TotalSize, RecordsBefore, SealedAt;
    var b, h := Bundle(job).value, BuiltHeader(job);
    assert b == HeaderBytes(h) + b[96..];
    HeaderBytesWritten(job, h, b[96..]);
    assert job.aead.Valid() by { JobParts(job); }
    SealedParts(job.aead, b, 96, job.aead.manifestKey(job.key), job.manifestNonce, BuiltJson(job), b[..96]);
  }

  lemma JobParts(job: Job)
    requires job.Valid()
    ensures job.aead.Valid()
  {
  }

  lemma HeaderKept(job: Job)
    requires Bundle(job).Ok?
    ensures BuiltHeader(job) == HeaderOf(job, BuiltHeader(job).manifestSize)
  {
  }

  /** Item `i` of the file. */
  lemma BuiltItem(job: Job, m: Manifest, i: nat)
    requires job.Valid() && Bundle(job).Ok? && ShowsJob(m, job) && i < |job.items|
    ensures job.json.encode(m).Some? && |Bundle(job).value| >= 96
    ensures var b, json, item := Bundle(job).value, job.json.encode(m).value, job.items[i];
      SealedAt(job.aead, b, 96 + |json| + 16 + RecordsBefore(job, i), job.aead.itemKey(job.key, item.id), job.random(i),
        item.plaintext, b[..96] + item.id)
  {
    hide Bundle, HeaderBytes, Records, Descriptors, BuiltHeader, Image, ShowsJob, ManifestOf, Job.Valid, Header.Valid,
      TotalSize, RecordsBefore, SealedAt, Record, RecordStart, SealedManifest, FileSizeAllowed;
    ManifestShows(job, m);
    Sections(job);
    BuiltParts(job);
    RecordInPlace(job, i);
    StartOfRecord(job, i);
    SealedRecord(job, BuiltHeader(job), i);
    ItemSizeShown(job, i);
    JobParts(job);
    var item := job.items[i];
    SealedParts(job.aead, Bundle(job).value, RecordStart(BuiltHeader(job), ManifestOf(job).items, i),
      job.aead.itemKey(job.key, item.id), job.random(i), item.plaintext, Bundle(job).value[..96] + item.id);
  }

  lemma StartOfRecord(job: Job, i: nat)
    requires job.Valid() && Bundle(job).Ok? && i < |job.items|
    ensures RecordStart(BuiltHeader(job), ManifestOf(job).items, i)
         == 96 + |BuiltJson(job)| + 16 + RecordsBefore(job, i)
  {
    hide Bundle, Descriptors, BuiltHeader, TotalSize, RecordsBefore, Image, HeaderBytes;
    ManifestItems(job, i);
    FirstDescriptors(job, |job.items|, i);
    SameTotal(job, i);
  }

  lemma SealedRecord(job: Job, h: Header, i: nat)
    requires h.Valid() && i < |job.items|
    ensures var s := job.aead.seal(job.aead.itemKey(job.key, job.items[i].id), job.random(i), job.items[i].plaintext,
                                   HeaderBytes(h) + job.items[i].id);
      Record(job, h, i) == s.0 + s.1
  {
    hide HeaderBytes;
  }

  lemma ItemSizeShown(job: Job, i: nat)
    requires i < |job.items|
    ensures |ManifestOf(job).items| == |job.items|
    ensures ManifestOf(job).items[i].itemSize == |job.items[i].plaintext| + 16
  {
    ManifestItems(job, i);
  }
}
