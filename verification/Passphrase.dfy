/** Passphrases: `Argon2id.deriveKey` over `argon2id_hash_raw`, and the bundle round trip through it. */
module Passphrase {
  import opened Words
  import opened Indexing
  import opened Context
  import opened EncodedText
  import opened Blake2b
  import opened FillBlock
  import opened Argon2
  import opened Verify
  import opened BundleHeader
  import opened Manifest
  import opened BundleBuilder
  import opened BundleParser
  import opened BundleRoundTrip
  import VerifyRefinement
  import Reference

  /** What `argon2id_hash_raw` is asked for. */
  function KeyRequest(passphrase: seq<byte>, salt: seq<byte>, p: Parameters): Request {
    Request(Costs(VERSION_13, p.memoryKiB, p.timeCost, p.parallelism), 32, Some(passphrase), |passphrase|, Some(salt),
      |salt|, ARGON2_ID)
  }

  /** `deriveKey`, from the UTF-8 bytes of the passphrase. */
  function DeriveKey<H(!new)>(alg: Alg<H>, passphrase: seq<byte>, salt: seq<byte>, p: Parameters): Result<Key>
    requires alg.Valid()
  {
    if |passphrase| == 0 || |salt| != 16 then Result.Err(ParameterOutOfBounds)
    else if KeyRequest(passphrase, salt, p).Code() != Code.Ok then Result.Err(ParameterOutOfBounds)
    else Result.Ok(HashOf(alg, KeyRequest(passphrase, salt, p)))
  }

  method Derive<H(!new)>(alg: Alg<H>, os: Scheduler<Block>, passphrase: seq<byte>, salt: seq<byte>, p: Parameters)
    returns (r: Result<Key>)
    requires alg.Valid() && Completes(Argon2Kernel(), os)
    ensures r == DeriveKey(alg, passphrase, salt, p)
  {
    hide HashOf, Completes, Request.Code;
    if |passphrase| == 0 || |salt| != 16 {
      return Result.Err(ParameterOutOfBounds);
    }
    var keyBuffer := new byte[32](_ => 0);
    var pwd := new byte[|passphrase|](i requires 0 <= i < |passphrase| => passphrase[i]);
    var saltBytes := new byte[|salt|](i requires 0 <= i < |salt| => salt[i]);
    assert pwd[..] == passphrase && saltBytes[..] == salt;
    var code := Argon2Hash(alg, os, p.timeCost, p.memoryKiB, p.parallelism, pwd, pwd.Length, saltBytes,
      saltBytes.Length, keyBuffer, 32, null, 0, ARGON2_ID, VERSION_13);
    if code != Code.Ok {
      return Result.Err(ParameterOutOfBounds);
    }
    assert keyBuffer[..32] == keyBuffer[..];
    return Result.Ok(keyBuffer[..]);
  }

  /** A derived key is the 32-byte Argon2id tag, version 0x13, of the passphrase with the salt and the
      costs asked for. */
  lemma KeyIsArgon2id<H(!new)>(alg: Alg<H>, passphrase: seq<byte>, salt: seq<byte>, p: Parameters)
    requires alg.Valid() && DeriveKey(alg, passphrase, salt, p).Ok?
    ensures var c := Reference.Params(p.parallelism as nat, 32, p.memoryKiB, p.timeCost, 0x13, 2, passphrase, salt,
                                      [], []);
      c.Valid() && DeriveKey(alg, passphrase, salt, p).value == Reference.Tag(alg, c)
  {
    hide HashOf, Request.Code, Reference.Tag, Reference.Params.Valid;
    var r := KeyRequest(passphrase, salt, p);
    VerifyRefinement.HashIsArgon2(alg, r);
    assert passphrase[..|passphrase|] == passphrase && salt[..|salt|] == salt;
  }

  /** Among the parameters the bundle format allows, a key can be derived if and only if there are eight
      KiB of memory for every lane; the format's own limits do not ask for that. */
  lemma DeriveIffEnoughMemory<H(!new)>(alg: Alg<H>, passphrase: seq<byte>, salt: seq<byte>, p: Parameters)
    requires alg.Valid() && 1 <= |passphrase| <= 0xFFFF_FFFF && |salt| == 16
    requires ArgonParamsAllowed(p.timeCost, p.memoryKiB, p.parallelism)
    ensures DeriveKey(alg, passphrase, salt, p).Ok? <==> 8 * p.parallelism as int <= p.memoryKiB
  {
    hide HashOf;
    ValidateIffInRange(KeyRequest(passphrase, salt, p).ContextWith(Zeros(32)));
  }

  /** So there are valid headers that no passphrase unlocks. */
  lemma AllowedButNotDerivable<H(!new)>(alg: Alg<H>, passphrase: seq<byte>, salt: seq<byte>, nonce: seq<byte>)
    requires alg.Valid() && |salt| == 16 && |nonce| == 12 && |passphrase| <= 0xFFFF_FFFF
    ensures Header(1, 1, 1, 8, 2, salt, nonce, 16).Valid()
    ensures DeriveKey(alg, passphrase, salt, Parameters(1, 8, 2)).Err?
  {
    hide HashOf;
    if |passphrase| > 0 {
      DeriveIffEnoughMemory(alg, passphrase, salt, Parameters(1, 8, 2));
    }
  }

  function ParametersOf(h: Header): Parameters { Parameters(h.timeCost, h.memoryKiB, h.parallelism) }

  /** `unlock(passphrase:)`. */
  function OpenWithPassphrase<H(!new)>(alg: Alg<H>, f: File, passphrase: seq<byte>): Result<Manifest>
    requires alg.Valid() && ManifestEnd(f.header) <= |f.data|
  {
    var key := DeriveKey(alg, passphrase, f.header.salt, ParametersOf(f.header));
    if key.Err? then Result.Err(key.error) else OpenManifest(f, key.value)
  }

  method UnlockWithPassphrase<H(!new)>(alg: Alg<H>, os: Scheduler<Block>, parser: BundleParser, passphrase: seq<byte>)
    returns (r: Result<Manifest>)
    requires alg.Valid() && Completes(Argon2Kernel(), os) && parser.Valid()
    modifies parser
    ensures parser.Valid() && r == OpenWithPassphrase(alg, parser.Contents(), passphrase)
    ensures r.Ok? ==> parser.cachedManifest == Some(r.value)
    ensures r.Err? ==> parser.State() == old(parser.State())
  {
    hide DeriveKey, OpenManifest, Completes, BundleParser.Valid;
    var key := Derive(alg, os, passphrase, parser.header.salt, ParametersOf(parser.header));
    if key.Err? {
      return Result.Err(key.error);
    }
    r := parser.UnlockWithKey(key.value);
  }

  /** The header carries all that is needed to derive the key again: a bundle built from a passphrase
      opens with that passphrase, and gives its manifest and every plaintext back. */
  lemma PassphraseRoundTrip<H(!new)>(alg: Alg<H>, job: Job, passphrase: seq<byte>, i: nat)
    requires alg.Valid() && job.Valid() && Exportable(job) && i < |job.items|
    requires DeriveKey(alg, passphrase, job.salt, job.parameters) == Result.Ok(job.key) && Bundle(job).Ok?
    ensures OpenFile(Bundle(job).value).Ok? && ManifestEnd(OpenFile(Bundle(job).value).value) <= |Bundle(job).value|
    ensures var f := File(job.aead, job.json, OpenFile(Bundle(job).value).value, Bundle(job).value);
      && OpenWithPassphrase(alg, f, passphrase) == Result.Ok(ManifestOf(job)) && ShowsJob(ManifestOf(job), job)
      && DecryptById(f, job.key, ManifestOf(job), job.items[i].id) == Result.Ok(job.items[i].plaintext)
  {
    hide DeriveKey, OpenManifest, DecryptById, OpenFile, Image, FileSizeAllowed, ShowsJob;
    BuiltOpens(job);
    BuiltUnlocks(job);
    BuiltDecrypts(job, i);
    KeptInHeader(job);
  }

  lemma KeptInHeader(job: Job)
    requires Bundle(job).Ok?
    ensures BuiltHeader(job).salt == job.salt && ParametersOf(BuiltHeader(job)) == job.parameters
  {
  }
}
