/**
 * The image registry of `handleImage`: a list of `{hash, url}` entries. An image whose content
 * hash is registered is not uploaded again; a new image is uploaded and its entry appended.
 *
 * The SHA-256 hash of the file's bytes and the image-hosting upload are parameters.
 */
module Images {
  import opened Wrappers
  import opened NoteIndex

  datatype Entry = Entry(hash: string, url: string)

  /** The first index at or after `from` of an entry for `hash`. */
  function LookupFrom(images: seq<Entry>, hash: string, from: nat): (r: Option<nat>)
    decreases |images| - from
    ensures r.Some? ==> from <= r.value < |images| && images[r.value].hash == hash
    ensures r.Some? ==> forall j :: from <= j < r.value ==> images[j].hash != hash
    ensures r.None? ==> forall j :: from <= j < |images| ==> images[j].hash != hash
  {
    if from >= |images| then None
    else if images[from].hash == hash then Some(from)
    else LookupFrom(images, hash, from + 1)
  }

  /** The index of the entry the linear scan stops at. */
  function Lookup(images: seq<Entry>, hash: string): Option<nat> {
    LookupFrom(images, hash, 0)
  }

  /** The URL stored for `hash`, if any. */
  function LookupUrl(images: seq<Entry>, hash: string): Option<string> {
    match Lookup(images, hash)
    case Some(i) => Some(images[i].url)
    case None => None
  }

  /**
   * One `handleImage` call on a registry: on a hit the stored URL and the same registry;
   * on a miss the freshly uploaded URL and the registry with one entry appended.
   */
  function ResolveImage(images: seq<Entry>, hash: string, uploaded: string): (seq<Entry>, string) {
    match Lookup(images, hash)
    case Some(i) => (images, images[i].url)
    case None => (images + [Entry(hash, uploaded)], uploaded)
  }

  /** `handleImage(file)`, given the registry it fetched. */
  method HandleImage(images: seq<Entry>, file: TFile, hashOf: TFile -> string, upload: TFile -> string)
    returns (registry: seq<Entry>, url: string)
    ensures (registry, url) == ResolveImage(images, hashOf(file), upload(file))
  {
    var imageHash := hashOf(file);
    for i := 0 to |images|
      invariant forall k :: 0 <= k < i ==> images[k].hash != imageHash
    {
      if images[i].hash == imageHash {
        return images, images[i].url;
      }
    }
    url := upload(file);
    registry := images + [Entry(imageHash, url)];
  }

  /** Every hash has at most one entry. */
  predicate DistinctHashes(images: seq<Entry>) {
    forall i, j :: 0 <= i < j < |images| ==> images[i].hash != images[j].hash
  }

  /** Appending entries never changes the answer for a hash that is already registered. */
  lemma LookupExtends(images: seq<Entry>, more: seq<Entry>, hash: string)
    requires Lookup(images, hash).Some?
    ensures Lookup(images + more, hash) == Lookup(images, hash)
  {
    var i := Lookup(images, hash).value;
    assert (images + more)[i] == images[i];
  }

  /**
   * After one resolution the registry extends the old one, maps the hash to the returned URL,
   * grows by exactly one entry on a miss and not at all on a hit, and keeps hashes distinct.
   */
  lemma ResolveImageSound(images: seq<Entry>, hash: string, uploaded: string)
    ensures var (reg, url) := ResolveImage(images, hash, uploaded);
      && images <= reg
      && LookupUrl(reg, hash) == Some(url)
      && (Lookup(images, hash).Some? ==> reg == images && url == LookupUrl(images, hash).value)
      && (Lookup(images, hash).None? ==> reg == images + [Entry(hash, uploaded)] && url == uploaded)
      && (DistinctHashes(images) ==> DistinctHashes(reg))
  {
    var (reg, url) := ResolveImage(images, hash, uploaded);
    if Lookup(images, hash).None? {
      assert reg[|images|].hash == hash;
      assert Lookup(reg, hash) == Some(|images|);
    }
  }

  /** Resolving the same content again is a hit: same URL, no upload, registry unchanged. */
  lemma ResolveImageIdempotent(images: seq<Entry>, hash: string, uploaded: string, uploadedAgain: string)
    ensures var (reg, url) := ResolveImage(images, hash, uploaded);
      ResolveImage(reg, hash, uploadedAgain) == (reg, url)
  {
    ResolveImageSound(images, hash, uploaded);
  }

  /** A sequential run of `handleImage` over `files`, threading the registry. */
  function ResolveFiles(images: seq<Entry>, files: seq<TFile>, hashOf: TFile -> string, upload: TFile -> string)
    : (seq<Entry>, seq<string>)
    decreases |files|
  {
    if files == [] then (images, [])
    else
      var (reg, url) := ResolveImage(images, hashOf(files[0]), upload(files[0]));
      var (reg', urls) := ResolveFiles(reg, files[1..], hashOf, upload);
      (reg', [url] + urls)
  }

  lemma {:induction false} ResolveFilesRegisters(images: seq<Entry>, files: seq<TFile>, hashOf: TFile -> string, upload: TFile -> string)
    ensures var (reg, urls) := ResolveFiles(images, files, hashOf, upload);
      && images <= reg && |urls| == |files|
      && (forall k :: 0 <= k < |files| ==> LookupUrl(reg, hashOf(files[k])) == Some(urls[k]))
      && (DistinctHashes(images) ==> DistinctHashes(reg))
    decreases |files|
  {
    if files != [] {
      var (reg1, url) := ResolveImage(images, hashOf(files[0]), upload(files[0]));
      ResolveImageSound(images, hashOf(files[0]), upload(files[0]));
      ResolveFilesRegisters(reg1, files[1..], hashOf, upload);
      var (reg, urls) := ResolveFiles(reg1, files[1..], hashOf, upload);
      assert reg == reg1 + reg[|reg1|..];
      LookupExtends(reg1, reg[|reg1|..], hashOf(files[0]));
      forall k | 1 <= k < |files| ensures LookupUrl(reg, hashOf(files[k])) == Some(([url] + urls)[k]) {
        assert files[1..][k - 1] == files[k];
      }
    }
  }

  lemma {:induction false} ResolveFilesAllHits(reg: seq<Entry>, files: seq<TFile>, urls: seq<string>, hashOf: TFile -> string, upload: TFile -> string)
    requires |urls| == |files|
    requires forall k :: 0 <= k < |files| ==> LookupUrl(reg, hashOf(files[k])) == Some(urls[k])
    ensures ResolveFiles(reg, files, hashOf, upload) == (reg, urls)
    decreases |files|
  {
    if files != [] {
      assert LookupUrl(reg, hashOf(files[0])) == Some(urls[0]);
      forall k | 0 <= k < |files| - 1 ensures LookupUrl(reg, hashOf(files[1..][k])) == Some(urls[1..][k]) {
        assert files[1..][k] == files[k + 1];
      }
      ResolveFilesAllHits(reg, files[1..], urls[1..], hashOf, upload);
      assert urls == [urls[0]] + urls[1..];
    }
  }

  /**
   * Running the same images through a second time returns the same URLs, uploads nothing
   * (whatever the uploader would answer) and leaves the registry as the first run left it.
   */
  lemma SecondRunIsStable(images: seq<Entry>, files: seq<TFile>, hashOf: TFile -> string,
                          upload: TFile -> string, uploadAgain: TFile -> string)
    ensures var (reg, urls) := ResolveFiles(images, files, hashOf, upload);
      ResolveFiles(reg, files, hashOf, uploadAgain) == (reg, urls)
  {
    var (reg, urls) := ResolveFiles(images, files, hashOf, upload);
    ResolveFilesRegisters(images, files, hashOf, upload);
    ResolveFilesAllHits(reg, files, urls, hashOf, uploadAgain);
  }
}
