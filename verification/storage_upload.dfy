/** The decision logic of the storage upload helpers
    (src/utils/supabaseStorage.ts).  Every answer of the backend service and
    of `fetch` is a parameter; a call that throws is folded into the failure
    answer its `catch` block treats it as. */
module StorageUpload {
  import opened Wrappers
  import opened StorageNaming
  import Text

  /** Name of the bucket every image is stored in. */
  const ImagesBucket := "images"

  /** Size limit the bucket is created with: 10 MiB. */
  const ImagesBucketSizeLimit := 10 * 1024 * 1024

  /** Settings of a bucket. */
  datatype Bucket = Bucket(name: string, isPublic: bool, fileSizeLimit: nat)

  /** The bucket `ensureImagesBucketExists` creates when it is missing. */
  const ImagesBucketSettings := Bucket(ImagesBucket, true, ImagesBucketSizeLimit)

  /** Answer of the bucket listing: an error (or a throw), or the names of
      the buckets that exist. */
  datatype BucketListing = ListingFailed | Listed(names: seq<string>)

  /** What the bucket check decided: whether it reports success and whether
      it asked the store to create the bucket. */
  datatype BucketCheck = BucketCheck(ok: bool, createRequested: bool)

  /** `ensureImagesBucketExists`, given the listing and the answer the store
      would give to a creation request. */
  function EnsureImagesBucketExists(listing: BucketListing, createSucceeds: bool): (check: BucketCheck)
    ensures listing.ListingFailed? ==> !check.ok && !check.createRequested
    ensures listing.Listed? && ImagesBucket in listing.names ==> check.ok && !check.createRequested
    ensures listing.Listed? && ImagesBucket !in listing.names ==>
      check.createRequested && (check.ok <==> createSucceeds)
  {
    match listing
    case ListingFailed => BucketCheck(false, false)
    case Listed(names) =>
      if ImagesBucket in names then BucketCheck(true, false)
      else BucketCheck(createSucceeds, true)
  }

  /** The bucket the check creates, if any: only a missing `images` bucket,
      public and limited to 10 MiB per file. */
  function CreatedBucket(listing: BucketListing, createSucceeds: bool): (created: Option<Bucket>)
    ensures created.Some? <==>
      listing.Listed? && ImagesBucket !in listing.names && createSucceeds
    ensures created.Some? ==>
      && created.value.name == ImagesBucket
      && created.value.isPublic
      && created.value.fileSizeLimit == 10485760
  {
    var check := EnsureImagesBucketExists(listing, createSucceeds);
    if check.createRequested && createSucceeds then Some(ImagesBucketSettings) else None
  }

  /** The names of the buckets that exist once the check has run. */
  function BucketsAfter(listing: BucketListing, createSucceeds: bool): seq<string>
    requires listing.Listed?
  {
    match CreatedBucket(listing, createSucceeds)
    case Some(bucket) => listing.names + [bucket.name]
    case None => listing.names
  }

  /** A successful check leaves an `images` bucket behind, and nothing but a
      missing `images` bucket is ever created. */
  lemma BucketCheckEstablishesBucket(listing: BucketListing, createSucceeds: bool)
    requires EnsureImagesBucketExists(listing, createSucceeds).ok
    ensures listing.Listed?
    ensures ImagesBucket in BucketsAfter(listing, createSucceeds)
    ensures |BucketsAfter(listing, createSucceeds)| <= |listing.names| + 1
  {
  }

  /** After a successful check, checking again succeeds without creating
      anything, whatever the store would answer to a creation request. */
  lemma BucketCheckIdempotent(listing: BucketListing, createSucceeds: bool, again: bool)
    requires EnsureImagesBucketExists(listing, createSucceeds).ok
    ensures EnsureImagesBucketExists(Listed(BucketsAfter(listing, createSucceeds)), again)
      == BucketCheck(true, false)
  {
    BucketCheckEstablishesBucket(listing, createSucceeds);
  }

  /** A fetched blob: its size in bytes and its reported MIME type. */
  datatype Blob = Blob(size: nat, mimeType: string)

  /** Answer of `fetch`: it threw, or it gave a response with an `ok` flag
      and a body. */
  datatype FetchReply = FetchThrew | Response(ok: bool, blob: Blob)

  /** The `File` handed to the upload: its name, content type and size. */
  datatype UploadFile = UploadFile(name: string, contentType: string, size: nat)

  /** Answer of the storage upload: an error (or a throw), or the path the
      object was stored under. */
  datatype UploadReply = UploadFailed | Stored(path: string)

  /** `uploadImage(file, path)`: the object is uploaded under
      `UploadPath(path, file.name)` and the public URL of the stored path is
      returned; any upload failure gives `null`.  Its own bucket check is
      awaited but its answer is ignored, so it is not a parameter. */
  function UploadImage(file: UploadFile, path: Option<string>,
                       upload: (string, UploadFile) -> UploadReply,
                       publicUrl: string -> string): (url: Option<string>)
    ensures url.Some? <==> upload(UploadPath(path, file.name), file).Stored?
    ensures url.Some? ==> url.value == publicUrl(upload(UploadPath(path, file.name), file).path)
  {
    match upload(UploadPath(path, file.name), file)
    case UploadFailed => None
    case Stored(stored) => Some(publicUrl(stored))
  }

  /** The file built from a fetched blob for the base name `filename`. */
  function FileFromBlob(filename: string, blob: Blob): (file: UploadFile)
    ensures file.contentType == ContentType(blob.mimeType)
    ensures file.name == SafeFilename(filename, FileExtension(file.contentType))
    ensures file.size == blob.size
    ensures '/' !in file.name
    ensures Text.Split(file.name, '.')[0] == Sanitize(filename)
  {
    var contentType := ContentType(blob.mimeType);
    var ext := FileExtension(contentType);
    var name := SafeFilename(filename, ext);
    assert '/' !in name by {
      forall i | 0 <= i < |name| ensures name[i] != '/' {
        if i < |filename| {
          assert name[i] == name[..|filename|][i];
        } else if i > |filename| {
          assert name[i] == name[|filename| + 1..][i - |filename| - 1];
        }
      }
    }
    SafeFilenamePieces(filename, ext);
    UploadFile(SafeFilename(filename, FileExtension(contentType)), contentType, blob.size)
  }

  /** `uploadImageFromUrl(url, filename)`, given the answer of the bucket
      check, the `fetch` of a URL, the storage upload and the public-URL
      lookup.  It gives up with `null` when the bucket check fails, when
      the response is not ok, when the blob is empty, or when the upload
      fails; otherwise it fetches the cleaned URL and stores the blob under
      its safe file name at the top of the bucket. */
  function UploadImageFromUrl(url: string, filename: string, bucketOk: bool,
                              fetch: string -> FetchReply,
                              upload: (string, UploadFile) -> UploadReply,
                              publicUrl: string -> string): (result: Option<string>)
    ensures !bucketOk ==> result.None?
    ensures fetch(CleanUrl(url)).FetchThrew? ==> result.None?
    ensures fetch(CleanUrl(url)).Response? && !fetch(CleanUrl(url)).ok ==> result.None?
    ensures fetch(CleanUrl(url)).Response? && fetch(CleanUrl(url)).blob.size == 0 ==> result.None?
    ensures result.Some? <==>
      && bucketOk
      && fetch(CleanUrl(url)).Response?
      && fetch(CleanUrl(url)).ok
      && fetch(CleanUrl(url)).blob.size > 0
      && upload(FileFromBlob(filename, fetch(CleanUrl(url)).blob).name,
                FileFromBlob(filename, fetch(CleanUrl(url)).blob)).Stored?
    ensures result.Some? ==>
      var file := FileFromBlob(filename, fetch(CleanUrl(url)).blob);
      result.value == publicUrl(upload(file.name, file).path)
  {
    if !bucketOk then None
    else
      match fetch(CleanUrl(url))
      case FetchThrew => None
      case Response(ok, blob) =>
        if !ok || blob.size == 0 then None
        else UploadImage(FileFromBlob(filename, blob), None, upload, publicUrl)
  }

  /** One of the demo images to seed. */
  datatype Sample = Sample(url: string, filename: string)

  /** The five demo images, in the order they are uploaded. */
  const Samples: seq<Sample> := [
    Sample("https://images.pexels.com/photos/3861969/pexels-photo-3861969.jpeg?auto=compress&cs=tinysrgb&w=1260&h=750&dpr=2", "sunset-landscape"),
    Sample("https://images.pexels.com/photos/3617500/pexels-photo-3617500.jpeg?auto=compress&cs=tinysrgb&w=1260&h=750&dpr=2", "futuristic-city"),
    Sample("https://images.pexels.com/photos/1097456/pexels-photo-1097456.jpeg?auto=compress&cs=tinysrgb&w=1260&h=750&dpr=2", "abstract-pattern"),
    Sample("https://images.pexels.com/photos/1366957/pexels-photo-1366957.jpeg?auto=compress&cs=tinysrgb&w=1260&h=750&dpr=2", "mountain-landscape"),
    Sample("https://images.pexels.com/photos/1252890/pexels-photo-1252890.jpeg?auto=compress&cs=tinysrgb&w=1260&h=750&dpr=2", "space-galaxy")
  ]

  /** The URLs the seeding loop keeps from a run of upload results: the
      present, non-empty ones (`if (url)`), in order. */
  function Collected(results: seq<Option<string>>): (urls: seq<string>)
    ensures |urls| <= |results|
    ensures forall i :: 0 <= i < |urls| ==> urls[i] != ""
    ensures forall u :: u in urls ==> Some(u) in results
    ensures forall i :: 0 <= i < |results| && results[i].Some? && results[i].value != "" ==>
      results[i].value in urls
  {
    if |results| == 0 then []
    else
      var last := results[|results| - 1];
      var front := Collected(results[..|results| - 1]);
      if last.Some? && last.value != "" then front + [last.value] else front
  }

  /** `seedSampleImages`, given the result of `uploadImageFromUrl` for each
      sample (a throw counts as `null`): the URLs of the samples that were
      uploaded, in sample order. */
  method SeedSampleImages(uploadFromUrl: Sample -> Option<string>) returns (urls: seq<string>)
    ensures urls == Collected(seq(|Samples|, i requires 0 <= i < |Samples| => uploadFromUrl(Samples[i])))
    ensures |urls| <= |Samples|
    ensures forall u :: u in urls ==> u != "" && exists s :: s in Samples && uploadFromUrl(s) == Some(u)
  {
    var results := seq(|Samples|, i requires 0 <= i < |Samples| => uploadFromUrl(Samples[i]));
    urls := [];
    for k := 0 to |Samples|
      invariant urls == Collected(results[..k])
    {
      var url := uploadFromUrl(Samples[k]);
      assert results[..k + 1][..k] == results[..k];
      if url.Some? && url.value != "" {
        urls := urls + [url.value];
      }
    }
    assert results[..|Samples|] == results;
    forall u | u in urls ensures exists s :: s in Samples && uploadFromUrl(s) == Some(u) {
      var i :| 0 <= i < |results| && results[i] == Some(u);
      assert Samples[i] in Samples;
    }
  }

  /** Collecting is compositional, so the kept URLs follow sample order:
      those of an earlier run of results come before those of a later one. */
  lemma {:induction false} CollectedAppend(a: seq<Option<string>>, b: seq<Option<string>>)
    ensures Collected(a + b) == Collected(a) + Collected(b)
    decreases |b|
  {
    if |b| > 0 {
      var b' := b[..|b| - 1];
      assert (a + b)[..|a + b| - 1] == a + b';
      assert (a + b)[|a + b| - 1] == b[|b| - 1];
      CollectedAppend(a, b');
    } else {
      assert a + b == a;
    }
  }

  /** When every sample uploads to a non-empty URL, the seeding returns all
      five, each at its sample's position. */
  lemma {:induction false} CollectedAllPresent(results: seq<Option<string>>)
    requires forall i :: 0 <= i < |results| ==> results[i].Some? && results[i].value != ""
    ensures |Collected(results)| == |results|
    ensures forall i :: 0 <= i < |results| ==> Collected(results)[i] == results[i].value
  {
    if |results| > 0 {
      CollectedAllPresent(results[..|results| - 1]);
    }
  }

  /** When no sample uploads, the seeding returns nothing. */
  lemma {:induction false} CollectedNonePresent(results: seq<Option<string>>)
    requires forall i :: 0 <= i < |results| ==> results[i].None?
    ensures Collected(results) == []
  {
    if |results| > 0 {
      CollectedNonePresent(results[..|results| - 1]);
    }
  }

  /** The sample base names are already safe, so each is stored under its
      own name plus the extension. */
  lemma SampleNamesAreSafe()
    ensures forall s :: s in Samples ==> Sanitize(s.filename) == s.filename
  {
    forall k | 0 <= k < |Samples| ensures Sanitize(Samples[k].filename) == Samples[k].filename {
      var name := Samples[k].filename;
      assert forall i :: 0 <= i < |name| ==> IsSafeChar(name[i]);
      SanitizeFixedPoints(name);
    }
  }
}
