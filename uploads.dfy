/** Image uploads: the MIME-type filter and size limit the multipart parser is
    configured with, the public URL of a stored object, and the name and bucket an
    uploaded image is stored under. */
module Uploads {
  import opened Wrappers
  import opened Strings

  // ---------------------------------------------------------------------------
  // The multipart configuration

  /** `limits.fileSize`: 5 MiB. */
  const MaxFileSize: nat := 5 * 1024 * 1024

  /** The parser accepts a file of at most `MaxFileSize` bytes. */
  predicate WithinSizeLimit(size: nat) {
    size <= MaxFileSize
  }

  const ImageSubtypes: seq<string> := ["jpg", "jpeg", "png", "gif", "webp"]

  const RejectMessage := "Apenas imagens s\U{E3}o permitidas!"

  /** An image MIME type: one ending in '/' and one of the image subtypes. */
  predicate IsImageMime(mimetype: string) {
    exists subtype | subtype in ImageSubtypes :: EndsWith(mimetype, "/" + subtype)
  }

  /** The regular expression's alternatives are the image subtypes. */
  lemma ImageSuffixes(mimetype: string)
    ensures IsImageMime(mimetype) <==>
      EndsWith(mimetype, "/jpg") || EndsWith(mimetype, "/jpeg") || EndsWith(mimetype, "/png")
      || EndsWith(mimetype, "/gif") || EndsWith(mimetype, "/webp")
  {
    assert ImageSubtypes == ["jpg", "jpeg", "png", "gif", "webp"];
    assert "/" + "jpg" == "/jpg" && "/" + "jpeg" == "/jpeg" && "/" + "png" == "/png";
    assert "/" + "gif" == "/gif" && "/" + "webp" == "/webp";
  }

  /** The arguments `fileFilter` passes to its callback. */
  datatype FilterCallback = FilterCallback(error: Option<string>, accept: bool)

  /** `fileFilter`: `mimetype.match(/\/(jpg|jpeg|png|gif|webp)$/)`, then exactly one
      call of the callback, with an error and `false` or with `null` and `true`. */
  function FileFilter(mimetype: string): (r: FilterCallback)
    ensures r.accept <==> IsImageMime(mimetype)
    ensures r.accept ==> r.error == None
    ensures !r.accept ==> r.error == Some(RejectMessage)
  {
    ImageSuffixes(mimetype);
    if EndsWith(mimetype, "/jpg") || EndsWith(mimetype, "/jpeg") || EndsWith(mimetype, "/png")
       || EndsWith(mimetype, "/gif") || EndsWith(mimetype, "/webp")
    then FilterCallback(None, true)
    else FilterCallback(Some(RejectMessage), false)
  }

  /** The match is case-sensitive and only anchored at the end. */
  lemma FileFilterExamples()
    ensures !FileFilter("image/PNG").accept
    ensures FileFilter("application/png").accept
  {
    assert EndsWith("application/png", "/png");
    var m := "image/PNG";
    assert m[|m| - 4..] == "/PNG" && m[|m| - 5..] == "e/PNG";
    assert !EndsWith(m, "/png") && !EndsWith(m, "/jpg") && !EndsWith(m, "/gif");
    assert !EndsWith(m, "/jpeg") && !EndsWith(m, "/webp");
  }

  lemma SizeLimit()
    ensures MaxFileSize == 5242880
    ensures WithinSizeLimit(5242880) && !WithinSizeLimit(5242881)
  {
  }

  // ---------------------------------------------------------------------------
  // UploadsService

  const DefaultEndpoint := "http://localhost:9000"

  /** `getFileUrl`: the endpoint (`MINIO_PUBLIC_URL`, or the local default when it is
      unset or empty), the bucket and the object name, joined by '/'. */
  function GetFileUrl(publicUrl: Option<string>, bucket: string, filename: string): string {
    OrElse(publicUrl, DefaultEndpoint) + "/" + bucket + "/" + filename
  }

  /** Splitting `endpoint/bucket/filename` at '/' ends in the bucket and the file name
      when neither holds a '/'. */
  lemma UrlSegments(endpoint: string, bucket: string, filename: string)
    requires '/' !in bucket && '/' !in filename
    ensures Split(endpoint + "/" + bucket + "/" + filename, '/')
      == Split(endpoint, '/') + [bucket, filename]
  {
    var tail := bucket + ['/'] + filename;
    assert endpoint + "/" + bucket + "/" + filename == endpoint + ['/'] + tail;
    SplitAround(endpoint, tail, '/');
    SplitAround(bucket, filename, '/');
    SplitWhole(bucket, '/');
    SplitWhole(filename, '/');
  }

  /** A configured endpoint is used verbatim, the local one otherwise, and when neither
      the bucket nor the object name holds a '/' they are the URL's last two path
      segments. */
  lemma FileUrlParts(publicUrl: Option<string>, bucket: string, filename: string)
    ensures Truthy(publicUrl) ==> StartsWith(GetFileUrl(publicUrl, bucket, filename), publicUrl.value + "/")
    ensures !Truthy(publicUrl) ==> StartsWith(GetFileUrl(publicUrl, bucket, filename), DefaultEndpoint + "/")
    ensures '/' !in bucket && '/' !in filename ==>
      Split(GetFileUrl(publicUrl, bucket, filename), '/')
        == Split(OrElse(publicUrl, DefaultEndpoint), '/') + [bucket, filename]
  {
    var endpoint := OrElse(publicUrl, DefaultEndpoint);
    var url := GetFileUrl(publicUrl, bucket, filename);
    assert url == (endpoint + "/") + (bucket + "/" + filename);
    assert url[..|endpoint + "/"|] == endpoint + "/";
    if '/' !in bucket && '/' !in filename {
      UrlSegments(endpoint, bucket, filename);
    }
  }

  /** `uploadImage` stores every image in this bucket. */
  const UploadBucket := "events"

  /** Where `uploadImage` puts a file: the bucket and the object name
      `<Date.now()>-<random>-<originalname>`. */
  datatype UploadTarget = UploadTarget(bucket: string, objectName: string)

  /** The clock and the random part are parameters. */
  function UploadImageTarget(nowMs: nat, random: string, originalName: string): (t: UploadTarget)
    ensures t.bucket == UploadBucket
  {
    UploadTarget(UploadBucket, NatToDigits(nowMs) + "-" + random + "-" + originalName)
  }

  /** The object name ends in '-' and the original file name, and what comes before its
      first '-' is the decimal upload time. */
  lemma ObjectNameParts(nowMs: nat, random: string, originalName: string)
    ensures EndsWith(UploadImageTarget(nowMs, random, originalName).objectName, "-" + originalName)
    ensures var stamp := Split(UploadImageTarget(nowMs, random, originalName).objectName, '-')[0];
      AllDigits(stamp) && DigitsValue(stamp) == nowMs
  {
    var stamp := NatToDigits(nowMs);
    var name := UploadImageTarget(nowMs, random, originalName).objectName;
    assert name == stamp + "-" + random + "-" + originalName;
    assert name[|name| - |"-" + originalName|..] == "-" + originalName;
    assert '-' !in stamp by {
      forall i | 0 <= i < |stamp|
        ensures stamp[i] != '-'
      {
        assert IsDigit(stamp[i]);
      }
    }
    assert name == stamp + ['-'] + (random + "-" + originalName);
    SplitAround(stamp, random + "-" + originalName, '-');
    SplitWhole(stamp, '-');
    DigitsRoundTrip(nowMs);
  }
}
