/** The bucket choice of the one-off script that moves local uploads into object
    storage: a file goes to the bucket its name's prefix announces, whatever the
    case of the name. */
module MigrateUploads {
  import opened Strings
  import opened Unicode

  const Avatars := "avatars"
  const Banners := "banners"
  const Documents := "documents"
  const General := "general"

  /** The values of `BUCKETS`. */
  const BucketNames: set<string> := {Avatars, Banners, Documents, General}

  /** `detectBucket`. */
  function DetectBucket(filename: string): string {
    var lower := ToLowerCase(filename);
    if StartsWith(lower, "avatar_") then Avatars
    else if StartsWith(lower, "banner_") then Banners
    else if StartsWith(lower, "doc_") then Documents
    else General
  }

  /** The three prefixes exclude each other, so each bucket is chosen exactly when its
      own prefix starts the lower-cased name, whatever the order of the tests, and every
      answer is one of the four buckets. */
  lemma DetectBucketClassifies(filename: string)
    ensures DetectBucket(filename) in BucketNames
    ensures DetectBucket(filename) == Avatars <==> StartsWith(ToLowerCase(filename), "avatar_")
    ensures DetectBucket(filename) == Banners <==> StartsWith(ToLowerCase(filename), "banner_")
    ensures DetectBucket(filename) == Documents <==> StartsWith(ToLowerCase(filename), "doc_")
    ensures DetectBucket(filename) == General <==>
      !StartsWith(ToLowerCase(filename), "avatar_")
      && !StartsWith(ToLowerCase(filename), "banner_")
      && !StartsWith(ToLowerCase(filename), "doc_")
  {
    var lower := ToLowerCase(filename);
    if StartsWith(lower, "avatar_") {
      assert lower[0] == "avatar_"[0] == 'a';
    }
    if StartsWith(lower, "banner_") {
      assert lower[0] == "banner_"[0] == 'b';
    }
  }

  lemma ToLowerCaseIdempotent(s: string)
    ensures ToLowerCase(ToLowerCase(s)) == ToLowerCase(s)
  {
    var l := ToLowerCase(s);
    forall i | 0 <= i < |s|
      ensures ToLowerCase(l)[i] == l[i]
    {
      assert l[i] == LowerChar(s[i]);
    }
  }

  /** Classification ignores case: a name and its lower-cased form go to the same bucket. */
  lemma DetectBucketIgnoresCase(filename: string)
    ensures DetectBucket(ToLowerCase(filename)) == DetectBucket(filename)
  {
    ToLowerCaseIdempotent(filename);
  }

  /** A prefix counts only at the very start of the name. */
  lemma PrefixOnlyAtStart()
    ensures DetectBucket("x_avatar_1.png") == General
    ensures DetectBucket("AVATAR_1.PNG") == Avatars
  {
    assert ToLowerCase("x_avatar_1.png")[0] == 'x';
    assert ToLowerCase("AVATAR_1.PNG")[..7] == "avatar_";
  }
}
