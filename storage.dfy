/** Where an upload is stored and how the page finds it again: the object
    name built on upload, the public URL the store hands back, and the
    object name read back out of that URL when a submission is removed. */
module StoragePath {
  import opened Wrappers
  import opened JsText

  /** The bucket every upload goes to. */
  const StorageBucket: string := "bingo-uploads"

  /** `name.split('.').pop()`: the text after the last dot, or the whole
      name when it has no dot. */
  function Extension(name: string): (ext: string)
    ensures '.' !in ext
    ensures |ext| <= |name|
  {
    var parts := Split(name, '.');
    JoinSplit(name, '.');
    JoinLastPiece(parts, '.');
    parts[|parts| - 1]
  }

  lemma {:induction false} JoinLastPiece(parts: seq<string>, c: char)
    requires parts != []
    ensures |parts[|parts| - 1]| <= |Join(parts, c)|
  {
    if |parts| > 1 {
      JoinLastPiece(parts[1..], c);
    }
  }

  /** The extension of `stem.ext` is `ext`. */
  lemma ExtensionOfDotted(stem: string, ext: string)
    requires '.' !in ext
    ensures Extension(stem + "." + ext) == ext
  {
    assert stem + "." + ext == stem + ['.'] + ext;
    SplitConcat(stem, ext, '.');
    SplitPiece(ext, '.');
  }

  /** A name without a dot is its own extension. */
  lemma ExtensionOfUndotted(name: string)
    requires '.' !in name
    ensures Extension(name) == name
  {
    SplitPiece(name, '.');
  }

  /** The last segment of an upload's object name: `<index>_<now>.<ext>`. */
  function ObjectFileName(index: nat, now: nat, fileName: string): string {
    NatToString(index) + "_" + NatToString(now) + "." + Extension(fileName)
  }

  /** `${group}/${username}/${index}_${now}.${ext}`. */
  function UploadPath(group: string, username: string, index: nat, now: nat, fileName: string): string {
    group + "/" + username + "/" + ObjectFileName(index, now, fileName)
  }

  /** The object name has exactly three segments: the group, the user and
      the file name, when neither name holds a slash. */
  lemma UploadPathSegments(group: string, username: string, index: nat, now: nat, fileName: string)
    requires '/' !in group && '/' !in username && '/' !in fileName
    ensures Split(UploadPath(group, username, index, now, fileName), '/')
         == [group, username, ObjectFileName(index, now, fileName)]
  {
    var f := ObjectFileName(index, now, fileName);
    SplitPieceChars(fileName, '.', '/');
    assert '/' !in Extension(fileName);
    assert '/' !in NatToString(index) && '/' !in NatToString(now);
    assert '/' !in f;
    assert UploadPath(group, username, index, now, fileName) == group + ['/'] + (username + ['/'] + f);
    SplitPrefix(group, username + ['/'] + f, '/');
    SplitPrefix(username, f, '/');
    SplitPiece(f, '/');
  }

  /** Two uploads of the same square by the same user get different object
      names unless they happen in the same millisecond. */
  lemma UploadPathUnique(group: string, username: string, index: nat, now1: nat, now2: nat, fileName: string)
    requires UploadPath(group, username, index, now1, fileName) == UploadPath(group, username, index, now2, fileName)
    ensures now1 == now2
  {
    var p := group + "/" + username + "/" + NatToString(index) + "_";
    var q := "." + Extension(fileName);
    var n1, n2 := NatToString(now1), NatToString(now2);
    var s1, s2 := p + n1 + q, p + n2 + q;
    assert s1 == UploadPath(group, username, index, now1, fileName);
    assert s2 == UploadPath(group, username, index, now2, fileName);
    assert |n1| == |n2|;
    assert n1 == s1[|p|..|p| + |n1|];
    assert n2 == s2[|p|..|p| + |n2|];
    NatToStringInjective(now1, now2);
  }

  /** The fixed segments between the project URL and the bucket name. */
  const PublicPrefix: seq<string> := ["storage", "v1", "object", "public"]

  /** `getPublicUrl`: `<base>/storage/v1/object/public/<bucket>/<path>`. */
  function PublicUrl(base: string, bucket: string, path: string): string {
    Join([base] + PublicPrefix + [bucket, path], '/')
  }

  /** The object name as `removeSubmission` extracts it: find the first
      `storage` segment, drop three more segments, then one more. That lands
      on the bucket name, which stays at the front of the result. */
  function BlobPathAsWritten(url: string): (r: Option<string>)
    ensures "storage" !in Split(url, '/') ==> r.None?
  {
    var parts := Split(url, '/');
    match IndexOf(parts, "storage")
    case None => None
    case Some(i) =>
      var pathParts := if i + 3 <= |parts| then parts[i + 3..] else [];
      if |pathParts| > 1 then Some(Join(pathParts[1..], '/')) else None
  }

  /** The object name as the comment beside that code describes it: skip
      `storage`, `v1`, `object`, `public` and the bucket name, and keep the
      rest. */
  function BlobPath(url: string): (r: Option<string>)
    ensures "storage" !in Split(url, '/') ==> r.None?
  {
    var parts := Split(url, '/');
    match IndexOf(parts, "storage")
    case None => None
    case Some(i) =>
      var pathParts := if i + 4 <= |parts| then parts[i + 4..] else [];
      if |pathParts| > 1 then Some(Join(pathParts[1..], '/')) else None
  }

  lemma {:induction false} SplitJoinTail(mid: seq<string>, path: string, c: char)
    requires forall k :: 0 <= k < |mid| ==> c !in mid[k]
    ensures Split(Join(mid + [path], c), c) == mid + Split(path, c)
  {
    if mid == [] {
      assert mid + [path] == [path];
    } else {
      var p, tail := mid[0], mid[1..] + [path];
      assert c !in p;
      assert forall k :: 0 <= k < |mid[1..]| ==> c !in mid[1..][k] by {
        forall k | 0 <= k < |mid[1..]| ensures c !in mid[1..][k] {
          assert mid[1..][k] == mid[k + 1];
        }
      }
      assert mid + [path] == [p] + tail;
      JoinCons(p, tail, c);
      SplitPrefix(p, Join(tail, c), c);
      SplitJoinTail(mid[1..], path, c);
      assert [p] + (mid[1..] + Split(path, c)) == mid + Split(path, c);
    }
  }

  /** The segments of a public URL. */
  lemma PublicUrlSegments(base: string, bucket: string, path: string)
    requires '/' !in bucket
    ensures Split(PublicUrl(base, bucket, path), '/')
         == Split(base, '/') + PublicPrefix + [bucket] + Split(path, '/')
  {
    var mid := PublicPrefix + [bucket];
    assert [base] + PublicPrefix + [bucket, path] == [base] + (mid + [path]);
    JoinCons(base, mid + [path], '/');
    SplitConcat(base, Join(mid + [path], '/'), '/');
    SplitJoinTail(mid, path, '/');
  }

  /** In a public URL the first `storage` segment is the one after the
      project URL. */
  lemma StorageIndexOfPublicUrl(base: string, bucket: string, path: string)
    requires '/' !in bucket
    requires "storage" !in Split(base, '/')
    ensures var parts := Split(PublicUrl(base, bucket, path), '/');
      var i := |Split(base, '/')|;
      && IndexOf(parts, "storage") == Some(i)
      && i + 5 < |parts|
      && parts[i + 3..] == ["public", bucket] + Split(path, '/')
  {
    PublicUrlSegments(base, bucket, path);
    var b := Split(base, '/');
    var parts := Split(PublicUrl(base, bucket, path), '/');
    assert parts[|b|] == "storage";
    assert parts[..|b|] == b;
  }

  /** What both extractions see of a public URL, stated on the URL alone. */
  ghost predicate LooksLikePublicUrl(url: string, bucket: string, path: string) {
    var parts := Split(url, '/');
    exists i :: (&& IndexOf(parts, "storage") == Some(i)
                 && i + 3 <= |parts|
                 && parts[i + 3..] == ["public", bucket] + Split(path, '/'))
  }

  lemma PublicUrlLooksLike(base: string, bucket: string, path: string)
    requires '/' !in bucket
    requires "storage" !in Split(base, '/')
    ensures LooksLikePublicUrl(PublicUrl(base, bucket, path), bucket, path)
  {
    StorageIndexOfPublicUrl(base, bucket, path);
  }

  lemma BlobPathOfLooksLike(url: string, bucket: string, path: string)
    requires LooksLikePublicUrl(url, bucket, path)
    ensures BlobPath(url) == Some(path)
    ensures BlobPathAsWritten(url) == Some(bucket + ['/'] + path)
  {
    var parts := Split(url, '/');
    var i :| (&& IndexOf(parts, "storage") == Some(i)
              && i + 3 <= |parts|
              && parts[i + 3..] == ["public", bucket] + Split(path, '/'));
    assert parts[i + 4..] == parts[i + 3..][1..];
    JoinCons(bucket, Split(path, '/'), '/');
    JoinSplit(path, '/');
  }

  /** Reading the object name back out of its public URL gives the name the
      file was uploaded under, for a base URL with no `storage` segment. */
  lemma BlobPathOfPublicUrl(base: string, bucket: string, path: string)
    requires '/' !in bucket
    requires "storage" !in Split(base, '/')
    ensures BlobPath(PublicUrl(base, bucket, path)) == Some(path)
  {
    PublicUrlLooksLike(base, bucket, path);
    BlobPathOfLooksLike(PublicUrl(base, bucket, path), bucket, path);
  }

  /** The extraction as written yields the bucket name followed by the
      object name, so the remove call names an object that does not exist. */
  lemma BlobPathAsWrittenOfPublicUrl(base: string, bucket: string, path: string)
    requires '/' !in bucket
    requires "storage" !in Split(base, '/')
    ensures BlobPathAsWritten(PublicUrl(base, bucket, path)) == Some(bucket + ['/'] + path)
    ensures BlobPathAsWritten(PublicUrl(base, bucket, path)) != Some(path)
  {
    PublicUrlLooksLike(base, bucket, path);
    BlobPathOfLooksLike(PublicUrl(base, bucket, path), bucket, path);
    assert |bucket + ['/'] + path| > |path|;
  }
}

/** The `bingo-uploads` bucket as the pages see it: the set of object names
    it holds. Each call takes the store's reply, as the table's writes do. */
module Bucket {
  import opened Records

  class ObjectStore {
    var objects: set<string>

    constructor ()
      ensures objects == {}
    {
      objects := {};
    }

    /** `upload(path, file, { upsert: false })`: a name already taken is
        refused, and so is everything when the store does not answer `Ok`. */
    method Upload(path: string, reply: Reply) returns (ok: bool)
      modifies this
      ensures ok <==> reply.Ok? && path !in old(objects)
      ensures objects == (if ok then old(objects) + {path} else old(objects))
    {
      ok := reply.Ok? && path !in objects;
      if ok {
        objects := objects + {path};
      }
    }

    /** `remove([path])`: a name the bucket does not hold is no error, it
        simply removes nothing. */
    method Remove(path: string, reply: Reply)
      modifies this
      ensures objects == (if reply.Ok? then old(objects) - {path} else old(objects))
    {
      if reply.Ok? {
        objects := objects - {path};
      }
    }
  }
}
