/** app/api/upload/route.ts: the admin's image upload (checks and the storage
    path it names) and the removal of an uploaded image by its URL. The
    storage service is a parameter: what it answered. */
module Upload {
  import opened Db
  import Auth

  const MaxSize: nat := 5 * 1024 * 1024
  const AllowedTypes: seq<string> := ["image/jpeg", "image/jpg", "image/png", "image/gif", "image/webp"]
  const Folder: string := "quiz-images/"

  datatype FileField = FileField(name: string, mime: string, size: nat)

  /** `s.split(sep).pop()`: the text after the last sep, all of s without one. */
  function LastSegment(s: string, sep: char): (r: string)
    ensures sep !in r
    ensures |r| <= |s| && r == s[|s| - |r|..]
    ensures |r| < |s| ==> s[|s| - |r| - 1] == sep
  {
    if s == [] then []
    else if s[|s| - 1] == sep then []
    else LastSegment(s[..|s| - 1], sep) + [s[|s| - 1]]
  }

  lemma {:induction false} NoSeparator(s: string, sep: char)
    requires sep !in s
    ensures LastSegment(s, sep) == s
  {
    if s != [] {
      NoSeparator(s[..|s| - 1], sep);
    }
  }

  /** The last segment after a separator is what follows it, when that has none. */
  lemma {:induction false} SegmentAfter(prefix: string, sep: char, tail: string)
    requires prefix != [] && prefix[|prefix| - 1] == sep && sep !in tail
    ensures LastSegment(prefix + tail, sep) == tail
  {
    if tail == [] {
      assert prefix + tail == prefix;
    } else {
      var n := |tail| - 1;
      assert (prefix + tail)[..|prefix + tail| - 1] == prefix + tail[..n];
      SegmentAfter(prefix, sep, tail[..n]);
    }
  }

  function Digit(d: nat): (c: char)
    requires d < 10
    ensures '0' <= c <= '9'
  {
    ['0', '1', '2', '3', '4', '5', '6', '7', '8', '9'][d]
  }

  /** A number in decimal, as a template literal prints `Date.now()`. */
  function Decimal(n: nat): (r: string)
    ensures |r| >= 1 && forall i :: 0 <= i < |r| ==> '0' <= r[i] <= '9'
  {
    if n < 10 then [Digit(n)] else Decimal(n / 10) + [Digit(n % 10)]
  }

  /** `${type}_${Date.now()}_${random}.${fileExt}`; a missing type prints as "null". */
  function FileName(kind: Option<string>, now: Time, rand: string, name: string): (r: string)
    ensures |r| == |ValueOr(kind, "null")| + |Decimal(now)| + |rand| + |LastSegment(name, '.')| + 3
    ensures r[|r| - |LastSegment(name, '.')| - 1] == '.'
  {
    ValueOr(kind, "null") + "_" + Decimal(now) + "_" + rand + "." + LastSegment(name, '.')
  }

  /** What the storage service did with the upload; a missing bucket is
      created (an "already exists" answer counts as created) and the upload
      tried once more. */
  datatype StorageOutcome = Stored | BucketMissing(createFails: bool, retryFails: bool) | StorageError

  predicate StoredInTheEnd(s: StorageOutcome)
  {
    s.Stored? || (s.BucketMissing? && !s.createFails && !s.retryFails)
  }

  /** POST: 401, then 400 without a file, then 400 for a type outside the
      image list (checked before the size), then 400 above 5 MiB; a checked
      file goes to quiz-images/ under its generated name. */
  function Post(adminCookie: Option<string>, file: Option<FileField>, kind: Option<string>, now: Time, rand: string,
                storage: StorageOutcome): (r: Response)
    ensures !Auth.IsAdmin(adminCookie) ==> r == Fail(401, AdminRequired)
    ensures Auth.IsAdmin(adminCookie) && file.None? ==> r == Fail(400, FileMissing)
    ensures Auth.IsAdmin(adminCookie) && file.Some? && file.value.mime !in AllowedTypes ==> r == Fail(400, FileType)
    ensures Auth.IsAdmin(adminCookie) && file.Some? && file.value.mime in AllowedTypes && file.value.size > MaxSize ==>
      r == Fail(400, FileTooLarge)
    ensures r.status == 200 <==>
      Auth.IsAdmin(adminCookie) && file.Some? && file.value.mime in AllowedTypes && file.value.size <= MaxSize &&
      StoredInTheEnd(storage)
    ensures r.status == 200 ==>
      var fileName := FileName(kind, now, rand, file.value.name);
      r == Ok(Uploaded(Folder + fileName, fileName, file.value.size, file.value.mime))
  {
    if !Auth.IsAdmin(adminCookie) then Fail(401, AdminRequired)
    else if file.None? then Fail(400, FileMissing)
    else if file.value.mime !in AllowedTypes then Fail(400, FileType)
    else if file.value.size > MaxSize then Fail(400, FileTooLarge)
    else if !StoredInTheEnd(storage) then Fail(500, BackendFailure)
    else
      var fileName := FileName(kind, now, rand, file.value.name);
      Ok(Uploaded(Folder + fileName, fileName, file.value.size, file.value.mime))
  }

  /** Exactly 5 MiB is accepted, one byte more is not. */
  lemma SizeBoundary(adminCookie: Option<string>, name: string, kind: Option<string>, now: Time, rand: string)
    requires Auth.IsAdmin(adminCookie)
    ensures Post(adminCookie, Some(FileField(name, "image/png", MaxSize)), kind, now, rand, Stored).status == 200
    ensures Post(adminCookie, Some(FileField(name, "image/png", MaxSize + 1)), kind, now, rand, Stored) == Fail(400, FileTooLarge)
  {
  }

  /** What DELETE answers and the storage path it removes, if any. */
  datatype Removal = Removal(response: Response, removed: Option<string>)

  /** DELETE: 401, then 400 without a url; otherwise the object named by the
      url's last '/'-segment under quiz-images/ is removed (500 when that fails). */
  function Delete(adminCookie: Option<string>, url: Option<string>, removeFails: bool): (r: Removal)
    ensures !Auth.IsAdmin(adminCookie) ==> r == Removal(Fail(401, AdminRequired), None)
    ensures Auth.IsAdmin(adminCookie) && Falsy(url) ==> r == Removal(Fail(400, MissingField), None)
    ensures Auth.IsAdmin(adminCookie) && !Falsy(url) ==>
      r.removed == Some(Folder + LastSegment(url.value, '/')) &&
      r.response == if removeFails then Fail(500, BackendFailure) else Ok(Success)
  {
    if !Auth.IsAdmin(adminCookie) then Removal(Fail(401, AdminRequired), None)
    else if Falsy(url) then Removal(Fail(400, MissingField), None)
    else
      var path := Folder + LastSegment(url.value, '/');
      Removal(if removeFails then Fail(500, BackendFailure) else Ok(Success), Some(path))
  }

  /** Removing by the public URL of an upload removes the uploaded object,
      as long as the name parts carry no '/'. */
  lemma DeleteFindsUpload(adminCookie: Option<string>, base: string, kind: string, now: Time, rand: string, name: string)
    requires Auth.IsAdmin(adminCookie)
    requires '/' !in kind && '/' !in rand && '/' !in name
    ensures var fileName := FileName(Some(kind), now, rand, name);
      Delete(adminCookie, Some(base + "/" + Folder + fileName), false).removed == Some(Folder + fileName)
  {
    var fileName := FileName(Some(kind), now, rand, name);
    FileNameAvoidsSlash(kind, now, rand, name);
    UrlNamesFile(base, fileName);
  }

  /** The last '/'-segment of a URL ending in quiz-images/ and a name without
      '/' is that name. */
  lemma UrlNamesFile(base: string, fileName: string)
    requires '/' !in fileName
    ensures LastSegment(base + "/" + Folder + fileName, '/') == fileName
  {
    var prefix := base + "/" + Folder;
    assert prefix[|prefix| - 1] == Folder[|Folder| - 1] == '/';
    SegmentAfter(prefix, '/', fileName);
  }

  /** A character in neither part is not in their concatenation. */
  lemma NotInConcat(c: char, a: string, b: string)
    requires c !in a && c !in b
    ensures c !in a + b
  {
    forall i | 0 <= i < |a + b|
      ensures (a + b)[i] != c
    {
      if i < |a| { assert (a + b)[i] == a[i]; } else { assert (a + b)[i] == b[i - |a|]; }
    }
  }

  /** A generated name has no '/' when its parts have none. */
  lemma FileNameAvoidsSlash(kind: string, now: Time, rand: string, name: string)
    requires '/' !in kind && '/' !in rand && '/' !in name
    ensures '/' !in FileName(Some(kind), now, rand, name)
  {
    var ext := LastSegment(name, '.');
    forall i | 0 <= i < |ext|
      ensures ext[i] != '/'
    {
      assert ext[i] == name[|name| - |ext| + i];
    }
    var digits := Decimal(now);
    forall i | 0 <= i < |digits|
      ensures digits[i] != '/'
    {
    }
    NotInConcat('/', kind, "_");
    NotInConcat('/', kind + "_", digits);
    NotInConcat('/', kind + "_" + digits, "_");
    NotInConcat('/', kind + "_" + digits + "_", rand);
    NotInConcat('/', kind + "_" + digits + "_" + rand, ".");
    NotInConcat('/', kind + "_" + digits + "_" + rand + ".", ext);
  }
}
