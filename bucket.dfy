/** `src/services/bucket.py`: the upload request read from an HTTP request
    (query string, multipart form and route parameters), the object key and
    bucket name derived from it, and the upload endpoint that stores the file
    publicly in S3 and records it. */
module Bucket {
  import opened Common

  /** The buckets a file may go to (`BucketType` in `src/schemas/models.py`). */
  datatype BucketType = Image | Audio | Video | Assets | Code

  function BucketTypeName(b: BucketType): string {
    match b
    case Image => "image"
    case Audio => "audio"
    case Video => "video"
    case Assets => "assets"
    case Code => "code"
  }

  /** The membership test on the `bucket` query parameter; it answers with the
      bucket whose name the text is, and with nothing when no bucket has it. */
  function ParseBucketType(s: string): (r: Option<BucketType>)
    ensures r.Some? ==> BucketTypeName(r.value) == s
    ensures r.None? ==> forall b :: BucketTypeName(b) != s
  {
    if s == "image" then Some(Image)
    else if s == "audio" then Some(Audio)
    else if s == "video" then Some(Video)
    else if s == "assets" then Some(Assets)
    else if s == "code" then Some(Code)
    else None
  }

  /** Distinct buckets have distinct names, so parsing recovers the bucket. */
  lemma BucketTypeRoundTrip(b: BucketType)
    ensures ParseBucketType(BucketTypeName(b)) == Some(b)
  {
    match b
    case Image =>
    case Audio =>
    case Video =>
    case Assets =>
    case Code =>
  }

  /** The uploaded file of an accepted request: a form file field whose file
      name is a string. */
  datatype UploadFile = UploadFile(filename: string, contentType: string, content: seq<bv8>)

  /** `UploadRequest`. */
  datatype UploadRequest = UploadRequest(
    size: Num, user: string, namespace: string, bucket: BucketType, file: UploadFile)

  /** The position of the first `c` in `s`, or `|s|` when there is none. */
  function FirstIndex(s: string, c: char): (i: nat)
    ensures i <= |s|
    ensures forall j :: 0 <= j < i ==> s[j] != c
    ensures i < |s| ==> s[i] == c
  {
    if s == [] then 0 else if s[0] == c then 0 else 1 + FirstIndex(s[1..], c)
  }

  /** `s` cut at its first `c`, the `c` itself dropped. */
  function SplitFirst(s: string, c: char): Option<(string, string)> {
    var i := FirstIndex(s, c);
    if i == |s| then None else Some((s[..i], s[i + 1..]))
  }

  /** Cutting `a + [c] + b` at its first `c` gives back `a` and `b` when `a`
      holds no `c`. */
  lemma SplitFirstJoin(a: string, c: char, b: string)
    requires c !in a
    ensures SplitFirst(a + [c] + b, c) == Some((a, b))
  {
    var s := a + [c] + b;
    var i := FirstIndex(s, c);
    assert s[|a|] == c;
    assert i == |a|;
    assert s[..i] == a;
    assert s[i + 1..] == b;
  }

  /** The `key` property: `user/namespace/filename`. */
  function Key(req: UploadRequest): string {
    req.user + "/" + req.namespace + "/" + req.file.filename
  }

  /** A key read back as user, namespace and file name, cutting at its first
      two slashes. */
  function ParseKey(key: string): Option<(string, string, string)> {
    match SplitFirst(key, '/')
    case None => None
    case Some((user, rest)) =>
      match SplitFirst(rest, '/')
      case None => None
      case Some((namespace, filename)) => Some((user, namespace, filename))
  }

  /** When neither the user nor the namespace holds a slash, the key gives
      back all three parts (the file name may hold slashes). */
  lemma KeyRoundTrip(req: UploadRequest)
    requires '/' !in req.user && '/' !in req.namespace
    ensures ParseKey(Key(req)) == Some((req.user, req.namespace, req.file.filename))
  {
    var rest := req.namespace + "/" + req.file.filename;
    assert Key(req) == req.user + ['/'] + rest;
    SplitFirstJoin(req.user, '/', rest);
    assert rest == req.namespace + ['/'] + req.file.filename;
    SplitFirstJoin(req.namespace, '/', req.file.filename);
  }

  /** Two such requests share a key only when they share user, namespace and
      file name. */
  lemma KeyInjective(a: UploadRequest, b: UploadRequest)
    requires '/' !in a.user && '/' !in a.namespace
    requires '/' !in b.user && '/' !in b.namespace
    requires Key(a) == Key(b)
    ensures a.user == b.user && a.namespace == b.namespace && a.file.filename == b.file.filename
  {
    KeyRoundTrip(a);
    KeyRoundTrip(b);
  }

  /** A slash in the user name makes two different owners share one key. */
  lemma KeysCollideWithSlash(f: UploadFile, size: Num, bucket: BucketType)
    ensures Key(UploadRequest(size, "a/b", "c", bucket, f))
         == Key(UploadRequest(size, "a", "b/c", bucket, f))
  {
  }

  const BucketSuffix: string := "-aiofauna"

  /** The `bucket_name` property: the bucket followed by `-aiofauna`. */
  function BucketName(req: UploadRequest): string {
    BucketTypeName(req.bucket) + BucketSuffix
  }

  /** The bucket a bucket name was made from. */
  function ParseBucketName(name: string): Option<BucketType> {
    if |name| >= |BucketSuffix| && name[|name| - |BucketSuffix|..] == BucketSuffix
    then ParseBucketType(name[..|name| - |BucketSuffix|])
    else None
  }

  /** The bucket name determines the bucket, and holds no slash. */
  lemma BucketNameRoundTrip(req: UploadRequest)
    ensures ParseBucketName(BucketName(req)) == Some(req.bucket)
    ensures '/' !in BucketName(req)
  {
    var name := BucketName(req);
    assert name[..|name| - |BucketSuffix|] == BucketTypeName(req.bucket);
    assert name[|name| - |BucketSuffix|..] == BucketSuffix;
    BucketTypeRoundTrip(req.bucket);
    match req.bucket
    case Image =>
    case Audio =>
    case Video =>
    case Assets =>
    case Code =>
  }

  const UrlPrefix: string := "https://s3.amazonaws.com/"

  /** The public address of the stored object. */
  function PublicUrl(req: UploadRequest): string {
    UrlPrefix + BucketName(req) + "/" + Key(req)
  }

  /** The bucket and key a public address names. */
  function ParseUrl(url: string): Option<(BucketType, string)> {
    if |url| >= |UrlPrefix| && url[..|UrlPrefix|] == UrlPrefix then
      match SplitFirst(url[|UrlPrefix|..], '/')
      case None => None
      case Some((name, key)) =>
        match ParseBucketName(name)
        case None => None
        case Some(b) => Some((b, key))
    else None
  }

  /** The address names exactly the bucket and key the object was stored under. */
  lemma UrlRoundTrip(req: UploadRequest)
    ensures ParseUrl(PublicUrl(req)) == Some((req.bucket, Key(req)))
  {
    var url := PublicUrl(req);
    BucketNameRoundTrip(req);
    assert url[..|UrlPrefix|] == UrlPrefix;
    assert url[|UrlPrefix|..] == BucketName(req) + ['/'] + Key(req);
    SplitFirstJoin(BucketName(req), '/', Key(req));
  }

  /** Why `from_request` refuses a request, in the order it checks. */
  datatype RequestError =
    | MissingQueryParams
    | UnknownBucket(name: string)
    | MissingFile
    | NotAFile
    | NoFilename
    | BadSize(text: string)
    | MissingNamespace

  const RequiredParams: set<string> := {"size", "user", "bucket"}

  /** The checks of `from_request` that have passed, one predicate per stage
      and each including the stages before it. */
  predicate ParamsPresent(query: map<string, string>) {
    RequiredParams <= query.Keys
  }

  predicate BucketKnown(query: map<string, string>) {
    ParamsPresent(query) && ParseBucketType(query["bucket"]).Some?
  }

  predicate FilePosted(query: map<string, string>, form: map<string, FormValue>) {
    BucketKnown(query) && "file" in form
  }

  predicate FileIsFile(query: map<string, string>, form: map<string, FormValue>) {
    FilePosted(query, form) && form["file"].FileField?
  }

  predicate FileNamed(query: map<string, string>, form: map<string, FormValue>) {
    FileIsFile(query, form) && form["file"].filename.Some?
  }

  predicate SizeParsed(query: map<string, string>, form: map<string, FormValue>, parseFloat: string -> Option<Num>) {
    FileNamed(query, form) && parseFloat(query["size"]).Some?
  }

  /** `from_request`: the query string, the posted form and the route
      parameters, with Python's `float` as `parseFloat`. Each error is
      reported exactly when every earlier check passed and its own fails. */
  function FromRequest(
    query: map<string, string>, form: map<string, FormValue>,
    matchInfo: map<string, string>, parseFloat: string -> Option<Num>)
    : (r: Result<UploadRequest, RequestError>)
    ensures r == Failure(MissingQueryParams) <==> !ParamsPresent(query)
    ensures (r.Failure? && r.error.UnknownBucket?) <==>
      ParamsPresent(query) && ParseBucketType(query["bucket"]).None?
    ensures r.Failure? && r.error.UnknownBucket? ==> r.error.name == query["bucket"]
    ensures r == Failure(MissingFile) <==> BucketKnown(query) && "file" !in form
    ensures r == Failure(NotAFile) <==> FilePosted(query, form) && !form["file"].FileField?
    ensures r == Failure(NoFilename) <==> FileIsFile(query, form) && form["file"].filename.None?
    ensures (r.Failure? && r.error.BadSize?) <==>
      FileNamed(query, form) && parseFloat(query["size"]).None?
    ensures r.Failure? && r.error.BadSize? ==> r.error.text == query["size"]
    ensures r == Failure(MissingNamespace) <==>
      SizeParsed(query, form, parseFloat) && "namespace" !in matchInfo
    ensures r.Success? <==> SizeParsed(query, form, parseFloat) && "namespace" in matchInfo
    ensures r.Success? ==>
      r.value.size == parseFloat(query["size"]).value && r.value.user == query["user"] &&
      BucketTypeName(r.value.bucket) == query["bucket"] &&
      r.value.namespace == matchInfo["namespace"] &&
      r.value.file == UploadFile(form["file"].filename.value, form["file"].contentType, form["file"].content)
  {
    if !(RequiredParams <= query.Keys) then Failure(MissingQueryParams)
    else
      match ParseBucketType(query["bucket"])
      case None => Failure(UnknownBucket(query["bucket"]))
      case Some(bucket) =>
        if "file" !in form then Failure(MissingFile)
        else
          match form["file"]
          case TextField(_) => Failure(NotAFile)
          case FileField(filename, contentType, content) =>
            if filename.None? then Failure(NoFilename)
            else
              match parseFloat(query["size"])
              case None => Failure(BadSize(query["size"]))
              case Some(size) =>
                if "namespace" !in matchInfo then Failure(MissingNamespace)
                else Success(UploadRequest(size, query["user"], matchInfo["namespace"], bucket,
                                           UploadFile(filename.value, contentType, content)))
  }

  /** Python's `int` on a float: truncation toward zero; it fails on NaN and
      on the infinities. */
  function TruncateToInt(x: Num): (r: Option<int>)
    ensures r.Some? <==> x.Finite?
    ensures r.Some? && 0.0 <= x.r ==> 0 <= r.value && r.value as real <= x.r < r.value as real + 1.0
    ensures r.Some? && x.r < 0.0 ==> r.value <= 0 && r.value as real - 1.0 < x.r <= r.value as real
  {
    match x
    case Finite(v) => if 0.0 <= v then Some(v.Floor) else Some(-((-v).Floor))
    case _ => None
  }

  /** A size the upload record accepts: a whole number above zero after
      truncation. */
  predicate RecordSize(x: Num) {
    var n := TruncateToInt(x);
    n.Some? && n.value > 0
  }

  /** The sizes the record accepts are exactly the finite sizes of at least one. */
  lemma RecordSizeMeans(x: Num)
    ensures RecordSize(x) <==> x.Finite? && 1.0 <= x.r
  {
    var n := TruncateToInt(x);
    if x.Finite? && 1.0 <= x.r {
      assert 0 <= n.value && x.r < n.value as real + 1.0;
    }
  }

  /** The `put_object` call: the object stored and its settings. */
  datatype ObjectPut = ObjectPut(bucket: string, key: string, body: seq<bv8>, contentType: string, acl: string)

  /** The `Upload` record saved for a stored file. */
  datatype UploadRecord = UploadRecord(
    user: string, key: string, name: string, namespace: string, bucket: BucketType,
    size: nat, contentType: string, url: string)

  datatype UploadError = BadRequest(reason: RequestError) | InvalidSize(size: Num)

  /** What one call of `upload` does: the objects it stores (none or one)
      and the record it answers with, or why it fails. */
  datatype UploadOutcome = UploadOutcome(puts: seq<ObjectPut>, result: Result<UploadRecord, UploadError>)

  /** `Bucket.upload`: the object is stored before the record is built, so a
      size the record refuses still leaves the object in S3. */
  function Upload(
    query: map<string, string>, form: map<string, FormValue>,
    matchInfo: map<string, string>, parseFloat: string -> Option<Num>)
    : (o: UploadOutcome)
  {
    match FromRequest(query, form, matchInfo, parseFloat)
    case Failure(e) => UploadOutcome([], Failure(BadRequest(e)))
    case Success(req) =>
      var put := ObjectPut(BucketName(req), Key(req), req.file.content, req.file.contentType, "public-read");
      if RecordSize(req.size) then
        UploadOutcome([put], Success(UploadRecord(
          req.user, Key(req), req.file.filename, req.namespace, req.bucket,
          TruncateToInt(req.size).value, req.file.contentType, PublicUrl(req))))
      else UploadOutcome([put], Failure(InvalidSize(req.size)))
  }

  /** An upload stores an object exactly when the request is accepted, stores
      it publicly under the request's bucket name and key, and records the
      file exactly when its size is at least one; the record copies the
      request's fields and the truncated size, and its address names the
      stored object. */
  lemma UploadMeans(
    query: map<string, string>, form: map<string, FormValue>,
    matchInfo: map<string, string>, parseFloat: string -> Option<Num>)
    ensures var o := Upload(query, form, matchInfo, parseFloat);
            var req := FromRequest(query, form, matchInfo, parseFloat);
            && (req.Failure? ==> o.puts == [] && o.result == Failure(BadRequest(req.error)))
            && (req.Success? ==>
                 && o.puts == [ObjectPut(BucketName(req.value), Key(req.value), req.value.file.content,
                                        req.value.file.contentType, "public-read")]
                 && (o.result.Success? <==> req.value.size.Finite? && 1.0 <= req.value.size.r)
                 && (o.result.Success? ==>
                      && o.result.value.key == Key(req.value)
                      && o.result.value.user == req.value.user
                      && o.result.value.name == req.value.file.filename
                      && o.result.value.namespace == req.value.namespace
                      && o.result.value.contentType == req.value.file.contentType
                      && Some(o.result.value.size as int) == TruncateToInt(req.value.size)
                      && ParseUrl(o.result.value.url) == Some((req.value.bucket, o.puts[0].key))
                      && ParseBucketName(o.puts[0].bucket) == Some(o.result.value.bucket)))
  {
    var req := FromRequest(query, form, matchInfo, parseFloat);
    if req.Success? {
      RecordSizeMeans(req.value.size);
      UrlRoundTrip(req.value);
      BucketNameRoundTrip(req.value);
    }
  }

  /** A file of size 0 is stored in S3 although no record of it is made. */
  lemma ZeroSizeStillStored(
    query: map<string, string>, form: map<string, FormValue>,
    matchInfo: map<string, string>, parseFloat: string -> Option<Num>)
    requires FromRequest(query, form, matchInfo, parseFloat).Success?
    requires FromRequest(query, form, matchInfo, parseFloat).value.size == Finite(0.0)
    ensures |Upload(query, form, matchInfo, parseFloat).puts| == 1
    ensures Upload(query, form, matchInfo, parseFloat).result.Failure?
  {
    UploadMeans(query, form, matchInfo, parseFloat);
  }
}
