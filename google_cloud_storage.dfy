/**
  The `GoogleCloudStorage` adapter: the `Storage` operations store, fetch, write and delete,
  each translated into requests to the Google Cloud Storage client.

  The client and the futures it returns are not simulated: an operation is a function from
  its arguments and the client's replies to the requests it issues, in order, and the value
  its future completes with. A reply that the client throws synchronously and one that fails
  asynchronously both reach the caller as the same failed future, so both are an `Err` reply.
 */
module GoogleCloudStorage {
  import opened Optional
  import opened ObjectNames

  /** Foundation's `Data`. */
  type Bytes = seq<bv8>

  /** Vapor's `MediaType`: a type, a subtype and parameters. */
  datatype MediaType = MediaType(kind: string, subKind: string, parameters: map<string, string>)

  /** Vapor's `.plainText`, the fallback media type of an upload. */
  const PlainText: MediaType := MediaType("text", "plain", map["charset" := "utf-8"])

  /** Vapor's `File`: the data and the filename it is stored under. */
  datatype File = File(data: Bytes, filename: string)

  /**
    Vapor computes a `File`'s content type from its filename; that lookup is not part of
    this model, so the operations that upload take it as an argument.
   */
  type ContentTypes = string -> Option<MediaType>

  datatype Error =
    | StorageError(identifier: string, reason: string)  // thrown by the adapter itself
    | ClientError(description: string)                  // reported by the client, passed on unchanged

  datatype Result<T> = Ok(value: T) | Err(error: Error)

  /** The adapter's configuration that the model needs: the bucket every request names. */
  datatype Storage = Storage(bucket: string)

  /** A request to the client: `createSimpleUpload`, `getMedia` or `delete` on `client.object`. */
  datatype Request =
    | SimpleUpload(bucket: string, name: string, data: Bytes, mediaType: MediaType)
    | GetMedia(bucket: string, objectName: string)
    | DeleteObject(bucket: string, objectName: string)

  /** The object an upload creates; the adapter reads only its `selfLink`, to print it. */
  datatype StorageObject = StorageObject(selfLink: Option<string>)

  /** The requests an operation issues, in order, and the value its future completes with. */
  datatype Exchange<T> = Exchange(requests: seq<Request>, result: Result<T>)

  /** The error `fetch` and `write` throw when the path yields no filename. */
  function FileNameError(path: string): (e: Error)
    ensures e.StorageError? && e.identifier == "fileName"
  {
    StorageError("fileName", "Unable to extract file name from path `" + path + "`")
  }

  /** `file.contentType ?? .plainText` */
  function MediaTypeOf(file: File, contentTypes: ContentTypes): (t: MediaType)
    ensures contentTypes(file.filename).Some? ==> t == contentTypes(file.filename).value
    ensures contentTypes(file.filename).None? ==> t == PlainText
  {
    match contentTypes(file.filename)
    case Some(t) => t
    case None => PlainText
  }

  /**
    `store(file:at:)`: one upload of the file's data under the object name built from the
    prefix and the filename. Its future yields "" on success, whatever the client answers.
   */
  function Store(storage: Storage, file: File, at: Option<string>, contentTypes: ContentTypes,
                 uploaded: Result<StorageObject>): (r: Exchange<string>)
    ensures |r.requests| == 1 && r.requests[0].SimpleUpload?
    ensures r.requests[0].bucket == storage.bucket && r.requests[0].data == file.data
    ensures r.requests[0].name == ObjectName(at, file.filename)
    ensures r.requests[0].mediaType == MediaTypeOf(file, contentTypes)
    ensures r.result.Ok? <==> uploaded.Ok?
    ensures r.result.Ok? ==> r.result.value == ""
    ensures r.result.Err? ==> r.result.error == uploaded.error
  {
    var name := ObjectName(at, file.filename);
    var request := SimpleUpload(storage.bucket, name, file.data, MediaTypeOf(file, contentTypes));
    match uploaded
    case Ok(_) => Exchange([request], Ok(""))
    case Err(e) => Exchange([request], Err(e))
  }

  /**
    `fetch(file:)`: when the path yields a filename, one download of the object under the
    unmodified path, completing with the downloaded data under that filename; otherwise a
    `fileName` error before any request.
   */
  function Fetch(storage: Storage, file: string, media: Result<Bytes>): (r: Exchange<File>)
    ensures r.requests == [] <==> AllSeparators(file)
    ensures AllSeparators(file) ==> r.result == Err(FileNameError(file))
    ensures !AllSeparators(file) ==> r.requests == [GetMedia(storage.bucket, file)]
    ensures r.result.Ok? <==> !AllSeparators(file) && media.Ok?
    ensures r.result.Ok? ==> r.result.value.data == media.value
    ensures r.result.Ok? ==> Some(r.result.value.filename) == FileName(file) && IsSegment(r.result.value.filename)
    ensures !AllSeparators(file) && media.Err? ==> r.result == Err(media.error)
  {
    FileNameFailsIff(file);
    match FileName(file)
    case None => Exchange([], Err(FileNameError(file)))
    case Some(name) =>
      var request := GetMedia(storage.bucket, file);
      match media
      case Ok(data) => Exchange([request], Ok(File(data, name)))
      case Err(e) => Exchange([request], Err(e))
  }

  /** `delete(file:)`: one delete of the object under the unmodified path; the client's answer is the result. */
  function Delete(storage: Storage, file: string, deleted: Result<()>): (r: Exchange<()>)
    ensures r.requests == [DeleteObject(storage.bucket, file)]
    ensures r.result == deleted
  {
    Exchange([DeleteObject(storage.bucket, file)], deleted)
  }

  /**
    `write(file:with:options:)`: the object is deleted, and only once the delete has
    succeeded is the new data stored under the recomputed prefix and the extracted
    filename; the future completes with a `File` of the new data and that filename.
   */
  function Write(storage: Storage, file: string, data: Bytes, contentTypes: ContentTypes,
                 deleted: Result<()>, uploaded: Result<StorageObject>): (r: Exchange<File>)
    ensures r.requests == [] <==> AllSeparators(file)
    ensures AllSeparators(file) ==> r.result == Err(FileNameError(file))
    ensures r.requests != [] ==> r.requests[0] == DeleteObject(storage.bucket, file)
    ensures |r.requests| <= 2
    ensures |r.requests| == 2 <==> !AllSeparators(file) && deleted.Ok?
    ensures |r.requests| == 2 ==>
      && ReuploadName(file).Some?
      && r.requests[1] == SimpleUpload(storage.bucket, ReuploadName(file).value, data,
                                       MediaTypeOf(File(data, FileName(file).value), contentTypes))
    ensures !AllSeparators(file) && deleted.Err? ==> r.result == Err(deleted.error)
    ensures !AllSeparators(file) && deleted.Ok? && uploaded.Err? ==> r.result == Err(uploaded.error)
    ensures r.result.Ok? <==> !AllSeparators(file) && deleted.Ok? && uploaded.Ok?
    ensures r.result.Ok? ==> r.result.value.data == data
    ensures r.result.Ok? ==> Some(r.result.value.filename) == FileName(file) && IsSegment(r.result.value.filename)
  {
    FileNameFailsIff(file);
    match FileName(file)
    case None => Exchange([], Err(FileNameError(file)))
    case Some(name) =>
      var prefix := WritePrefix(file);
      var written := File(data, name);
      var removal := Delete(storage, file, deleted);
      match removal.result
      case Err(e) => Exchange(removal.requests, Err(e))
      case Ok(_) =>
        var upload := Store(storage, written, StorePrefix(prefix), contentTypes, uploaded);
        Exchange(removal.requests + upload.requests, if upload.result.Ok? then Ok(written) else Err(upload.result.error))
  }

  // ---------------------------------------------------------------------------
  // The evidently intended behaviour
  // ---------------------------------------------------------------------------

  /** `store` as its interface and its test describe it: the future yields the object name. */
  function StoreIntended(storage: Storage, file: File, at: Option<string>, contentTypes: ContentTypes,
                         uploaded: Result<StorageObject>): (r: Exchange<string>)
    ensures r.requests == Store(storage, file, at, contentTypes, uploaded).requests
    ensures r.result.Ok? <==> uploaded.Ok?
    ensures r.result.Ok? ==> r.result.value == r.requests[0].name
    ensures r.result.Err? ==> r.result.error == uploaded.error
  {
    var stored := Store(storage, file, at, contentTypes, uploaded);
    Exchange(stored.requests, if stored.result.Ok? then Ok(ObjectName(at, file.filename)) else stored.result)
  }

  /** `write` with the directory pieces joined back with "/" (`joined(separator: "/")`). */
  function WriteIntended(storage: Storage, file: string, data: Bytes, contentTypes: ContentTypes,
                         deleted: Result<()>, uploaded: Result<StorageObject>): (r: Exchange<File>)
    ensures r.requests == [] <==> AllSeparators(file)
    ensures r.requests != [] ==> r.requests[0] == DeleteObject(storage.bucket, file)
    ensures |r.requests| <= 2
    ensures |r.requests| == 2 <==> !AllSeparators(file) && deleted.Ok?
    ensures |r.requests| == 2 ==>
      && IntendedReuploadName(file).Some?
      && r.requests[1] == SimpleUpload(storage.bucket, IntendedReuploadName(file).value, data,
                                       MediaTypeOf(File(data, FileName(file).value), contentTypes))
    ensures r.result == Write(storage, file, data, contentTypes, deleted, uploaded).result
  {
    FileNameFailsIff(file);
    match FileName(file)
    case None => Exchange([], Err(FileNameError(file)))
    case Some(name) =>
      var prefix := IntendedWritePrefix(file);
      var written := File(data, name);
      var removal := Delete(storage, file, deleted);
      match removal.result
      case Err(e) => Exchange(removal.requests, Err(e))
      case Ok(_) =>
        var upload := Store(storage, written, StorePrefix(prefix), contentTypes, uploaded);
        Exchange(removal.requests + upload.requests, if upload.result.Ok? then Ok(written) else Err(upload.result.error))
  }

  // ---------------------------------------------------------------------------
  // Properties relating the operations
  // ---------------------------------------------------------------------------

  /**
    Round trip: fetching the object `store` uploaded, with the bytes it uploaded, downloads
    that object and gives back the stored file.
   */
  lemma StoreThenFetch(storage: Storage, file: File, at: Option<string>, contentTypes: ContentTypes,
                       uploaded: Result<StorageObject>)
    requires IsSegment(file.filename)
    ensures var name := Store(storage, file, at, contentTypes, uploaded).requests[0].name;
      Fetch(storage, name, Ok(file.data)) == Exchange([GetMedia(storage.bucket, name)], Ok(file))
  {
    FileNameOfObjectName(at, file.filename);
  }

  /**
    The round trip needs a segment filename: `fetch` gives back the stored file only when
    its filename is non-empty and free of "/".
   */
  lemma StoreThenFetchNeedsSegment(storage: Storage, file: File, at: Option<string>, contentTypes: ContentTypes,
                                   uploaded: Result<StorageObject>, media: Result<Bytes>)
    ensures var name := Store(storage, file, at, contentTypes, uploaded).requests[0].name;
      Fetch(storage, name, media).result == Ok(file) ==> IsSegment(file.filename)
  {
  }

  /** Storing a file with an empty filename and no prefix uploads to "", which `fetch` then rejects. */
  lemma StoreEmptyFileName(storage: Storage, data: Bytes, contentTypes: ContentTypes, response: StorageObject,
                           media: Result<Bytes>)
    ensures var r := Store(storage, File(data, ""), None, contentTypes, Ok(response));
      && r.requests[0].name == ""
      && r.result == Ok("")
      && Fetch(storage, r.requests[0].name, media) == Exchange([], Err(FileNameError("")))
  {
  }

  /**
    With the intended result, the path `store` returns is one `fetch` reads the file back from.
   */
  lemma StoreIntendedThenFetch(storage: Storage, file: File, at: Option<string>, contentTypes: ContentTypes,
                               uploaded: Result<StorageObject>)
    requires IsSegment(file.filename) && uploaded.Ok?
    ensures var path := StoreIntended(storage, file, at, contentTypes, uploaded).result.value;
      Fetch(storage, path, Ok(file.data)).result == Ok(file)
  {
    FileNameOfObjectName(at, file.filename);
  }

  /**
    After a successful `write`, fetching the object it uploaded returns the file `write`
    returned; that object is the path that was written exactly when the path is a single
    segment or two segments around one "/".
   */
  lemma WriteThenFetch(storage: Storage, file: string, data: Bytes, contentTypes: ContentTypes,
                       deleted: Result<()>, uploaded: Result<StorageObject>)
    requires Write(storage, file, data, contentTypes, deleted, uploaded).result.Ok?
    ensures var w := Write(storage, file, data, contentTypes, deleted, uploaded);
      && |w.requests| == 2
      && Fetch(storage, w.requests[1].name, Ok(data)).result == w.result
      && (w.requests[1].name == file <==> Separator !in file || OneInnerSeparator(file))
  {
    var name := FileName(file).value;
    var prefix := WritePrefix(file);
    FileNameOfObjectName(StorePrefix(prefix), name);
    ReuploadKeepsPathIff(file);
  }

  /** With the intended prefix, a successful `write` re-uploads under the path's normalised form. */
  lemma WriteIntendedThenFetch(storage: Storage, file: string, data: Bytes, contentTypes: ContentTypes,
                               deleted: Result<()>, uploaded: Result<StorageObject>)
    requires WriteIntended(storage, file, data, contentTypes, deleted, uploaded).result.Ok?
    ensures var w := WriteIntended(storage, file, data, contentTypes, deleted, uploaded);
      && |w.requests| == 2
      && w.requests[1].name == JoinedWithSeparator(Split(file))
      && Fetch(storage, w.requests[1].name, Ok(data)).result == w.result
  {
    var name := FileName(file).value;
    FileNameOfObjectName(StorePrefix(IntendedWritePrefix(file)), name);
    IntendedReuploadNormalizes(file);
  }

  // ---------------------------------------------------------------------------
  // The scenarios of the test suite and the edge cases
  // ---------------------------------------------------------------------------

  /**
    Storing "test.md" under "markdown" uploads "markdown/test.md", but the future yields "",
    not the "markdown/test.md" the test expects; the intended `store` yields that path.
   */
  lemma StoreMarkdown(storage: Storage, data: Bytes, contentTypes: ContentTypes, response: StorageObject)
    ensures var r := Store(storage, File(data, "test.md"), Some("markdown"), contentTypes, Ok(response));
      r.requests[0].name == "markdown/test.md" && r.result == Ok("")
    ensures StoreIntended(storage, File(data, "test.md"), Some("markdown"), contentTypes, Ok(response)).result
      == Ok("markdown/test.md")
  {
    assert !EndsWithSeparator("markdown");
    assert "markdown" + [Separator] + "test.md" == "markdown/test.md";
  }

  /** Fetching "markdown/test.md" downloads that object and names the file "test.md". */
  lemma FetchMarkdown(storage: Storage, path: string, data: Bytes)
    requires path == "markdown/test.md"
    ensures Fetch(storage, path, Ok(data)) == Exchange([GetMedia(storage.bucket, path)], Ok(File(data, "test.md")))
  {
    assert path == "markdown" + [Separator] + "test.md";
    FileNameAfterSeparator("markdown", "test.md");
  }

  /** Writing "markdown/test.md" deletes it, then uploads the new data under the same name. */
  lemma WriteMarkdown(storage: Storage, path: string, data: Bytes, contentTypes: ContentTypes, response: StorageObject)
    requires path == "markdown/test.md"
    ensures Write(storage, path, data, contentTypes, Ok(()), Ok(response))
      == Exchange([DeleteObject(storage.bucket, path),
                   SimpleUpload(storage.bucket, path, data, MediaTypeOf(File(data, "test.md"), contentTypes))],
                  Ok(File(data, "test.md")))
  {
    WritePrefixOfMarkdownPath(path);
    assert path == "markdown" + [Separator] + "test.md";
    FileNameAfterSeparator("markdown", "test.md");
  }

  /**
    Writing "a/b/c.md" deletes it and uploads the new data as "ab/c.md"; the intended
    `write` uploads it as "a/b/c.md" again.
   */
  lemma WriteNested(storage: Storage, path: string, data: Bytes, contentTypes: ContentTypes, response: StorageObject)
    requires path == "a/b/c.md"
    ensures Write(storage, path, data, contentTypes, Ok(()), Ok(response)).requests[1].name == "ab/c.md"
    ensures WriteIntended(storage, path, data, contentTypes, Ok(()), Ok(response)).requests[1].name == path
  {
    WritePrefixOfNestedPath(path);
    FileNameFailsIff(path);
    assert path[0] != Separator;
    var parts := ["a", "b", "c.md"];
    assert JoinedWithSeparator(parts[..2]) == "a/b";
    assert JoinedWithSeparator(parts) == path;
    IntendedReuploadKeepsPath(parts);
  }

  /** `fetch("")` and `write("///", …)` fail before any request. */
  lemma NoRequestWithoutFileName(storage: Storage, data: Bytes, contentTypes: ContentTypes,
                                 media: Result<Bytes>, deleted: Result<()>, uploaded: Result<StorageObject>)
    ensures Fetch(storage, "", media) == Exchange([], Err(FileNameError("")))
    ensures Write(storage, "///", data, contentTypes, deleted, uploaded) == Exchange([], Err(FileNameError("///")))
  {
    assert AllSeparators("///");
  }
}
