# GoogleCloudStorage adapter — a Dafny model

`GoogleCloudStorage` is a Vapor `Storage` service backed by Google Cloud Storage.
It has four operations:

- `store(file:at:)` uploads a file under an object name built from an optional directory prefix and the filename.
- `fetch(file:)` downloads an object and names the resulting `File` after the last piece of its path.
- `write(file:with:options:)` replaces an object's contents. Cloud Storage cannot update in place, so the object is deleted and a new one is uploaded.
- `delete(file:)` removes an object.

This project models those operations and the string handling they rely on:

- Swift's `split(separator: "/")`, which omits empty pieces.
- `.last`, `.dropLast()` and `.joined()`.
- How `store` builds the name: no prefix, a prefix ending in "/", or any other prefix.

Files:

- `optional.dfy` (module `Optional`): Swift's `Optional`.
- `object_names.dfy` (module `ObjectNames`): object-name construction, filename extraction, the prefix `write` recomputes, and the lemmas about them.
- `google_cloud_storage.dfy` (module `GoogleCloudStorage`): the four operations and the lemmas relating them.

Each operation is a pure function. Its inputs are the operation's arguments and the replies of the Google Cloud client. Its value is an `Exchange`: the requests the operation issues, in order, and the value its future completes with. The client throws some errors synchronously and reports others as failed futures. The adapter's `do`/`catch` turns both into the same failed future, so both are modelled as an `Err` reply.

## Model

| member | source | states |
|---|---|---|
| ObjectNames.ObjectName | Sources/GoogleCloudStorage/GoogleCloudStorage.swift:43 | Without a prefix, the name is the filename. With one, the name starts with the prefix and ends with the filename, with exactly one "/" between them: none is added when the prefix already ends in "/". An empty prefix gives "/" + filename. |
| ObjectNames.Split | Sources/GoogleCloudStorage/GoogleCloudStorage.swift:63 | Swift's `split(separator: "/")` with its defaults (used at lines 63, 83 and 87). It scans the string, ends the current piece at each "/" and at the end, and drops empty pieces. It has no contract of its own; the `Split…` lemmas below characterise it. |
| ObjectNames.Last | Sources/GoogleCloudStorage/GoogleCloudStorage.swift:63 | `.last`: `None` for no pieces, otherwise the final piece (a definition, no contract). |
| ObjectNames.DropLast | Sources/GoogleCloudStorage/GoogleCloudStorage.swift:87 | `.dropLast()`: every piece but the final one, and nothing from nothing (a definition, no contract). |
| ObjectNames.Joined | Sources/GoogleCloudStorage/GoogleCloudStorage.swift:87 | `.joined()` on the pieces: concatenation with no separator (a definition, no contract; `JoinedSplit` states what it yields after `split`). |
| ObjectNames.FileName | Sources/GoogleCloudStorage/GoogleCloudStorage.swift:63 | An extracted filename is never empty and contains no "/". |
| ObjectNames.WritePrefix | Sources/GoogleCloudStorage/GoogleCloudStorage.swift:87 | The prefix `write` recomputes never contains "/". |
| ObjectNames.StorePrefix | Sources/GoogleCloudStorage/GoogleCloudStorage.swift:91 | An empty prefix becomes `nil`; any other prefix is passed to `store`. |
| ObjectNames.ReuploadName | Sources/GoogleCloudStorage/GoogleCloudStorage.swift:83-91 | The object name `write` re-uploads to: `ObjectName(StorePrefix(WritePrefix(path)), FileName(path))`, or `None` when no filename can be extracted (a definition; the `Reupload…` lemmas state its properties). |
| ObjectNames.ReuploadKeepsFileName | Sources/GoogleCloudStorage/GoogleCloudStorage.swift:83-91 | Whenever a filename can be extracted, `fetch` of the re-upload name extracts that same filename. |
| ObjectNames.IntendedWritePrefix | Sources/GoogleCloudStorage/GoogleCloudStorage.swift:87 | The corrected prefix: the directory pieces joined with "/" (a definition; `IntendedReuploadNormalizes` states its effect). |
| ObjectNames.IntendedReuploadName | Sources/GoogleCloudStorage/GoogleCloudStorage.swift:83-91 | The re-upload name with the corrected prefix (a definition; `IntendedReuploadNormalizes` and `IntendedReuploadKeepsPath` state its properties). |
| ObjectNames.SplitFromSegments | Sources/GoogleCloudStorage/GoogleCloudStorage.swift:63 | Every piece `split` yields is non-empty and contains no "/". |
| ObjectNames.SplitWithoutSeparator | Sources/GoogleCloudStorage/GoogleCloudStorage.swift:63 | A string without "/" splits into itself, or into nothing when it is empty. |
| ObjectNames.SplitAroundSeparator | Sources/GoogleCloudStorage/GoogleCloudStorage.swift:63 | split(a + "/" + b) == split(a) + split(b). |
| ObjectNames.SplitTrailingSeparator | Sources/GoogleCloudStorage/GoogleCloudStorage.swift:63 | A trailing "/" does not change the pieces. |
| ObjectNames.SplitFromEmptyIff | Sources/GoogleCloudStorage/GoogleCloudStorage.swift:63 | `split` yields no piece exactly when the input contains nothing but "/". |
| ObjectNames.SplitJoinedWithSeparator | Sources/GoogleCloudStorage/GoogleCloudStorage.swift:63 | Joining segments with "/" and splitting again gives back the same segments. |
| ObjectNames.JoinedSplit | Sources/GoogleCloudStorage/GoogleCloudStorage.swift:87 | `split` followed by `joined()` yields the input with every "/" deleted. |
| ObjectNames.JoinedEmptyIff | Sources/GoogleCloudStorage/GoogleCloudStorage.swift:87 | Non-empty pieces join to "" if and only if there are none. |
| ObjectNames.WritePrefixEmptyIff | Sources/GoogleCloudStorage/GoogleCloudStorage.swift:87-91 | The write prefix is "", so `store` gets `nil`, if and only if the path splits into at most one piece. |
| ObjectNames.FileNameFailsIff | Sources/GoogleCloudStorage/GoogleCloudStorage.swift:63-65 | Extraction fails ("fileName" error) exactly when the path has no character other than "/". Examples: "" and "///". |
| ObjectNames.FileNameIgnoresTrailingSeparator | Sources/GoogleCloudStorage/GoogleCloudStorage.swift:63 | "dir/name/" and "dir/name" give the same filename. |
| ObjectNames.FileNameAfterSeparator | Sources/GoogleCloudStorage/GoogleCloudStorage.swift:63 | The filename is the segment after the last "/". |
| ObjectNames.FileNameOfSegment | Sources/GoogleCloudStorage/GoogleCloudStorage.swift:63 | A path without "/" is its own filename. |
| ObjectNames.FileNameOfObjectName | Sources/GoogleCloudStorage/GoogleCloudStorage.swift:43-63 | For every prefix, extracting the filename from the name `store` builds gives back the stored filename. |
| ObjectNames.FileNameOfObjectNameIff | Sources/GoogleCloudStorage/GoogleCloudStorage.swift:43-63 | Extracting the filename from the name `store` builds gives back the stored filename if and only if that filename is a segment. An empty filename, or one containing "/", does not come back. |
| ObjectNames.WritePrefixOfPath | Sources/GoogleCloudStorage/GoogleCloudStorage.swift:87 | For "dir/name", the write prefix is `dir` with its "/" characters deleted. |
| ObjectNames.WritePrefixOfSegment | Sources/GoogleCloudStorage/GoogleCloudStorage.swift:87-91 | A one-segment path has an empty prefix, so it is re-uploaded without one. |
| ObjectNames.ReuploadKeepsSimplePath | Sources/GoogleCloudStorage/GoogleCloudStorage.swift:83-91 | A one-segment path, or two segments around one "/", is re-uploaded under the same name. |
| ObjectNames.ReuploadKeepsSegment | Sources/GoogleCloudStorage/GoogleCloudStorage.swift:83-91 | A one-segment path is re-uploaded under itself. |
| ObjectNames.ReuploadKeepsTwoSegments | Sources/GoogleCloudStorage/GoogleCloudStorage.swift:83-91 | "dir/name" is re-uploaded under itself. |
| ObjectNames.ReuploadMovesOtherPaths | Sources/GoogleCloudStorage/GoogleCloudStorage.swift:83-91 | If the re-upload name equals the path, the path has at most one "/" and that "/" is neither first nor last. |
| ObjectNames.ReuploadKeepsPathIff | Sources/GoogleCloudStorage/GoogleCloudStorage.swift:83-91 | `write` re-uploads under the name it deleted if and only if the path is one segment or two segments around one "/". |
| ObjectNames.OneInnerSeparatorSplit | Sources/GoogleCloudStorage/GoogleCloudStorage.swift:63 | A path with one inner "/" splits into exactly two pieces. |
| ObjectNames.ReuploadKeepsJoinedPathIff | Sources/GoogleCloudStorage/GoogleCloudStorage.swift:83-91 | For segments joined with "/", the re-upload keeps the name if and only if there are at most two segments. |
| ObjectNames.ReuploadKeepsShortJoinedPath | Sources/GoogleCloudStorage/GoogleCloudStorage.swift:83-91 | One or two segments joined with "/" keep their name. |
| ObjectNames.ReuploadMovesLongJoinedPath | Sources/GoogleCloudStorage/GoogleCloudStorage.swift:83-91 | Three or more segments joined with "/" are re-uploaded under a different name. |
| ObjectNames.WritePrefixOfMarkdownPath | Tests/GoogleCloudStorageTests/GoogleCloudStorageTests.swift:87 | "markdown/test.md" has the prefix "markdown" and is re-uploaded under itself. |
| ObjectNames.WritePrefixOfNestedPath | Sources/GoogleCloudStorage/GoogleCloudStorage.swift:87-91 | "a/b/c.md" has the prefix "ab" and is re-uploaded as "ab/c.md". |
| ObjectNames.IntendedReuploadNormalizes | Sources/GoogleCloudStorage/GoogleCloudStorage.swift:87-91 | With the prefix joined by "/", the re-upload name is the path's segments joined by single "/" characters. |
| ObjectNames.IntendedReuploadKeepsPath | Sources/GoogleCloudStorage/GoogleCloudStorage.swift:87-91 | With the prefix joined by "/", every path built from segments keeps its name. |
| GoogleCloudStorage.FileNameError | Sources/GoogleCloudStorage/GoogleCloudStorage.swift:64 | The extraction failure is a `StorageError` with identifier "fileName". |
| GoogleCloudStorage.MediaTypeOf | Sources/GoogleCloudStorage/GoogleCloudStorage.swift:49 | The file's content type when it has one; otherwise `text/plain; charset=utf-8`. |
| GoogleCloudStorage.Store | Sources/GoogleCloudStorage/GoogleCloudStorage.swift:41-58 | Exactly one upload, to the bucket, of the file's data under `ObjectName(at, filename)` with `MediaTypeOf`. Succeeds exactly when the upload does and then yields ""; otherwise yields the client's error. |
| GoogleCloudStorage.Fetch | Sources/GoogleCloudStorage/GoogleCloudStorage.swift:61-73 | No request and a "fileName" error exactly when no filename can be extracted. Otherwise one `getMedia` of the unmodified path. On success, a `File` of the downloaded bytes named by the extracted segment; otherwise the client's error. |
| GoogleCloudStorage.Delete | Sources/GoogleCloudStorage/GoogleCloudStorage.swift:99-105 | One delete of the unmodified path; the client's answer is the result. |
| GoogleCloudStorage.Write | Sources/GoogleCloudStorage/GoogleCloudStorage.swift:81-96 | No request when no filename can be extracted. Otherwise the delete comes first. The upload happens if and only if the delete succeeded, and goes to `ReuploadName(file)`. Errors pass through. Succeeds exactly when every step does, with `File(data, filename)`. |
| GoogleCloudStorage.StoreIntended | Tests/GoogleCloudStorageTests/GoogleCloudStorageTests.swift:70-72 | The same request as `Store`; on success yields the object name it uploaded to. |
| GoogleCloudStorage.WriteIntended | Sources/GoogleCloudStorage/GoogleCloudStorage.swift:87-91 | The same delete-then-upload order and result as `Write`, but the upload goes to `IntendedReuploadName(file)`. |
| GoogleCloudStorage.StoreThenFetch | Sources/GoogleCloudStorage/GoogleCloudStorage.swift:43-68 | Fetching the uploaded name with the uploaded bytes downloads that object and returns the stored file. |
| GoogleCloudStorage.StoreThenFetchNeedsSegment | Sources/GoogleCloudStorage/GoogleCloudStorage.swift:43-68 | If fetching the uploaded name returns the stored file, its filename is a segment; the round trip needs nothing weaker. |
| GoogleCloudStorage.StoreEmptyFileName | Sources/GoogleCloudStorage/GoogleCloudStorage.swift:43-65 | A file named "" stored without a prefix is uploaded under "". `fetch("")` then fails with the "fileName" error without issuing a request. |
| GoogleCloudStorage.StoreIntendedThenFetch | Tests/GoogleCloudStorageTests/GoogleCloudStorageTests.swift:70-81 | The path the intended `store` returns fetches the stored file back. |
| GoogleCloudStorage.WriteThenFetch | Sources/GoogleCloudStorage/GoogleCloudStorage.swift:83-92 | After a successful write, fetching the uploaded name returns the `File` that `write` returned. That name is the written path if and only if the path is one segment or two segments around one "/". |
| GoogleCloudStorage.WriteIntendedThenFetch | Sources/GoogleCloudStorage/GoogleCloudStorage.swift:87-92 | With the intended prefix, the upload goes to the path's normalised form, and fetching it returns the written file. |
| GoogleCloudStorage.StoreMarkdown | Tests/GoogleCloudStorageTests/GoogleCloudStorageTests.swift:66-73 | Storing "test.md" at "markdown" uploads "markdown/test.md" but yields "". The intended `store` yields "markdown/test.md". |
| GoogleCloudStorage.FetchMarkdown | Tests/GoogleCloudStorageTests/GoogleCloudStorageTests.swift:75-82 | Fetching "markdown/test.md" downloads that object and names the file "test.md". |
| GoogleCloudStorage.WriteMarkdown | Tests/GoogleCloudStorageTests/GoogleCloudStorageTests.swift:84-91 | Writing "markdown/test.md" deletes it, uploads the new data under the same name, and returns `File(data, "test.md")`. |
| GoogleCloudStorage.WriteNested | Sources/GoogleCloudStorage/GoogleCloudStorage.swift:83-92 | Writing "a/b/c.md" uploads to "ab/c.md". The intended `write` uploads to "a/b/c.md". |
| GoogleCloudStorage.NoRequestWithoutFileName | Sources/GoogleCloudStorage/GoogleCloudStorage.swift:63-65 | `fetch("")` and `write("///")` fail with the "fileName" error without issuing a request. |

## Left out

- `makeService(for:)` and `init` (GoogleCloudStorage.swift:9-14, 34-38): service-container wiring. Only the bucket name is kept, as `Storage.bucket`.
- The Google Cloud client, the event loop and the futures: requests are values in `Exchange.requests`, and replies are inputs. Timing, concurrency and retries are not modelled.
- The `print` of the upload's `selfLink` (GoogleCloudStorage.swift:52): console output with no effect on the result.
- Vapor's lookup of a file's content type from its filename extension: supplied as the `contentTypes` parameter.
- `options` of `write` (GoogleCloudStorage.swift:81): the source ignores it, so the model has no such parameter.
- Percent-encoding of object names: the adapter passes names to the client unchanged. Any encoding happens inside the client library, which is not part of this model.
- Sources/GoogleCloudStorage/Bucket.swift (a holder for the bucket name), Package.swift and the test harness set-up (GoogleCloudStorageTests.swift:1-43): configuration, not behaviour.
- Swift compares grapheme-cluster `Character`s; the model compares single characters. A "/" that begins or ends a larger cluster is a separator here but not in Swift. Two cases: a "/" followed by a combining mark such as U+0301, and a "/" preceded by a prepended mark such as U+0600. For `fetch("a/\u{301}b")`, Swift extracts "a/\u{301}b" while the model extracts "\u{301}b". For the prefix "x\u{600}/", Swift's `last == "/"` is false and a "/" is added, while the model adds none. The model is exact for paths in which every "/" is a cluster of its own.

## Findings

| source | as written | input that shows it | evidently intended | confidence | as-written member | corrected member |
|---|---|---|---|---|---|---|
| Sources/GoogleCloudStorage/GoogleCloudStorage.swift:87 | `split(separator: "/").dropLast().joined()` joins the directory pieces with no separator | `write(file: "a/b/c.md", …)` deletes "a/b/c.md" and uploads the new data as "ab/c.md" | `joined(separator: "/")`, so the data goes back under the deleted name | not executed | ObjectNames.WritePrefixOfNestedPath | GoogleCloudStorage.WriteIntended |
| Sources/GoogleCloudStorage/GoogleCloudStorage.swift:53 | `store`'s future always yields "" | `store(file: test.md, at: "markdown")` yields "", while the test at Tests/GoogleCloudStorageTests/GoogleCloudStorageTests.swift:72 expects "markdown/test.md" | yield the object name it uploaded to | not executed | GoogleCloudStorage.StoreMarkdown | GoogleCloudStorage.StoreIntended |

The corrected members come with their intended properties proved:

- `ObjectNames.IntendedReuploadKeepsPath` and `GoogleCloudStorage.WriteIntendedThenFetch`: every path built from segments survives the intended `write` unchanged.
- `GoogleCloudStorage.StoreIntendedThenFetch`: the name the intended `store` returns fetches the stored file.

The as-written members exhibit each discrepancy:

- `ObjectNames.ReuploadKeepsJoinedPathIff` and `GoogleCloudStorage.WriteNested`: paths of three or more segments move.
- `GoogleCloudStorage.StoreMarkdown`: the future yields "".
