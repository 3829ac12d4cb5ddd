# upload-build-to-s3, modelled in Dafny

A GitHub Actions step that publishes a build. It uploads an artifact to an S3
bucket. It then appends a record of that upload to a `downloads.yml`-style
manifest kept in the same bucket. The whole logic lives in `src/main.ts`:

- `updateDownloadsYml` builds the manifest item and appends it to the old
  manifest text.
- `run` fetches the manifest, refuses an empty one, puts the artifact, then
  puts the new manifest. One `try/catch` turns the first failure into the
  step's failure.

The model has six modules:

- `Wrappers` (wrappers.dfy): `Option` and `Result`.
- `Paths` (paths.dfy): `Basename`, standing in for Node's POSIX `path.basename`
  applied to the key. It is characterised by `IsFinalSegment`, in both
  directions.
- `Lines` (lines.dfy): splitting text into lines and joining lines back. These
  are used to state the manifest layout line by line.
- `Downloads` (downloads.dfy): the `Entry` record, its five-line serialisation,
  `UpdateDownloadsYml`, and `ParseItem`, which reads an item back.
- `ObjectStore` (store.dfy): the bucket as a map from key to content, plus a log
  of requests. A get can fail (no such key, unreadable body). A put can fail
  (refused). Which requests fail is fixed by a `Faults` value. The pure steps
  are `GetStep` and `PutStep`. The class `Bucket` carries out the same steps in
  place.
- `Publish` (publish.dfy): `Run`, the specification of one run as a function of
  the bucket state. `RunStep` is the imperative step over a `Bucket`, proved
  equal to `Run`. Lemmas cover fail-fast, write order and which keys change.

The timestamp, normally `new Date().toISOString()`, is a parameter `date`. The
contents of the local `input_file` are a parameter `artifact`. A bucket object
stands for the `s3_bucket` input.

This version of the action writes four keys per item: `date`, `type`,
`name` and `bucketPath` (src/main.ts:9-12). It has no notes block and no
quote escaping.

A `GetObjectCommand` on a missing key throws the client's own error
(src/main.ts:44-49) before the emptiness test at src/main.ts:52 runs. So a
missing manifest fails as `Store(NoSuchKey(key))`, and only an existing empty
one fails as `UnknownDownloadsFile(key)`. Neither case writes anything.

## Model

| member | source | states |
|---|---|---|
| Paths.Basename | src/main.ts:11 | Node's POSIX `path.basename` of the key, imported at src/main.ts:4. The result is always the key's final segment (`IsFinalSegment`), and `BasenameSpec` gives the converse. |
| Paths.BasenameSpec | src/main.ts:11 | A string is `Basename(key)` exactly when it is the key's final segment. That segment is a separator-free slice that starts at the beginning or just after a `/`. Only `/` may follow it, so trailing separators are ignored. It is empty only for an all-`/` key. |
| Paths.BasenameUnique | src/main.ts:11 | The final segment of a key is unique, and it equals `Basename(key)`. |
| Paths.BasenameOfPlainKey | src/main.ts:11 | A key without a `/` is its own basename. |
| Paths.BasenameOfJoin | src/main.ts:11 | The basename of `dir/file` is `file`, for any `dir` and any non-empty, separator-free `file`. |
| Downloads.UpdateDownloadsYml | src/main.ts:7-19 | The new text starts with the old manifest text, unchanged. What follows starts with `"\n - date: " + date + "\n"`. The result ends with a newline. |
| Downloads.UpdateLayout | src/main.ts:8-18 | For every field value, line breaks included, the new text is exactly: the old text, a newline, then ` - date: ` + timestamp, `   type: ` + type, `   name: ` + `Basename(bucket_file)` and `   bucketPath: ` + `bucket_file`, each followed by a newline. |
| Downloads.EntryStartsWithDate | src/main.ts:8-9 | The item opens with a blank line, then ` - date: ` plus the timestamp and a newline. It ends with a newline. |
| Downloads.ParseItem | src/main.ts:9-12 | A record is returned only for exactly four lines with the prefixes ` - date: `, `   type: `, `   name: ` and `   bucketPath: `. Each line is that prefix followed by the returned field. |
| Downloads.ParseItemLines | src/main.ts:9-12 | The four key lines built from a record parse back to that same record. |
| Downloads.EntryRoundTrip | src/main.ts:8-12 | If no field holds a line break, the item is exactly five lines. The first is empty. The other four parse back to the record. |
| Downloads.AppendedLines | src/main.ts:7-18 | The new manifest keeps all old lines, in order. On terminated text it adds five lines, the blank line first. On unterminated text the item's leading newline ends the old last line, so four lines are added. The last four lines parse back to the date, the type verbatim, `Basename(bucket_file)` and `bucket_file` verbatim. |
| Downloads.UploadIntoDirectory | src/main.ts:8-18 | The whole new text, given as its lines. For a terminated manifest and key `dir/file`, it is the old lines, a blank line, then the date, type, name and bucketPath lines. The name is `file` and the bucketPath is `dir/file`. |
| ObjectStore.GetStep | src/main.ts:44-51 | A get succeeds exactly when the key is present and readable. It then returns the stored content. A missing key fails as `NoSuchKey`, and an unreadable one as `ReadFailed`. It appends `Get(key)` to the log and changes no object. |
| ObjectStore.PutStep | src/main.ts:59-74 | A put succeeds exactly when the key is not refused. It appends `Put(key)` to the log. On failure no object changes. On success only `key` changes, and it holds the body. |
| ObjectStore.Bucket.GetObject | src/main.ts:44-51 | On any bucket, the result and the new state are those of `GetStep`. |
| ObjectStore.Bucket.PutObject | src/main.ts:59-74 | On any bucket, the result and the new state are those of `PutStep`. |
| Publish.Run | src/main.ts:33-78 | A run only appends to the request log. Its requests are a non-empty prefix of: get the manifest, put the artifact, put the manifest. The manifest put is reached only after the artifact put is accepted. A success makes all three requests. |
| Publish.RunStep | src/main.ts:33-78 | The imperative step on a bucket gives exactly the outcome and new state of `Run`. |
| Publish.FailsFastWithoutWrites | src/main.ts:44-54 | A missing, unreadable or empty manifest fails the run after the one get. No put is made and no object changes. A missing manifest fails as `Store(NoSuchKey)`, and an unreadable one as `Store(ReadFailed)`. The error is `UnknownDownloadsFile` exactly when the manifest exists and is readable, that is, when it is empty. |
| Publish.ArtifactFailureKeepsManifest | src/main.ts:59-74 | If the artifact put is refused, the run fails with that put's error. The manifest put is never attempted, and every object, the manifest included, keeps its old content. |
| Publish.ManifestFailureLeavesArtifact | src/main.ts:59-77 | If the artifact put succeeds and the manifest put is refused, the run fails. The artifact stays stored and the manifest keeps its old content. Nothing is rolled back. |
| Publish.SuccessChangesExactlyTwoKeys | src/main.ts:56-74 | After a success, `downloads_yml` holds the old manifest plus the new entry. When the two keys differ, `bucket_file` holds the artifact. When they are equal, the key ends with the new manifest text and the artifact is overwritten. No other key changes, and the only possible new key is `bucket_file`. |
| Publish.SucceedsIff | src/main.ts:33-78 | A run succeeds exactly when three things hold: the manifest is present, readable and non-empty, and both puts are accepted. |
| Publish.ManifestListsOnlyUploadedArtifact | src/main.ts:59-74 | When the two keys differ, a run leaves the manifest in one of two states: its old content, or the old content plus the entry. The second happens only if the artifact is stored at `bucket_file`. |

## Left out

- Per-request faults: store faults (`ObjectStore.Faults`) are fixed per key, not per request. When `bucket_file` equals `downloads_yml`, both puts share one fate. So the model cannot express a run where the artifact put to that key succeeds and the manifest put to the same key then fails. `Publish.ManifestFailureLeavesArtifact` therefore only applies when the two keys differ.
- Windows path rules: `basename` comes from Node's `path` module, which on a Windows runner is `path.win32`. That version also splits on `\` and strips a drive prefix such as `C:`. The model follows POSIX rules only.
- Partial put failures: a refused put stores nothing. A `PutObject` that fails on the client after S3 has already stored the object is not modelled. `Publish.ArtifactFailureKeepsManifest`'s claim that `bucket_file` keeps its old content relies on this.
- The S3 client and how it resolves credentials and region (src/main.ts:2, 41). These are replaced by the abstract `Bucket`, whose failures the `Faults` sets fix up front.
- `readableToString` (src/main.ts:21-31). This is stream plumbing. A fetched body is a string, and a body that cannot be read is a `ReadFailed` get.
- `createReadStream(input_file)` (src/main.ts:63). Local file I/O is replaced by the `artifact` contents. A file that cannot be read fails the artifact put, so it is modelled as a refused put of `bucket_file`.
- `core.getInput` and `core.setFailed` (src/main.ts:35-39, 76). The inputs are parameters and the failure is the returned `Outcome`. The text of the reported message is not modelled: the client's messages are opaque, and `UnknownDownloadsFile` carries the key from which "Unknown downloads file <key>" is formed.
- The `error instanceof Error` test (src/main.ts:76). Every failure in the model is an error that is reported. A thrown non-`Error` value, which would be silently swallowed, is not modelled.
- All `console.log` calls (src/main.ts:14-16, 43, 58, 67, 80). They only log.
- The clock (src/main.ts:9). The timestamp is an opaque string argument. ISO-8601 formatting is not modelled.
- The top-level `run()` call and async scheduling (src/main.ts:80-81). The steps are strictly sequential, so no concurrency is modelled.
- Text encoding. Object contents are Dafny strings (`seq<char>`), not bytes.
- Downloads.EntryRoundTrip, Downloads.AppendedLines, Downloads.UploadIntoDirectory: these line-structure statements need the type, key and timestamp to contain no line break. The source does not check this. A field with a newline still gives the same text, as `Downloads.UpdateLayout` states for all inputs, but it adds lines of its own.
