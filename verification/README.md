# Content-addressed file store: a Dafny model

The repository is one Flask module, `app.py`. This project models its core, a content-addressed blob store:

- **Extension whitelist** (`allowed_file`). An uploaded file's name is accepted when it contains a dot and the text after its last dot, lower-cased, is one of twenty fixed extensions.
- **Keys and placement.** The key of an upload is the hex digest of its bytes. The blob is stored at `UPLOAD_FOLDER/key[0:2]/key`. The shard directory is the key's first two characters.
- **Store operations.** Upload (POST `/`) is idempotent. It answers 201 and writes the file, creating the shard directory if needed, or answers 200 and writes nothing when the key is already stored. Download (GET `/<hash>`) returns the stored bytes or 404. Delete (DELETE `/<hash>`) removes the file and then tries to remove the shard directory. That removal succeeds only on an empty directory, and its failure is ignored. Delete answers 200, or 404 when there is no file.

Files:

- `strings.dfy` (module `Strings`): ASCII `str.lower()` and `str.rsplit(sep, 1)`.
- `filenames.dfy` (module `Filenames`): `ALLOWED_EXTENSIONS` and `allowed_file`.
- `placement.dfy` (module `Placement`): bytes, keys (32 lower-case hex characters), the digest as a parameter of type `Bytes -> Key`, the `key[0:2]` shard, `os.path.join`, and the shard-directory and file paths.
- `blob_store.dfy` (module `BlobStore`):
  - the filesystem below the store root, as a value `Fs`: a set of shard directories and a map from (shard, name) to bytes;
  - the handlers' answers, as `Response` with `StatusCode`;
  - each handler as a function from the old filesystem to the new one and the answer (`UploadStep`, `DownloadStep`, `DeleteStep`), with lemmas about them;
  - the class `Store`, whose methods do the handlers' work one filesystem call at a time (`os.mkdir`, `file.save`, `os.remove`, `os.rmdir`). Each method is proved to produce exactly what the matching step function describes.

Three invariants are proved to survive every upload and delete:

- `WellFormed`: every file's shard directory exists.
- `ContentAddressed`: every file sits at the place of its own bytes' digest.
- `Tidy`: no shard directory is empty. This one is kept only when the store starts tidy.

When content is already stored, an upload answers 200 without comparing bytes. A later download then returns the stored bytes. The model promises only that those bytes have the same key as the upload, because the code treats equal keys as equal content.

The empty upload is modelled as the code handles it: the digest of empty content is stored like any other. The code does not reject empty content and writes the file in place with `file.save`; the model follows the code.

## Model

| member | source | states |
|---|---|---|
| `Strings.LowerChar` | app.py:26 | an ASCII upper-case letter becomes the lower-case letter 32 code points above it; every other character is kept |
| `Strings.Lower` | app.py:26 | `.lower()` keeps the length and lower-cases each character in place |
| `Strings.LowerIdempotent` | app.py:26 | lower-casing twice equals lower-casing once |
| `Strings.LowerKeepsSeparator` | app.py:25-26 | lower-casing neither adds nor removes a dot |
| `Strings.RSplitOnce` | app.py:26 | `rsplit(sep, 1)` gives two parts exactly when `sep` occurs (else the whole string); the parts glued with `sep` give back the string, and the second part has no `sep`, so the split is at the last occurrence |
| `Strings.SplitAtLastUnique` | app.py:26 | a string splits in only one way at a last occurrence of the separator |
| `Strings.RSplitOnceOfJoin` | app.py:26 | splitting `head + sep + tail` (no `sep` in `tail`) gives `[head, tail]` |
| `Filenames.AllowedFile` | app.py:22-26 | an accepted name contains a dot |
| `Filenames.AllowedExtensionsShape` | app.py:13-15 | every allowed extension has two to four characters, so an accepted name's last-dot extension has two to four characters |
| `Filenames.NoDotRejected` | app.py:25 | a name without a dot is rejected |
| `Filenames.AllowedFileByExtension` | app.py:13-26 | `stem.ext` (no dot in `ext`) is accepted exactly when lower-cased `ext` is in the fixed set, whatever the stem, dots included |
| `Filenames.SameExtensionSameVerdict` | app.py:25-26 | two names with the same extension get the same verdict |
| `Filenames.ExtensionCaseIgnored` | app.py:26 | changing the extension's letter case does not change the verdict |
| `Filenames.UpperCaseExtensionAccepted` | app.py:13-26 | `x.TXT` is accepted |
| `Filenames.LastDotDecides` | app.py:25-26 | `a.b.txt` is accepted |
| `Filenames.TxtAccepted` | test_app.py:72-83 | `stem.txt` is accepted for every stem, so the test names `test.txt`, `file.txt`, `download.txt` and `delete.txt` pass |
| `Filenames.UnknownExtensionRejected` | test_app.py:63-69 | `test.error` is rejected |
| `Placement.Shard` | app.py:72 | `name[0:2]` is a prefix of the name, of length two, or the whole name when that is shorter |
| `Placement.Place` | app.py:72-74 | a name's location is the name inside the directory named by its prefix, which has two characters, or the whole name's length when that is shorter |
| `Placement.Join` | app.py:73 | `os.path.join(a, b)` is `b` for an absolute `b`, otherwise `a` followed by at most one slash and `b`, with exactly one slash when `a` does not already end in one and none when `a` is empty or ends in one |
| `Placement.ShardDir` | app.py:109 | for a name without a slash, the shard directory starts with the root and ends with `name[0:2]` |
| `Placement.FilePath` | app.py:105-107 | for a name without a slash, the file path starts with the shard directory and ends with the name |
| `Placement.NameFilePath` | app.py:105-109 | for a non-empty name without a slash, the file path is the shard directory, a slash and the name, and splitting it at the last slash gives exactly those two parts |
| `Placement.NamePathIsKeyPath` | app.py:105-107 | a name without a slash whose file path equals a key's file path is that key |
| `Placement.KeyShard` | app.py:71-72 | the shard of a key is its first two hex characters |
| `Placement.KeyFilePath` | app.py:105-109 | a key's file path is its shard directory `root/key[0:2]`, a slash and the key, and splitting the path at the last slash gives exactly those two parts |
| `Placement.FilePathInjective` | app.py:105-107 | two keys with the same file path are equal |
| `Placement.EmptyNameIsRoot` | app.py:104-109 | for the empty name, the file path and the shard directory are both the store root itself |
| `BlobStore.UploadStep` | app.py:65-97 | an upload is refused (400) exactly when the name fails the whitelist; an accepted upload answers with the digest of the content; only a 201 changes the filesystem |
| `BlobStore.DownloadStep` | app.py:112-131 | a download answers with the file when one is at the name's location, with exactly its bytes, and 404 otherwise |
| `BlobStore.DeleteStep` | app.py:119-131 | a delete answers 200 exactly when a file is at the name's location and 404 otherwise; the file map loses exactly that location; no directory is added |
| `BlobStore.PathExists` | app.py:113-120 | the handler's existence test passes exactly for the empty name (the root directory) or a name with a file to download |
| `BlobStore.PathExistsOfFilePath` | app.py:105-120 | for a name without a slash, `os.path.exists(file_path)` passes exactly when the file path is the root's (the empty name) or a file is at the name's location |
| `BlobStore.UploadOfStoredContentChangesNothing` | app.py:74-78 | uploading content whose key is stored answers 200 with that key and leaves the filesystem unchanged |
| `BlobStore.UploadOfNewContentStoresIt` | app.py:80-91 | uploading new content answers 201 with its key, adds shard `key[0:2]` to the directories, stores exactly the uploaded bytes at `key[0:2]/key`, and adds no other file and changes none |
| `BlobStore.UploadIsIdempotent` | app.py:71-78 | two uploads of the same content give the same key; the second answers 200 and changes nothing; the first is a 201 exactly when the key was not stored |
| `BlobStore.UploadRefusedChangesNothing` | app.py:93-97 | a refused upload answers 400 and changes nothing |
| `BlobStore.DownloadAfterUpload` | app.py:112-116 | after an accepted upload, downloading its key answers 200 with bytes of the same key, and exactly the uploaded bytes when the upload created the file |
| `BlobStore.DownloadOfMissingBlob` | app.py:112-131 | downloading a name with no file answers 404 |
| `BlobStore.DeleteOfStoredBlob` | app.py:119-129 | deleting a stored blob answers 200 and removes exactly that file; its shard directory remains exactly when another file is still in it; no other directory changes |
| `BlobStore.DeleteOfMissingBlob` | app.py:119-131 | deleting a name with no file answers 404 and changes nothing |
| `BlobStore.DeleteThenGone` | app.py:112-131 | after a delete, a download and a second delete of the same name both answer 404 |
| `BlobStore.DeletedMeansRemoved` | app.py:119-129 | a delete that answers 200 removed a file that was present |
| `BlobStore.StoredFilesAreSharded` | app.py:71-84 | in a content-addressed store, every file's name is the key of its bytes and its directory is the key's first two characters |
| `BlobStore.UploadPreservesInvariants` | app.py:80-84 | an upload keeps every file inside an existing directory and every file at its content's key; a tidy store stays tidy |
| `BlobStore.DeletePreservesInvariants` | app.py:120-125 | a delete keeps the same invariants; removing an emptied shard directory keeps a tidy store tidy |
| `BlobStore.DeleteAsWritten` | app.py:119-129 | the delete handler as written; it agrees with the modelled delete on every non-empty name and on every name whose file exists |
| `BlobStore.EmptyNameDeleteReportsSuccess` | app.py:104-129 | as written, deleting the empty name answers 200 and changes nothing; the modelled delete answers 404 |
| `BlobStore.Store.constructor` | app.py:9-11 | a store starts over the root's existing, well-formed and content-addressed contents |
| `BlobStore.Store.MakeDir` | app.py:80-81 | `os.mkdir` adds one directory and touches no file |
| `BlobStore.Store.Save` | app.py:83-84 | `file.save` writes the bytes at one location inside an existing directory |
| `BlobStore.Store.RemoveFile` | app.py:122 | `os.remove` removes exactly one existing file |
| `BlobStore.Store.RemoveDir` | app.py:123-125 | `os.rmdir` succeeds exactly on an existing empty directory and removes it; otherwise nothing changes |
| `BlobStore.Store.Upload` | app.py:65-97 | the upload handler keeps the invariants; its new state and answer are those of `UploadStep` |
| `BlobStore.Store.Download` | app.py:112-131 | the download handler changes nothing; it answers with the bytes at the name's location when a file is there, and 404 otherwise |
| `BlobStore.Store.Delete` | app.py:119-131 | the corrected delete handler (404 for the empty name, where app.py:119-129 answers 200; see Findings) keeps the invariants; its new state and answer are those of `DeleteStep` |
| `BlobStore.UploadTwiceFlow` | test_app.py:95-117 | on a fresh store, uploading `already exists` twice as `file.txt` answers 201 then 200, with the same key both times |
| `BlobStore.DownloadFlow` | test_app.py:120-137 | on a fresh store, uploading `download test` as `download.txt` and then downloading the returned key answers 201 then 200, with exactly the uploaded bytes |
| `BlobStore.DeleteFlow` | test_app.py:140-164 | on a fresh store, uploading `delete test` as `delete.txt`, deleting it, deleting again and downloading answer 201, 200, 404 and 404 |
| `BlobStore.WrongExtensionFlow` | test_app.py:57-69 | uploading under `test.error` answers 400 and stores nothing |

## Left out

- HTTP routing, JSON bodies and the 400/404/405/500 error handlers (app.py:29-62) are not modelled. Outcomes are the `Response` datatype with its status code. A request with no `file` field is refused by the handler's first line, `request.files['file']` (app.py:69), whose missing-key error Flask turns into a 400; it is not modelled.
- The MD5 computation (`hashlib.md5(...).hexdigest()`) is a library call. The digest is a parameter of type `Bytes -> Key`, and a `Key` is any 32-character lower-case hex string. So the test vector for `b"test"` cannot be stated.
- `secure_filename` is a library sanitiser. File names and hashes are taken as already sanitised. Its output is ASCII, so ASCII lower-casing is exact. The handler's `if file` test fails only for an empty file name, which the whitelist rejects anyway.
- `send_from_directory` streaming: a download returns the stored bytes. For the empty name, `send_from_directory` finds no regular file and itself answers 404, which is what `Download` answers.
- `MAX_CONTENT_LENGTH` (enforced by Flask before the handler runs) and the start-up creation of the store root are not modelled. The root is fixed: the filesystem value `Fs` is what lies below it, the root path itself appears only in the path functions of `Placement`, and the store starts from whatever well-formed contents it already holds.
- I/O failures (disk full, permission denied) are not modelled. In the upload handler they are not handled, and Flask answers 500. In the delete handler an `OSError` from `os.remove` or `os.rmdir` is swallowed, so a failed `os.remove` still answers 200 and leaves the file in place. The model has no failing `os.remove`.
- Concurrency, and the races that a temporary-file-then-rename publication would guard against, are not modelled. The code writes in place with `file.save`, and the model is sequential.
- `BlobStore.DownloadAfterUpload`: when the content was already stored, it promises only that the returned bytes have the upload's key, not that they equal it, because the code never compares bytes (a digest collision is out of its scope).

## Findings

| source | as written | input that shows it | evidently intended | confidence | as-written member | corrected member |
|---|---|---|---|---|---|---|
| app.py:104-129 | the delete handler tests the path with `os.path.exists`, which also accepts directories. A hash that sanitises to the empty string makes the path the store root `store/`. `os.remove` on it raises an `OSError`, which is swallowed, and the handler answers 200 "File has been deleted." although nothing was deleted | `DELETE /_` (`secure_filename("_")` is `""`) | test for a regular file, so that the answer is 404 | medium, not executed | `BlobStore.DeleteAsWritten`, `BlobStore.EmptyNameDeleteReportsSuccess` | `BlobStore.DeleteStep` (used by `BlobStore.Store.Delete`), `BlobStore.DeletedMeansRemoved` |
