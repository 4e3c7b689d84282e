/** The content-addressed store behind the upload, download and delete
    handlers. The filesystem under the store root is abstracted to the set
    of shard directories and a map from (shard, file name) to bytes; HTTP
    responses become the `Response` datatype. */
module BlobStore {
  import opened Filenames
  import opened Placement

  /** What exists below the store root. */
  datatype Fs = Fs(dirs: set<string>, files: map<Location, Bytes>)

  /** What a handler answers; `StatusCode` gives the HTTP status. */
  datatype Response =
    | Created(key: Key)         // upload of new content
    | AlreadyExists(key: Key)   // upload of content already stored
    | WrongExtension            // upload refused by the whitelist
    | File(content: Bytes)      // download of a stored blob
    | Deleted                   // delete of a stored blob
    | NotFound                  // download or delete of a missing blob

  function StatusCode(r: Response): int
  {
    match r
    case Created(_) => 201
    case AlreadyExists(_) => 200
    case WrongExtension => 400
    case File(_) => 200
    case Deleted => 200
    case NotFound => 404
  }

  /** Every file lives in a shard directory that exists. */
  predicate WellFormed(fs: Fs)
  {
    forall l :: l in fs.files ==> l.shard in fs.dirs
  }

  /** Every file sits at the place of the digest of its own bytes. */
  predicate ContentAddressed(fs: Fs, digest: Digest)
  {
    forall l :: l in fs.files ==> l == Place(digest(fs.files[l]))
  }

  /** The shard directories that hold at least one file. */
  function Shards(files: map<Location, Bytes>): set<string>
  {
    set l | l in files :: l.shard
  }

  /** No shard directory is left empty. */
  predicate Tidy(fs: Fs)
  {
    fs.dirs == Shards(fs.files)
  }

  /** Directory `d` holds no file (so `os.rmdir` of it succeeds). */
  predicate DirEmpty(files: map<Location, Bytes>, d: string)
  {
    forall l :: l in files ==> l.shard != d
  }

  /** POST / with a file named `filename` (already sanitised) holding `content`. */
  function UploadStep(fs: Fs, digest: Digest, filename: string, content: Bytes): (res: (Fs, Response))
    ensures res.1.WrongExtension? <==> !AllowedFile(filename)
    ensures !res.1.Created? ==> res.0 == fs
    ensures AllowedFile(filename) ==> (res.1.Created? || res.1.AlreadyExists?) && res.1.key == digest(content)
  {
    if !AllowedFile(filename) then (fs, WrongExtension)
    else
      var key := digest(content);
      var loc := Place(key);
      if loc in fs.files then (fs, AlreadyExists(key))
      else (Fs(fs.dirs + {loc.shard}, fs.files[loc := content]), Created(key))
  }

  /** GET /name. */
  function DownloadStep(fs: Fs, name: string): (r: Response)
    ensures r.File? <==> Place(name) in fs.files
    ensures r.File? ==> r.content == fs.files[Place(name)]
    ensures !r.File? ==> r == NotFound
  {
    var loc := Place(name);
    if loc in fs.files then File(fs.files[loc]) else NotFound
  }

  /** DELETE /name: remove the file, then remove its shard directory if that
      left it empty; a failed directory removal is ignored. */
  function DeleteStep(fs: Fs, name: string): (res: (Fs, Response))
    ensures res.1 == Deleted <==> Place(name) in fs.files
    ensures res.1 == Deleted || res.1 == NotFound
    ensures res.0.files == fs.files - {Place(name)}
    ensures res.0.dirs <= fs.dirs
  {
    var loc := Place(name);
    if loc !in fs.files then (fs, NotFound)
    else
      var files := fs.files - {loc};
      var dirs := if loc.shard in fs.dirs && DirEmpty(files, loc.shard)
                  then fs.dirs - {loc.shard} else fs.dirs;
      (Fs(dirs, files), Deleted)
  }

  // ---------------------------------------------------------------------
  // Upload

  /** Uploading content whose key is already stored answers 200 with that
      key and writes nothing. */
  lemma UploadOfStoredContentChangesNothing(fs: Fs, digest: Digest, filename: string, content: Bytes)
    requires AllowedFile(filename)
    requires Place(digest(content)) in fs.files
    ensures UploadStep(fs, digest, filename, content) == (fs, AlreadyExists(digest(content)))
    ensures StatusCode(AlreadyExists(digest(content))) == 200
  {
  }

  /** Uploading new content answers 201 with its key, makes sure the shard
      directory `key[0:2]` exists, stores exactly the uploaded bytes at
      `key[0:2]/key` and leaves every other file as it was. */
  lemma UploadOfNewContentStoresIt(fs: Fs, digest: Digest, filename: string, content: Bytes)
    requires AllowedFile(filename)
    requires Place(digest(content)) !in fs.files
    ensures var (fs', r) := UploadStep(fs, digest, filename, content);
            var key := digest(content);
            && r == Created(key) && StatusCode(r) == 201
            && fs'.dirs == fs.dirs + {key[..2]}
            && Location(key[..2], key) in fs'.files
            && fs'.files[Location(key[..2], key)] == content
            && fs'.files.Keys == fs.files.Keys + {Location(key[..2], key)}
            && forall l :: l in fs.files ==> fs'.files[l] == fs.files[l]
  {
  }

  /** Uploading the same content twice gives the same key both times; the
      second upload answers 200 and changes nothing, and the first answers
      201 exactly when the content was not stored before. */
  lemma UploadIsIdempotent(fs: Fs, digest: Digest, name1: string, name2: string, content: Bytes)
    requires AllowedFile(name1) && AllowedFile(name2)
    ensures var (fs1, r1) := UploadStep(fs, digest, name1, content);
            var (fs2, r2) := UploadStep(fs1, digest, name2, content);
            && r1.key == r2.key == digest(content)
            && r2 == AlreadyExists(digest(content)) && fs2 == fs1
            && (r1.Created? <==> Place(digest(content)) !in fs.files)
  {
  }

  /** A refused upload answers 400 and touches nothing. */
  lemma UploadRefusedChangesNothing(fs: Fs, digest: Digest, filename: string, content: Bytes)
    requires !AllowedFile(filename)
    ensures UploadStep(fs, digest, filename, content) == (fs, WrongExtension)
    ensures StatusCode(WrongExtension) == 400
  {
  }

  // ---------------------------------------------------------------------
  // Download

  /** Downloading what was just uploaded returns the uploaded bytes when the
      upload created the file; when the content was already stored it
      returns the stored bytes, which have the same key. */
  lemma DownloadAfterUpload(fs: Fs, digest: Digest, filename: string, content: Bytes)
    requires ContentAddressed(fs, digest)
    requires AllowedFile(filename)
    ensures var (fs', r) := UploadStep(fs, digest, filename, content);
            var got := DownloadStep(fs', r.key);
            && got.File? && StatusCode(got) == 200
            && digest(got.content) == digest(content)
            && (r.Created? ==> got.content == content)
  {
  }

  /** Downloading a name with no file answers 404. */
  lemma DownloadOfMissingBlob(fs: Fs, name: string)
    requires Place(name) !in fs.files
    ensures DownloadStep(fs, name) == NotFound && StatusCode(NotFound) == 404
  {
  }

  // ---------------------------------------------------------------------
  // Delete

  /** Deleting a stored blob answers 200 and removes that file and nothing
      else; its shard directory survives exactly when other files remain in
      it, and no other directory changes. */
  lemma DeleteOfStoredBlob(fs: Fs, name: string)
    requires WellFormed(fs)
    requires Place(name) in fs.files
    ensures var (fs', r) := DeleteStep(fs, name);
            var loc := Place(name);
            && r == Deleted && StatusCode(r) == 200
            && fs'.files.Keys == fs.files.Keys - {loc}
            && (forall l :: l in fs'.files ==> fs'.files[l] == fs.files[l])
            && (loc.shard in fs'.dirs <==> exists l :: l in fs'.files && l.shard == loc.shard)
            && fs'.dirs - {loc.shard} == fs.dirs - {loc.shard}
  {
  }

  /** Deleting a name with no file answers 404 and changes nothing. */
  lemma DeleteOfMissingBlob(fs: Fs, name: string)
    requires Place(name) !in fs.files
    ensures DeleteStep(fs, name) == (fs, NotFound) && StatusCode(NotFound) == 404
  {
  }

  /** After a delete, both a download and a second delete of the same name
      answer 404. */
  lemma DeleteThenGone(fs: Fs, name: string)
    ensures var (fs', r) := DeleteStep(fs, name);
            && DownloadStep(fs', name) == NotFound
            && DeleteStep(fs', name) == (fs', NotFound)
  {
  }

  /** A delete that answers 200 removed a file that was there. */
  lemma DeletedMeansRemoved(fs: Fs, name: string)
    requires DeleteStep(fs, name).1 == Deleted
    ensures Place(name) in fs.files && Place(name) !in DeleteStep(fs, name).0.files
  {
  }

  // ---------------------------------------------------------------------
  // Invariants

  /** Keys are where their content says: every stored file's name is the
      key of its bytes and its directory is the key's first two characters. */
  lemma StoredFilesAreSharded(fs: Fs, digest: Digest, l: Location)
    requires ContentAddressed(fs, digest)
    requires l in fs.files
    ensures IsKey(l.name) && l.name == digest(fs.files[l])
    ensures l.shard == l.name[..2]
  {
  }

  lemma UploadPreservesInvariants(fs: Fs, digest: Digest, filename: string, content: Bytes)
    requires WellFormed(fs) && ContentAddressed(fs, digest)
    ensures var fs' := UploadStep(fs, digest, filename, content).0;
            WellFormed(fs') && ContentAddressed(fs', digest) && (Tidy(fs) ==> Tidy(fs'))
  {
  }

  lemma DeletePreservesInvariants(fs: Fs, digest: Digest, name: string)
    requires WellFormed(fs) && ContentAddressed(fs, digest)
    ensures var fs' := DeleteStep(fs, name).0;
            WellFormed(fs') && ContentAddressed(fs', digest) && (Tidy(fs) ==> Tidy(fs'))
  {
  }

  // ---------------------------------------------------------------------
  // Delete as the handler is written

  /** `os.path.exists(file_path)` for the handler's path of `name`. For a
      key-shaped name this is the presence of the file; for the empty name
      the path is the store root itself, which always exists. */
  predicate PathExists(fs: Fs, name: string)
    ensures PathExists(fs, name) <==> name == [] || DownloadStep(fs, name).File?
  {
    name == [] || Place(name) in fs.files
  }

  /** For a sanitised name (no slash) under any root, the existence test
      passes exactly when the name's file path is the path of the empty name
      (the root directory) or a file is stored at the name's location. */
  lemma PathExistsOfFilePath(fs: Fs, root: string, name: string)
    requires '/' !in name
    ensures PathExists(fs, name) <==> FilePath(root, name) == FilePath(root, "") || Place(name) in fs.files
  {
    if name != [] {
      NameFilePath(root, name);
      assert |FilePath(root, "")| <= |root| + 1 < |FilePath(root, name)|;
    }
  }

  /** DELETE /name as written: the existence test accepts any path, the root
      directory included; removing a directory with `os.remove` raises an
      `OSError`, which the handler swallows before answering 200. */
  function DeleteAsWritten(fs: Fs, name: string): (res: (Fs, Response))
    ensures Place(name) in fs.files ==> res == DeleteStep(fs, name)
    ensures name != [] ==> res == DeleteStep(fs, name)
  {
    if !PathExists(fs, name) then (fs, NotFound)
    else if Place(name) !in fs.files then (fs, Deleted)
    else DeleteStep(fs, name)
  }

  /** The as-written handler answers 200 "deleted" to the empty name while
      removing nothing; the modelled handler answers 404 there. */
  lemma EmptyNameDeleteReportsSuccess(fs: Fs, digest: Digest)
    requires ContentAddressed(fs, digest)
    ensures DeleteAsWritten(fs, "") == (fs, Deleted)
    ensures DeleteStep(fs, "") == (fs, NotFound)
  {
  }

  // ---------------------------------------------------------------------
  // The store as the handlers drive it, one filesystem call at a time

  class Store {
    const digest: Digest
    var dirs: set<string>
    var files: map<Location, Bytes>

    function State(): Fs
      reads this
    {
      Fs(dirs, files)
    }

    predicate Valid()
      reads this
    {
      WellFormed(State()) && ContentAddressed(State(), digest)
    }

    /** A store over whatever the root already holds. */
    constructor (digest: Digest, existing: Fs)
      requires WellFormed(existing) && ContentAddressed(existing, digest)
      ensures Valid() && State() == existing
      ensures this.digest == digest
    {
      this.digest := digest;
      dirs := existing.dirs;
      files := existing.files;
    }

    /** `os.path.exists` of a file location. */
    predicate Exists(loc: Location)
      reads this
    {
      loc in files
    }

    /** `os.mkdir`, which the handler only calls on a missing directory. */
    method MakeDir(d: string)
      requires d !in dirs
      modifies this
      ensures dirs == old(dirs) + {d} && files == old(files)
    {
      dirs := dirs + {d};
    }

    /** `file.save`: writes (or overwrites) a file in an existing directory. */
    method Save(loc: Location, content: Bytes)
      requires loc.shard in dirs
      modifies this
      ensures files == old(files)[loc := content] && dirs == old(dirs)
    {
      files := files[loc := content];
    }

    /** `os.remove` of an existing file. */
    method RemoveFile(loc: Location)
      requires loc in files
      modifies this
      ensures files == old(files) - {loc} && dirs == old(dirs)
    {
      files := files - {loc};
    }

    /** `os.rmdir`: succeeds only on an existing, empty directory; `ok` is
        false where it would raise `OSError`. */
    method RemoveDir(d: string) returns (ok: bool)
      modifies this
      ensures ok == (d in old(dirs) && DirEmpty(old(files), d))
      ensures dirs == (if ok then old(dirs) - {d} else old(dirs)) && files == old(files)
    {
      ok := d in dirs && DirEmpty(files, d);
      if ok {
        dirs := dirs - {d};
      }
    }

    /** The upload handler. */
    method Upload(filename: string, content: Bytes) returns (r: Response)
      requires Valid()
      modifies this
      ensures Valid()
      ensures (State(), r) == UploadStep(old(State()), digest, filename, content)
    {
      UploadPreservesInvariants(State(), digest, filename, content);
      if !AllowedFile(filename) {
        return WrongExtension;
      }
      var key := digest(content);
      var loc := Place(key);
      if Exists(loc) {
        return AlreadyExists(key);
      }
      if loc.shard !in dirs {
        MakeDir(loc.shard);
      }
      assert dirs == old(dirs) + {loc.shard};
      Save(loc, content);
      r := Created(key);
    }

    /** The download handler: the stored bytes, or 404. */
    method Download(name: string) returns (r: Response)
      ensures r == DownloadStep(State(), name)
      ensures r.File? <==> Place(name) in files
      ensures r.File? ==> r.content == files[Place(name)]
    {
      var loc := Place(name);
      if Exists(loc) {
        r := File(files[loc]);
      } else {
        r := NotFound;
      }
    }

    /** The corrected delete handler: remove the file, then try to remove its
        shard directory and ignore a failure to do so. It answers 404 for the
        empty name, where app.py:119-129 answers 200 (see Findings in
        README.md). */
    method Delete(name: string) returns (r: Response)
      requires Valid()
      modifies this
      ensures Valid()
      ensures (State(), r) == DeleteStep(old(State()), name)
    {
      DeletePreservesInvariants(State(), digest, name);
      var loc := Place(name);
      if !Exists(loc) {
        return NotFound;
      }
      RemoveFile(loc);
      var removed := RemoveDir(loc.shard);
      r := Deleted;
    }
  }

  /** Uploading `already exists` twice to a fresh store: 201, then 200 with
      the same key. */
  method UploadTwiceFlow(digest: Digest) returns (codes: seq<int>, sameKey: bool)
    ensures codes == [201, 200] && sameKey
  {
    var content: Bytes := [97, 108, 114, 101, 97, 100, 121, 32, 101, 120, 105, 115, 116, 115];
    var store := new Store(digest, Fs({}, map[]));
    TxtAccepted("file");
    assert "file" + ".txt" == "file.txt";
    var r1 := store.Upload("file.txt", content);
    var r2 := store.Upload("file.txt", content);
    codes := [StatusCode(r1), StatusCode(r2)];
    sameKey := r1.key == r2.key;
  }

  /** Uploading `download test` to a fresh store and downloading its key:
      201, then 200 with exactly the uploaded bytes. */
  method DownloadFlow(digest: Digest) returns (codes: seq<int>, downloaded: Bytes)
    ensures codes == [201, 200]
    ensures downloaded == [100, 111, 119, 110, 108, 111, 97, 100, 32, 116, 101, 115, 116]
  {
    var content: Bytes := [100, 111, 119, 110, 108, 111, 97, 100, 32, 116, 101, 115, 116];
    var store := new Store(digest, Fs({}, map[]));
    TxtAccepted("download");
    assert "download" + ".txt" == "download.txt";
    var r1 := store.Upload("download.txt", content);
    var r2 := store.Download(r1.key);
    codes := [StatusCode(r1), StatusCode(r2)];
    downloaded := r2.content;
  }

  /** Uploading `delete test` to a fresh store, deleting its key twice and
      then downloading it: 201, 200, 404, 404. */
  method DeleteFlow(digest: Digest) returns (codes: seq<int>)
    ensures codes == [201, 200, 404, 404]
  {
    var content: Bytes := [100, 101, 108, 101, 116, 101, 32, 116, 101, 115, 116];
    var store := new Store(digest, Fs({}, map[]));
    TxtAccepted("delete");
    assert "delete" + ".txt" == "delete.txt";
    var r1 := store.Upload("delete.txt", content);
    var r2 := store.Delete(r1.key);
    var r3 := store.Delete(r1.key);
    var r4 := store.Download(r1.key);
    codes := [StatusCode(r1), StatusCode(r2), StatusCode(r3), StatusCode(r4)];
  }

  /** Uploading `test` under `test.error` answers 400 and leaves the store
      empty. */
  method WrongExtensionFlow(digest: Digest) returns (code: int, stored: nat)
    ensures code == 400 && stored == 0
  {
    var content: Bytes := [116, 101, 115, 116];
    var store := new Store(digest, Fs({}, map[]));
    UnknownExtensionRejected();
    var r := store.Upload("test.error", content);
    code := StatusCode(r);
    stored := |store.files|;
  }
}
