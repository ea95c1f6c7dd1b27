/** `MediaStorage`: the catalog of uploaded files. It keeps the ordered list
    of file URLs (`mediaURLs`) and, keyed by each URL's absolute string, one
    metadata record (`mediaMetadata`); every change is written through to
    UserDefaults under "savedMediaURLs" and "savedMediaMetadata". The
    main-queue hops of the original are applied synchronously, in program
    order. */
module Storage {
  import opened Wrappers
  import opened Hex
  import opened Paths
  import opened Catalog
  import opened Environment

  class MediaStorage {
    var mediaURLs: seq<Url>
    var mediaMetadata: MetadataMap
    const defaults: Defaults
    const fs: FileStore

    /** The stored copies in UserDefaults are exactly the catalog in memory. */
    predicate Persisted()
      reads this, defaults
    {
      && StoredList(defaults.values, UrlsKey) == Some(PersistedPaths(mediaURLs))
      && StoredMetadata(defaults.values) == Some(mediaMetadata)
    }

    /** `getFileHash(for:)`: the stored tag, '#' included, of a URL's entry. */
    function GetFileHash(u: Url): (r: Option<string>)
      reads this
      ensures r.Some? <==> AbsoluteString(u) in mediaMetadata
      ensures r.Some? ==> r.value == mediaMetadata[AbsoluteString(u)].hashTag
    {
      var key := AbsoluteString(u);
      if key in mediaMetadata then Some(mediaMetadata[key].hashTag) else None
    }

    /** `init()`: load the URL list, load the metadata, then drop the URLs
        whose file is gone and store the pruned list. */
    constructor (defaults: Defaults, fs: FileStore)
      modifies defaults
      ensures this.defaults == defaults && this.fs == fs
      ensures var loaded := match StoredList(old(defaults.values), UrlsKey)
                            case Some(paths) => LoadUrls(paths)
                            case None => [];
              mediaURLs == KeepExisting(loaded, fs.files.Keys)
      ensures mediaMetadata == match StoredMetadata(old(defaults.values))
                               case Some(table) => table
                               case None => map[]
      ensures defaults.values == old(defaults.values)[UrlsKey := TextList(PersistedPaths(mediaURLs))]
      ensures StoredMetadata(old(defaults.values)).Some? ==> Persisted()
    {
      this.defaults := defaults;
      this.fs := fs;
      mediaURLs := [];
      mediaMetadata := map[];
      new;
      LoadStoredMedia();
      LoadMetadata();
      ghost var stored := defaults.values;
      CleanInvalidFiles();
      ListWriteKeepsTable(stored, mediaURLs);
    }

    /** `loadStoredMedia()`: replace the list by the stored one, if any. */
    method LoadStoredMedia()
      modifies this`mediaURLs
      ensures mediaURLs == match StoredList(defaults.values, UrlsKey)
                           case Some(paths) => LoadUrls(paths)
                           case None => old(mediaURLs)
    {
      match StoredList(defaults.values, UrlsKey)
      case Some(paths) => mediaURLs := LoadUrls(paths);
      case None =>
    }

    /** `loadMetadata()`: replace the metadata by the stored table, if any. */
    method LoadMetadata()
      modifies this`mediaMetadata
      ensures mediaMetadata == match StoredMetadata(defaults.values)
                               case Some(table) => table
                               case None => old(mediaMetadata)
    {
      match StoredMetadata(defaults.values)
      case Some(table) => mediaMetadata := table;
      case None =>
    }

    /** `cleanInvalidFiles()`: keep the URLs whose file exists, in order, and
        store the list. The metadata is left as it is. */
    method CleanInvalidFiles()
      modifies this`mediaURLs, defaults
      ensures mediaURLs == KeepExisting(old(mediaURLs), fs.files.Keys)
      ensures forall u :: u in mediaURLs <==> u in old(mediaURLs) && fs.Exists(u.path)
      ensures defaults.values == old(defaults.values)[UrlsKey := TextList(PersistedPaths(mediaURLs))]
      ensures old(Covered(mediaURLs, mediaMetadata)) ==> Covered(mediaURLs, mediaMetadata)
      ensures old(Persisted()) ==> Persisted()
    {
      if Covered(mediaURLs, mediaMetadata) {
        KeepExistingKeepsCovered(mediaURLs, mediaMetadata, fs.files.Keys);
      }
      var kept := KeepExisting(mediaURLs, fs.files.Keys);
      assert forall u :: u in kept <==> u in mediaURLs && fs.Exists(u.path);
      mediaURLs := kept;
      PersistMediaURLs();
    }

    /** `persistMediaURLs()`. */
    method PersistMediaURLs()
      modifies defaults
      ensures defaults.values == old(defaults.values)[UrlsKey := TextList(PersistedPaths(mediaURLs))]
    {
      defaults.Set(UrlsKey, TextList(PersistedPaths(mediaURLs)));
    }

    /** `persistMetadata()`. */
    method PersistMetadata()
      modifies defaults
      ensures defaults.values == old(defaults.values)[MetadataKey := MetadataTable(mediaMetadata)]
    {
      defaults.Set(MetadataKey, MetadataTable(mediaMetadata));
    }

    /** `saveFile(data:fileName:uploadedBy:)`: write the bytes to
        `<documents>/<fileName>`; only if that succeeds, append the URL, record
        its metadata with the content hash, and store both. */
    method SaveFile(data: Bytes, fileName: string, uploadedBy: string,
                    sha: Bytes -> Digest, date: string, fault: bool)
      modifies this, defaults, fs
      ensures fs.documentDirectory.None? || fault ==>
        && mediaURLs == old(mediaURLs) && mediaMetadata == old(mediaMetadata)
        && defaults.values == old(defaults.values) && fs.files == old(fs.files)
      ensures fs.documentDirectory.Some? && !fault ==>
        var u := AppendingPathComponent(fs.documentDirectory.value, fileName);
        && fs.files == old(fs.files)[u.path := data]
        && mediaURLs == old(mediaURLs) + [u]
        && mediaMetadata == old(mediaMetadata)[AbsoluteString(u) :=
             MakeMetadata(u, |data|, date, FileHash(sha, data), uploadedBy)]
        && GetFileHash(u) == Some("#" + FileHash(sha, data))
        && defaults.values == old(defaults.values)[UrlsKey := TextList(PersistedPaths(mediaURLs))][MetadataKey := MetadataTable(mediaMetadata)]
        && Persisted()
      ensures old(Covered(mediaURLs, mediaMetadata)) ==> Covered(mediaURLs, mediaMetadata)
    {
      if fs.documentDirectory.None? {
        return;
      }
      var u := AppendingPathComponent(fs.documentDirectory.value, fileName);
      var ok := fs.Write(u.path, data, fault);
      if ok {
        var fileHash := FileHash(sha, data);
        AppendEntry(u, fileHash, uploadedBy, date);
      }
    }

    /** The main-queue block of a successful save: append the URL and store
        the list. The block that `saveMetadata` queues runs after it, so the
        record is made and the table stored last. */
    method AppendEntry(u: Url, fileHash: string, uploadedBy: string, date: string)
      modifies this, defaults
      ensures mediaURLs == old(mediaURLs) + [u]
      ensures mediaMetadata == old(mediaMetadata)[AbsoluteString(u) :=
                MakeMetadata(u, fs.SizeOf(u.path), date, fileHash, uploadedBy)]
      ensures GetFileHash(u) == Some("#" + fileHash)
      ensures defaults.values == old(defaults.values)[UrlsKey := TextList(PersistedPaths(mediaURLs))][MetadataKey := MetadataTable(mediaMetadata)]
      ensures Persisted()
      ensures old(Covered(mediaURLs, mediaMetadata)) ==> Covered(mediaURLs, mediaMetadata)
    {
      if Covered(mediaURLs, mediaMetadata) {
        SaveKeepsCovered(mediaURLs, mediaMetadata, u,
                         MakeMetadata(u, fs.SizeOf(u.path), date, fileHash, uploadedBy));
      }
      ghost var before := defaults.values;
      mediaURLs := mediaURLs + [u];
      PersistMediaURLs();
      SaveMetadata(u, fileHash, uploadedBy, date);
      StoredAfterWrites(before, mediaURLs, mediaMetadata);
    }

    /** `saveMetadata(for:hashTag:uploadedBy:)`: record the file's name, its
        current size, the date text, `"#" + hashTag` and the uploader under the
        URL's key, and store the table. The size is read when it is called; the
        record and the store are its queued main-queue block, run here at once. */
    method SaveMetadata(u: Url, hashTag: string, uploadedBy: string, date: string)
      modifies this`mediaMetadata, defaults
      ensures mediaMetadata == old(mediaMetadata)[AbsoluteString(u) :=
        MakeMetadata(u, fs.SizeOf(u.path), date, hashTag, uploadedBy)]
      ensures defaults.values == old(defaults.values)[MetadataKey := MetadataTable(mediaMetadata)]
    {
      mediaMetadata := mediaMetadata[AbsoluteString(u) :=
        MakeMetadata(u, fs.SizeOf(u.path), date, hashTag, uploadedBy)];
      PersistMetadata();
    }

    /** `updateFileHash(for:newHash:)`: retag an existing entry; an absent key
        is left absent. The table is stored either way. */
    method UpdateFileHash(u: Url, newHash: string)
      modifies this`mediaMetadata, defaults
      ensures mediaMetadata == WithHashTag(old(mediaMetadata), AbsoluteString(u), newHash)
      ensures GetFileHash(u) == if old(GetFileHash(u)).Some? then Some("#" + newHash) else None
      ensures defaults.values == old(defaults.values)[MetadataKey := MetadataTable(mediaMetadata)]
      ensures old(Persisted()) ==> Persisted()
    {
      mediaMetadata := WithHashTag(mediaMetadata, AbsoluteString(u), newHash);
      PersistMetadata();
    }

    /** `deleteFile(at:)`: an index outside the list changes nothing;
        otherwise remove the file, and only if that succeeds drop position
        `index` and its metadata key, and store both. */
    method DeleteFile(index: int, fault: bool)
      modifies this, defaults, fs
      ensures !(0 <= index < |old(mediaURLs)|) ==>
        && mediaURLs == old(mediaURLs) && mediaMetadata == old(mediaMetadata)
        && defaults.values == old(defaults.values) && fs.files == old(fs.files)
      ensures 0 <= index < |old(mediaURLs)| ==>
        var u := old(mediaURLs)[index];
        var ok := u.path in old(fs.files) && !fault;
        && fs.files == (if ok then old(fs.files) - {u.path} else old(fs.files))
        && mediaURLs == (if ok then RemoveAt(old(mediaURLs), index) else old(mediaURLs))
        && mediaMetadata == (if ok then old(mediaMetadata) - {AbsoluteString(u)} else old(mediaMetadata))
        && (ok ==> defaults.values == old(defaults.values)[UrlsKey := TextList(PersistedPaths(mediaURLs))][MetadataKey := MetadataTable(mediaMetadata)])
        && (ok ==> Persisted())
        && (!ok ==> defaults.values == old(defaults.values))
        && (old(Covered(mediaURLs, mediaMetadata)) && OccursOnce(old(mediaURLs), index) ==>
              Covered(mediaURLs, mediaMetadata))
    {
      if !(0 <= index < |mediaURLs|) {
        return;
      }
      var u := mediaURLs[index];
      var ok := fs.Remove(u.path, fault);
      if ok {
        RemoveEntry(index);
      }
    }

    /** The in-memory half of a successful delete: drop position `index` and
        its URL's metadata key, and store both. */
    method RemoveEntry(index: nat)
      requires index < |mediaURLs|
      modifies this, defaults
      ensures mediaURLs == RemoveAt(old(mediaURLs), index)
      ensures mediaMetadata == old(mediaMetadata) - {AbsoluteString(old(mediaURLs)[index])}
      ensures defaults.values == old(defaults.values)[UrlsKey := TextList(PersistedPaths(mediaURLs))][MetadataKey := MetadataTable(mediaMetadata)]
      ensures Persisted()
      ensures old(Covered(mediaURLs, mediaMetadata)) && OccursOnce(old(mediaURLs), index) ==>
                Covered(mediaURLs, mediaMetadata)
    {
      var u := mediaURLs[index];
      if Covered(mediaURLs, mediaMetadata) && OccursOnce(mediaURLs, index) {
        DeleteKeepsCovered(mediaURLs, mediaMetadata, index);
      }
      ghost var before := defaults.values;
      mediaURLs := RemoveAt(mediaURLs, index);
      mediaMetadata := mediaMetadata - {AbsoluteString(u)};
      PersistMediaURLs();
      PersistMetadata();
      StoredAfterWrites(before, mediaURLs, mediaMetadata);
    }

    /** `renameFile(at:newName:)`: an index outside the list changes nothing;
        otherwise the rename proper, `RenameAt`. */
    method RenameFile(index: int, newName: string, date: string, fault: bool)
      modifies this, defaults, fs
      ensures !(0 <= index < |old(mediaURLs)|) ==>
        && mediaURLs == old(mediaURLs) && mediaMetadata == old(mediaMetadata)
        && defaults.values == old(defaults.values) && fs.files == old(fs.files)
      ensures 0 <= index < |old(mediaURLs)| ==>
        var from := old(mediaURLs)[index];
        var to := RenamedUrl(from, newName);
        var ok := from.path in old(fs.files) && to.path !in old(fs.files) && !fault;
        && (!ok ==> mediaURLs == old(mediaURLs) && mediaMetadata == old(mediaMetadata)
                    && defaults.values == old(defaults.values) && fs.files == old(fs.files))
        && (ok ==> fs.files == (old(fs.files) - {from.path})[to.path := old(fs.files)[from.path]])
        && (ok ==> mediaURLs == old(mediaURLs)[index := to])
        && (ok ==> mediaMetadata == (old(mediaMetadata) - {AbsoluteString(from)})[AbsoluteString(to) :=
                     MakeMetadata(to, |old(fs.files)[from.path]|, date, "", "")])
        && (ok ==> defaults.values == old(defaults.values)[UrlsKey := TextList(PersistedPaths(mediaURLs))][MetadataKey := MetadataTable(mediaMetadata)])
        && (ok ==> GetFileHash(to) == Some("#") && Persisted())
        && (ok && old(Covered(mediaURLs, mediaMetadata)) && OccursOnce(old(mediaURLs), index) ==>
              Covered(mediaURLs, mediaMetadata))
    {
      if !(0 <= index < |mediaURLs|) {
        return;
      }
      RenameAt(index, newName, date, fault);
    }

    /** The body of `renameFile` past its bounds guard: move the file to
        `RenamedUrl`, and only if that succeeds put the new URL at `index`,
        drop the old key and record fresh metadata under the new key, with an
        empty hash ("#") and an empty uploader. */
    method RenameAt(index: nat, newName: string, date: string, fault: bool)
      requires index < |mediaURLs|
      modifies this, defaults, fs
      ensures
        var from := old(mediaURLs)[index];
        var to := RenamedUrl(from, newName);
        var ok := from.path in old(fs.files) && to.path !in old(fs.files) && !fault;
        && (!ok ==> mediaURLs == old(mediaURLs) && mediaMetadata == old(mediaMetadata)
                    && defaults.values == old(defaults.values) && fs.files == old(fs.files))
        && (ok ==> fs.files == (old(fs.files) - {from.path})[to.path := old(fs.files)[from.path]])
        && (ok ==> mediaURLs == old(mediaURLs)[index := to])
        && (ok ==> mediaMetadata == (old(mediaMetadata) - {AbsoluteString(from)})[AbsoluteString(to) :=
                     MakeMetadata(to, |old(fs.files)[from.path]|, date, "", "")])
        && (ok ==> defaults.values == old(defaults.values)[UrlsKey := TextList(PersistedPaths(mediaURLs))][MetadataKey := MetadataTable(mediaMetadata)])
        && (ok ==> GetFileHash(to) == Some("#") && Persisted())
        && (ok && old(Covered(mediaURLs, mediaMetadata)) && OccursOnce(old(mediaURLs), index) ==>
              Covered(mediaURLs, mediaMetadata))
    {
      var from := mediaURLs[index];
      var to := RenamedUrl(from, newName);
      var ok := fs.Move(from.path, to.path, fault);
      if ok {
        ReplaceEntry(index, to, date);
      }
    }

    /** The main-queue block of a successful rename: the new URL takes
        position `index`, the old key is dropped, and the list is stored. The
        block that `saveMetadata` queues runs after it: fresh metadata with an
        empty hash and uploader is recorded under the new key and the table
        stored last. */
    method ReplaceEntry(index: nat, to: Url, date: string)
      requires index < |mediaURLs|
      modifies this, defaults
      ensures mediaURLs == old(mediaURLs)[index := to]
      ensures mediaMetadata == (old(mediaMetadata) - {AbsoluteString(old(mediaURLs)[index])})[AbsoluteString(to) :=
                MakeMetadata(to, fs.SizeOf(to.path), date, "", "")]
      ensures defaults.values == old(defaults.values)[UrlsKey := TextList(PersistedPaths(mediaURLs))][MetadataKey := MetadataTable(mediaMetadata)]
      ensures GetFileHash(to) == Some("#") && Persisted()
      ensures old(Covered(mediaURLs, mediaMetadata)) && OccursOnce(old(mediaURLs), index) ==>
                Covered(mediaURLs, mediaMetadata)
    {
      var from := mediaURLs[index];
      var meta := MakeMetadata(to, fs.SizeOf(to.path), date, "", "");
      if Covered(mediaURLs, mediaMetadata) && OccursOnce(mediaURLs, index) {
        RenameKeepsCovered(mediaURLs, mediaMetadata, index, to, meta);
      }
      ghost var before := defaults.values;
      mediaURLs := mediaURLs[index := to];
      mediaMetadata := mediaMetadata - {AbsoluteString(from)};
      PersistMediaURLs();
      SaveMetadata(to, "", "", date);
      StoredAfterWrites(before, mediaURLs, mediaMetadata);
      assert "#" + "" == "#";
    }
  }
}
